/**
 * Changing one node in place: saveItem (sidepanel.js lines 428-448) retitles the node
 * findNode returns; moveNode's `inside` drop (lines 182-187) appends to its children and
 * opens it. The node findNode returns is an object of the tree, so its update is seen in
 * the tree; here that is the update of the first node carrying the id, in findNode's order.
 */
module Edits {
  import opened Wrappers
  import opened Forest
  import opened Lookup

  /** What is done to the node found. */
  datatype Change =
    | Retitle(title: string, content: Option<string>)
    | Adopt(child: Node)

  /**
   * The change on one node: a retitle sets the title, and the content of a prompt when one
   * is given; adopting appends to a folder's children and opens it, and does nothing to a
   * prompt (`targetNode.children` is missing).
   */
  function Apply(n: Node, c: Change): (r: Node)
    ensures r.id == n.id && (r.Folder? <==> n.Folder?)
    ensures c.Retitle? ==> r.title == c.title
    ensures c.Retitle? && n.Prompt? ==> r.content == (if c.content.Some? then c.content.value else n.content)
    ensures c.Retitle? && n.Folder? ==> r.isOpen == n.isOpen && r.children == n.children
    ensures c.Adopt? && n.Folder? ==> r.isOpen && r.children == n.children + [c.child]
    ensures c.Adopt? && n.Prompt? ==> r == n
  {
    match c
    case Retitle(t, oc) =>
      (match n
       case Folder(_, _, _, _) => n.(title := t)
       case Prompt(_, _, content) => n.(title := t, content := if oc.Some? then oc.value else content))
    case Adopt(x) =>
      (match n
       case Folder(_, _, _, ch) => n.(children := ch + [x], isOpen := true)
       case Prompt(_, _, _) => n)
  }

  /** The forest with the change applied to the node findNode returns for `id`. */
  function Edit(ns: seq<Node>, id: string, c: Change): seq<Node>
    decreases ns
  {
    if ns == [] then []
    else if FindIn(ns[0], id).Some? then [EditIn(ns[0], id, c)] + ns[1..]
    else [ns[0]] + Edit(ns[1..], id, c)
  }

  function EditIn(n: Node, id: string, c: Change): Node
    decreases n
  {
    if n.id == id then Apply(n, c)
    else
      match n
      case Folder(i, t, o, ch) => Folder(i, t, o, Edit(ch, id, c))
      case Prompt(_, _, _) => n
  }

  /** Without a node carrying `id` nothing changes. */
  lemma {:induction false} EditMissing(ns: seq<Node>, id: string, c: Change)
    requires Find(ns, id).None?
    ensures Edit(ns, id, c) == ns
    decreases ns
  {
    if ns != [] {
      EditMissing(ns[1..], id, c);
    }
  }

  /** A change that leaves the found node as it is leaves the whole forest as it is. */
  lemma {:induction false} EditUnchanged(ns: seq<Node>, id: string, c: Change, n: Node)
    requires Find(ns, id) == Some(n) && Apply(n, c) == n
    ensures Edit(ns, id, c) == ns
    decreases ns
  {
    if FindIn(ns[0], id).Some? {
      EditInUnchanged(ns[0], id, c, n);
    } else {
      EditUnchanged(ns[1..], id, c, n);
    }
    assert ns == [ns[0]] + ns[1..];
  }

  lemma {:induction false} EditInUnchanged(m: Node, id: string, c: Change, n: Node)
    requires FindIn(m, id) == Some(n) && Apply(n, c) == n
    ensures EditIn(m, id, c) == m
    decreases m
  {
    if m.id != id {
      EditUnchanged(m.children, id, c, n);
    }
  }

  /**
   * Editing replaces exactly the found node's block in the flattening by the block of the
   * changed node, at the first occurrence of `id`, at the same depth; every other entry
   * stays as it is.
   */
  lemma EditFlat(ns: seq<Node>, id: string, c: Change, d: nat, n: Node) returns (k: nat, dk: nat)
    requires Find(ns, id) == Some(n)
    ensures k == FirstOccurrence(Flat(ns, d), id) && k < |Flat(ns, d)| && dk == Flat(ns, d)[k].depth
    ensures k + |Block(n, dk)| <= |Flat(ns, d)|
    ensures Flat(Edit(ns, id, c), d) == Replaced(Flat(ns, d), k, |Block(n, dk)|, Block(Apply(n, c), dk))
  {
    EditFlatAt(ns, id, c, d, n);
    k := FirstOccurrence(Flat(ns, d), id);
    dk := Flat(ns, d)[k].depth;
  }

  /**
   * `P` is `F` with the block of `n` at the first occurrence of `id` replaced by the block
   * of the changed node, at the same depth.
   */
  ghost predicate EditedAt(F: seq<Entry>, P: seq<Entry>, id: string, n: Node, c: Change) {
    ReplacedBy(F, P, FirstOccurrence(F, id), n, c)
  }

  /** `P` is `F` with the block of `n` at `k` replaced by the block of the changed node. */
  ghost predicate ReplacedBy(F: seq<Entry>, P: seq<Entry>, k: nat, n: Node, c: Change) {
    k < |F| && k + |Block(n, F[k].depth)| <= |F| &&
    P == Replaced(F, k, |Block(n, F[k].depth)|, Block(Apply(n, c), F[k].depth))
  }

  lemma ReplacedByLeft(a: seq<Entry>, b: seq<Entry>, p: seq<Entry>, k: nat, n: Node, c: Change)
    requires ReplacedBy(a, p, k, n, c)
    ensures ReplacedBy(a + b, p + b, k, n, c)
  {
    assert (a + b)[k] == a[k];
    var dk := a[k].depth;
    ReplacedLeft(p + b, a, k, |Block(n, dk)|, Block(Apply(n, c), dk), b, a + b);
  }

  lemma ReplacedByRight(a: seq<Entry>, b: seq<Entry>, p: seq<Entry>, k: nat, n: Node, c: Change, j: nat)
    requires ReplacedBy(b, p, k, n, c) && j == |a| + k
    ensures ReplacedBy(a + b, a + p, j, n, c)
  {
    assert (a + b)[j] == b[k];
    var dk := b[k].depth;
    ReplacedRight(a + p, a, b, k, |Block(n, dk)|, Block(Apply(n, c), dk), a + b);
  }

  lemma EditedLeft(a: seq<Entry>, b: seq<Entry>, p: seq<Entry>, id: string, n: Node, c: Change)
    requires EditedAt(a, p, id, n, c)
    ensures EditedAt(a + b, p + b, id, n, c)
  {
    FirstOccurrenceConcat(a, b, id);
    ReplacedByLeft(a, b, p, FirstOccurrence(a, id), n, c);
  }

  lemma EditedRight(a: seq<Entry>, b: seq<Entry>, p: seq<Entry>, id: string, n: Node, c: Change)
    requires FirstOccurrence(a, id) == |a| && EditedAt(b, p, id, n, c)
    ensures EditedAt(a + b, a + p, id, n, c)
  {
    FirstOccurrenceConcat(a, b, id);
    ReplacedByRight(a, b, p, FirstOccurrence(b, id), n, c, FirstOccurrence(a + b, id));
  }

  lemma {:induction false} EditFlatAt(ns: seq<Node>, id: string, c: Change, d: nat, n: Node)
    requires Find(ns, id) == Some(n)
    ensures EditedAt(Flat(ns, d), Flat(Edit(ns, id, c), d), id, n, c)
    decreases ns
  {
    var B := Block(ns[0], d);
    var T := Flat(ns[1..], d);
    assert Flat(ns, d) == B + T;
    if FindIn(ns[0], id).Some? {
      EditInBlock(ns[0], id, c, d, n);
      FlatCons(EditIn(ns[0], id, c), ns[1..], d);
      EditedLeft(B, T, Block(EditIn(ns[0], id, c), d), id, n, c);
    } else {
      EditFlatAt(ns[1..], id, c, d, n);
      FindInBlock(ns[0], id, d);
      FlatCons(ns[0], Edit(ns[1..], id, c), d);
      EditedRight(B, T, Flat(Edit(ns[1..], id, c), d), id, n, c);
    }
  }

  /** EditFlatAt within one node's block. */
  lemma {:induction false} EditInBlock(m: Node, id: string, c: Change, d: nat, n: Node)
    requires FindIn(m, id) == Some(n)
    ensures EditedAt(Block(m, d), Block(EditIn(m, id, c), d), id, n, c)
    decreases m
  {
    var B := Block(m, d);
    var e := Entry(Strip(m), d);
    if m.id == id {
      assert B[0] == e;
      assert Replaced(B, 0, |B|, Block(Apply(m, c), d)) == Block(Apply(m, c), d) by {
        assert B[|B|..] == [] && B[..0] == [];
      }
    } else {
      var C := Flat(m.children, d + 1);
      assert B == [e] + C;
      assert FirstOccurrence([e], id) == 1;
      EditFlatAt(m.children, id, c, d + 1, n);
      var m' := EditIn(m, id, c);
      assert m' == m.(children := Edit(m.children, id, c));
      assert Block(m', d) == [e] + Flat(Edit(m.children, id, c), d + 1);
      EditedRight([e], C, Flat(Edit(m.children, id, c), d + 1), id, n, c);
    }
  }

  /** A retitle changes the node's own entry and nothing else of its block. */
  lemma RetitleBlock(n: Node, t: string, oc: Option<string>, d: nat)
    ensures Block(Apply(n, Retitle(t, oc)), d) == Block(n, d)[0 := Entry(Strip(Apply(n, Retitle(t, oc))), d)]
  {
  }

  /**
   * Adopting into a folder opens the folder's entry and puts the child's block, one level
   * deeper, right after the folder's last descendant.
   */
  lemma AdoptBlock(n: Node, x: Node, d: nat)
    requires n.Folder?
    ensures Block(Apply(n, Adopt(x)), d)
            == [Entry(Folder(n.id, n.title, true, []), d)] + Block(n, d)[1..] + Block(x, d + 1)
  {
    var n' := Apply(n, Adopt(x));
    var C := Flat(n.children, d + 1);
    assert Block(n, d)[1..] == C;
    assert Flat(n'.children, d + 1) == C + Block(x, d + 1) by {
      FlatConcat(n.children, [x], d + 1);
      FlatSingle(x, d + 1);
    }
    assert Strip(n') == Folder(n.id, n.title, true, []);
  }

  /** The two kinds of item the modal creates. */
  datatype Kind = FolderKind | PromptKind

  /** A new item with the given id: folders start open and empty. */
  function NewItem(id: string, kind: Kind, title: string, content: string): (n: Node)
    ensures n.id == id && n.title == title && Strip(n) == n
    ensures n.Folder? <==> kind == FolderKind
  {
    match kind
    case FolderKind => Folder(id, title, true, [])
    case PromptKind => Prompt(id, title, content)
  }

  /**
   * saveItem: with a (non-empty) id being edited, retitle that node, and set its content
   * when the modal was a prompt's; otherwise append a new item at the root.
   */
  function Save(ns: seq<Node>, editing: Option<string>, title: string, content: string,
                kind: Kind, freshId: string): seq<Node>
  {
    if editing.Some? && editing.value != "" then
      Edit(ns, editing.value, Retitle(title, if kind == PromptKind then Some(content) else None))
    else ns + [NewItem(freshId, kind, title, content)]
  }

  /** Saving an edit of an id that is not in the tree changes nothing. */
  lemma SaveEditMissing(ns: seq<Node>, id: string, title: string, content: string, kind: Kind, freshId: string)
    requires id != "" && id !in Ids(ns)
    ensures Save(ns, Some(id), title, content, kind, freshId) == ns
  {
    FindNone(ns, id);
    EditMissing(ns, id, Retitle(title, if kind == PromptKind then Some(content) else None));
  }

  /**
   * Saving an edit changes one entry of the flattening, the edited node's, and there only
   * the title (and, for a prompt, the content); the node keeps its id, kind, depth,
   * children and open state.
   */
  lemma SaveEditFlat(ns: seq<Node>, id: string, title: string, content: string, kind: Kind,
                     freshId: string, n: Node) returns (k: nat)
    requires id != "" && Find(ns, id) == Some(n)
    ensures k == FirstOccurrence(Flat(ns, 0), id) && k < |Flat(ns, 0)|
    ensures Flat(Save(ns, Some(id), title, content, kind, freshId), 0)
            == Flat(ns, 0)[k := Entry(Strip(Apply(n, Retitle(title, if kind == PromptKind then Some(content) else None))), Flat(ns, 0)[k].depth)]
  {
    var F := Flat(ns, 0);
    var c := Retitle(title, if kind == PromptKind then Some(content) else None);
    assert Save(ns, Some(id), title, content, kind, freshId) == Edit(ns, id, c);
    EditFlatAt(ns, id, c, 0, n);
    FindFlat(ns, id, 0);
    k := FirstOccurrence(F, id);
    RetitledAt(F, Flat(Edit(ns, id, c), 0), k, n, title, c.content);
  }

  /** ReplacedBy for a retitle: one entry changes. */
  lemma RetitledAt(F: seq<Entry>, P: seq<Entry>, k: nat, n: Node, t: string, oc: Option<string>)
    requires BlockAt(F, k, n) && ReplacedBy(F, P, k, n, Retitle(t, oc))
    ensures P == F[k := Entry(Strip(Apply(n, Retitle(t, oc))), F[k].depth)]
  {
    var dk := F[k].depth;
    RetitleBlock(n, t, oc, dk);
    ReplacedUpdate(F, k, Block(n, dk), Entry(Strip(Apply(n, Retitle(t, oc))), dk));
  }

  /** Saving a new item appends its single entry at the root, after everything else. */
  lemma SaveNewFlat(ns: seq<Node>, editing: Option<string>, title: string, content: string,
                    kind: Kind, freshId: string)
    requires editing.None? || editing.value == ""
    ensures Flat(Save(ns, editing, title, content, kind, freshId), 0)
            == Flat(ns, 0) + [Entry(NewItem(freshId, kind, title, content), 0)]
  {
    var x := NewItem(freshId, kind, title, content);
    FlatConcat(ns, [x], 0);
    FlatSingle(x, 0);
  }
}
