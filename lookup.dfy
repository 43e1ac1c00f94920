/**
 * Searching the tree: `findIndex` on one level, findNode (sidepanel.js lines 464-473) and
 * findParent (lines 202-211).
 */
module Lookup {
  import opened Wrappers
  import opened Forest

  /** `nodes.findIndex(n => n.id === id)` on one level, with -1 read as the length. */
  function LevelIndex(l: seq<Node>, id: string): (i: nat)
    ensures i <= |l|
    ensures i < |l| ==> l[i].id == id
    ensures forall j :: 0 <= j < i ==> l[j].id != id
  {
    if l == [] then 0
    else if l[0].id == id then 0
    else 1 + LevelIndex(l[1..], id)
  }

  /** findNode: the first node carrying `id` in a depth-first, parent-before-children walk. */
  function Find(ns: seq<Node>, id: string): (r: Option<Node>)
    ensures r.Some? ==> r.value.id == id
    decreases ns
  {
    if ns == [] then None
    else
      match FindIn(ns[0], id)
      case Some(x) => Some(x)
      case None => Find(ns[1..], id)
  }

  /** The same walk within one node: the node itself, then its children. */
  function FindIn(n: Node, id: string): (r: Option<Node>)
    ensures r.Some? ==> r.value.id == id
    decreases n
  {
    if n.id == id then Some(n)
    else
      match n
      case Folder(_, _, _, c) => Find(c, id)
      case Prompt(_, _, _) => None
  }

  /**
   * findNode finds the first entry of the flattening carrying `id`, and the node found is
   * the whole subtree that starts there; it finds nothing exactly when no entry carries `id`.
   */
  lemma FindFlat(ns: seq<Node>, id: string, d: nat)
    ensures var F := Flat(ns, d);
      (Find(ns, id).None? <==> FirstOccurrence(F, id) == |F|) &&
      (Find(ns, id).Some? ==> BlockAt(F, FirstOccurrence(F, id), Find(ns, id).value))
  {
    FindFlatAt(ns, id, d);
  }

  /** `r` is what a search for `id` should find in the flattening `F`. */
  ghost predicate FoundAt(F: seq<Entry>, id: string, r: Option<Node>) {
    (r.None? <==> FirstOccurrence(F, id) == |F|) &&
    (r.Some? ==> BlockAt(F, FirstOccurrence(F, id), r.value))
  }

  lemma FoundLeft(a: seq<Entry>, b: seq<Entry>, id: string, x: Node)
    requires FoundAt(a, id, Some(x))
    ensures FoundAt(a + b, id, Some(x))
  {
    FirstOccurrenceConcat(a, b, id);
    BlockAtLeft(a, b, FirstOccurrence(a, id), x);
  }

  lemma FoundRight(a: seq<Entry>, b: seq<Entry>, id: string, r: Option<Node>)
    requires FoundAt(a, id, None) && FoundAt(b, id, r)
    ensures FoundAt(a + b, id, r)
  {
    FirstOccurrenceConcat(a, b, id);
    if r.Some? {
      BlockAtRight(a, b, FirstOccurrence(b, id), r.value);
    }
  }

  lemma {:induction false} FindFlatAt(ns: seq<Node>, id: string, d: nat)
    ensures FoundAt(Flat(ns, d), id, Find(ns, id))
    decreases ns
  {
    if ns != [] {
      var B := Block(ns[0], d);
      var R := Flat(ns[1..], d);
      assert Flat(ns, d) == B + R;
      FindInBlock(ns[0], id, d);
      match FindIn(ns[0], id)
      case Some(x) =>
        FoundLeft(B, R, id, x);
      case None =>
        FindFlatAt(ns[1..], id, d);
        FoundRight(B, R, id, Find(ns[1..], id));
    }
  }

  /** FindFlat for the walk within one node's block. */
  lemma {:induction false} FindInBlock(n: Node, id: string, d: nat)
    ensures FoundAt(Block(n, d), id, FindIn(n, id))
    decreases n
  {
    var B := Block(n, d);
    var e := Entry(Strip(n), d);
    if n.id == id {
      BlockAtStart(n, d);
    } else {
      assert FoundAt([e], id, None) by {
        assert FirstOccurrence([e], id) == 1;
      }
      match n
      case Folder(_, _, _, c) =>
        var C := Flat(c, d + 1);
        assert B == [e] + C;
        FindFlatAt(c, id, d + 1);
        FoundRight([e], C, id, Find(c, id));
      case Prompt(_, _, _) =>
        assert B == [e];
    }
  }

  /** findNode finds nothing exactly when the id does not occur in the tree. */
  lemma FindNone(ns: seq<Node>, id: string)
    ensures Find(ns, id).None? <==> id !in Ids(ns)
  {
    var F := Flat(ns, 0);
    FindFlat(ns, id, 0);
    var k := FirstOccurrence(F, id);
    if k < |F| {
      assert Ids(ns)[k] == id;
    } else {
      forall j | 0 <= j < |F| ensures Ids(ns)[j] != id {
      }
    }
  }

  /**
   * findParent: the first folder, in the same walk, having a direct child that carries
   * `id`; a folder's children are checked before its descendants are searched.
   */
  function FindParent(ns: seq<Node>, id: string): (r: Option<Node>)
    ensures r.Some? ==> r.value.Folder? && LevelIndex(r.value.children, id) < |r.value.children|
    decreases ns
  {
    if ns == [] then None
    else
      match ParentIn(ns[0], id)
      case Some(p) => Some(p)
      case None => FindParent(ns[1..], id)
  }

  /** The same search within one node: a prompt has no children to look at. */
  function ParentIn(n: Node, id: string): (r: Option<Node>)
    ensures r.Some? ==> r.value.Folder? && LevelIndex(r.value.children, id) < |r.value.children|
    decreases n
  {
    match n
    case Prompt(_, _, _) => None
    case Folder(_, _, _, c) =>
      if LevelIndex(c, id) < |c| then Some(n) else FindParent(c, id)
  }

  /** The entries at the roots' depth are the roots themselves. */
  lemma {:induction false} FlatRoots(ns: seq<Node>, d: nat)
    ensures forall k :: 0 <= k < |Flat(ns, d)| && Flat(ns, d)[k].depth == d ==>
      LevelIndex(ns, Flat(ns, d)[k].node.id) < |ns|
    decreases ns
  {
    if ns != [] {
      var B := Block(ns[0], d);
      var R := Flat(ns[1..], d);
      var F := Flat(ns, d);
      assert F == B + R;
      BlockDepths(ns[0], d);
      FlatRoots(ns[1..], d);
      forall k | 0 <= k < |F| && F[k].depth == d
        ensures LevelIndex(ns, F[k].node.id) < |ns|
      {
        if k >= |B| {
          assert F[k] == R[k - |B|];
          var id := R[k - |B|].node.id;
          assert LevelIndex(ns[1..], id) < |ns[1..]|;
          assert ns[1..][LevelIndex(ns[1..], id)] == ns[1 + LevelIndex(ns[1..], id)];
        } else {
          assert k == 0;
        }
      }
    }
  }

  /** The block of the `i`-th root begins right after the blocks of the roots before it. */
  lemma RootBlock(ns: seq<Node>, i: nat, d: nat)
    requires i < |ns|
    ensures |Flat(ns[..i], d)| < |Flat(ns, d)|
    ensures Flat(ns, d)[|Flat(ns[..i], d)|] == Entry(Strip(ns[i]), d)
  {
    assert ns == ns[..i] + ns[i..];
    FlatConcat(ns[..i], ns[i..], d);
    assert Flat(ns[i..], d) == Block(ns[i], d) + Flat(ns[i + 1..], d) by {
      assert ns[i..][0] == ns[i] && ns[i..][1..] == ns[i + 1..];
    }
  }

  /**
   * findParent finds nothing exactly when every occurrence of `id` is at the roots' depth:
   * for a root-level id or a missing one.
   */
  lemma {:induction false} FindParentNone(ns: seq<Node>, id: string, d: nat)
    ensures FindParent(ns, id).None? <==> OnlyAtDepth(Flat(ns, d), id, d)
    decreases ns
  {
    if ns != [] {
      var B := Block(ns[0], d);
      var R := Flat(ns[1..], d);
      assert Flat(ns, d) == B + R;
      OnlyAtDepthConcat(B, R, id, d);
      BlockOnlyAtDepth(ns[0], id, d);
      ParentInNone(ns[0], id, d);
      FindParentNone(ns[1..], id, d);
    }
  }

  /** FindParentNone within one node: a parent is found exactly when `id` occurs below the node. */
  lemma {:induction false} ParentInNone(n: Node, id: string, d: nat)
    ensures ParentIn(n, id).None? <==> NoneBelow(Block(n, d), id)
    decreases n
  {
    match n
    case Prompt(_, _, _) =>
    case Folder(_, _, _, c) =>
      var B := Block(n, d);
      var C := Flat(c, d + 1);
      assert B == [Entry(Strip(n), d)] + C;
      assert NoneBelow(B, id) <==> forall j :: 0 <= j < |C| ==> C[j].node.id != id by {
        forall j | 0 <= j < |C| ensures B[j + 1] == C[j] { }
      }
      var i := LevelIndex(c, id);
      if i < |c| {
        RootBlock(c, i, d + 1);
      } else {
        FindParentNone(c, id, d + 1);
        FlatRoots(c, d + 1);
      }
  }

  /** What findParent finds is a folder of the tree: its whole subtree occurs in the flattening. */
  lemma {:induction false} FindParentBlock(ns: seq<Node>, id: string, d: nat) returns (k: nat)
    requires FindParent(ns, id).Some?
    ensures BlockAt(Flat(ns, d), k, FindParent(ns, id).value)
    decreases ns
  {
    var B := Block(ns[0], d);
    var R := Flat(ns[1..], d);
    assert Flat(ns, d) == B + R;
    match ParentIn(ns[0], id)
    case Some(p) =>
      k := ParentInBlock(ns[0], id, d);
      BlockAtLeft(B, R, k, p);
    case None =>
      var kr := FindParentBlock(ns[1..], id, d);
      BlockAtRight(B, R, kr, FindParent(ns[1..], id).value);
      k := |B| + kr;
  }

  /** FindParentBlock within one node's block. */
  lemma {:induction false} ParentInBlock(n: Node, id: string, d: nat) returns (k: nat)
    requires ParentIn(n, id).Some?
    ensures BlockAt(Block(n, d), k, ParentIn(n, id).value)
    decreases n
  {
    var B := Block(n, d);
    match n
    case Folder(_, _, _, c) =>
      if LevelIndex(c, id) < |c| {
        k := 0;
        assert B[0..|B|] == B;
      } else {
        var C := Flat(c, d + 1);
        assert B == [Entry(Strip(n), d)] + C;
        var kc := FindParentBlock(c, id, d + 1);
        BlockAtRight([Entry(Strip(n), d)], C, kc, FindParent(c, id).value);
        k := 1 + kc;
      }
  }
}
