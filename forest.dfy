/**
 * The prompt library's tree (the `treeData` array of sidepanel.js): folders holding ordered
 * children, and prompts.
 *
 * To say what an operation keeps, a forest is flattened into its pre-order sequence of
 * entries, each node without its children paired with its depth. Pre-order plus depth
 * determines the forest, so "every other node keeps its place" becomes an equation between
 * flattenings with a block of entries removed, inserted or replaced.
 */
module Forest {
  import opened Text

  /** A node of the library. Folders always carry a (possibly empty) children list. */
  datatype Node =
    | Folder(id: string, title: string, isOpen: bool, children: seq<Node>)
    | Prompt(id: string, title: string, content: string)

  /** The node without its children: what one entry of the flattening records. */
  function Strip(n: Node): (s: Node)
    ensures s.id == n.id && s.title == n.title
    ensures s.Folder? <==> n.Folder?
  {
    match n
    case Folder(id, title, isOpen, _) => Folder(id, title, isOpen, [])
    case Prompt(_, _, _) => n
  }

  datatype Entry = Entry(node: Node, depth: nat)

  /** The pre-order flattening of a forest whose roots are at depth `d`. */
  function Flat(ns: seq<Node>, d: nat): seq<Entry>
    decreases ns
  {
    if ns == [] then [] else Block(ns[0], d) + Flat(ns[1..], d)
  }

  /** A node's own entry followed by the flattening of its children one level deeper. */
  function Block(n: Node, d: nat): seq<Entry>
    decreases n
  {
    [Entry(Strip(n), d)] +
    match n
    case Folder(_, _, _, c) => Flat(c, d + 1)
    case Prompt(_, _, _) => []
  }

  /** Flattening distributes over concatenation of forests. */
  lemma {:induction false} FlatConcat(a: seq<Node>, b: seq<Node>, d: nat)
    ensures Flat(a + b, d) == Flat(a, d) + Flat(b, d)
  {
    if a == [] {
      assert a + b == b;
    } else {
      assert (a + b)[0] == a[0];
      assert (a + b)[1..] == a[1..] + b;
      FlatConcat(a[1..], b, d);
    }
  }

  /** The flattening of a single node is its block. */
  lemma FlatSingle(n: Node, d: nat)
    ensures Flat([n], d) == Block(n, d)
  {
    assert [n][1..] == [];
  }

  /** Every entry of a flattening is at depth `d` or deeper. */
  lemma {:induction false} FlatDepths(ns: seq<Node>, d: nat)
    ensures forall k :: 0 <= k < |Flat(ns, d)| ==> Flat(ns, d)[k].depth >= d
    decreases ns
  {
    if ns != [] {
      BlockDepths(ns[0], d);
      FlatDepths(ns[1..], d);
    }
  }

  /** A block starts with its node at depth `d`; everything after it is deeper. */
  lemma {:induction false} BlockDepths(n: Node, d: nat)
    ensures Block(n, d)[0] == Entry(Strip(n), d)
    ensures forall k :: 1 <= k < |Block(n, d)| ==> Block(n, d)[k].depth > d
    decreases n
  {
    match n
    case Folder(_, _, _, c) =>
      FlatDepths(c, d + 1);
      assert Block(n, d)[1..] == Flat(c, d + 1);
    case Prompt(_, _, _) =>
  }

  /** The ids of a sequence of entries, in order. */
  function IdsOf(es: seq<Entry>): (r: seq<string>)
    ensures |r| == |es|
    ensures forall k :: 0 <= k < |es| ==> r[k] == es[k].node.id
  {
    seq(|es|, k requires 0 <= k < |es| => es[k].node.id)
  }

  lemma IdsOfConcat(a: seq<Entry>, b: seq<Entry>)
    ensures IdsOf(a + b) == IdsOf(a) + IdsOf(b)
  {
  }

  /** The ids and the size of a flattening do not depend on the depth it starts at. */
  lemma {:induction false} FlatShift(ns: seq<Node>, d1: nat, d2: nat)
    ensures IdsOf(Flat(ns, d1)) == IdsOf(Flat(ns, d2))
    decreases ns
  {
    if ns != [] {
      BlockShift(ns[0], d1, d2);
      FlatShift(ns[1..], d1, d2);
      IdsOfConcat(Block(ns[0], d1), Flat(ns[1..], d1));
      IdsOfConcat(Block(ns[0], d2), Flat(ns[1..], d2));
    }
  }

  lemma {:induction false} BlockShift(n: Node, d1: nat, d2: nat)
    ensures IdsOf(Block(n, d1)) == IdsOf(Block(n, d2))
    decreases n
  {
    match n
    case Folder(_, _, _, c) =>
      FlatShift(c, d1 + 1, d2 + 1);
      IdsOfConcat([Entry(Strip(n), d1)], Flat(c, d1 + 1));
      IdsOfConcat([Entry(Strip(n), d2)], Flat(c, d2 + 1));
    case Prompt(_, _, _) =>
  }

  /** The ids of a forest in pre-order. */
  function Ids(ns: seq<Node>): seq<string> {
    IdsOf(Flat(ns, 0))
  }

  /** Ids are unique across the whole tree, as the timestamps given to new items make them. */
  predicate UniqueIds(ns: seq<Node>) {
    Distinct(Ids(ns))
  }

  /** The index of the first entry carrying `id`, or the length when there is none. */
  function FirstOccurrence(es: seq<Entry>, id: string): (k: nat)
    ensures k <= |es|
    ensures k < |es| ==> es[k].node.id == id
    ensures forall j :: 0 <= j < k ==> es[j].node.id != id
  {
    if es == [] then 0
    else if es[0].node.id == id then 0
    else 1 + FirstOccurrence(es[1..], id)
  }

  /** Among unique ids, any entry carrying `id` is the first one. */
  lemma FirstOccurrenceUnique(es: seq<Entry>, id: string, k: nat)
    requires Distinct(IdsOf(es)) && k < |es| && es[k].node.id == id
    ensures FirstOccurrence(es, id) == k
  {
    assert IdsOf(es)[k] == id;
  }

  /** The first occurrence in a concatenation: in the first part if it has one, else in the second. */
  lemma {:induction false} FirstOccurrenceConcat(a: seq<Entry>, b: seq<Entry>, id: string)
    ensures FirstOccurrence(a + b, id)
            == if FirstOccurrence(a, id) < |a| then FirstOccurrence(a, id) else |a| + FirstOccurrence(b, id)
  {
    if a == [] {
      assert a + b == b;
    } else {
      assert (a + b)[0] == a[0];
      assert (a + b)[1..] == a[1..] + b;
      FirstOccurrenceConcat(a[1..], b, id);
    }
  }

  /** The subtree rooted at `n` is flattened at `es[k..]`, at the depth recorded there. */
  ghost predicate BlockAt(es: seq<Entry>, k: nat, n: Node) {
    k < |es| && k + |Block(n, es[k].depth)| <= |es| && es[k..k + |Block(n, es[k].depth)|] == Block(n, es[k].depth)
  }

  /** A block inside the first part of a concatenation is inside the whole. */
  lemma BlockAtLeft(a: seq<Entry>, b: seq<Entry>, k: nat, n: Node)
    requires BlockAt(a, k, n)
    ensures BlockAt(a + b, k, n)
  {
    var L := |Block(n, a[k].depth)|;
    assert (a + b)[k] == a[k];
    assert (a + b)[k..k + L] == a[k..k + L];
  }

  /** A block inside the second part of a concatenation is inside the whole, shifted. */
  lemma BlockAtRight(a: seq<Entry>, b: seq<Entry>, k: nat, n: Node)
    requires BlockAt(b, k, n)
    ensures BlockAt(a + b, |a| + k, n)
  {
    var L := |Block(n, b[k].depth)|;
    assert (a + b)[|a| + k] == b[k];
    assert (a + b)[|a| + k..|a| + k + L] == b[k..k + L];
  }

  /** Every entry carrying `id` is at depth `d`. */
  ghost predicate OnlyAtDepth(es: seq<Entry>, id: string, d: nat) {
    forall j :: 0 <= j < |es| && es[j].node.id == id ==> es[j].depth == d
  }

  lemma OnlyAtDepthConcat(a: seq<Entry>, b: seq<Entry>, id: string, d: nat)
    ensures OnlyAtDepth(a + b, id, d) <==> OnlyAtDepth(a, id, d) && OnlyAtDepth(b, id, d)
  {
    if OnlyAtDepth(a, id, d) && OnlyAtDepth(b, id, d) {
      forall j | 0 <= j < |a + b| && (a + b)[j].node.id == id ensures (a + b)[j].depth == d {
        if j >= |a| {
          assert (a + b)[j] == b[j - |a|];
        }
      }
    }
    if OnlyAtDepth(a + b, id, d) {
      forall j | 0 <= j < |b| && b[j].node.id == id ensures b[j].depth == d {
        assert (a + b)[|a| + j] == b[j];
      }
      forall j | 0 <= j < |a| && a[j].node.id == id ensures a[j].depth == d {
        assert (a + b)[j] == a[j];
      }
    }
  }

  /** No entry after the first carries `id`. */
  ghost predicate NoneBelow(es: seq<Entry>, id: string) {
    forall j :: 1 <= j < |es| ==> es[j].node.id != id
  }

  /** Within a block, an occurrence at the block's depth can only be the node itself. */
  lemma BlockOnlyAtDepth(n: Node, id: string, d: nat)
    ensures OnlyAtDepth(Block(n, d), id, d) <==> NoneBelow(Block(n, d), id)
  {
    BlockDepths(n, d);
  }

  /** A block is found at its own start, and its node's id first occurs there. */
  lemma BlockAtStart(n: Node, d: nat)
    ensures BlockAt(Block(n, d), 0, n)
    ensures FirstOccurrence(Block(n, d), n.id) == 0
  {
    var B := Block(n, d);
    assert B[0] == Entry(Strip(n), d);
    assert B[0..|B|] == B;
  }

  /** No entry carries `id`. */
  ghost predicate Absent(es: seq<Entry>, id: string) {
    forall j :: 0 <= j < |es| ==> es[j].node.id != id
  }

  lemma AbsentConcat(a: seq<Entry>, b: seq<Entry>, id: string)
    ensures Absent(a + b, id) <==> Absent(a, id) && Absent(b, id)
  {
    if Absent(a + b, id) {
      forall j | 0 <= j < |b| ensures b[j].node.id != id {
        assert (a + b)[|a| + j] == b[j];
      }
      forall j | 0 <= j < |a| ensures a[j].node.id != id {
        assert (a + b)[j] == a[j];
      }
    }
  }

  /** `id` is absent exactly when it has no first occurrence, exactly when it is not among the ids. */
  lemma AbsentFirstOccurrence(es: seq<Entry>, id: string)
    ensures Absent(es, id) <==> FirstOccurrence(es, id) == |es|
    ensures Absent(es, id) <==> id !in IdsOf(es)
  {
    if !Absent(es, id) {
      var j :| 0 <= j < |es| && es[j].node.id == id;
      assert IdsOf(es)[j] == id;
    }
  }

  /** `x` inserted into `s` at index `k`. */
  function Spliced<T>(s: seq<T>, k: nat, x: seq<T>): (r: seq<T>)
    requires k <= |s|
    ensures |r| == |s| + |x|
  {
    s[..k] + x + s[k..]
  }

  /** Something put in front of a splice shifts its index. */
  lemma SplicedPrepend<T>(a: seq<T>, s: seq<T>, k: nat, x: seq<T>)
    requires k <= |s|
    ensures a + Spliced(s, k, x) == Spliced(a + s, |a| + k, x)
  {
    assert (a + s)[..|a| + k] == a + s[..k];
    assert (a + s)[|a| + k..] == s[k..];
  }

  /** Something put behind a splice leaves its index alone. */
  lemma SplicedAppend<T>(s: seq<T>, k: nat, x: seq<T>, b: seq<T>)
    requires k <= |s|
    ensures Spliced(s, k, x) + b == Spliced(s + b, k, x)
  {
    assert (s + b)[..k] == s[..k];
    assert (s + b)[k..] == s[k..] + b;
  }

  /** A spliced-in block puts its node's id into the flattening. */
  lemma SplicedBlockPresent(s: seq<Entry>, k: nat, n: Node, d: nat)
    requires k <= |s|
    ensures !Absent(Spliced(s, k, Block(n, d)), n.id)
    ensures Spliced(s, k, Block(n, d))[k] == Entry(Strip(n), d)
  {
    var B := Block(n, d);
    var r := Spliced(s, k, B);
    assert r == s[..k] + B + s[k..];
    assert r[k] == B[0];
  }

  /** A splice with something in front of it and something behind it. */
  lemma SplicedWrap<T>(a: seq<T>, s: seq<T>, k: nat, x: seq<T>, b: seq<T>)
    requires k <= |s|
    ensures a + Spliced(s, k, x) + b == Spliced(a + s + b, |a| + k, x)
  {
    SplicedPrepend(a, s, k, x);
    SplicedAppend(a + s, |a| + k, x, b);
  }

  /** The flattening of a forest: the first node's block, then the rest. */
  lemma FlatCons(n: Node, ns: seq<Node>, d: nat)
    ensures Flat([n] + ns, d) == Block(n, d) + Flat(ns, d)
  {
    assert ([n] + ns)[0] == n && ([n] + ns)[1..] == ns;
  }

  /** The `len` elements of `s` at index `k` replaced by `x`. */
  function Replaced<T>(s: seq<T>, k: nat, len: nat, x: seq<T>): (r: seq<T>)
    requires k + len <= |s|
    ensures |r| == |s| - len + |x|
  {
    s[..k] + x + s[k + len..]
  }

  /** A replacement in the first part of a concatenation. */
  lemma ReplacedLeft<T>(e: seq<T>, s: seq<T>, k: nat, len: nat, x: seq<T>, b: seq<T>, f: seq<T>)
    requires k + len <= |s| && f == s + b && e == Replaced(s, k, len, x) + b
    ensures e == Replaced(f, k, len, x)
  {
    assert (s + b)[..k] == s[..k];
    assert (s + b)[k + len..] == s[k + len..] + b;
  }

  /** A replacement in the second part of a concatenation, shifted by the first. */
  lemma ReplacedRight<T>(e: seq<T>, a: seq<T>, s: seq<T>, k: nat, len: nat, x: seq<T>, f: seq<T>)
    requires k + len <= |s| && f == a + s && e == a + Replaced(s, k, len, x)
    ensures e == Replaced(f, |a| + k, len, x)
  {
    assert (a + s)[..|a| + k] == a + s[..k];
    assert (a + s)[|a| + k + len..] == s[k + len..];
  }

  /** Replacing a stretch by itself with its first element changed changes that one element. */
  lemma ReplacedUpdate<T>(s: seq<T>, k: nat, b: seq<T>, x: T)
    requires b != [] && k + |b| <= |s| && s[k..k + |b|] == b
    ensures Replaced(s, k, |b|, b[0 := x]) == s[k := x]
  {
    var r := Replaced(s, k, |b|, b[0 := x]);
    forall j | 0 <= j < |s| ensures r[j] == s[k := x][j] {
      if j < k {
        assert r[j] == s[..k][j];
      } else if j < k + |b| {
        assert r[j] == b[0 := x][j - k];
        assert s[j] == s[k..k + |b|][j - k];
      } else {
        assert r[j] == s[k + |b|..][j - k - |b|];
      }
    }
  }

  /** A stretch of `s` is the same stretch of `a + s + b`, shifted by `|a|`. */
  lemma SliceWrap<T>(a: seq<T>, s: seq<T>, b: seq<T>, k: nat, len: nat)
    requires k + len <= |s|
    ensures (a + s + b)[|a| + k..|a| + k + len] == s[k..k + len]
  {
  }

  /** A folder's block: its own entry, then its children one level deeper. */
  lemma FolderBlock(f: Node, d: nat)
    requires f.Folder?
    ensures Block(f, d) == [Entry(Strip(f), d)] + Flat(f.children, d + 1)
  {
  }
}
