/**
 * The `before` and `after` drops of moveNode (sidepanel.js lines 188-197): the moved node is
 * inserted into the list of siblings of the target, in front of it or right behind it. The
 * siblings are the children of the folder findParent returns, or the root list when it
 * returns nothing; when the target is not among them either, nothing is inserted.
 */
module Placement {
  import opened Wrappers
  import opened Forest
  import opened Lookup

  /** The two drops beside a node. */
  datatype Side = Before | After

  /** Where the node goes among siblings holding the target at index `i`. */
  function InsertIndex(i: nat, side: Side): nat {
    if side == After then i + 1 else i
  }

  /**
   * Where the new block goes in a flattening holding the target's block of length `len` at
   * index `k`: in front of the target's entry, or right after its last descendant.
   */
  function BlockIndex(k: nat, len: nat, side: Side): nat {
    if side == After then k + len else k
  }

  /** `siblings.splice(insertIndex, 0, x)` on the list holding the target. */
  function SpliceAt(l: seq<Node>, id: string, x: Node, side: Side): (r: seq<Node>)
    requires LevelIndex(l, id) < |l|
    ensures r == Spliced(l, InsertIndex(LevelIndex(l, id), side), [x])
  {
    var j := InsertIndex(LevelIndex(l, id), side);
    l[..j] + [x] + l[j..]
  }

  /** The forest with `x` inserted next to `id` among the children of findParent's folder. */
  function PlaceUnder(ns: seq<Node>, id: string, x: Node, side: Side): seq<Node>
    decreases ns
  {
    if ns == [] then []
    else if ParentIn(ns[0], id).Some? then [PlaceIn(ns[0], id, x, side)] + ns[1..]
    else [ns[0]] + PlaceUnder(ns[1..], id, x, side)
  }

  function PlaceIn(n: Node, id: string, x: Node, side: Side): (r: Node)
    ensures Strip(r) == Strip(n) && (r.Folder? <==> n.Folder?)
    decreases n
  {
    match n
    case Prompt(_, _, _) => n
    case Folder(i, t, o, c) =>
      if LevelIndex(c, id) < |c| then Folder(i, t, o, SpliceAt(c, id, x, side))
      else Folder(i, t, o, PlaceUnder(c, id, x, side))
  }

  /** The insertion step of moveNode for `before` and `after`. */
  function Place(ns: seq<Node>, id: string, x: Node, side: Side): seq<Node> {
    if FindParent(ns, id).Some? then PlaceUnder(ns, id, x, side)
    else if LevelIndex(ns, id) < |ns| then SpliceAt(ns, id, x, side)
    else ns
  }

  /** The insertion happens exactly when the target is in the tree. */
  lemma PlacedIffPresent(ns: seq<Node>, id: string)
    ensures FindParent(ns, id).Some? || LevelIndex(ns, id) < |ns| <==> id in Ids(ns)
  {
    var F := Flat(ns, 0);
    FindParentNone(ns, id, 0);
    AbsentFirstOccurrence(F, id);
    FlatDepths(ns, 0);
    if LevelIndex(ns, id) < |ns| {
      RootBlock(ns, LevelIndex(ns, id), 0);
      assert Ids(ns)[|Flat(ns[..LevelIndex(ns, id)], 0)|] == id;
    }
    FlatRoots(ns, 0);
    forall j | 0 <= j < |F| && F[j].node.id == id
      ensures FindParent(ns, id).Some? || LevelIndex(ns, id) < |ns|
    {
    }
  }

  /** Without the target in the tree nothing is inserted. */
  lemma PlaceMissing(ns: seq<Node>, id: string, x: Node, side: Side)
    requires id !in Ids(ns)
    ensures Place(ns, id, x, side) == ns
  {
    PlacedIffPresent(ns, id);
  }

  /** A list's flattening around its `i`-th node. */
  lemma LevelParts(l: seq<Node>, i: nat, d: nat)
    requires i < |l|
    ensures Flat(l, d) == Flat(l[..i], d) + Block(l[i], d) + Flat(l[i + 1..], d)
    ensures Flat(l[..i + 1], d) == Flat(l[..i], d) + Block(l[i], d)
  {
    assert l == l[..i] + ([l[i]] + l[i + 1..]);
    FlatConcat(l[..i], [l[i]] + l[i + 1..], d);
    FlatCons(l[i], l[i + 1..], d);
    assert l[..i + 1] == l[..i] + [l[i]];
    FlatConcat(l[..i], [l[i]], d);
    FlatSingle(l[i], d);
  }

  /** Inserting a node into a list at index `j` splices its block in after the blocks of the first `j` nodes. */
  lemma InsertFlat(l: seq<Node>, j: nat, x: Node, d: nat)
    requires j <= |l|
    ensures Flat(l, d) == Flat(l[..j], d) + Flat(l[j..], d)
    ensures Flat(Spliced(l, j, [x]), d) == Spliced(Flat(l, d), |Flat(l[..j], d)|, Block(x, d))
  {
    var a, b := l[..j], l[j..];
    var A, B := Flat(a, d), Flat(b, d);
    assert Flat(l, d) == A + B by {
      assert l == a + b;
      FlatConcat(a, b, d);
    }
    calc {
      Flat(Spliced(l, j, [x]), d);
      == { assert Spliced(l, j, [x]) == a + ([x] + b); }
      Flat(a + ([x] + b), d);
      == { FlatConcat(a, [x] + b, d); }
      A + Flat([x] + b, d);
      == { FlatCons(x, b, d); }
      A + (Block(x, d) + B);
      == { assert (A + B)[..|A|] == A && (A + B)[|A|..] == B; }
      Spliced(A + B, |A|, Block(x, d));
    }
  }

  /**
   * Where an insertion beside the target lands in the flattening: the index of the target's
   * entry, its depth, and the target node itself.
   */
  datatype Site = Site(index: nat, depth: nat, target: Node)

  function Shifted(s: Site, n: nat): Site {
    s.(index := s.index + n)
  }

  /** The site of the node carrying `id` on the list `l`, whose roots are at depth `d`. */
  function SiteOnLevel(l: seq<Node>, id: string, d: nat): Site
    requires LevelIndex(l, id) < |l|
  {
    var i := LevelIndex(l, id);
    Site(|Flat(l[..i], d)|, d, l[i])
  }

  /** The site among the children of findParent's folder, found by the same walk. */
  function SiteUnder(ns: seq<Node>, id: string, d: nat): Site
    requires FindParent(ns, id).Some?
    decreases ns
  {
    if ParentIn(ns[0], id).Some? then SiteIn(ns[0], id, d)
    else Shifted(SiteUnder(ns[1..], id, d), |Block(ns[0], d)|)
  }

  function SiteIn(n: Node, id: string, d: nat): Site
    requires ParentIn(n, id).Some?
    decreases n
  {
    var c := n.children;
    if LevelIndex(c, id) < |c| then Shifted(SiteOnLevel(c, id, d + 1), 1)
    else Shifted(SiteUnder(c, id, d + 1), 1)
  }

  /** The site of moveNode's insertion beside `id` in a tree with the target in it. */
  function PlaceSite(ns: seq<Node>, id: string): Site
    requires FindParent(ns, id).Some? || LevelIndex(ns, id) < |ns|
  {
    if FindParent(ns, id).Some? then SiteUnder(ns, id, 0) else SiteOnLevel(ns, id, 0)
  }

  /** The target of the site is `siblings[targetIndex]`. */
  lemma {:induction false} SiteUnderTarget(ns: seq<Node>, id: string, d: nat)
    requires FindParent(ns, id).Some?
    ensures var p := FindParent(ns, id).value; SiteUnder(ns, id, d).target == p.children[LevelIndex(p.children, id)]
    decreases ns
  {
    if ParentIn(ns[0], id).None? {
      SiteUnderTarget(ns[1..], id, d);
    } else {
      SiteInTarget(ns[0], id, d);
    }
  }

  lemma {:induction false} SiteInTarget(n: Node, id: string, d: nat)
    requires ParentIn(n, id).Some?
    ensures var p := ParentIn(n, id).value; SiteIn(n, id, d).target == p.children[LevelIndex(p.children, id)]
    decreases n
  {
    if LevelIndex(n.children, id) == |n.children| {
      SiteUnderTarget(n.children, id, d + 1);
    }
  }

  /** The site's target occurs as a whole subtree at the site, at the site's depth. */
  ghost predicate Located(F: seq<Entry>, s: Site) {
    BlockAt(F, s.index, s.target) && F[s.index].depth == s.depth
  }

  lemma LocatedPrepend(B: seq<Entry>, F: seq<Entry>, s: Site)
    requires Located(F, s)
    ensures Located(B + F, Shifted(s, |B|))
  {
    BlockAtRight(B, F, s.index, s.target);
    assert (B + F)[|B| + s.index] == F[s.index];
  }

  lemma LocatedAppend(F: seq<Entry>, T: seq<Entry>, s: Site)
    requires Located(F, s)
    ensures Located(F + T, s)
  {
    BlockAtLeft(F, T, s.index, s.target);
    assert (F + T)[s.index] == F[s.index];
  }

  lemma SiteOnLevelBlock(l: seq<Node>, id: string, d: nat)
    requires LevelIndex(l, id) < |l|
    ensures Located(Flat(l, d), SiteOnLevel(l, id, d))
  {
    var i := LevelIndex(l, id);
    LevelParts(l, i, d);
    var A, T, R := Flat(l[..i], d), Block(l[i], d), Flat(l[i + 1..], d);
    assert (A + T + R)[|A|] == T[0];
    assert (A + T + R)[|A|..|A| + |T|] == T;
  }

  lemma {:induction false} SiteUnderBlock(ns: seq<Node>, id: string, d: nat)
    requires FindParent(ns, id).Some?
    ensures Located(Flat(ns, d), SiteUnder(ns, id, d))
    decreases ns
  {
    var B := Block(ns[0], d);
    var T := Flat(ns[1..], d);
    assert Flat(ns, d) == B + T;
    if ParentIn(ns[0], id).Some? {
      SiteInBlock(ns[0], id, d);
      LocatedAppend(B, T, SiteIn(ns[0], id, d));
    } else {
      SiteUnderBlock(ns[1..], id, d);
      LocatedPrepend(B, T, SiteUnder(ns[1..], id, d));
    }
  }

  lemma {:induction false} SiteInBlock(n: Node, id: string, d: nat)
    requires ParentIn(n, id).Some?
    ensures Located(Block(n, d), SiteIn(n, id, d))
    decreases n
  {
    var c := n.children;
    FolderBlock(n, d);
    var s: Site;
    if LevelIndex(c, id) < |c| {
      SiteOnLevelBlock(c, id, d + 1);
      s := SiteOnLevel(c, id, d + 1);
    } else {
      SiteUnderBlock(c, id, d + 1);
      s := SiteUnder(c, id, d + 1);
    }
    LocatedPrepend([Entry(Strip(n), d)], Flat(c, d + 1), s);
  }

  /**
   * `P` is `F` with the block of `x` spliced in at the site: in front of the target's entry
   * for Before, right after the target's whole block for After, at the target's depth.
   */
  ghost predicate SplicedAt(F: seq<Entry>, P: seq<Entry>, s: Site, x: Node, side: Side) {
    s.index + |Block(s.target, s.depth)| <= |F| &&
    P == Spliced(F, BlockIndex(s.index, |Block(s.target, s.depth)|, side), Block(x, s.depth))
  }

  lemma SplicedAtPrepend(B: seq<Entry>, F: seq<Entry>, P: seq<Entry>, s: Site, x: Node, side: Side)
    requires SplicedAt(F, P, s, x, side)
    ensures SplicedAt(B + F, B + P, Shifted(s, |B|), x, side)
  {
    SplicedPrepend(B, F, BlockIndex(s.index, |Block(s.target, s.depth)|, side), Block(x, s.depth));
  }

  lemma SplicedAtAppend(F: seq<Entry>, P: seq<Entry>, T: seq<Entry>, s: Site, x: Node, side: Side)
    requires SplicedAt(F, P, s, x, side)
    ensures SplicedAt(F + T, P + T, s, x, side)
  {
    SplicedAppend(F, BlockIndex(s.index, |Block(s.target, s.depth)|, side), Block(x, s.depth), T);
  }

  /**
   * On one list: inserting beside the node carrying `id` splices the new block into the
   * flattening in front of that node's entry, or right after its whole block.
   */
  lemma SpliceFlat(l: seq<Node>, id: string, x: Node, side: Side, d: nat)
    requires LevelIndex(l, id) < |l|
    ensures SplicedAt(Flat(l, d), Flat(SpliceAt(l, id, x, side), d), SiteOnLevel(l, id, d), x, side)
  {
    var i := LevelIndex(l, id);
    LevelParts(l, i, d);
    InsertFlat(l, InsertIndex(i, side), x, d);
  }

  /** Inserting among the children of findParent's folder, in the flattening. */
  lemma {:induction false} PlaceUnderFlat(ns: seq<Node>, id: string, x: Node, side: Side, d: nat)
    requires FindParent(ns, id).Some?
    ensures SplicedAt(Flat(ns, d), Flat(PlaceUnder(ns, id, x, side), d), SiteUnder(ns, id, d), x, side)
    decreases ns
  {
    var B := Block(ns[0], d);
    var T := Flat(ns[1..], d);
    assert Flat(ns, d) == B + T;
    if ParentIn(ns[0], id).Some? {
      PlaceInFlat(ns[0], id, x, side, d);
      FlatCons(PlaceIn(ns[0], id, x, side), ns[1..], d);
      SplicedAtAppend(B, Block(PlaceIn(ns[0], id, x, side), d), T, SiteIn(ns[0], id, d), x, side);
    } else {
      PlaceUnderFlat(ns[1..], id, x, side, d);
      FlatCons(ns[0], PlaceUnder(ns[1..], id, x, side), d);
      SplicedAtPrepend(B, T, Flat(PlaceUnder(ns[1..], id, x, side), d), SiteUnder(ns[1..], id, d), x, side);
    }
  }

  /** PlaceUnderFlat within the block of a folder at or above the one whose children change. */
  lemma {:induction false} PlaceInFlat(n: Node, id: string, x: Node, side: Side, d: nat)
    requires ParentIn(n, id).Some?
    ensures SplicedAt(Block(n, d), Block(PlaceIn(n, id, x, side), d), SiteIn(n, id, d), x, side)
    decreases n
  {
    var c := n.children;
    var c' := PlaceIn(n, id, x, side).children;
    var sc: Site;
    if LevelIndex(c, id) < |c| {
      SpliceFlat(c, id, x, side, d + 1);
      sc := SiteOnLevel(c, id, d + 1);
    } else {
      PlaceUnderFlat(c, id, x, side, d + 1);
      sc := SiteUnder(c, id, d + 1);
    }
    var e := Entry(Strip(n), d);
    FolderBlock(n, d);
    FolderBlock(PlaceIn(n, id, x, side), d);
    SplicedAtPrepend([e], Flat(c, d + 1), Flat(c', d + 1), sc, x, side);
  }

  /**
   * moveNode's `before`/`after` insertion into a tree holding the target: the target is the
   * node of the sibling list at findParent's folder (or at the root), and in the flattening
   * the moved block is spliced in at its entry or right after its whole block, at its depth,
   * with every other entry kept in order.
   */
  lemma PlaceFlat(ns: seq<Node>, id: string, x: Node, side: Side)
    requires id in Ids(ns)
    ensures FindParent(ns, id).Some? || LevelIndex(ns, id) < |ns|
    ensures FindParent(ns, id).Some? ==>
      var p := FindParent(ns, id).value; PlaceSite(ns, id).target == p.children[LevelIndex(p.children, id)]
    ensures FindParent(ns, id).None? ==> PlaceSite(ns, id).target == ns[LevelIndex(ns, id)]
    ensures var s := PlaceSite(ns, id); var F := Flat(ns, 0);
      s.target.id == id && Located(F, s) && SplicedAt(F, Flat(Place(ns, id, x, side), 0), s, x, side)
  {
    PlacedIffPresent(ns, id);
    if FindParent(ns, id).Some? {
      SiteUnderTarget(ns, id, 0);
      SiteUnderBlock(ns, id, 0);
      PlaceUnderFlat(ns, id, x, side, 0);
    } else {
      SiteOnLevelBlock(ns, id, 0);
      SpliceFlat(ns, id, x, side, 0);
    }
  }
}
