/**
 * moveNode (sidepanel.js lines 162-200): take the dragged node out with `remove`, then drop
 * it inside the target folder or beside the target. When nothing is removed the tree is
 * left alone; when the node was removed but cannot be dropped, it stays removed: the tree
 * is saved without it.
 */
module Moves {
  import opened Wrappers
  import opened Text
  import opened Forest
  import opened Lookup
  import opened Removal
  import opened Edits
  import opened Placement

  /** The three drop positions: above or below the target (beside it), or into it. */
  datatype Position = Beside(side: Side) | Inside

  /** moveNode(src, target, position) on the tree `ns`. */
  function Move(ns: seq<Node>, src: string, target: string, pos: Position): seq<Node> {
    var s := Detach(ns, src);
    if s.moved.None? then ns
    else
      match pos
      case Inside => Edit(s.rest, target, Adopt(s.moved.value))
      case Beside(side) => Place(s.rest, target, s.moved.value, side)
  }

  /**
   * The dragged node was removed and finds its place again: the target is still in the
   * tree, and for a drop inside it is (as findNode finds it) a folder.
   */
  predicate Placed(ns: seq<Node>, src: string, target: string, pos: Position) {
    var s := Detach(ns, src);
    s.moved.Some? &&
    match pos
    case Beside(_) => target in Ids(s.rest)
    case Inside => Find(s.rest, target).Some? && Find(s.rest, target).value.Folder?
  }

  /** The removal takes a node out exactly when the id is in the tree. */
  lemma DetachIffPresent(ns: seq<Node>, id: string)
    ensures Detach(ns, id).moved.Some? <==> id in Ids(ns)
  {
    var k, dd := DetachFlat(ns, id, 0);
    AbsentFirstOccurrence(Flat(ns, 0), id);
  }

  /** Dragging an id that is not in the tree changes nothing. */
  lemma MoveMissingSource(ns: seq<Node>, src: string, target: string, pos: Position)
    requires src !in Ids(ns)
    ensures Move(ns, src, target, pos) == ns
  {
    DetachIffPresent(ns, src);
  }

  /** A removed node that cannot be dropped is lost: the result is deleteNode's. */
  lemma MoveLost(ns: seq<Node>, src: string, target: string, pos: Position)
    requires src in Ids(ns) && !Placed(ns, src, target, pos)
    ensures Move(ns, src, target, pos) == Delete(ns, src)
  {
    DetachIffPresent(ns, src);
    var s := Detach(ns, src);
    var m := s.moved.value;
    match pos
    case Beside(side) =>
      PlaceMissing(s.rest, target, m, side);
    case Inside =>
      if Find(s.rest, target).None? {
        EditMissing(s.rest, target, Adopt(m));
      } else {
        EditUnchanged(s.rest, target, Adopt(m), Find(s.rest, target).value);
      }
  }

  /** The ids of a splice are the splice of the ids. */
  lemma IdsOfSpliced(r: seq<Entry>, k: nat, x: seq<Entry>)
    requires k <= |r|
    ensures IdsOf(Spliced(r, k, x)) == Spliced(IdsOf(r), k, IdsOf(x))
  {
    var a, b := IdsOf(Spliced(r, k, x)), Spliced(IdsOf(r), k, IdsOf(x));
    forall p | 0 <= p < |a| ensures a[p] == b[p] {
      if p < k {
        assert Spliced(r, k, x)[p] == r[p] && b[p] == IdsOf(r)[p];
      } else if p < k + |x| {
        assert Spliced(r, k, x)[p] == x[p - k] && b[p] == IdsOf(x)[p - k];
      } else {
        assert Spliced(r, k, x)[p] == r[p - |x|] && b[p] == IdsOf(r)[p - |x|];
      }
    }
  }

  /** Splicing adds the spliced elements to the multiset and keeps the rest. */
  lemma SplicedMultiset<T>(r: seq<T>, k: nat, x: seq<T>)
    requires k <= |r|
    ensures multiset(Spliced(r, k, x)) == multiset(r) + multiset(x)
  {
    assert r == r[..k] + r[k..];
  }

  /** Where the `i`-th element of `r` lands once `n` elements are spliced in at `k`. */
  function Shift(i: nat, k: nat, n: nat): nat {
    if i < k then i else i + n
  }

  /** The two sequences have no element in common. */
  predicate Disjoint(r: seq<string>, x: seq<string>) {
    forall i, j :: 0 <= i < |r| && 0 <= j < |x| ==> r[i] != x[j]
  }

  /** Where the elements of both parts sit in a splice. */
  lemma SplicedIndex<T>(r: seq<T>, k: nat, x: seq<T>)
    requires k <= |r|
    ensures forall i :: 0 <= i < |r| ==> Spliced(r, k, x)[Shift(i, k, |x|)] == r[i]
    ensures forall j :: 0 <= j < |x| ==> Spliced(r, k, x)[k + j] == x[j]
  {
    var s := Spliced(r, k, x);
    forall i | 0 <= i < |r| ensures s[Shift(i, k, |x|)] == r[i] {
      if i < k {
        assert s[i] == s[..k][i];
      } else {
        assert s[i + |x|] == s[k + |x|..][i - k];
      }
    }
  }

  /** A splice without repeated elements comes from disjoint parts without any. */
  lemma UniqueOfSpliced(r: seq<string>, k: nat, x: seq<string>)
    requires k <= |r| && Distinct(Spliced(r, k, x))
    ensures Distinct(r) && Distinct(x) && Disjoint(r, x)
  {
    var s := Spliced(r, k, x);
    SplicedIndex(r, k, x);
    forall i, j | 0 <= i < j < |r| ensures r[i] != r[j] {
      assert s[Shift(i, k, |x|)] == r[i] && s[Shift(j, k, |x|)] == r[j];
    }
    forall i, j | 0 <= i < j < |x| ensures x[i] != x[j] {
      assert s[k + i] == x[i] && s[k + j] == x[j];
    }
    forall i, j | 0 <= i < |r| && 0 <= j < |x| ensures r[i] != x[j] {
      assert s[Shift(i, k, |x|)] == r[i] && s[k + j] == x[j];
    }
  }

  /** Disjoint parts without repeated elements give a splice without any. */
  lemma UniqueSpliced(r: seq<string>, k: nat, x: seq<string>)
    requires k <= |r| && Distinct(r) && Distinct(x) && Disjoint(r, x)
    ensures Distinct(Spliced(r, k, x))
  {
    var s := Spliced(r, k, x);
    SplicedIndex(r, k, x);
    forall p, q | 0 <= p < q < |s| ensures s[p] != s[q] {
      var ip := if p < k then p else p - |x|;
      var iq := if q < k then q else q - |x|;
      if p < k || k + |x| <= p {
        assert s[p] == r[ip] by { assert Shift(ip, k, |x|) == p; }
        if q < k || k + |x| <= q {
          assert s[q] == r[iq] by { assert Shift(iq, k, |x|) == q; }
        } else {
          assert s[q] == x[q - k];
        }
      } else {
        assert s[p] == x[p - k];
        if q < k + |x| {
          assert s[q] == x[q - k];
        } else {
          assert s[q] == r[iq] by { assert Shift(iq, k, |x|) == q; }
        }
      }
    }
  }

  /** The ids of one node's subtree, at whatever depth it is flattened. */
  lemma SubtreeIds(m: Node, d: nat)
    ensures Ids([m]) == IdsOf(Block(m, d))
    ensures |Ids([m])| > 0 && Ids([m])[0] == m.id
  {
    FlatSingle(m, 0);
    BlockShift(m, 0, d);
  }

  /**
   * The ids of the tree are those of the tree after the removal with those of the removed
   * subtree spliced in.
   */
  lemma DetachIds(ns: seq<Node>, id: string) returns (k: nat)
    requires id in Ids(ns)
    ensures Detach(ns, id).moved.Some?
    ensures k <= |Ids(Detach(ns, id).rest)|
    ensures Ids(ns) == Spliced(Ids(Detach(ns, id).rest), k, Ids([Detach(ns, id).moved.value]))
  {
    DetachIffPresent(ns, id);
    var s := Detach(ns, id);
    var dd;
    k, dd := DetachFlat(ns, id, 0);
    IdsOfSpliced(Flat(s.rest, 0), k, Block(s.moved.value, dd));
    SubtreeIds(s.moved.value, dd);
  }

  /**
   * deleteNode's removal takes one subtree out: the multiset of ids loses exactly the ids of
   * that subtree, and with unique ids the deleted id is gone and the ids stay unique.
   */
  lemma DeleteIds(ns: seq<Node>, id: string)
    requires id in Ids(ns)
    ensures Detach(ns, id).moved.Some?
    ensures multiset(Ids(ns)) == multiset(Ids(Delete(ns, id))) + multiset(Ids([Detach(ns, id).moved.value]))
    ensures UniqueIds(ns) ==> UniqueIds(Delete(ns, id)) && id !in Ids(Delete(ns, id))
  {
    var k := DetachIds(ns, id);
    var s := Detach(ns, id);
    var m := s.moved.value;
    SplicedMultiset(Ids(s.rest), k, Ids([m]));
    SubtreeIds(m, 0);
    if UniqueIds(ns) {
      UniqueOfSpliced(Ids(s.rest), k, Ids([m]));
    }
  }

  /**
   * With unique ids, no id of the removed subtree is left in the rest of the tree, so a drop
   * onto the dragged node itself or onto one of its descendants finds no target: the node is
   * lost.
   */
  lemma MoveIntoOwnSubtree(ns: seq<Node>, src: string, target: string, pos: Position)
    requires UniqueIds(ns) && Detach(ns, src).moved.Some?
    requires target in Ids([Detach(ns, src).moved.value])
    ensures !Placed(ns, src, target, pos)
    ensures Move(ns, src, target, pos) == Delete(ns, src)
  {
    DetachIffPresent(ns, src);
    var k := DetachIds(ns, src);
    var s := Detach(ns, src);
    UniqueOfSpliced(Ids(s.rest), k, Ids([s.moved.value]));
    FindNone(s.rest, target);
    MoveLost(ns, src, target, pos);
  }

  /** Dropping a node onto itself loses it, when ids are unique. */
  lemma MoveOntoItself(ns: seq<Node>, src: string, pos: Position)
    requires UniqueIds(ns) && src in Ids(ns)
    ensures Move(ns, src, src, pos) == Delete(ns, src)
  {
    DetachIffPresent(ns, src);
    SubtreeIds(Detach(ns, src).moved.value, 0);
    MoveIntoOwnSubtree(ns, src, src, pos);
  }

  /**
   * A drop beside the target: in the flattening, the moved block is first cut out, then
   * spliced into what is left at the target's site, at the target's depth; everything else
   * keeps its order.
   */
  lemma MoveBesideFlat(ns: seq<Node>, src: string, target: string, side: Side) returns (k: nat, dd: nat)
    requires Placed(ns, src, target, Beside(side))
    ensures var s := Detach(ns, src); var R := Flat(s.rest, 0);
      k <= |R| && Flat(ns, 0) == Spliced(R, k, Block(s.moved.value, dd))
    ensures var rest := Detach(ns, src).rest;
      FindParent(rest, target).Some? || LevelIndex(rest, target) < |rest|
    ensures var s := Detach(ns, src); var R := Flat(s.rest, 0); var t := PlaceSite(s.rest, target);
      t.target.id == target && Located(R, t) &&
      SplicedAt(R, Flat(Move(ns, src, target, Beside(side)), 0), t, s.moved.value, side)
  {
    var s := Detach(ns, src);
    k, dd := DetachFlat(ns, src, 0);
    PlaceFlat(s.rest, target, s.moved.value, side);
  }

  /**
   * A drop inside the target folder: in the flattening, the moved block is cut out, and the
   * block of the folder, at the first occurrence of the target, is replaced by the block of
   * the folder that adopted the moved node (Edits.AdoptBlock: the folder's entry opened and
   * the moved block one level deeper right after the folder's last descendant).
   */
  lemma MoveInsideFlat(ns: seq<Node>, src: string, target: string, t: Node) returns (k: nat, dd: nat, kt: nat)
    requires Placed(ns, src, target, Inside) && Find(Detach(ns, src).rest, target) == Some(t)
    ensures var s := Detach(ns, src); var R := Flat(s.rest, 0);
      k <= |R| && Flat(ns, 0) == Spliced(R, k, Block(s.moved.value, dd))
    ensures var s := Detach(ns, src); var R := Flat(s.rest, 0);
      kt == FirstOccurrence(R, target) && BlockAt(R, kt, t) &&
      ReplacedBy(R, Flat(Move(ns, src, target, Inside), 0), kt, t, Adopt(s.moved.value))
  {
    var s := Detach(ns, src);
    k, dd := DetachFlat(ns, src, 0);
    kt := AdoptFlat(s.rest, target, s.moved.value, t);
    assert Move(ns, src, target, Inside) == Edit(s.rest, target, Adopt(s.moved.value));
  }

  /**
   * Replacing the stretch `b` of `r` by entries whose ids are those of `b` followed by the
   * ids `y` splices `y` into the ids right after the stretch.
   */
  lemma IdsOfGrownStretch(r: seq<Entry>, p: seq<Entry>, k: nat, b: seq<Entry>, x: seq<Entry>, y: seq<string>, j: nat)
    requires k + |b| <= |r| && r[k..k + |b|] == b && j == k + |b|
    requires p == Replaced(r, k, |b|, x) && IdsOf(x) == IdsOf(b) + y
    ensures j <= |IdsOf(r)| && IdsOf(p) == Spliced(IdsOf(r), j, y)
  {
    var u, v := IdsOf(p), Spliced(IdsOf(r), j, y);
    forall q | 0 <= q < |u| ensures u[q] == v[q] {
      if q < k {
        assert p[q] == r[q];
      } else if q < k + |b| {
        assert p[q] == x[q - k] && IdsOf(x)[q - k] == IdsOf(b)[q - k];
        assert r[q] == r[k..k + |b|][q - k];
      } else if q < k + |x| {
        assert p[q] == x[q - k] && IdsOf(x)[q - k] == y[q - k - |b|];
      } else {
        assert p[q] == r[q - |x| + |b|];
      }
    }
  }

  /** Once dropped, the moved node's ids are spliced into the rest of the tree's ids. */
  lemma MovedIds(ns: seq<Node>, src: string, target: string, pos: Position) returns (j: nat)
    requires Placed(ns, src, target, pos)
    ensures var s := Detach(ns, src);
      j <= |Ids(s.rest)| && Ids(Move(ns, src, target, pos)) == Spliced(Ids(s.rest), j, Ids([s.moved.value]))
  {
    match pos
    case Beside(side) =>
      j := MovedIdsBeside(ns, src, target, side);
    case Inside =>
      j := MovedIdsInside(ns, src, target);
  }

  lemma MovedIdsBeside(ns: seq<Node>, src: string, target: string, side: Side) returns (j: nat)
    requires Placed(ns, src, target, Beside(side))
    ensures var s := Detach(ns, src);
      j <= |Ids(s.rest)| && Ids(Move(ns, src, target, Beside(side))) == Spliced(Ids(s.rest), j, Ids([s.moved.value]))
  {
    var s := Detach(ns, src);
    var m := s.moved.value;
    var R := Flat(s.rest, 0);
    var k, dd := MoveBesideFlat(ns, src, target, side);
    var t := PlaceSite(s.rest, target);
    j := BlockIndex(t.index, |Block(t.target, t.depth)|, side);
    assert Flat(Move(ns, src, target, Beside(side)), 0) == Spliced(R, j, Block(m, t.depth));
    IdsOfSpliced(R, j, Block(m, t.depth));
    SubtreeIds(m, t.depth);
  }

  lemma MovedIdsInside(ns: seq<Node>, src: string, target: string) returns (j: nat)
    requires Placed(ns, src, target, Inside)
    ensures var s := Detach(ns, src);
      j <= |Ids(s.rest)| && Ids(Move(ns, src, target, Inside)) == Spliced(Ids(s.rest), j, Ids([s.moved.value]))
  {
    var s := Detach(ns, src);
    j := AdoptIds(s.rest, target, s.moved.value, Find(s.rest, target).value);
  }

  /** A folder adopting `m` adds the ids of `m` to the forest's, right after the folder's block. */
  lemma AdoptIds(rest: seq<Node>, target: string, m: Node, t: Node) returns (j: nat)
    requires Find(rest, target) == Some(t) && t.Folder?
    ensures j <= |Ids(rest)| && Ids(Edit(rest, target, Adopt(m))) == Spliced(Ids(rest), j, Ids([m]))
  {
    var kt := AdoptFlat(rest, target, m, t);
    j := AdoptedIds(Flat(rest, 0), Flat(Edit(rest, target, Adopt(m)), 0), kt, t, m);
  }

  /** EditFlat for a drop inside `target`, with the target's block located. */
  lemma AdoptFlat(rest: seq<Node>, target: string, m: Node, t: Node) returns (kt: nat)
    requires Find(rest, target) == Some(t)
    ensures var R := Flat(rest, 0);
      kt == FirstOccurrence(R, target) && BlockAt(R, kt, t) &&
      ReplacedBy(R, Flat(Edit(rest, target, Adopt(m)), 0), kt, t, Adopt(m))
  {
    EditFlatAt(rest, target, Adopt(m), 0, t);
    FindFlat(rest, target, 0);
    kt := FirstOccurrence(Flat(rest, 0), target);
  }

  /** The entries of a folder that adopts `m` carry the folder's ids with those of `m` after them. */
  lemma AdoptedIds(R: seq<Entry>, P: seq<Entry>, kt: nat, t: Node, m: Node) returns (j: nat)
    requires t.Folder? && BlockAt(R, kt, t) && ReplacedBy(R, P, kt, t, Adopt(m))
    ensures j <= |IdsOf(R)| && IdsOf(P) == Spliced(IdsOf(R), j, Ids([m]))
  {
    var dt := R[kt].depth;
    var b := Block(t, dt);
    IdsOfAdoptBlock(t, m, dt);
    SubtreeIds(m, dt + 1);
    j := kt + |b|;
    IdsOfGrownStretch(R, P, kt, b, Block(Apply(t, Adopt(m)), dt), Ids([m]), j);
  }

  /** After the adoption the folder's block carries its old ids, then those of `m`. */
  lemma IdsOfAdoptBlock(t: Node, m: Node, d: nat)
    requires t.Folder?
    ensures IdsOf(Block(Apply(t, Adopt(m)), d)) == IdsOf(Block(t, d)) + IdsOf(Block(m, d + 1))
  {
    var b, M := Block(t, d), Block(m, d + 1);
    var e := Entry(Folder(t.id, t.title, true, []), d);
    assert Block(Apply(t, Adopt(m)), d) == [e] + b[1..] + M by {
      AdoptBlock(t, m, d);
    }
    assert b[0].node.id == t.id;
    var u, v := IdsOf([e] + b[1..] + M), IdsOf(b) + IdsOf(M);
    forall q | 0 <= q < |u| ensures u[q] == v[q] {
      if 0 < q < |b| {
        assert ([e] + b[1..] + M)[q] == b[q];
      } else if |b| <= q {
        assert ([e] + b[1..] + M)[q] == M[q - |b|];
      }
    }
  }

  /**
   * A move that drops the node somewhere keeps every id of the tree, as many times as it
   * occurred, and keeps ids unique.
   */
  lemma MoveKeepsIds(ns: seq<Node>, src: string, target: string, pos: Position)
    requires Placed(ns, src, target, pos)
    ensures multiset(Ids(Move(ns, src, target, pos))) == multiset(Ids(ns))
    ensures UniqueIds(ns) ==> UniqueIds(Move(ns, src, target, pos))
  {
    var s := Detach(ns, src);
    DetachIffPresent(ns, src);
    var k := DetachIds(ns, src);
    var j := MovedIds(ns, src, target, pos);
    var r, x := Ids(s.rest), Ids([s.moved.value]);
    SplicedMultiset(r, k, x);
    SplicedMultiset(r, j, x);
    if UniqueIds(ns) {
      UniqueOfSpliced(r, k, x);
      UniqueSpliced(r, j, x);
    }
  }
}
