/**
 * The `remove` closure shared by moveNode (sidepanel.js lines 165-177) and deleteNode
 * (lines 450-458): look for the id on the current level first, splice it out there, and
 * otherwise try each folder's children in turn.
 */
module Removal {
  import opened Wrappers
  import opened Forest
  import opened Lookup

  /** The forest after the removal, and the node taken out (None when the id is not found). */
  datatype Split = Split(rest: seq<Node>, moved: Option<Node>)

  /** `remove(ns)` for one id, with the node it takes out. */
  function Detach(ns: seq<Node>, id: string): (s: Split)
    ensures s.moved.None? ==> s.rest == ns
    ensures s.moved.Some? ==> s.moved.value.id == id
    decreases ns, 1
  {
    var i := LevelIndex(ns, id);
    if i < |ns| then Split(ns[..i] + ns[i + 1..], Some(ns[i]))
    else DetachBelow(ns, id)
  }

  /** The loop over the level's folders, tried in order until one of them removes the id. */
  function DetachBelow(ns: seq<Node>, id: string): (s: Split)
    ensures s.moved.None? ==> s.rest == ns
    ensures s.moved.Some? ==> s.moved.value.id == id
    decreases ns, 0
  {
    if ns == [] then Split([], None)
    else
      var s := match ns[0]
        case Folder(i, t, o, c) =>
          var s := Detach(c, id);
          if s.moved.Some? then Split([Folder(i, t, o, s.rest)], s.moved) else Split([], None)
        case Prompt(_, _, _) => Split([], None);
      if s.moved.Some? then Split(s.rest + ns[1..], s.moved)
      else
        var s' := DetachBelow(ns[1..], id);
        Split([ns[0]] + s'.rest, s'.moved)
  }

  /** deleteNode's removal: the tree without the node carrying `id`. */
  function Delete(ns: seq<Node>, id: string): seq<Node> {
    Detach(ns, id).rest
  }

  /**
   * The removal finds nothing exactly when `id` does not occur; otherwise it cuts the removed
   * node's whole block out of the flattening and leaves every other entry in order.
   */
  lemma {:induction false} DetachFlat(ns: seq<Node>, id: string, d: nat) returns (k: nat, dd: nat)
    ensures var s := Detach(ns, id); var F := Flat(ns, d); var R := Flat(s.rest, d);
      (s.moved.None? <==> Absent(F, id)) &&
      (s.moved.Some? ==> k <= |R| && F == Spliced(R, k, Block(s.moved.value, dd)))
    decreases ns, 2
  {
    var i := LevelIndex(ns, id);
    if i < |ns| {
      var a, b := ns[..i], ns[i + 1..];
      var A, B, X := Flat(a, d), Flat(b, d), Block(ns[i], d);
      assert Flat(ns, d) == A + (X + B) by {
        assert ns == a + ([ns[i]] + b);
        FlatConcat(a, [ns[i]] + b, d);
        FlatCons(ns[i], b, d);
      }
      assert Flat(Detach(ns, id).rest, d) == A + B by {
        FlatConcat(a, b, d);
      }
      k, dd := |A|, d;
      assert A + (X + B) == Spliced(A + B, k, X) by {
        assert (A + B)[..k] == A && (A + B)[k..] == B;
      }
      SplicedBlockPresent(A + B, k, ns[i], d);
    } else {
      k, dd := DetachBelowFlat(ns, id, d);
      var F := Flat(ns, d);
      if Detach(ns, id).moved.None? {
        FlatRoots(ns, d);
        forall j | 0 <= j < |F| ensures F[j].node.id != id {
        }
      } else {
        SplicedBlockPresent(Flat(Detach(ns, id).rest, d), k, Detach(ns, id).moved.value, dd);
      }
    }
  }

  /**
   * DetachFlat for the loop over the folders: when it finds nothing, every occurrence of
   * `id` is a root.
   */
  lemma {:induction false} DetachBelowFlat(ns: seq<Node>, id: string, d: nat) returns (k: nat, dd: nat)
    ensures var s := DetachBelow(ns, id); var F := Flat(ns, d); var R := Flat(s.rest, d);
      (s.moved.None? ==> OnlyAtDepth(F, id, d)) &&
      (s.moved.Some? ==> k <= |R| && F == Spliced(R, k, Block(s.moved.value, dd)))
    decreases ns, 1
  {
    k, dd := 0, d;
    if ns != [] {
      match ns[0]
      case Folder(i, t, o, c) =>
        var s := Detach(c, id);
        var kc, dc := DetachFlat(c, id, d + 1);
        if s.moved.Some? {
          k, dd := InFirstFolder(ns, id, d, kc, dc);
        } else {
          BelowFirst(ns, id, d);
          k, dd := BelowRest(ns, id, d);
        }
      case Prompt(_, _, _) =>
        BelowFirst(ns, id, d);
        k, dd := BelowRest(ns, id, d);
    }
  }

  /** The removal happening inside the first folder of the level. */
  lemma InFirstFolder(ns: seq<Node>, id: string, d: nat, kc: nat, dc: nat) returns (k: nat, dd: nat)
    requires ns != [] && ns[0].Folder?
    requires var s := Detach(ns[0].children, id);
      s.moved.Some? && kc <= |Flat(s.rest, d + 1)| &&
      Flat(ns[0].children, d + 1) == Spliced(Flat(s.rest, d + 1), kc, Block(s.moved.value, dc))
    ensures var s := DetachBelow(ns, id); var F := Flat(ns, d); var R := Flat(s.rest, d);
      s.moved.Some? && k <= |R| && F == Spliced(R, k, Block(s.moved.value, dd))
  {
    var s := Detach(ns[0].children, id);
    var e := Entry(Strip(ns[0]), d);
    var T := Flat(ns[1..], d);
    var X := Block(s.moved.value, dc);
    var f := ns[0].(children := s.rest);
    var C := Flat(s.rest, d + 1);
    assert DetachBelow(ns, id) == Split([f] + ns[1..], s.moved);
    assert Flat([f] + ns[1..], d) == [e] + C + T by {
      FlatCons(f, ns[1..], d);
      assert Block(f, d) == [e] + C;
    }
    assert Flat(ns, d) == [e] + Spliced(C, kc, X) + T by {
      assert Flat(ns, d) == Block(ns[0], d) + T;
    }
    SplicedWrap([e], C, kc, X, T);
    k, dd := 1 + kc, dc;
  }

  /** When the first node's children do not hold `id`, its block holds it at most at its root. */
  lemma BelowFirst(ns: seq<Node>, id: string, d: nat)
    requires ns != []
    requires ns[0].Folder? ==> Detach(ns[0].children, id).moved.None?
    requires ns[0].Folder? ==> (Detach(ns[0].children, id).moved.None? <==> Absent(Flat(ns[0].children, d + 1), id))
    ensures OnlyAtDepth(Block(ns[0], d), id, d)
  {
    var B := Block(ns[0], d);
    match ns[0]
    case Folder(_, _, _, c) =>
      assert B == [Entry(Strip(ns[0]), d)] + Flat(c, d + 1);
    case Prompt(_, _, _) =>
  }

  /** The loop moving on to the rest of the level once the first node yields nothing. */
  lemma {:induction false} BelowRest(ns: seq<Node>, id: string, d: nat) returns (k: nat, dd: nat)
    requires ns != [] && OnlyAtDepth(Block(ns[0], d), id, d)
    requires ns[0].Folder? ==> Detach(ns[0].children, id).moved.None?
    ensures var s := DetachBelow(ns, id); var F := Flat(ns, d); var R := Flat(s.rest, d);
      (s.moved.None? ==> OnlyAtDepth(F, id, d)) &&
      (s.moved.Some? ==> k <= |R| && F == Spliced(R, k, Block(s.moved.value, dd)))
    decreases ns, 0
  {
    var B := Block(ns[0], d);
    var T := Flat(ns[1..], d);
    var s' := DetachBelow(ns[1..], id);
    assert DetachBelow(ns, id) == Split([ns[0]] + s'.rest, s'.moved);
    var kt, dt := DetachBelowFlat(ns[1..], id, d);
    k, dd := |B| + kt, dt;
    assert Flat(ns, d) == B + T;
    if s'.moved.Some? {
      assert Flat([ns[0]] + s'.rest, d) == B + Flat(s'.rest, d) by {
        FlatCons(ns[0], s'.rest, d);
      }
      SplicedPrepend(B, Flat(s'.rest, d), kt, Block(s'.moved.value, dt));
    } else {
      OnlyAtDepthConcat(B, T, id, d);
    }
  }
}
