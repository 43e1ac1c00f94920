/**
 * The search filter of renderTree (sidepanel.js lines 20-23, 62-66): a node matches when its
 * lower-cased title, or its lower-cased non-empty content, contains the lower-cased filter;
 * with a non-empty filter a prompt that does not match is not drawn, while folders are
 * always drawn and their children are filtered in turn.
 */
module Filter {
  import opened Text
  import opened Forest

  /** `matchesFilter` of createNodeElement. Folders carry no content. */
  predicate Matches(n: Node, filter: string) {
    var f := ToLower(filter);
    Contains(ToLower(n.title), f) || (n.Prompt? && n.content != "" && Contains(ToLower(n.content), f))
  }

  /** createNodeElement returns null for the node. */
  predicate Hidden(n: Node, filter: string) {
    filter != "" && !Matches(n, filter) && n.Prompt?
  }

  /** The empty string occurs in every string, so every node matches the empty filter. */
  lemma MatchesEmpty(n: Node)
    ensures Matches(n, "")
  {
    assert OccursAt(ToLower(n.title), ToLower(""), 0);
  }

  /** Case does not matter: a filter hides what its lower-cased form hides. */
  lemma HiddenIgnoresCase(n: Node, filter: string)
    ensures Hidden(n, filter) <==> Hidden(n, ToLower(filter))
  {
    ToLowerIdempotent(filter);
  }

  /** Only prompts are hidden, and a prompt is hidden exactly when a non-empty filter is in neither its title nor its content. */
  lemma HiddenIff(n: Node, filter: string)
    ensures Hidden(n, filter) <==>
      n.Prompt? && filter != "" &&
      !Contains(ToLower(n.title), ToLower(filter)) && !Contains(ToLower(n.content), ToLower(filter))
  {
    if n.Prompt? && n.content == "" && filter != "" {
      assert !Contains(ToLower(n.content), ToLower(filter)) by {
        assert |ToLower(n.content)| < |ToLower(filter)|;
      }
    }
  }

  /** The tree renderTree draws for the filter: hidden prompts dropped at every level. */
  function Shown(ns: seq<Node>, filter: string): seq<Node>
    decreases ns
  {
    if ns == [] then []
    else if Hidden(ns[0], filter) then Shown(ns[1..], filter)
    else [ShownIn(ns[0], filter)] + Shown(ns[1..], filter)
  }

  function ShownIn(n: Node, filter: string): (r: Node)
    ensures Strip(r) == Strip(n)
    decreases n
  {
    match n
    case Folder(i, t, o, c) => Folder(i, t, o, Shown(c, filter))
    case Prompt(_, _, _) => n
  }

  /** The entries of a flattening that are drawn, in order. */
  function Visible(es: seq<Entry>, filter: string): (r: seq<Entry>)
    ensures |r| <= |es|
    ensures forall k :: 0 <= k < |r| ==> !Hidden(r[k].node, filter)
  {
    if es == [] then []
    else if Hidden(es[0].node, filter) then Visible(es[1..], filter)
    else [es[0]] + Visible(es[1..], filter)
  }

  lemma {:induction false} VisibleConcat(a: seq<Entry>, b: seq<Entry>, filter: string)
    ensures Visible(a + b, filter) == Visible(a, filter) + Visible(b, filter)
  {
    if a == [] {
      assert a + b == b;
    } else {
      assert (a + b)[0] == a[0] && (a + b)[1..] == a[1..] + b;
      VisibleConcat(a[1..], b, filter);
    }
  }

  /**
   * What is drawn is exactly the flattening without the hidden prompts' entries: every
   * folder and every matching prompt keeps its place and its depth.
   */
  lemma {:induction false} ShownFlat(ns: seq<Node>, filter: string, d: nat)
    ensures Flat(Shown(ns, filter), d) == Visible(Flat(ns, d), filter)
    decreases ns
  {
    if ns != [] {
      var B, T := Block(ns[0], d), Flat(ns[1..], d);
      assert Flat(ns, d) == B + T;
      VisibleConcat(B, T, filter);
      ShownFlat(ns[1..], filter, d);
      ShownBlock(ns[0], filter, d);
      if !Hidden(ns[0], filter) {
        FlatCons(ShownIn(ns[0], filter), Shown(ns[1..], filter), d);
      }
    }
  }

  /** ShownFlat for one node: a hidden prompt leaves nothing, anything else its filtered block. */
  lemma {:induction false} ShownBlock(n: Node, filter: string, d: nat)
    ensures Hidden(n, filter) ==> Visible(Block(n, d), filter) == []
    ensures !Hidden(n, filter) ==> Block(ShownIn(n, filter), d) == Visible(Block(n, d), filter)
    decreases n
  {
    var e := Entry(Strip(n), d);
    assert Hidden(e.node, filter) == Hidden(n, filter);
    match n
    case Prompt(_, _, _) =>
      assert Block(n, d) == [e];
    case Folder(_, _, _, c) =>
      ShownFlat(c, filter, d + 1);
      assert Block(n, d) == [e] + Flat(c, d + 1);
      VisibleConcat([e], Flat(c, d + 1), filter);
      assert Visible([e], filter) == [e];
  }

  /** With an empty filter the whole tree is drawn. */
  lemma {:induction false} ShownAll(ns: seq<Node>)
    ensures Shown(ns, "") == ns
    decreases ns
  {
    if ns != [] {
      ShownAll(ns[1..]);
      ShownInAll(ns[0]);
      assert ns == [ns[0]] + ns[1..];
    }
  }

  lemma {:induction false} ShownInAll(n: Node)
    ensures ShownIn(n, "") == n
    decreases n
  {
    if n.Folder? {
      ShownAll(n.children);
    }
  }

  /** Filtering what is drawn by the same filter again hides nothing more. */
  lemma {:induction false} ShownIdempotent(ns: seq<Node>, filter: string)
    ensures Shown(Shown(ns, filter), filter) == Shown(ns, filter)
    decreases ns
  {
    if ns != [] {
      ShownIdempotent(ns[1..], filter);
      if !Hidden(ns[0], filter) {
        ShownInIdempotent(ns[0], filter);
        var r := [ShownIn(ns[0], filter)] + Shown(ns[1..], filter);
        assert r[0] == ShownIn(ns[0], filter) && r[1..] == Shown(ns[1..], filter);
        assert Hidden(r[0], filter) == Hidden(ns[0], filter);
      }
    }
  }

  lemma {:induction false} ShownInIdempotent(n: Node, filter: string)
    ensures ShownIn(ShownIn(n, filter), filter) == ShownIn(n, filter)
    decreases n
  {
    if n.Folder? {
      ShownIdempotent(n.children, filter);
    }
  }
}
