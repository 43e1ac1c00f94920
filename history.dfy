/**
 * The per-variable history of recently used values (sidepanel.js lines 265-276 and the
 * chip delete at line 342): a map from variable name to its most recent values, newest
 * first, at most five of them.
 */
module History {
  import opened Text

  /** How many values saveToHistory keeps per variable. */
  const Capacity: nat := 5

  type Histories = map<string, seq<string>>

  /** Every list is duplicate-free and within capacity: what saveToHistory maintains. */
  predicate WellFormed(h: Histories) {
    forall n :: n in h ==> Distinct(h[n]) && |h[n]| <= Capacity
  }

  /** The list with every occurrence of `v` filtered out, the rest kept in order. */
  function Without(l: seq<string>, v: string): (r: seq<string>)
    ensures |r| <= |l|
    ensures multiset(r)[v] == 0
    ensures forall x :: x != v ==> multiset(r)[x] == multiset(l)[x]
  {
    if l == [] then []
    else
      assert l == [l[0]] + l[1..];
      (if l[0] == v then [] else [l[0]]) + Without(l[1..], v)
  }

  /** Filtering a value that is not there changes nothing. */
  lemma {:induction false} WithoutAbsent(l: seq<string>, v: string)
    requires v !in l
    ensures Without(l, v) == l
  {
    if l != [] {
      WithoutAbsent(l[1..], v);
    }
  }

  /** Filtering keeps the list duplicate-free. */
  lemma {:induction false} WithoutDistinct(l: seq<string>, v: string)
    requires Distinct(l)
    ensures Distinct(Without(l, v))
  {
    if l != [] {
      WithoutDistinct(l[1..], v);
      var t := Without(l[1..], v);
      assert l[0] !in l[1..] by {
        forall k | 0 <= k < |l[1..]| ensures l[1..][k] != l[0] {
          assert l[1..][k] == l[k + 1];
        }
      }
      assert multiset(t)[l[0]] == 0 by {
        if l[0] != v {
          assert multiset(l[1..])[l[0]] == 0;
        }
      }
    }
  }

  /**
   * The list after saveToHistory records `v`: the old entries without `v`, with `v`
   * put in front, cut to the capacity.
   */
  function Promoted(l: seq<string>, v: string): (r: seq<string>)
    ensures 1 <= |r| <= Capacity && r[0] == v
    ensures v !in r[1..]
    ensures |r| == if 1 + |Without(l, v)| < Capacity then 1 + |Without(l, v)| else Capacity
    ensures r[1..] == Without(l, v)[..|r| - 1]
  {
    var f := [v] + Without(l, v);
    assert f[1..] == Without(l, v);
    if |f| > Capacity then f[..Capacity] else f
  }

  /** Recording keeps a duplicate-free list duplicate-free. */
  lemma PromotedDistinct(l: seq<string>, v: string)
    requires Distinct(l)
    ensures Distinct(Promoted(l, v))
  {
    var r := Promoted(l, v);
    var w := Without(l, v);
    WithoutDistinct(l, v);
    forall i, j | 0 <= i < j < |r| ensures r[i] != r[j] {
      assert r[j] == r[1..][j - 1] == w[j - 1];
      if i == 0 {
        assert r[j] in r[1..];
      } else {
        assert r[i] == w[i - 1];
      }
    }
  }

  /** Recording the newest value again changes nothing. */
  lemma PromotedIdempotent(l: seq<string>, v: string)
    ensures Promoted(Promoted(l, v), v) == Promoted(l, v)
  {
    var r := Promoted(l, v);
    assert r == [v] + r[1..];
    WithoutAbsent(r[1..], v);
    assert Without(r, v) == r[1..] by {
      assert Without(r, v) == Without(r[1..], v);
    }
  }

  /**
   * Re-recording a value already present in a well-formed list only moves it to the front:
   * the length and the set of values stay the same.
   */
  lemma PromotedPresent(l: seq<string>, v: string)
    requires Distinct(l) && |l| <= Capacity && v in l
    ensures |Promoted(l, v)| == |l|
    ensures forall x :: x in Promoted(l, v) <==> x in l
  {
    var w := Without(l, v);
    var r := Promoted(l, v);
    assert multiset(l)[v] == 1 by { DistinctCount(l, v); }
    assert |w| == |l| - 1 by {
      var ml := multiset(l)[v := 0];
      assert multiset(w) == ml;
      assert |ml| == |multiset(l)| - 1;
    }
    assert r == [v] + w;
    forall x ensures x in r <==> x in l {
      assert x in r <==> x == v || x in w;
      assert x in w <==> x != v && x in multiset(l);
    }
  }

  /** A value occurring in a duplicate-free list occurs exactly once. */
  lemma {:induction false} DistinctCount(l: seq<string>, v: string)
    requires Distinct(l) && v in l
    ensures multiset(l)[v] == 1
  {
    assert l == [l[0]] + l[1..];
    assert Distinct(l[1..]) by {
      forall i, j | 0 <= i < j < |l[1..]| ensures l[1..][i] != l[1..][j] {
        assert l[1..][i] == l[i + 1] && l[1..][j] == l[j + 1];
      }
    }
    if l[0] == v {
      assert v !in l[1..] by {
        forall k | 0 <= k < |l[1..]| ensures l[1..][k] != v {
          assert l[1..][k] == l[k + 1];
        }
      }
    } else {
      DistinctCount(l[1..], v);
    }
  }

  /** The list recorded for `name` before the call: none is an empty one. */
  function ListOf(h: Histories, name: string): seq<string> {
    if name in h then h[name] else []
  }

  /** saveToHistory: `v` goes to the front of `name`'s list; no other name's list changes. */
  function Record(h: Histories, name: string, v: string): (r: Histories)
    ensures r.Keys == h.Keys + {name}
    ensures r[name] == Promoted(ListOf(h, name), v)
    ensures forall n :: n in h && n != name ==> r[n] == h[n]
  {
    h[name := Promoted(ListOf(h, name), v)]
  }

  /** The value recorded last for a name is first in its list, and there only once. */
  lemma RecordNewestFirst(h: Histories, name: string, v: string)
    ensures Record(h, name, v)[name][0] == v
    ensures multiset(Record(h, name, v)[name])[v] == 1
  {
    var r := Record(h, name, v)[name];
    assert r == [r[0]] + r[1..];
    assert multiset(r[1..])[v] == 0;
  }

  /** saveToHistory keeps every list duplicate-free and within capacity. */
  lemma RecordWellFormed(h: Histories, name: string, v: string)
    requires WellFormed(h)
    ensures WellFormed(Record(h, name, v))
  {
    assert Distinct(ListOf(h, name));
    PromotedDistinct(ListOf(h, name), v);
  }

  /** The chip delete: the entry at index `i` is spliced out; an index past the end removes nothing. */
  function RemoveAt(l: seq<string>, i: nat): (r: seq<string>)
    ensures i < |l| ==> |r| == |l| - 1
    ensures i < |l| ==> forall k :: 0 <= k < i ==> r[k] == l[k]
    ensures i < |l| ==> forall k :: i <= k < |r| ==> r[k] == l[k + 1]
    ensures |l| <= i ==> r == l
  {
    if i < |l| then l[..i] + l[i + 1..] else l
  }

  /** Putting the removed entry back at its index gives the list back. */
  lemma RemoveAtInverse(l: seq<string>, i: nat)
    requires i < |l|
    ensures RemoveAt(l, i)[..i] + [l[i]] + RemoveAt(l, i)[i..] == l
  {
    var r := RemoveAt(l, i);
    var b := r[..i] + [l[i]] + r[i..];
    assert |b| == |l|;
    forall k | 0 <= k < |l| ensures b[k] == l[k] {
      if k < i {
        assert b[k] == r[k];
      } else if k > i {
        assert b[k] == r[k - 1];
      }
    }
  }

  /** In a duplicate-free list the removed value is gone and the rest stays duplicate-free. */
  lemma RemoveAtDistinct(l: seq<string>, i: nat)
    requires Distinct(l) && i < |l|
    ensures Distinct(RemoveAt(l, i)) && l[i] !in RemoveAt(l, i)
  {
    var r := RemoveAt(l, i);
    forall a, b | 0 <= a < b < |r| ensures r[a] != r[b] {
      var a' := if a < i then a else a + 1;
      var b' := if b < i then b else b + 1;
      assert r[a] == l[a'] && r[b] == l[b'];
    }
    forall k | 0 <= k < |r| ensures r[k] != l[i] {
      var k' := if k < i then k else k + 1;
      assert r[k] == l[k'];
    }
  }

  /**
   * Deleting chip `i` of `name`'s list. Chips are only drawn for a name with a list, so a
   * name without one changes nothing.
   */
  function DropEntry(h: Histories, name: string, i: nat): (r: Histories)
    ensures r.Keys == h.Keys
    ensures name in h ==> r[name] == RemoveAt(h[name], i)
    ensures forall n :: n in h && n != name ==> r[n] == h[n]
  {
    if name in h then h[name := RemoveAt(h[name], i)] else h
  }

  /** Deleting a chip keeps every list duplicate-free and within capacity. */
  lemma DropEntryWellFormed(h: Histories, name: string, i: nat)
    requires WellFormed(h)
    ensures WellFormed(DropEntry(h, name, i))
  {
    if name in h && i < |h[name]| {
      RemoveAtDistinct(h[name], i);
    }
  }
}
