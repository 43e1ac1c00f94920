/**
 * Placeholder parsing of the inject flow (sidepanel.js, handleInject lines 218-232):
 * the matches of `/{{(.*?)}}/g`, the `split('|')` of each match into a name and a
 * default, and the insertion-ordered map that keeps the first default of every name.
 */
module Placeholders {
  import opened Wrappers
  import opened Text

  /** `}}` occurs in `s` at index `k`. */
  predicate ClosesAt(s: string, k: int) {
    0 <= k && k + 1 < |s| && s[k] == '}' && s[k + 1] == '}'
  }

  /** `{{` occurs in `s` at index `k`. */
  predicate OpensAt(s: string, k: int) {
    0 <= k && k + 1 < |s| && s[k] == '{' && s[k + 1] == '{'
  }

  /**
   * The lazy `(.*?)}}` tail of the pattern, tried at the start of `s`: the length of the
   * shortest prefix followed by `}}`, or None when a line terminator (which `.` does
   * not match) or the end of the text comes first.
   */
  function CloseLen(s: string): (r: Option<nat>)
    ensures r.Some? ==> ClosesAt(s, r.value)
    ensures r.Some? ==> forall k :: 0 <= k < r.value ==> !IsLineTerminator(s[k]) && !ClosesAt(s, k)
    ensures r.None? ==> forall j :: ClosesAt(s, j) ==> exists k :: 0 <= k < j && IsLineTerminator(s[k])
    decreases |s|
  {
    if ClosesAt(s, 0) then Some(0)
    else if s == [] || IsLineTerminator(s[0]) then None
    else
      var t := s[1..];
      assert forall k :: ClosesAt(t, k) <==> ClosesAt(s, k + 1);
      match CloseLen(t)
      case Some(j) => Some(j + 1)
      case None =>
        assert forall j :: ClosesAt(s, j) ==> j >= 1 && ClosesAt(t, j - 1);
        None
  }

  /** Text that `(.*?)` can capture between `{{` and `}}`. */
  ghost predicate IsRawText(r: string) {
    && (forall k :: 0 <= k < |r| ==> !IsLineTerminator(r[k]))
    && (forall k :: !ClosesAt(r, k))
    && (r == [] || r[|r| - 1] != '}')
  }

  /** The captures `match[1]` of `[...content.matchAll(/{{(.*?)}}/g)]`, in text order. */
  function Scan(s: string): (raws: seq<string>)
    ensures forall i :: 0 <= i < |raws| ==> IsRawText(raws[i])
    decreases |s|
  {
    if |s| < 2 then []
    else if OpensAt(s, 0) then
      match CloseLen(s[2..])
      case Some(j) =>
        var raw := s[2..2 + j];
        assert forall k :: ClosesAt(raw, k) ==> ClosesAt(s[2..], k);
        assert raw != [] ==> raw[|raw| - 1] == s[2..][j - 1] && !ClosesAt(s[2..], j - 1);
        [raw] + Scan(s[2 + j + 2..])
      case None => Scan(s[1..])
    else Scan(s[1..])
  }

  /** The lazy tail closes exactly at the end of a raw text. */
  lemma {:induction false} CloseLenAfterRaw(r: string, rest: string)
    requires IsRawText(r)
    ensures CloseLen(r + "}}" + rest) == Some(|r|)
    decreases |r|
  {
    var s := r + "}}" + rest;
    if r == [] {
      assert ClosesAt(s, 0);
    } else {
      assert !ClosesAt(s, 0) by {
        if |r| == 1 {
          assert s[0] == r[0] && r[0] != '}';
        } else {
          assert !ClosesAt(r, 0);
        }
      }
      assert IsRawText(r[1..]) by {
        forall k ensures !ClosesAt(r[1..], k) {
          assert ClosesAt(r[1..], k) ==> ClosesAt(r, k + 1);
        }
      }
      assert s[1..] == r[1..] + "}}" + rest;
      CloseLenAfterRaw(r[1..], rest);
    }
  }

  /** A placeholder `{{r}}` is found at the front of the text and scanning resumes after it. */
  lemma ScanPlaceholder(r: string, rest: string)
    requires IsRawText(r)
    ensures Scan("{{" + r + "}}" + rest) == [r] + Scan(rest)
  {
    var s := "{{" + r + "}}" + rest;
    assert OpensAt(s, 0);
    assert s[2..] == r + "}}" + rest;
    CloseLenAfterRaw(r, rest);
    assert s[2..2 + |r|] == r;
    assert s[2 + |r| + 2..] == rest;
  }

  /** Text without `{` starts no placeholder: scanning skips over it. */
  lemma {:induction false} ScanSkipsPlainText(a: string, rest: string)
    requires '{' !in a
    ensures Scan(a + rest) == Scan(rest)
  {
    if a == [] {
      assert a + rest == rest;
    } else {
      var s := a + rest;
      assert s[0] == a[0];
      assert s[1..] == a[1..] + rest;
      ScanSkipsPlainText(a[1..], rest);
      if |s| >= 2 {
        assert !OpensAt(s, 0);
        assert Scan(s) == Scan(s[1..]);
        assert Scan(s[1..]) == Scan(rest);
      } else {
        assert Scan(s) == [];
        assert rest == [];
        assert Scan(rest) == [];
      }
    }
  }

  /** One declared variable: `uniqueVarsMap` entry `name -> defaultValue || ""`. */
  datatype Decl = Decl(name: string, default: string)

  /** Index of the first `|` in `s`, or `|s|` when there is none. */
  function BarIndex(s: string): (i: nat)
    ensures i <= |s|
    ensures '|' !in s[..i]
    ensures forall k :: 0 <= k < i ==> s[k] != '|'
    ensures i < |s| ==> s[i] == '|'
  {
    if s == [] then 0
    else if s[0] == '|' then 0
    else
      var i := 1 + BarIndex(s[1..]);
      assert s[..i] == [s[0]] + s[1..][..i - 1];
      i
  }

  /**
   * `const [name, defaultValue] = raw.split('|').map(s => s.trim())` followed by
   * `defaultValue || ""`: the trimmed first piece and the trimmed second piece, or ""
   * when there is no `|`. Pieces after the second are dropped.
   */
  function SplitRaw(raw: string): (d: Decl)
    ensures IsTrimmed(d.name) && IsTrimmed(d.default)
    ensures '|' !in d.name && '|' !in d.default
  {
    var b := BarIndex(raw);
    TrimAvoids(raw[..b], '|');
    if b == |raw| then Decl(Trim(raw[..b]), "")
    else
      var rest := raw[b + 1..];
      TrimAvoids(rest[..BarIndex(rest)], '|');
      Decl(Trim(raw[..b]), Trim(rest[..BarIndex(rest)]))
  }

  /** The first `|` is at `i` when nothing before `i` is one. */
  lemma BarIndexAt(s: string, i: nat)
    requires i <= |s| && (i < |s| ==> s[i] == '|')
    requires forall k :: 0 <= k < i ==> s[k] != '|'
    ensures BarIndex(s) == i
  {
  }

  /** Without `|`, the whole (trimmed) capture is the name and the default is "". */
  lemma SplitRawNameOnly(n: string)
    requires '|' !in n
    ensures SplitRaw(n) == Decl(Trim(n), "")
  {
    BarIndexAt(n, |n|);
    assert n[..|n|] == n;
  }

  /** `name|default`, optionally followed by more `|`-separated pieces that are ignored. */
  lemma SplitRawWithDefault(n: string, d: string, more: string)
    requires '|' !in n && '|' !in d
    requires more == [] || more[0] == '|'
    ensures SplitRaw(n + "|" + d + more) == Decl(Trim(n), Trim(d))
  {
    var raw := n + "|" + d + more;
    assert forall k :: 0 <= k < |n| ==> raw[k] == n[k];
    BarIndexAt(raw, |n|);
    assert raw[..|n|] == n;
    var rest := raw[|n| + 1..];
    assert rest == d + more;
    assert forall k :: 0 <= k < |d| ==> rest[k] == d[k];
    BarIndexAt(rest, |d|);
    assert rest[..|d|] == d;
  }

  /** `matches.map(m => split(m[1]))`. */
  function Pairs(raws: seq<string>): (ps: seq<Decl>)
    ensures |ps| == |raws|
    ensures forall i :: 0 <= i < |raws| ==> ps[i] == SplitRaw(raws[i])
  {
    seq(|raws|, i requires 0 <= i < |raws| => SplitRaw(raws[i]))
  }

  function Names(ds: seq<Decl>): (ns: seq<string>)
    ensures |ns| == |ds|
    ensures forall i :: 0 <= i < |ds| ==> ns[i] == ds[i].name
  {
    seq(|ds|, i requires 0 <= i < |ds| => ds[i].name)
  }

  /** Position of the first pair named `name`, or `|ps|` when there is none. */
  function FirstIndex(ps: seq<Decl>, name: string): (k: nat)
    ensures k <= |ps|
    ensures k < |ps| ==> ps[k].name == name
    ensures forall i :: 0 <= i < k ==> ps[i].name != name
  {
    if ps == [] then 0
    else if ps[0].name == name then 0
    else 1 + FirstIndex(ps[1..], name)
  }

  /** Every entry of `ds` is the first pair of `ps` with its name, default included. */
  ghost predicate EntriesAreFirst(ps: seq<Decl>, ds: seq<Decl>) {
    forall k :: 0 <= k < |ds| ==>
      FirstIndex(ps, ds[k].name) < |ps| && ps[FirstIndex(ps, ds[k].name)] == ds[k]
  }

  /** Every name of `ps` has an entry in `ds`. */
  ghost predicate AllDeclared(ps: seq<Decl>, ds: seq<Decl>) {
    forall m :: 0 <= m < |ps| ==> ps[m].name in Names(ds)
  }

  /** The entries of `ds` are in order of first appearance in `ps`. */
  ghost predicate InFirstOrder(ps: seq<Decl>, ds: seq<Decl>) {
    forall k, l :: 0 <= k < l < |ds| ==> FirstIndex(ps, ds[k].name) < FirstIndex(ps, ds[l].name)
  }

  /**
   * `ds` is what the `forEach` over the pairs `ps` leaves in `uniqueVarsMap`: every
   * entry is the first pair with its name (so the first default wins), every name
   * of `ps` has an entry, and entries are in order of first appearance.
   */
  ghost predicate IsDeclarationList(ps: seq<Decl>, ds: seq<Decl>) {
    EntriesAreFirst(ps, ds) && AllDeclared(ps, ds) && InFirstOrder(ps, ds)
  }

  /** Looking one pair further changes no first position, except for a new name. */
  lemma {:induction false} FirstIndexAppend(ps: seq<Decl>, p: Decl, name: string)
    ensures FirstIndex(ps, name) < |ps| ==> FirstIndex(ps + [p], name) == FirstIndex(ps, name)
    ensures FirstIndex(ps, name) == |ps| && p.name == name ==> FirstIndex(ps + [p], name) == |ps|
    ensures FirstIndex(ps, name) == |ps| && p.name != name ==> FirstIndex(ps + [p], name) == |ps| + 1
  {
    if ps != [] {
      assert (ps + [p])[1..] == ps[1..] + [p];
      FirstIndexAppend(ps[1..], p, name);
    }
  }

  /** The declared names are pairwise distinct. */
  lemma DeclaredNamesDistinct(ps: seq<Decl>, ds: seq<Decl>, k: nat, l: nat)
    requires IsDeclarationList(ps, ds)
    requires k < l < |ds|
    ensures ds[k].name != ds[l].name
  {
    assert FirstIndex(ps, ds[k].name) < FirstIndex(ps, ds[l].name);
  }

  /** A further pair leaves the first positions of the declared names where they were. */
  lemma FirstIndicesKept(ps: seq<Decl>, d: Decl, ds: seq<Decl>)
    requires EntriesAreFirst(ps, ds)
    ensures forall k :: 0 <= k < |ds| ==> FirstIndex(ps + [d], ds[k].name) == FirstIndex(ps, ds[k].name)
  {
    forall k | 0 <= k < |ds| ensures FirstIndex(ps + [d], ds[k].name) == FirstIndex(ps, ds[k].name) {
      FirstIndexAppend(ps, d, ds[k].name);
    }
  }

  /** A pair whose name is already declared adds nothing. */
  lemma CollectKnown(ps: seq<Decl>, d: Decl, ds: seq<Decl>)
    requires IsDeclarationList(ps, ds)
    requires d.name in Names(ds)
    ensures IsDeclarationList(ps + [d], ds)
  {
    FirstIndicesKept(ps, d, ds);
    var ps' := ps + [d];
    assert EntriesAreFirst(ps', ds) by {
      forall k | 0 <= k < |ds| ensures FirstIndex(ps', ds[k].name) < |ps'| && ps'[FirstIndex(ps', ds[k].name)] == ds[k] {
        assert ps'[FirstIndex(ps, ds[k].name)] == ps[FirstIndex(ps, ds[k].name)];
      }
    }
    assert AllDeclared(ps', ds) by {
      forall m | 0 <= m < |ps'| ensures ps'[m].name in Names(ds) {
        if m < |ps| {
          assert ps'[m] == ps[m];
        }
      }
    }
  }

  /** A pair with a new name is declared last, with its own default. */
  lemma CollectNew(ps: seq<Decl>, d: Decl, ds: seq<Decl>)
    requires IsDeclarationList(ps, ds)
    requires d.name !in Names(ds)
    ensures IsDeclarationList(ps + [d], ds + [d])
  {
    FirstIndicesKept(ps, d, ds);
    var ps', ds' := ps + [d], ds + [d];
    assert FirstIndex(ps, d.name) == |ps| by {
      assert AllDeclared(ps, ds);
    }
    FirstIndexAppend(ps, d, d.name);
    assert Names(ds') == Names(ds) + [d.name];
    assert EntriesAreFirst(ps', ds') by {
      forall k | 0 <= k < |ds'| ensures FirstIndex(ps', ds'[k].name) < |ps'| && ps'[FirstIndex(ps', ds'[k].name)] == ds'[k] {
        if k < |ds| {
          assert ds'[k] == ds[k];
          assert ps'[FirstIndex(ps, ds[k].name)] == ps[FirstIndex(ps, ds[k].name)];
        }
      }
    }
    assert AllDeclared(ps', ds') by {
      forall m | 0 <= m < |ps'| ensures ps'[m].name in Names(ds') {
        if m < |ps| {
          assert ps'[m] == ps[m];
          assert ps[m].name in Names(ds);
        }
      }
    }
    assert InFirstOrder(ps', ds') by {
      forall k, l | 0 <= k < l < |ds'| ensures FirstIndex(ps', ds'[k].name) < FirstIndex(ps', ds'[l].name) {
        assert ds'[k] == ds[k];
        if l < |ds| {
          assert ds'[l] == ds[l];
        }
      }
    }
  }

  /** One more capture adds its split pair at the end. */
  lemma PairsSnoc(raws: seq<string>, i: nat)
    requires i < |raws|
    ensures Pairs(raws[..i + 1]) == Pairs(raws[..i]) + [SplitRaw(raws[i])]
  {
    var a, b := Pairs(raws[..i + 1]), Pairs(raws[..i]) + [SplitRaw(raws[i])];
    forall k | 0 <= k < |a| ensures a[k] == b[k] {
      assert raws[..i + 1][k] == raws[k];
    }
  }

  /**
   * The placeholder-collecting loop of handleInject: for each match, split it and add
   * the name with its default unless the map already has that name.
   */
  method CollectVariables(content: string) returns (decls: seq<Decl>)
    ensures IsDeclarationList(Pairs(Scan(content)), decls)
  {
    var matches := Scan(content);
    decls := [];
    var i := 0;
    while i < |matches|
      invariant 0 <= i <= |matches|
      invariant IsDeclarationList(Pairs(matches[..i]), decls)
    {
      var d := SplitRaw(matches[i]);
      PairsSnoc(matches, i);
      if d.name !in Names(decls) {
        CollectNew(Pairs(matches[..i]), d, decls);
        decls := decls + [d];
      } else {
        CollectKnown(Pairs(matches[..i]), d, decls);
      }
      i := i + 1;
    }
    assert matches[..i] == matches;
  }
}
