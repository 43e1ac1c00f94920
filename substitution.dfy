/**
 * Substitution of one resolved variable (sidepanel.js lines 245-246):
 * `content.replace(new RegExp(`{{${varName}(\\|.*?)?}}`, 'g'), value)`, with the
 * name matched literally and the value inserted literally.
 */
module Substitution {
  import opened Wrappers
  import opened Text
  import opened Placeholders

  /** How a placeholder for `name` is written: `{{name}}` or `{{name|default}}`. */
  function Spelling(name: string, default: Option<string>): string {
    match default
    case None => "{{" + name + "}}"
    case Some(d) => "{{" + name + "|" + d + "}}"
  }

  /**
   * The length of the match of `{{name(\|.*?)?}}` at the start of `s`, if any. The
   * optional group is greedy, so it is tried first, and its lazy `.*?` stops at the
   * first `}}`; without a `|` the name must be followed by `}}` directly.
   */
  function MatchLen(s: string, name: string): (r: Option<nat>)
    ensures r.Some? ==> |name| + 4 <= r.value <= |s|
    ensures r.Some? ==> s[..|name| + 2] == "{{" + name
  {
    var open := "{{" + name;
    if |s| < |open| || s[..|open|] != open then None
    else
      var t := s[|open|..];
      if t != [] && t[0] == '|' then
        match CloseLen(t[1..])
        case Some(j) => Some(|open| + 1 + j + 2)
        case None => None
      else if ClosesAt(t, 0) then Some(|open| + 2)
      else None
  }

  /** Every match in `s` replaced by `value`, scanning left to right without overlaps. */
  function Substitute(s: string, name: string, value: string): string
    decreases |s|
  {
    if s == [] then []
    else
      match MatchLen(s, name)
      case Some(n) => value + Substitute(s[n..], name, value)
      case None => [s[0]] + Substitute(s[1..], name, value)
  }

  /** Text without any `{{name` is left exactly as it is. */
  lemma {:induction false} SubstituteWithoutOccurrence(s: string, name: string, value: string)
    requires !Contains(s, "{{" + name)
    ensures Substitute(s, name, value) == s
    decreases |s|
  {
    if s != [] {
      var open := "{{" + name;
      assert MatchLen(s, name).None? by {
        if MatchLen(s, name).Some? {
          assert OccursAt(s, open, 0);
        }
      }
      assert !Contains(s[1..], open) by {
        if Contains(s[1..], open) {
          var i :| 0 <= i <= |s[1..]| && OccursAt(s[1..], open, i);
          assert s[1..][i..i + |open|] == s[i + 1..i + 1 + |open|];
          assert OccursAt(s, open, i + 1);
        }
      }
      SubstituteWithoutOccurrence(s[1..], name, value);
    }
  }

  /** Text free of `{` is never changed. */
  lemma SubstitutePlainText(s: string, name: string, value: string)
    requires '{' !in s
    ensures Substitute(s, name, value) == s
  {
    var open := "{{" + name;
    forall i | 0 <= i <= |s| ensures !OccursAt(s, open, i) {
      if i + |open| <= |s| {
        assert s[i..i + |open|][0] == s[i];
      }
    }
    SubstituteWithoutOccurrence(s, name, value);
  }

  /** A placeholder for `name` is matched in full at the front of the text. */
  lemma MatchLenOfSpelling(name: string, default: Option<string>, rest: string)
    requires default.Some? ==> IsRawText(default.value)
    ensures MatchLen(Spelling(name, default) + rest, name) == Some(|Spelling(name, default)|)
  {
    var p := Spelling(name, default);
    var s := p + rest;
    var open := "{{" + name;
    assert s[..|open|] == open;
    var t := s[|open|..];
    match default
    case None =>
      assert t == "}}" + rest;
      assert ClosesAt(t, 0);
    case Some(d) =>
      assert t == "|" + d + "}}" + rest;
      assert t[1..] == d + "}}" + rest;
      CloseLenAfterRaw(d, rest);
  }

  /** A placeholder for `name` at the front of the text becomes `value`. */
  lemma SubstituteSpelling(name: string, default: Option<string>, rest: string, value: string)
    requires default.Some? ==> IsRawText(default.value)
    ensures Substitute(Spelling(name, default) + rest, name, value)
            == value + Substitute(rest, name, value)
  {
    var p := Spelling(name, default);
    MatchLenOfSpelling(name, default, rest);
    assert (p + rest)[|p|..] == rest;
  }

  /**
   * Every match is a placeholder for `name`, written `{{name}}` or `{{name|d}}` with a default
   * `d` the placeholder scan can capture; with MatchLenOfSpelling, the matches are exactly
   * these spellings.
   */
  lemma MatchLenSpelled(s: string, name: string) returns (d: Option<string>)
    requires MatchLen(s, name).Some?
    ensures d.Some? ==> IsRawText(d.value)
    ensures s[..MatchLen(s, name).value] == Spelling(name, d)
  {
    var open := "{{" + name;
    var t := s[|open|..];
    var n := MatchLen(s, name).value;
    if t != [] && t[0] == '|' {
      var u := t[1..];
      var j := CloseLen(u).value;
      CloseLenCaptures(u);
      d := Some(u[..j]);
      SlicedDefault(s, name, j);
    } else {
      d := None;
      SlicedBare(s, name);
    }
  }

  /** A prefix `{{name|`, `j` more characters and `}}` spells a placeholder with that default. */
  lemma SlicedDefault(s: string, name: string, j: nat)
    requires |name| + 5 + j <= |s| && s[..|name| + 2] == "{{" + name && s[|name| + 2] == '|'
    requires ClosesAt(s[|name| + 3..], j)
    ensures s[..|name| + 5 + j] == Spelling(name, Some(s[|name| + 3..][..j]))
  {
    var m := |name| + 3;
    var p := Spelling(name, Some(s[m..][..j]));
    assert |p| == |name| + 5 + j;
    forall k | 0 <= k < |p| ensures s[k] == p[k] {
      if k < m - 1 {
        assert s[k] == s[..m - 1][k];
      } else if m <= k < m + j {
        assert s[k] == s[m..][..j][k - m];
      } else if m + j <= k {
        assert s[k] == s[m..][k - m];
      }
    }
  }

  /** A prefix `{{name}}` spells the placeholder without a default. */
  lemma SlicedBare(s: string, name: string)
    requires |name| + 4 <= |s| && s[..|name| + 2] == "{{" + name
    requires ClosesAt(s[|name| + 2..], 0)
    ensures s[..|name| + 4] == Spelling(name, None)
  {
    var m := |name| + 2;
    var p := Spelling(name, None);
    forall k | 0 <= k < |p| ensures s[k] == p[k] {
      if k < m {
        assert s[k] == s[..m][k];
      } else {
        assert s[k] == s[m..][k - m];
      }
    }
  }

  /** What the lazy `.*?` consumes before the first `}}` is text the placeholder scan can capture. */
  lemma CloseLenCaptures(u: string)
    requires CloseLen(u).Some?
    ensures IsRawText(u[..CloseLen(u).value])
  {
    var j := CloseLen(u).value;
    var v := u[..j];
    forall k | 0 <= k ensures !ClosesAt(v, k) {
      if k + 1 < j {
        assert v[k] == u[k] && v[k + 1] == u[k + 1];
      }
    }
    assert v == [] || v[|v| - 1] != '}' by {
      if v != [] {
        assert v[j - 1] == u[j - 1] && ClosesAt(u, j) && !ClosesAt(u, j - 1);
      }
    }
    assert forall k :: 0 <= k < |v| ==> v[k] == u[k];
  }

  /**
   * No match for `name` can start at the front of `u`, whatever text follows `u`: the opening
   * `{{name` disagrees with `u`, or it is followed by a character that neither starts a
   * default nor closes, or by a single `}`.
   */
  predicate StartsNoMatch(u: string, name: string) {
    var open := "{{" + name;
    || (exists k :: 0 <= k < |u| && k < |open| && u[k] != open[k])
    || (|open| < |u| && u[..|open|] == open && u[|open|] != '|' && u[|open|] != '}')
    || (|open| + 1 < |u| && u[..|open|] == open && u[|open|] == '}' && u[|open| + 1] != '}')
  }

  /** No match for `name` starts anywhere inside `t`, whatever follows it. */
  ghost predicate Inert(t: string, name: string) {
    forall i :: 0 <= i < |t| ==> StartsNoMatch(t[i..], name)
  }

  lemma StartsNoMatchNone(u: string, rest: string, name: string)
    requires StartsNoMatch(u, name)
    ensures MatchLen(u + rest, name).None?
  {
    var s, open := u + rest, "{{" + name;
    if exists k :: 0 <= k < |u| && k < |open| && u[k] != open[k] {
      var k :| 0 <= k < |u| && k < |open| && u[k] != open[k];
      assert |open| <= |s| ==> s[..|open|][k] == u[k];
    } else {
      assert s[..|open|] == u[..|open|];
      assert s[|open|..][0] == u[|open|];
      assert |open| + 1 < |u| ==> s[|open|..][1] == u[|open| + 1];
    }
  }

  /** Text without `{` is inert for every name. */
  lemma PlainInert(t: string, name: string)
    requires '{' !in t
    ensures Inert(t, name)
  {
    forall i | 0 <= i < |t| ensures StartsNoMatch(t[i..], name) {
      assert t[i..][0] == t[i] != ("{{" + name)[0];
    }
  }

  /**
   * The placeholder of another variable is inert for `name`, provided neither name holds a
   * bar or a closing brace, the other name and its default hold no `{`.
   */
  lemma OtherSpellingInert(name: string, other: string, d: Option<string>)
    requires name != other
    requires '|' !in name && '}' !in name
    requires '{' !in other && '|' !in other && '}' !in other
    requires d.Some? ==> '{' !in d.value
    ensures Inert(Spelling(other, d), name)
  {
    var t, open := Spelling(other, d), "{{" + name;
    var tail := if d.Some? then "|" + d.value + "}}" else "}}";
    assert t == "{{" + other + tail;
    assert '{' !in t[2..] by {
      assert t[2..] == other + tail;
    }
    forall i | 0 <= i < |t| ensures StartsNoMatch(t[i..], name) {
      var u := t[i..];
      if i == 0 {
        FrontOther(name, other, tail, u);
      } else {
        var k := if i == 1 then 1 else 0;
        assert u[k] == t[i + k] && t[i + k] in t[2..];
        assert u[k] != open[k];
      }
    }
  }

  /** OtherSpellingInert at the front of the placeholder. */
  lemma FrontOther(name: string, other: string, tail: string, u: string)
    requires name != other && u == "{{" + other + tail
    requires '|' !in name && '}' !in name && '|' !in other && '}' !in other
    requires tail != [] && (tail[0] == '|' || tail[0] == '}')
    ensures StartsNoMatch(u, name)
  {
    var open := "{{" + name;
    if exists j :: 0 <= j < |name| && j < |other| && name[j] != other[j] {
      var j :| 0 <= j < |name| && j < |other| && name[j] != other[j];
      assert u[j + 2] == other[j] && open[j + 2] == name[j];
    } else if |name| < |other| {
      assert u[..|open|] == open;
      assert u[|open|] == other[|name|];
    } else if |other| < |name| {
      assert u[|other| + 2] == tail[0] && open[|other| + 2] == name[|other|];
    } else {
      assert false;
    }
  }

  /** A prefix in which no match can start is copied, and substitution carries on after it. */
  lemma {:induction false} SubstituteAfterInert(a: string, q: string, name: string, value: string)
    requires Inert(a, name)
    ensures Substitute(a + q, name, value) == a + Substitute(q, name, value)
  {
    if a == [] {
      assert a + q == q;
    } else {
      var s := a + q;
      assert s[0] == a[0] && s[1..] == a[1..] + q;
      calc {
        Substitute(s, name, value);
        == { InertFront(a, q, name); SubstituteCopies(s, name, value); }
        [a[0]] + Substitute(a[1..] + q, name, value);
        == { InertTail(a, name); SubstituteAfterInert(a[1..], q, name, value); }
        [a[0]] + (a[1..] + Substitute(q, name, value));
        == { assert [a[0]] + a[1..] == a; }
        a + Substitute(q, name, value);
      }
    }
  }

  lemma InertFront(a: string, q: string, name: string)
    requires a != [] && Inert(a, name)
    ensures MatchLen(a + q, name).None?
  {
    assert a[0..] == a;
    StartsNoMatchNone(a, q, name);
  }

  lemma InertTail(a: string, name: string)
    requires a != [] && Inert(a, name)
    ensures Inert(a[1..], name)
  {
    forall i | 0 <= i < |a[1..]| ensures StartsNoMatch(a[1..][i..], name) {
      assert a[1..][i..] == a[i + 1..];
    }
  }

  /** Where no match starts, the first character is copied to the output. */
  lemma SubstituteCopies(s: string, name: string, value: string)
    requires s != [] && MatchLen(s, name).None?
    ensures Substitute(s, name, value) == [s[0]] + Substitute(s[1..], name, value)
  {
  }

  /** Another variable's placeholder in front of the text is left as it is. */
  lemma SubstituteKeepsOtherPlaceholder(name: string, other: string, d: Option<string>, rest: string, value: string)
    requires name != other
    requires '|' !in name && '}' !in name
    requires '{' !in other && '|' !in other && '}' !in other
    requires d.Some? ==> '{' !in d.value
    ensures Substitute(Spelling(other, d) + rest, name, value) == Spelling(other, d) + Substitute(rest, name, value)
  {
    OtherSpellingInert(name, other, d);
    SubstituteAfterInert(Spelling(other, d), rest, name, value);
  }

  /**
   * `{{ name }}` declares the trimmed name `name`, but the replace pattern starts with
   * `{{name`, so a placeholder written with spaces inside the braces is left in place.
   */
  lemma SpacedPlaceholderKept(name: string, value: string)
    requires name != [] && IsTrimmed(name) && '{' !in name
    ensures Substitute("{{ " + name + " }}", name, value) == "{{ " + name + " }}"
  {
    var s := "{{ " + name + " }}";
    var open := "{{" + name;
    forall i | 0 <= i <= |s| ensures !OccursAt(s, open, i) {
      if i + |open| <= |s| {
        var w := s[i..i + |open|];
        assert w[0] == s[i] && w[1] == s[i + 1] && w[2] == s[i + 2];
        assert open[2] == name[0];
        if 3 <= i < 3 + |name| {
          assert s[i] == name[i - 3];
        }
      }
    }
    SubstituteWithoutOccurrence(s, name, value);
  }

  /**
   * `{{ name }}` is still a declaration: the scan captures it, and the parse trims the
   * captured text to `name` with no default.
   */
  lemma SpacedPlaceholderDeclared(name: string)
    requires name != [] && IsTrimmed(name) && '|' !in name && '}' !in name
    requires forall k :: 0 <= k < |name| ==> !IsLineTerminator(name[k])
    ensures Pairs(Scan("{{ " + name + " }}")) == [Decl(name, "")]
  {
    ScanSpaced(name);
    SplitPadded(name);
    PairsOne(" " + name + " ");
  }

  /** The parse of the text between the braces of `{{ name }}`: `name` with no default. */
  lemma SplitPadded(name: string)
    requires name != [] && IsTrimmed(name) && '|' !in name && '}' !in name
    requires forall k :: 0 <= k < |name| ==> !IsLineTerminator(name[k])
    ensures SplitRaw(" " + name + " ") == Decl(name, "")
  {
    PaddedRaw(name);
    SplitRawNameOnly(" " + name + " ");
    TrimPadded(name);
  }

  lemma PairsOne(r: string)
    ensures Pairs([r]) == [SplitRaw(r)]
  {
  }

  /** The scan captures the text between the braces of `{{ name }}`. */
  lemma ScanSpaced(name: string)
    requires '|' !in name && '}' !in name
    requires forall k :: 0 <= k < |name| ==> !IsLineTerminator(name[k])
    ensures Scan("{{ " + name + " }}") == [" " + name + " "]
  {
    var r := " " + name + " ";
    PaddedRaw(name);
    SpacedSpelling(name);
    var w := "{{" + r + "}}";
    assert w + [] == w;
    ScanPlaceholder(r, []);
  }

  lemma SpacedSpelling(name: string)
    ensures "{{ " + name + " }}" == "{{" + (" " + name + " ") + "}}"
  {
    var w, v := "{{ " + name + " }}", "{{" + (" " + name + " ") + "}}";
    assert |w| == |v|;
    forall k | 0 <= k < |w| ensures w[k] == v[k] {
      if 3 <= k < |w| - 3 {
        assert w[k] == name[k - 3] == v[k];
      }
    }
  }

  /** The text between the braces of `{{ name }}` is a capture holding no bar. */
  lemma PaddedRaw(name: string)
    requires '|' !in name && '}' !in name
    requires forall k :: 0 <= k < |name| ==> !IsLineTerminator(name[k])
    ensures IsRawText(" " + name + " ") && '|' !in " " + name + " "
  {
    var r := " " + name + " ";
    assert forall k :: 0 <= k < |r| ==> r[k] == ' ' || r[k] == name[k - 1];
    assert forall k :: 0 <= k < |r| ==> r[k] != '}' && r[k] != '|' && !IsLineTerminator(r[k]);
  }

  /** A text cut into plain pieces and placeholders for one variable. */
  datatype Piece = Literal(text: string) | Hole(default: Option<string>)

  /**
   * No match for `name` starts inside a plain piece (it may hold other variables'
   * placeholders); every default is text the placeholder scan can capture.
   */
  ghost predicate WellFormedPieces(ps: seq<Piece>, name: string) {
    forall k :: 0 <= k < |ps| ==>
      match ps[k]
      case Literal(t) => Inert(t, name)
      case Hole(d) => d.Some? ==> IsRawText(d.value)
  }

  /** The text the pieces spell, each hole written as a placeholder for `name`. */
  function Render(ps: seq<Piece>, name: string): string {
    if ps == [] then []
    else
      match ps[0]
      case Literal(t) => t + Render(ps[1..], name)
      case Hole(d) => Spelling(name, d) + Render(ps[1..], name)
  }

  /** The text the pieces spell with every hole filled by `value`. */
  function Fill(ps: seq<Piece>, value: string): string {
    if ps == [] then []
    else
      match ps[0]
      case Literal(t) => t + Fill(ps[1..], value)
      case Hole(_) => value + Fill(ps[1..], value)
  }

  /**
   * Substitution replaces every `{{name}}` and `{{name|default}}` by the value and keeps
   * the text between them.
   */
  lemma {:induction false} SubstituteRender(ps: seq<Piece>, name: string, value: string)
    requires WellFormedPieces(ps, name)
    ensures Substitute(Render(ps, name), name, value) == Fill(ps, value)
  {
    if ps != [] {
      assert WellFormedPieces(ps[1..], name) by {
        forall k | 0 <= k < |ps[1..]| ensures ps[1..][k] == ps[k + 1] { }
      }
      SubstituteRender(ps[1..], name, value);
      match ps[0]
      case Literal(t) =>
        SubstituteAfterInert(t, Render(ps[1..], name), name, value);
      case Hole(d) =>
        SubstituteSpelling(name, d, Render(ps[1..], name), value);
    }
  }

  /**
   * The effect of the `for` loop of handleInject on the text: the variables are
   * substituted one after another, each into the result of the previous ones.
   */
  function SubstituteAll(s: string, names: seq<string>, values: seq<string>): string
    requires |names| == |values|
    decreases |names|
  {
    if names == [] then s
    else SubstituteAll(Substitute(s, names[0], values[0]), names[1..], values[1..])
  }

  /** Text without `{` comes out of every substitution unchanged. */
  lemma {:induction false} SubstituteAllPlainText(s: string, names: seq<string>, values: seq<string>)
    requires |names| == |values|
    requires '{' !in s
    ensures SubstituteAll(s, names, values) == s
  {
    if names != [] {
      SubstitutePlainText(s, names[0], values[0]);
      SubstituteAllPlainText(s, names[1..], values[1..]);
    }
  }

  /**
   * A prompt with two variables: substituting the first leaves the placeholder of the
   * second in place.
   */
  lemma SubstituteFirstOfTwo(a: string, b: string, value: string)
    requires a != b
    requires '|' !in a && '}' !in a
    requires '{' !in b && '|' !in b && '}' !in b
    ensures Substitute("{{" + a + "}} x {{" + b + "}}", a, value) == value + " x {{" + b + "}}"
  {
    var ps := [Hole(None), Literal(" x "), Literal(Spelling(b, None))];
    PlainInert(" x ", a);
    OtherSpellingInert(a, b, None);
    assert WellFormedPieces(ps, a);
    SubstituteRender(ps, a, value);
    RenderTwo(a, b);
    FillTwo(b, value);
  }

  lemma RenderTwo(a: string, b: string)
    ensures Render([Hole(None), Literal(" x "), Literal(Spelling(b, None))], a) == "{{" + a + "}} x {{" + b + "}}"
  {
    var ps, sp := [Hole(None), Literal(" x "), Literal(Spelling(b, None))], Spelling(b, None);
    assert ps[1..] == [Literal(" x "), Literal(sp)] && ps[1..][1..] == [Literal(sp)] && ps[1..][1..][1..] == [];
    assert Render([Literal(sp)], a) == sp;
    assert Render(ps[1..], a) == " x " + sp;
    assert Render(ps, a) == Spelling(a, None) + (" x " + sp);
  }

  lemma FillTwo(b: string, value: string)
    ensures Fill([Hole(None), Literal(" x "), Literal(Spelling(b, None))], value) == value + " x {{" + b + "}}"
  {
    var ps, sp := [Hole(None), Literal(" x "), Literal(Spelling(b, None))], Spelling(b, None);
    assert ps[1..] == [Literal(" x "), Literal(sp)] && ps[1..][1..] == [Literal(sp)] && ps[1..][1..][1..] == [];
    assert Fill(ps[1..][1..], value) == sp;
    assert Fill(ps[1..], value) == " x " + sp;
    assert Fill(ps, value) == value + (" x " + sp);
  }
}
