/**
 * The variable wizard of handleInject (sidepanel.js lines 234-253): the declared variables
 * are asked for one by one; each accepted value is recorded in the history and substituted
 * into the text, and a cancel abandons the injection.
 */
module Injection {
  import opened Wrappers
  import opened Placeholders
  import opened Substitution
  import opened History
  import opened Wizard

  /** How a session ends: all variables answered, cancelled, or still waiting for the user. */
  datatype Status = Completed | Cancelled | Waiting

  /** The state a run of the wizard leaves: history, text so far, accepted values, status. */
  datatype Session = Session(history: Histories, text: string, values: seq<string>, pending: seq<Decl>, status: Status)

  /** Distinct names, as the parse produces them. */
  predicate DistinctNames(ds: seq<Decl>) {
    forall i, j :: 0 <= i < j < |ds| ==> ds[i].name != ds[j].name
  }

  /** A name missing from the names is missing from the names after the first. */
  lemma NotInTail(ds: seq<Decl>, n: string)
    requires ds != [] && n !in Names(ds)
    ensures n !in Names(ds[1..])
  {
    forall k | 0 <= k < |ds| - 1 ensures Names(ds[1..])[k] != n {
      assert Names(ds[1..])[k] == Names(ds)[k + 1];
    }
  }

  /** With distinct names, the first name is not among the rest. */
  lemma FirstNotInTail(ds: seq<Decl>)
    requires ds != [] && DistinctNames(ds)
    ensures ds[0].name !in Names(ds[1..])
  {
    forall k | 0 <= k < |ds| - 1 ensures Names(ds[1..])[k] != ds[0].name {
      assert Names(ds[1..])[k] == ds[k + 1].name;
    }
  }

  /** What one response does to the wizard: stop it, or move it on. */
  datatype Advance = Halt | Next(rest: seq<Decl>, history: Histories, text: string, accepted: Option<string>)

  /**
   * One response to the modal for `ds[0]`: a cancel halts; a chip delete or a rejected
   * submit keeps the same modal; an accepted value is recorded, substituted, and the wizard
   * moves to the next variable.
   */
  function Step(ds: seq<Decl>, resp: Response, h: Histories, text: string): (m: Advance)
    requires ds != []
    ensures m.Halt? <==> resp.Dismiss?
    ensures resp.Confirm? ==> m.Next? && m.accepted == Submit(resp.input, ds[0].default)
    ensures resp.Confirm? && m.accepted.None? ==> m.history == h
    ensures resp.DeleteChip? ==> m.Next? && m.accepted.None? && m.history == DropEntry(h, ds[0].name, resp.index)
    ensures m.Next? && m.accepted.None? ==> m.rest == ds && m.text == text
    ensures m.Next? && m.accepted.Some? ==>
      && m.rest == ds[1..] && m.accepted.value != []
      && m.text == Substitute(text, ds[0].name, m.accepted.value)
      && m.history == Record(h, ds[0].name, m.accepted.value)
  {
    match resp
    case Dismiss => Halt
    case DeleteChip(i) => Next(ds, DropEntry(h, ds[0].name, i), text, None)
    case Confirm(input) =>
      match Submit(input, ds[0].default)
      case None => Next(ds, h, text, None)
      case Some(v) =>
        Next(ds[1..], Record(h, ds[0].name, v), Substitute(text, ds[0].name, v), Some(v))
  }

  /** The accepted values of one step: none or one. */
  function Accepted(v: Option<string>): seq<string> {
    match v
    case None => []
    case Some(x) => [x]
  }

  /**
   * The wizard over `ds` driven by the responses `rs`, starting from history `h` and text
   * `text`.
   */
  function Run(ds: seq<Decl>, rs: seq<Response>, h: Histories, text: string): (r: Session)
    ensures |r.values| <= |ds|
    ensures r.status == Completed <==> |r.values| == |ds|
    ensures forall k :: 0 <= k < |r.values| ==> r.values[k] != []
    decreases |rs|
  {
    if ds == [] then Session(h, text, [], [], Completed)
    else if rs == [] then Session(h, text, [], ds, Waiting)
    else
      match Step(ds, rs[0], h, text)
      case Halt => Session(h, text, [], ds, Cancelled)
      case Next(ds', h', t', v) =>
        var s := Run(ds', rs[1..], h', t');
        Session(s.history, s.text, Accepted(v) + s.values, s.pending, s.status)
  }

  /** The text a session has built: each answered variable substituted in turn. */
  lemma RunText(ds: seq<Decl>, rs: seq<Response>, h: Histories, text: string)
    ensures var r := Run(ds, rs, h, text);
      r.text == SubstituteAll(text, Names(ds)[..|r.values|], r.values)
  {
    RunBuilds(ds, rs, h, text);
  }

  /** `r` holds the text built from `text` by substituting its values for the first names of `ds`. */
  ghost predicate Built(text: string, ds: seq<Decl>, r: Session) {
    |r.values| <= |ds| && r.text == SubstituteAll(text, Names(ds)[..|r.values|], r.values)
  }

  lemma {:induction false} RunBuilds(ds: seq<Decl>, rs: seq<Response>, h: Histories, text: string)
    ensures Built(text, ds, Run(ds, rs, h, text))
    decreases |rs|
  {
    var r := Run(ds, rs, h, text);
    if ds == [] || rs == [] || Step(ds, rs[0], h, text).Halt? {
      assert r.values == [] && r.text == text;
      assert Names(ds)[..0] == [];
    } else {
      var m := Step(ds, rs[0], h, text);
      RunBuilds(m.rest, rs[1..], m.history, m.text);
      StepBuilds(ds, rs, h, text);
    }
  }

  /** One step of RunBuilds: a rejected answer changes nothing, an accepted one substitutes. */
  lemma StepBuilds(ds: seq<Decl>, rs: seq<Response>, h: Histories, text: string)
    requires ds != [] && rs != [] && Step(ds, rs[0], h, text).Next?
    requires var m := Step(ds, rs[0], h, text); Built(m.text, m.rest, Run(m.rest, rs[1..], m.history, m.text))
    ensures Built(text, ds, Run(ds, rs, h, text))
  {
    var m := Step(ds, rs[0], h, text);
    var s := Run(m.rest, rs[1..], m.history, m.text);
    assert Run(ds, rs, h, text) == s.(values := Accepted(m.accepted) + s.values);
    if m.accepted.Some? {
      AcceptBuilds(text, ds, m.accepted.value, s);
    } else {
      assert [] + s.values == s.values;
    }
  }

  /** Built for one more variable, answered with `v` before the others. */
  lemma AcceptBuilds(text: string, ds: seq<Decl>, v: string, s: Session)
    requires ds != [] && Built(Substitute(text, ds[0].name, v), ds[1..], s)
    ensures Built(text, ds, s.(values := Accepted(Some(v)) + s.values))
  {
    var ns := Names(ds[1..])[..|s.values|];
    assert Accepted(Some(v)) == [v];
    assert Names(ds)[..1 + |s.values|] == [ds[0].name] + ns by {
      NamesPrefix(ds, |s.values|);
    }
    SubstituteAllCons(text, ds[0].name, v, ns, s.values);
  }

  /** The first `k + 1` names are the first name followed by the first `k` names of the rest. */
  lemma NamesPrefix(ds: seq<Decl>, k: nat)
    requires k < |ds|
    ensures Names(ds)[..k + 1] == [ds[0].name] + Names(ds[1..])[..k]
  {
  }

  /** Substituting a first name and value, then the rest in order. */
  lemma SubstituteAllCons(text: string, n: string, v: string, ns: seq<string>, vs: seq<string>)
    requires |ns| == |vs|
    ensures SubstituteAll(text, [n] + ns, [v] + vs) == SubstituteAll(Substitute(text, n, v), ns, vs)
  {
    assert ([n] + ns)[1..] == ns && ([v] + vs)[1..] == vs;
  }

  /** The wizard keeps every history list duplicate-free and within capacity. */
  lemma {:induction false} RunWellFormed(ds: seq<Decl>, rs: seq<Response>, h: Histories, text: string)
    requires WellFormed(h)
    ensures WellFormed(Run(ds, rs, h, text).history)
    decreases |rs|
  {
    if ds != [] && rs != [] {
      match rs[0]
      case Dismiss =>
      case DeleteChip(i) =>
        DropEntryWellFormed(h, ds[0].name, i);
        RunWellFormed(ds, rs[1..], DropEntry(h, ds[0].name, i), text);
      case Confirm(input) =>
        match Submit(input, ds[0].default)
        case None => RunWellFormed(ds, rs[1..], h, text);
        case Some(v) =>
          RecordWellFormed(h, ds[0].name, v);
          RunWellFormed(ds[1..], rs[1..], Record(h, ds[0].name, v), Substitute(text, ds[0].name, v));
    }
  }

  /** A name the wizard does not ask for keeps its history list, or its absence of one. */
  lemma {:induction false} RunOthersUnchanged(ds: seq<Decl>, rs: seq<Response>, h: Histories,
                                              text: string, n: string)
    requires n !in Names(ds)
    ensures n in Run(ds, rs, h, text).history <==> n in h
    ensures n in h ==> Run(ds, rs, h, text).history[n] == h[n]
    decreases |rs|
  {
    if ds != [] && rs != [] {
      assert n != ds[0].name;
      NotInTail(ds, n);
      match rs[0]
      case Dismiss =>
      case DeleteChip(i) =>
        RunOthersUnchanged(ds, rs[1..], DropEntry(h, ds[0].name, i), text, n);
      case Confirm(input) =>
        match Submit(input, ds[0].default)
        case None => RunOthersUnchanged(ds, rs[1..], h, text, n);
        case Some(v) =>
          RunOthersUnchanged(ds[1..], rs[1..], Record(h, ds[0].name, v), Substitute(text, ds[0].name, v), n);
    }
  }

  /** Each answered variable's list in `hist` starts with the value it was given. */
  predicate Heads(hist: Histories, ds: seq<Decl>, values: seq<string>) {
    |values| <= |ds| &&
    forall k :: 0 <= k < |values| ==>
      ds[k].name in hist && hist[ds[k].name] != [] && hist[ds[k].name][0] == values[k]
  }

  /** The first variable's value heading its list extends the property to one more variable. */
  lemma HeadsCons(hist: Histories, ds: seq<Decl>, v: string, values: seq<string>)
    requires ds != [] && Heads(hist, ds[1..], values)
    requires ds[0].name in hist && hist[ds[0].name] != [] && hist[ds[0].name][0] == v
    ensures Heads(hist, ds, [v] + values)
  {
    forall k | 1 <= k < 1 + |values|
      ensures ds[k].name in hist && hist[ds[k].name] != [] && hist[ds[k].name][0] == ([v] + values)[k]
    {
      assert ([v] + values)[k] == values[k - 1];
      assert ds[k] == ds[1..][k - 1];
    }
  }

  /** Distinct names stay distinct without the first. */
  lemma DistinctTail(ds: seq<Decl>)
    requires ds != [] && DistinctNames(ds)
    ensures DistinctNames(ds[1..])
  {
    forall i, j | 0 <= i < j < |ds[1..]| ensures ds[1..][i].name != ds[1..][j].name {
      assert ds[1..][i] == ds[i + 1] && ds[1..][j] == ds[j + 1];
    }
  }

  /** The step of RunNewestFirst where the first variable is answered with `v`. */
  lemma AcceptedHeads(ds: seq<Decl>, rs: seq<Response>, h: Histories, text: string, v: string)
    requires ds != [] && rs != [] && DistinctNames(ds)
    requires Step(ds, rs[0], h, text).Next? && Step(ds, rs[0], h, text).accepted == Some(v)
    requires var m := Step(ds, rs[0], h, text); var s := Run(m.rest, rs[1..], m.history, m.text);
      Heads(s.history, ds[1..], s.values)
    ensures var r := Run(ds, rs, h, text); Heads(r.history, ds, r.values)
  {
    var m := Step(ds, rs[0], h, text);
    var s := Run(m.rest, rs[1..], m.history, m.text);
    assert m.history == Record(h, ds[0].name, v);
    FirstNotInTail(ds);
    RunOthersUnchanged(m.rest, rs[1..], m.history, m.text, ds[0].name);
    RecordNewestFirst(h, ds[0].name, v);
    HeadsCons(s.history, ds, v, s.values);
  }

  /** Every answered variable's value heads its history list when the wizard stops. */
  lemma {:induction false} RunNewestFirst(ds: seq<Decl>, rs: seq<Response>, h: Histories, text: string)
    requires DistinctNames(ds)
    ensures var r := Run(ds, rs, h, text); Heads(r.history, ds, r.values)
    decreases |rs|
  {
    if ds != [] && rs != [] {
      DistinctTail(ds);
      match Step(ds, rs[0], h, text)
      case Halt =>
      case Next(ds', h', t', v) =>
        RunNewestFirst(ds', rs[1..], h', t');
        if v.Some? {
          AcceptedHeads(ds, rs, h, text, v.value);
        }
    }
  }

  /** Concatenation is associative; stated once so the proofs below need not rediscover it. */
  lemma ConcatAssoc<T>(a: seq<T>, b: seq<T>, c: seq<T>)
    ensures a + (b + c) == (a + b) + c
  {
  }

  /**
   * Responses split in two: the wizard waiting after the first part carries on with the
   * second from where it stopped.
   */
  lemma {:induction false} RunAppend(ds: seq<Decl>, rs1: seq<Response>, rs2: seq<Response>,
                                     h: Histories, text: string)
    requires Run(ds, rs1, h, text).status == Waiting
    ensures var a := Run(ds, rs1, h, text);
      var b := Run(a.pending, rs2, a.history, a.text);
      Run(ds, rs1 + rs2, h, text) == b.(values := a.values + b.values)
    decreases |rs1|
  {
    if rs1 == [] {
      assert rs1 + rs2 == rs2;
    } else {
      var rs := rs1 + rs2;
      assert rs[0] == rs1[0];
      assert rs[1..] == rs1[1..] + rs2;
      match Step(ds, rs1[0], h, text)
      case Halt =>
      case Next(ds', h', t', v) =>
        RunAppend(ds', rs1[1..], rs2, h', t');
        var a1 := Run(ds', rs1[1..], h', t');
        var a := Run(ds, rs1, h, text);
        assert a == a1.(values := Accepted(v) + a1.values);
        var b := Run(a.pending, rs2, a.history, a.text);
        ConcatAssoc(Accepted(v), a1.values, b.values);
    }
  }

  /**
   * A cancel while the wizard waits ends the session: nothing after it is asked, substituted
   * or recorded, and the history is what it was when the cancel came.
   */
  lemma DismissCancels(ds: seq<Decl>, rs1: seq<Response>, rs2: seq<Response>,
                       h: Histories, text: string)
    requires Run(ds, rs1, h, text).status == Waiting
    ensures var a := Run(ds, rs1, h, text);
      Run(ds, rs1 + [Dismiss] + rs2, h, text) == a.(status := Cancelled)
  {
    var a := Run(ds, rs1, h, text);
    RunAppend(ds, rs1, [Dismiss] + rs2, h, text);
    assert rs1 + [Dismiss] + rs2 == rs1 + ([Dismiss] + rs2);
    assert ([Dismiss] + rs2)[0] == Dismiss;
    assert a.values + [] == a.values;
  }
}
