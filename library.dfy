/**
 * The side panel's state and the operations that change it (sidepanel.js): the prompt tree
 * `treeData` and the per-variable history `variableHistory`, both replaced step by step by
 * moveNode, deleteNode, saveItem, saveToHistory, the chip delete and handleInject.
 * Storage, rendering and the page the text is injected into are outside the model.
 */
module SidePanel {
  import opened Wrappers
  import opened Forest
  import opened Placeholders
  import opened Substitution
  import opened History
  import opened Wizard
  import opened Injection
  import opened Removal
  import opened Edits
  import opened Placement
  import opened Moves

  class Library {
    /** `treeData`. */
    var tree: seq<Node>
    /** `variableHistory`. */
    var history: Histories

    /** loadData: what storage holds, or an empty tree and an empty history. */
    constructor (storedTree: Option<seq<Node>>, storedHistory: Option<Histories>)
      ensures tree == (if storedTree.Some? then storedTree.value else [])
      ensures history == (if storedHistory.Some? then storedHistory.value else map[])
    {
      tree := if storedTree.Some? then storedTree.value else [];
      history := if storedHistory.Some? then storedHistory.value else map[];
    }

    /**
     * moveNode: remove the dragged node, then drop it inside or beside the target. A
     * missing source changes nothing; a node that finds no place stays removed; a node
     * that does keeps every id of the tree.
     */
    method MoveNode(src: string, target: string, pos: Position)
      modifies this
      ensures tree == Move(old(tree), src, target, pos) && history == old(history)
      ensures src !in Ids(old(tree)) ==> tree == old(tree)
      ensures src in Ids(old(tree)) && !Placed(old(tree), src, target, pos) ==> tree == Delete(old(tree), src)
      ensures Placed(old(tree), src, target, pos) ==> multiset(Ids(tree)) == multiset(Ids(old(tree)))
      ensures Placed(old(tree), src, target, pos) && UniqueIds(old(tree)) ==> UniqueIds(tree)
    {
      var s := Detach(tree, src);
      if s.moved.None? {
        DetachIffPresent(tree, src);
        return;
      }
      var before := tree;
      DetachIffPresent(before, src);
      if !Placed(before, src, target, pos) {
        MoveLost(before, src, target, pos);
      } else {
        MoveKeepsIds(before, src, target, pos);
      }
      tree := s.rest;
      match pos
      case Inside =>
        tree := Edit(tree, target, Adopt(s.moved.value));
      case Beside(side) =>
        tree := Place(tree, target, s.moved.value, side);
    }

    /** deleteNode: after the user confirms, the node and its subtree are removed. */
    method DeleteNode(id: string, confirmed: bool)
      modifies this
      ensures tree == (if confirmed then Delete(old(tree), id) else old(tree))
      ensures history == old(history)
      ensures confirmed && id in Ids(old(tree)) && UniqueIds(old(tree)) ==> UniqueIds(tree) && id !in Ids(tree)
    {
      if confirmed {
        if id in Ids(tree) {
          DeleteIds(tree, id);
        }
        tree := Detach(tree, id).rest;
      }
    }

    /** saveItem: retitle the node being edited, or append a new item at the root. */
    method SaveItem(editing: Option<string>, title: string, content: string, kind: Kind, freshId: string)
      modifies this
      ensures tree == Save(old(tree), editing, title, content, kind, freshId)
      ensures history == old(history)
    {
      if editing.Some? && editing.value != "" {
        tree := Edit(tree, editing.value, Retitle(title, if kind == PromptKind then Some(content) else None));
      } else {
        tree := tree + [NewItem(freshId, kind, title, content)];
      }
    }

    /**
     * saveToHistory: filter `value` out of the list of `name`, put it in front, and cut the
     * list to the capacity. Lists stay duplicate-free and within capacity.
     */
    method SaveToHistory(name: string, value: string)
      modifies this
      ensures history == Record(old(history), name, value) && tree == old(tree)
      ensures WellFormed(old(history)) ==> WellFormed(history)
    {
      if WellFormed(history) {
        RecordWellFormed(history, name, value);
      }
      ghost var promoted := Promoted(ListOf(history, name), value);
      var l := if name in history then history[name] else [];
      l := Without(l, value);
      l := [value] + l;
      if |l| > Capacity {
        l := l[..Capacity];
      }
      assert l == promoted;
      history := history[name := l];
    }

    /** The chip delete: `variableHistory[name].splice(index, 1)`. */
    method DeleteHistoryEntry(name: string, index: nat)
      modifies this
      ensures history == DropEntry(old(history), name, index) && tree == old(tree)
      ensures WellFormed(old(history)) ==> WellFormed(history)
    {
      if WellFormed(history) {
        DropEntryWellFormed(history, name, index);
      }
      if name in history {
        var l := history[name];
        if index < |l| {
          l := l[..index] + l[index + 1..];
        }
        history := history[name := l];
      }
    }

    /**
     * One response while the modal for `ds[0]` is open: a cancel stops the wizard, a chip
     * delete edits the history, a rejected submit keeps the modal open, and an accepted
     * value is recorded and substituted into `text`.
     */
    method Respond(ds: seq<Decl>, resp: Response, text: string) returns (m: Advance)
      requires ds != []
      modifies this
      ensures m == Step(ds, resp, old(history), text)
      ensures history == (if m.Halt? then old(history) else m.history) && tree == old(tree)
    {
      match resp
      case Dismiss =>
        m := Halt;
      case DeleteChip(j) =>
        DeleteHistoryEntry(ds[0].name, j);
        m := Next(ds, history, text, None);
      case Confirm(input) =>
        var v := Submit(input, ds[0].default);
        if v.Some? {
          SaveToHistory(ds[0].name, v.value);
          m := Next(ds[1..], history, Substitute(text, ds[0].name, v.value), v);
        } else {
          m := Next(ds, history, text, None);
        }
    }

    /**
     * handleInject for a prompt with text `content`, the user answering with `rs`: collect
     * the variables, then ask for them one by one; every accepted value is recorded and
     * substituted. The text to inject is returned once every variable has a value; after a
     * cancel, or when the responses run out first, nothing is injected.
     */
    method Inject(content: string, rs: seq<Response>) returns (decls: seq<Decl>, values: seq<string>, injected: Option<string>, status: Status)
      modifies this
      ensures IsDeclarationList(Pairs(Scan(content)), decls)
      ensures var r := Run(decls, rs, old(history), content);
        history == r.history && values == r.values && status == r.status &&
        injected == (if r.status == Completed then Some(r.text) else None)
      ensures tree == old(tree)
    {
      decls := CollectVariables(content);
      ghost var total := Run(decls, rs, history, content);
      var pending := decls;
      var text := content;
      values := [];
      var i := 0;
      ResumeStart(decls, rs, history, content);
      while i < |rs| && pending != []
        invariant 0 <= i <= |rs|
        invariant tree == old(tree)
        invariant Resumes(total, pending, rs[i..], history, text, values)
        decreases |rs| - i
      {
        ghost var h := history;
        var m := Respond(pending, rs[i], text);
        ResumeStep(total, pending, rs, i, h, text, values);
        if m.Halt? {
          injected, status := None, Cancelled;
          return;
        }
        pending, text, values := m.rest, m.text, values + Accepted(m.accepted);
        i := i + 1;
      }
      ResumeEnd(total, pending, rs[i..], history, text, values);
      if pending == [] {
        injected, status := Some(text), Completed;
      } else {
        injected, status := None, Waiting;
      }
    }
  }

  /**
   * The wizard started on `ds` with responses `rs` ends in `total`, given that the values
   * `values` have been accepted so far.
   */
  ghost predicate Resumes(total: Session, ds: seq<Decl>, rs: seq<Response>, h: Histories, text: string, values: seq<string>) {
    var r := Run(ds, rs, h, text);
    total == r.(values := values + r.values)
  }

  /** One more response: the session stops, or resumes from the step's new state. */
  lemma ResumeStep(total: Session, ds: seq<Decl>, rs: seq<Response>, i: nat, h: Histories, text: string, values: seq<string>)
    requires ds != [] && i < |rs| && Resumes(total, ds, rs[i..], h, text, values)
    ensures match Step(ds, rs[i], h, text)
      case Halt => total == Session(h, text, values, ds, Cancelled)
      case Next(ds', h', t', v) => Resumes(total, ds', rs[i + 1..], h', t', values + Accepted(v))
  {
    var rest := rs[i..];
    assert rest[0] == rs[i] && rest[1..] == rs[i + 1..];
    match Step(ds, rs[i], h, text)
    case Halt =>
      assert values + [] == values;
    case Next(ds', h', t', v) =>
      var s := Run(ds', rs[i + 1..], h', t');
      ConcatAssoc(values, Accepted(v), s.values);
  }

  lemma ResumeStart(ds: seq<Decl>, rs: seq<Response>, h: Histories, text: string)
    ensures Resumes(Run(ds, rs, h, text), ds, rs[0..], h, text, [])
  {
    assert rs[0..] == rs;
    var r := Run(ds, rs, h, text);
    assert [] + r.values == r.values;
  }

  lemma ResumeEnd(total: Session, ds: seq<Decl>, rs: seq<Response>, h: Histories, text: string, values: seq<string>)
    requires ds == [] || rs == []
    requires Resumes(total, ds, rs, h, text, values)
    ensures total == Session(h, text, values, ds, if ds == [] then Completed else Waiting)
  {
    assert values + [] == values;
  }
}
