/**
 The user's actions on the table, each applied to the record behind the
 selected row, and a run of such actions from the loaded state. An action's
 `query` is the filter the displayed table reflects when the row is chosen.
 */
module Session {
  import opened Text
  import opened Store
  import opened Table

  /** One user action. A selection is a row position in the displayed table;
      `None` is an empty selection. `confirmed` is the answer to the delete
      confirmation dialog. */
  datatype Op =
    | AddEntry(rec: Record)
    | ImportCsv(recs: seq<Record>)
    | EditEntry(sel: Option<nat>, rec: Record)
    | DeleteEntry(sel: Option<nat>, confirmed: bool)
    | ToggleVisibility(sel: Option<nat>)

  datatype Event = Event(query: string, op: Op)

  predicate NeedsSelection(op: Op)
  {
    op.EditEntry? || op.DeleteEntry? || op.ToggleVisibility?
  }

  /** How a selected row is turned into a data index: through the view, or, as
      the application does, by taking the row position itself. */
  datatype Lookup = ThroughView | ByPosition

  /** The data index behind a selection under the given lookup. */
  function Select(s: State, query: string, sel: Option<nat>, lookup: Lookup): (r: Result<nat>)
    ensures r.Ok? <==> sel.Some? && sel.value < |View(s, query)|
    ensures r.Ok? ==> r.value < |s.records|
    ensures lookup.ThroughView? ==> r == ResolveRow(s, query, sel)
    ensures lookup.ByPosition? ==> r == ResolveRowAsWritten(s, query, sel)
  {
    match lookup
    case ThroughView => ResolveRow(s, query, sel)
    case ByPosition => ResolveRowAsWritten(s, query, sel)
  }

  /** Applies one action. An action on the selected row fails with
      `NoSelection`, changing nothing, when no row is selected; otherwise it
      applies to the record `Select` finds. A declined delete changes nothing. */
  function Step(s: State, e: Event, lookup: Lookup): (r: Result<State>)
    ensures r.Err? <==> NeedsSelection(e.op) && Select(s, e.query, e.op.sel, lookup).Err?
    ensures e.op.AddEntry? ==> r == Ok(Add(s, e.op.rec))
    ensures e.op.ImportCsv? ==> r == Ok(Import(s, e.op.recs))
    ensures r.Ok? && e.op.DeleteEntry? && !e.op.confirmed ==> r.value == s
    ensures r.Ok? && NeedsSelection(e.op) ==>
      var i := Select(s, e.query, e.op.sel, lookup).value;
      && i < |s.records|
      && (e.op.EditEntry? ==> r.value == Edit(s, i, e.op.rec))
      && (e.op.DeleteEntry? && e.op.confirmed ==> r.value == Delete(s, i))
      && (e.op.ToggleVisibility? ==> r.value == Toggle(s, i))
    ensures Bounded(s) && r.Ok? ==> Bounded(r.value)
  {
    match e.op
    case AddEntry(rec) => Ok(Add(s, rec))
    case ImportCsv(recs) => Ok(Import(s, recs))
    case EditEntry(sel, rec) =>
      (match Select(s, e.query, sel, lookup)
       case Ok(i) => Ok(Edit(s, i, rec))
       case Err(err) => Err(err))
    case DeleteEntry(sel, confirmed) =>
      (match Select(s, e.query, sel, lookup)
       case Ok(i) => if confirmed then Ok(Delete(s, i)) else Ok(s)
       case Err(err) => Err(err))
    case ToggleVisibility(sel) =>
      (match Select(s, e.query, sel, lookup)
       case Ok(i) => Ok(Toggle(s, i))
       case Err(err) => Err(err))
  }

  /** Applies the actions in order; a failed action leaves the state as it
      was. Whichever lookup is used, a consistent state stays consistent:
      every visible key still names a stored record. */
  function Run(s: State, events: seq<Event>, lookup: Lookup): (r: State)
    ensures |events| == 0 ==> r == s
    ensures Bounded(s) ==> Bounded(r)
    decreases |events|
  {
    if |events| == 0 then s
    else
      match Step(s, events[0], lookup)
      case Ok(s') => Run(s', events[1..], lookup)
      case Err(_) => Run(s, events[1..], lookup)
  }

  /** No visibility entry is left dangling in a session started from a load,
      neither in the application as written nor with the corrected lookup. */
  lemma SessionKeepsBounded(loaded: seq<Record>, events: seq<Event>, lookup: Lookup)
    ensures Bounded(Run(Initial(loaded), events, lookup))
  {
  }

  /** Toggling from row `row` of the (possibly filtered) table, through the
      view, flips the password cell shown in that very row and leaves every
      other row as it was. */
  lemma ToggleFromRowFlipsShownCell(s: State, query: string, row: nat)
    requires row < |View(s, query)|
    ensures Step(s, Event(query, ToggleVisibility(Some(row))), ThroughView).Ok?
    ensures var t := Step(s, Event(query, ToggleVisibility(Some(row))), ThroughView).value;
      var i := ResolveRow(s, query, Some(row)).value;
      && |View(t, query)| == |View(s, query)|
      && View(t, query)[row].password ==
           (if i in s.visible then Mask(|s.records[i].password|) else s.records[i].password)
      && forall k :: 0 <= k < |View(s, query)| && k != row ==> View(t, query)[k] == View(s, query)[k]
  {
    // A toggle keeps the records, so the view shows the same indices; only
    // the row whose index was toggled renders differently.
    var i := ResolveRow(s, query, Some(row)).value;
    assert ViewIndices(Toggle(s, i), query) == ViewIndices(s, query);
  }


  const Bob := Record("example.com", "bob", "hunter2", "", "")

  /** Adding one entry shows it masked with dashes for comment and tags;
      revealing it shows the password; deleting it empties the table. */
  lemma AddRevealDeleteScenario()
    ensures View(Add(Initial([]), Bob), "") == [Row("example.com", "bob", "*******", "-", "-")]
    ensures View(Toggle(Add(Initial([]), Bob), 0), "")[0].password == "hunter2"
    ensures View(Delete(Toggle(Add(Initial([]), Bob), 0), 0), "") == []
  {
    var s1 := Add(Initial([]), Bob);
    EmptyQueryShowsAll(s1);
    assert Mask(7) == "*******";
    var s2 := Toggle(s1, 0);
    EmptyQueryShowsAll(s2);
    EmptyQueryShowsAll(Delete(s2, 0));
  }

  const Alice := Record("b.org", "alice", "y", "", "")

  /** With entries for "bob" and "alice", the query "bo" keeps only the first. */
  lemma SearchScenario()
    ensures ViewIndices(Add(Add(Initial([]), Bob), Alice), "bo") == [0]
  {
    var s := Add(Add(Initial([]), Bob), Alice);
    assert s.records == [Bob, Alice];
    LowerOfLowerCase("bo");
    OnlyBobMatches();
  }

  lemma OnlyBobMatches()
    ensures MatchingIndices([Bob, Alice], "bo") == [0]
  {
    var recs := [Bob, Alice];
    assert recs[..0] == [] && recs[..2] == recs;
    BobMatches();
    MatchingIndicesStep(recs, "bo", 0);
    assert MatchingIndices(recs[..1], "bo") == [0];
    AliceDoesNotMatch();
    MatchingIndicesStep(recs, "bo", 1);
  }

  lemma BobMatches()
    ensures Matches(Bob, "bo")
  {
  }

  lemma AliceDoesNotMatch()
    ensures !Matches(Alice, "bo")
  {
    assert Lower("b.org") == "b.org";
    assert Lower("alice") == "alice";
    NoLaterMatch("b.org", "bo", 1);
    DiffersAt("b.org", "bo", 1);
    assert "b.org"[0..] == "b.org";
    NoLaterMatch("alice", "bo", 0);
    assert "alice"[0..] == "alice";
  }
}
