/**
 What the password table shows: one row per record of the current view, with
 the password masked unless revealed and empty comment or tags shown as "-".
 The view is either the whole list or, under a search query, the records
 whose lower-cased URL or user name contains the lower-cased query.
 */
module Table {
  import opened Text
  import opened Store

  /** The five cells of a table row. */
  datatype Row = Row(url: string, username: string, password: string, comment: string, tags: string)

  /** Why an action on the selected row does nothing. */
  datatype Error = NoSelection

  datatype Result<T> = Ok(value: T) | Err(error: Error)

  /** A table selection: a row position, or nothing selected. */
  datatype Option<T> = None | Some(value: T)

  /** The cell shown for a comment or tags value: a dash stands in for an
      empty value, any other value is shown as stored. */
  function Placeholder(v: string): (d: string)
    ensures d != ""
    ensures v != "" ==> d == v
    ensures d != v ==> v == "" && d == "-"
  {
    if v == "" then "-" else v
  }

  /** The password cell: the password itself when revealed, otherwise a run of
      `*` as long as the password. */
  function SecretCell(password: string, shown: bool): (d: string)
    ensures |d| == |password|
    ensures shown ==> d == password
    ensures !shown ==> forall k :: 0 <= k < |d| ==> d[k] == '*'
  {
    if shown then password else Mask(|password|)
  }

  /** A masked cell reveals nothing but the length of the password. */
  lemma MaskRevealsOnlyLength(p: string, q: string)
    requires |p| == |q|
    ensures SecretCell(p, false) == SecretCell(q, false)
  {
  }

  /** The row the table shows for the record at data index `i`. */
  function RenderRow(s: State, i: nat): (row: Row)
    requires i < |s.records|
    ensures row.url == s.records[i].url && row.username == s.records[i].username
    ensures i in s.visible ==> row.password == s.records[i].password
    ensures i !in s.visible ==> row.password == Mask(|s.records[i].password|)
    ensures row.comment == Placeholder(s.records[i].comment)
    ensures row.tags == Placeholder(s.records[i].tags)
  {
    var rec := s.records[i];
    Row(rec.url, rec.username, SecretCell(rec.password, i in s.visible),
        Placeholder(rec.comment), Placeholder(rec.tags))
  }

  /** The search test for one record, `q` being the already lower-cased query. */
  predicate Matches(rec: Record, q: string)
  {
    Contains(Lower(rec.url), q) || Contains(Lower(rec.username), q)
  }

  /** A record matches exactly when the query occurs at some position of its
      lower-cased url or of its lower-cased user name. */
  lemma MatchesIsOccurrence(rec: Record, q: string)
    ensures Matches(rec, q) <==>
      (exists k :: OccursAt(Lower(rec.url), q, k)) || (exists k :: OccursAt(Lower(rec.username), q, k))
  {
    ContainsIsSubstring(Lower(rec.url), q);
    ContainsIsSubstring(Lower(rec.username), q);
  }

  /** The case of a record's url and user name never changes whether it
      matches. */
  lemma MatchIgnoresFieldCase(rec: Record, q: string)
    ensures Matches(rec, q) == Matches(Record(Lower(rec.url), Lower(rec.username), rec.password, rec.comment, rec.tags), q)
  {
    LowerIdempotent(rec.url);
    LowerIdempotent(rec.username);
  }

  predicate StrictlyIncreasing(xs: seq<nat>)
  {
    forall a, b :: 0 <= a < b < |xs| ==> xs[a] < xs[b]
  }

  /** Data indices of the records matching `q`, in list order. */
  function MatchingIndices(recs: seq<Record>, q: string): (idxs: seq<nat>)
    ensures |idxs| <= |recs|
    ensures forall k :: 0 <= k < |idxs| ==> idxs[k] < |recs|
    ensures StrictlyIncreasing(idxs)
    ensures forall j :: 0 <= j < |recs| ==> (j in idxs <==> Matches(recs[j], q))
    decreases |recs|
  {
    if |recs| == 0 then []
    else
      var last := |recs| - 1;
      var front := MatchingIndices(recs[..last], q);
      assert forall j :: 0 <= j < last ==> recs[..last][j] == recs[j];
      if Matches(recs[last], q) then front + [last] else front
  }

  /** Scanning one more record appends its index exactly when it matches. */
  lemma MatchingIndicesStep(recs: seq<Record>, q: string, i: nat)
    requires i < |recs|
    ensures MatchingIndices(recs[..i + 1], q) ==
      if Matches(recs[i], q) then MatchingIndices(recs[..i], q) + [i] else MatchingIndices(recs[..i], q)
  {
    assert recs[..i + 1][..i] == recs[..i];
    assert recs[..i + 1][i] == recs[i];
  }

  /** `0, 1, ..., n - 1`. */
  function AllIndices(n: nat): (idxs: seq<nat>)
    ensures |idxs| == n
    ensures forall k :: 0 <= k < n ==> idxs[k] == k
  {
    seq(n, k requires 0 <= k < n => k as nat)
  }

  /** Data indices shown, row by row, for the text in the search box: all of
      them when the lower-cased query is empty, the matching ones otherwise. */
  function ViewIndices(s: State, query: string): (idxs: seq<nat>)
    ensures |idxs| <= |s.records|
    ensures forall k :: 0 <= k < |idxs| ==> idxs[k] < |s.records|
    ensures StrictlyIncreasing(idxs)
  {
    var q := Lower(query);
    if q == "" then AllIndices(|s.records|) else MatchingIndices(s.records, q)
  }

  /** The rows of the table for the text in the search box: row `k` renders
      the `k`-th shown record, so the table never has more rows than records. */
  function View(s: State, query: string): (rows: seq<Row>)
    ensures |rows| == |ViewIndices(s, query)| <= |s.records|
    ensures forall k :: 0 <= k < |rows| ==> rows[k] == RenderRow(s, ViewIndices(s, query)[k])
  {
    RowsAt(s, ViewIndices(s, query))
  }

  /** The rows rendering the records at `idxs`, in that order. */
  function RowsAt(s: State, idxs: seq<nat>): (rows: seq<Row>)
    requires forall k :: 0 <= k < |idxs| ==> idxs[k] < |s.records|
    ensures |rows| == |idxs|
    ensures forall k :: 0 <= k < |idxs| ==> rows[k] == RenderRow(s, idxs[k])
  {
    seq(|idxs|, k requires 0 <= k < |idxs| => RenderRow(s, idxs[k]))
  }

  /** Rendering one more index appends its row. */
  lemma RowsAtAppend(s: State, idxs: seq<nat>, i: nat)
    requires forall k :: 0 <= k < |idxs| ==> idxs[k] < |s.records|
    requires i < |s.records|
    ensures RowsAt(s, idxs + [i]) == RowsAt(s, idxs) + [RenderRow(s, i)]
  {
  }

  /** An empty search box shows every record once, in stored order. */
  lemma EmptyQueryShowsAll(s: State)
    ensures ViewIndices(s, "") == AllIndices(|s.records|)
    ensures |View(s, "")| == |s.records|
    ensures forall i :: 0 <= i < |s.records| ==> View(s, "")[i] == RenderRow(s, i)
  {
  }

  /** A non-empty query shows exactly the matching records, in stored order,
      and never more rows than there are records. */
  lemma QueryShowsExactlyMatches(s: State, query: string)
    requires query != ""
    ensures |View(s, query)| <= |s.records|
    ensures StrictlyIncreasing(ViewIndices(s, query))
    ensures forall j :: 0 <= j < |s.records| ==>
      (j in ViewIndices(s, query) <==> Matches(s.records[j], Lower(query)))
    ensures forall k :: 0 <= k < |View(s, query)| ==>
      View(s, query)[k] == RenderRow(s, ViewIndices(s, query)[k])
  {
  }

  /** Searching is case-insensitive in the query: typing it lower-cased gives
      the same table. */
  lemma SearchIgnoresQueryCase(s: State, query: string)
    ensures ViewIndices(s, Lower(query)) == ViewIndices(s, query)
    ensures View(s, Lower(query)) == View(s, query)
  {
    LowerIdempotent(query);
  }

  /** How many entries of `xs` are below `v`. */
  function CountBelow(xs: seq<nat>, v: nat): (n: nat)
    ensures n <= |xs|
  {
    if |xs| == 0 then 0
    else (if xs[0] < v then 1 else 0) + CountBelow(xs[1..], v)
  }

  lemma {:induction false} NoneBelow(xs: seq<nat>, v: nat)
    requires forall k :: 0 <= k < |xs| ==> v <= xs[k]
    ensures CountBelow(xs, v) == 0
  {
    if |xs| > 0 {
      NoneBelow(xs[1..], v);
    }
  }

  /** In a strictly increasing sequence exactly `k` entries lie below the
      `k`-th one. */
  lemma {:induction false} RankOfEntry(xs: seq<nat>, k: nat)
    requires StrictlyIncreasing(xs) && k < |xs|
    ensures CountBelow(xs, xs[k]) == k
  {
    assert StrictlyIncreasing(xs[1..]);
    if k == 0 {
      NoneBelow(xs[1..], xs[0]);
    } else {
      RankOfEntry(xs[1..], k - 1);
    }
  }

  /** The record behind a selected table row, looked up through the view: a
      shown record with exactly `row` shown records before it. Since the shown
      indices increase, this determines the index. */
  function ResolveRow(s: State, query: string, sel: Option<nat>): (r: Result<nat>)
    ensures r.Ok? <==> sel.Some? && sel.value < |View(s, query)|
    ensures r.Ok? ==> r.value < |s.records| && r.value in ViewIndices(s, query)
    ensures r.Ok? ==> CountBelow(ViewIndices(s, query), r.value) == sel.value
    ensures r.Ok? ==> View(s, query)[sel.value] == RenderRow(s, r.value)
  {
    match sel
    case None => Err(NoSelection)
    case Some(row) =>
      var idxs := ViewIndices(s, query);
      if row < |idxs| then RankOfEntry(idxs, row); Ok(idxs[row]) else Err(NoSelection)
  }

  /** A shown record is determined by its rank among the shown records. */
  lemma RankDeterminesIndex(xs: seq<nat>, v: nat, w: nat)
    requires StrictlyIncreasing(xs)
    requires v in xs && w in xs && CountBelow(xs, v) == CountBelow(xs, w)
    ensures v == w
  {
    var a :| 0 <= a < |xs| && xs[a] == v;
    var b :| 0 <= b < |xs| && xs[b] == w;
    RankOfEntry(xs, a);
    RankOfEntry(xs, b);
  }

  /** Without a filter a row's position is its data index. */
  lemma ResolveIsIdentityUnfiltered(s: State, row: nat)
    requires row < |s.records|
    ensures ResolveRow(s, "", Some(row)) == Ok(row)
  {
  }

  /** The application's own lookup: the selected row's position in the table
      is used as the data index. */
  function ResolveRowAsWritten(s: State, query: string, sel: Option<nat>): (r: Result<nat>)
    ensures r.Ok? <==> sel.Some? && sel.value < |View(s, query)|
    ensures r.Ok? ==> r.value == sel.value
  {
    match sel
    case None => Err(NoSelection)
    case Some(row) => if row < |View(s, query)| then Ok(row) else Err(NoSelection)
  }

  /** The two lookups agree while the search box is empty. */
  lemma AsWrittenAgreesUnfiltered(s: State, sel: Option<nat>)
    ensures ResolveRowAsWritten(s, "", sel) == ResolveRow(s, "", sel)
  {
  }

  /** Two entries, of which only the second matches the query "bank". */
  const FilterExample := State([Record("ab", "c", "pa", "", ""), Record("bank", "bob", "pb", "", "")], {})

  /** Under a filter the application's lookup picks the wrong record: with the
      query "bank" the only row shows the second entry of `FilterExample`, but
      its position selects the first. */
  lemma AsWrittenPicksWrongRecordUnderFilter()
    ensures ResolveRowAsWritten(FilterExample, "bank", Some(0)) == Ok(0)
    ensures ResolveRow(FilterExample, "bank", Some(0)) == Ok(1)
    ensures View(FilterExample, "bank")[0] != RenderRow(FilterExample, 0)
  {
    // The query keeps only the second record: "bank" is too long to be in
    // "ab" or "c", so the one row is record 1 while its position is 0.
    ShorterDoesNotContain("ab", "bank");
    assert ViewIndices(FilterExample, "bank") == [1];
  }


  /** The password cell the application writes, in place, into the selected
      row when it toggles: the password of the record at the row's position,
      shown if it was hidden and masked if it was shown. The table is not
      refilled afterwards. */
  function ToggleCellAsWritten(s: State, row: nat): (cell: string)
    requires row < |s.records|
    ensures |cell| == |s.records[row].password|
    ensures row in s.visible ==> cell == Mask(|s.records[row].password|)
    ensures row !in s.visible ==> cell == s.records[row].password
  {
    SecretCell(s.records[row].password, row !in s.visible)
  }

  /** Under the query "bank" a toggle of the only row writes the first
      record's password "pa" into the row that shows the second record, whose
      password is "pb"; a refill of the table would show a mask there. */
  lemma AsWrittenToggleShowsOtherPassword()
    ensures View(FilterExample, "bank")[0].url == FilterExample.records[1].url
    ensures FilterExample.records[1].password == "pb"
    ensures ToggleCellAsWritten(FilterExample, 0) == "pa"
    ensures View(Toggle(FilterExample, 0), "bank")[0].password == "**"
  {
    AsWrittenPicksWrongRecordUnderFilter();
    var t := Toggle(FilterExample, 0);
    assert t.records == FilterExample.records;
    assert ViewIndices(t, "bank") == ViewIndices(FilterExample, "bank");
    assert View(t, "bank")[0] == RenderRow(t, 1);
    assert 1 !in t.visible;
    assert Mask(2) == "**";
  }

  /** After a toggle the record's row shows the password if it was masked and
      masks it, to its full length, if it was shown. */
  lemma ToggleFlipsCell(s: State, i: nat)
    requires i < |s.records|
    ensures RenderRow(Toggle(s, i), i).password ==
      (if i in s.visible then Mask(|s.records[i].password|) else s.records[i].password)
    ensures forall j :: 0 <= j < |s.records| && j != i ==> RenderRow(Toggle(s, i), j) == RenderRow(s, j)
  {
  }

  /** Refilling the table from the whole list, one row per record. */
  method RefreshTable(s: State) returns (rows: seq<Row>)
    ensures rows == View(s, "")
  {
    EmptyQueryShowsAll(s);
    rows := [];
    var i := 0;
    while i < |s.records|
      invariant 0 <= i <= |s.records|
      invariant |rows| == i
      invariant forall k :: 0 <= k < i ==> rows[k] == RenderRow(s, k)
    {
      rows := rows + [RenderRow(s, i)];
      i := i + 1;
    }
  }

  /** The search box handler: an empty lower-cased query refills the whole
      table, otherwise the list is scanned for the records matching it. */
  method SearchEntries(s: State, query: string) returns (rows: seq<Row>)
    ensures rows == View(s, query)
  {
    var q := Lower(query);
    if q == "" {
      rows := RefreshTable(s);
      assert query == "";
    } else {
      rows := ScanMatches(s, q);
      assert ViewIndices(s, query) == MatchingIndices(s.records, q);
    }
  }

  /** One step of the search loop: scanning record `i` appends its row
      exactly when it matches. */
  lemma ScanStep(s: State, q: string, i: nat)
    requires i < |s.records|
    ensures forall k :: 0 <= k < |MatchingIndices(s.records[..i], q)| ==> MatchingIndices(s.records[..i], q)[k] < |s.records|
    ensures RowsAt(s, MatchingIndices(s.records[..i + 1], q)) ==
      if Matches(s.records[i], q) then RowsAt(s, MatchingIndices(s.records[..i], q)) + [RenderRow(s, i)]
      else RowsAt(s, MatchingIndices(s.records[..i], q))
  {
    MatchingIndicesStep(s.records, q, i);
    if Matches(s.records[i], q) {
      RowsAtAppend(s, MatchingIndices(s.records[..i], q), i);
    }
  }

  /** The search loop: the list is scanned in order and a row is added for
      each record whose lower-cased URL or user name contains `q`. */
  method ScanMatches(s: State, q: string) returns (rows: seq<Row>)
    ensures rows == RowsAt(s, MatchingIndices(s.records, q))
  {
    rows := [];
    var i := 0;
    while i < |s.records|
      invariant 0 <= i <= |s.records|
      invariant rows == RowsAt(s, MatchingIndices(s.records[..i], q))
    {
      ScanStep(s, q, i);
      if Matches(s.records[i], q) {
        rows := rows + [RenderRow(s, i)];
      }
      i := i + 1;
    }
    assert s.records[..i] == s.records;
  }
}
