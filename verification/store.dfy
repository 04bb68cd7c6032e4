/**
 The password list and the set of rows whose password is shown in clear.
 Records are addressed by their position in the list, as in the application;
 the visible set holds the keys of its visibility dictionary (the dictionary's
 values are table handles and are not modelled).
 */
module Store {

  /** One credential entry; missing CSV cells are read as empty strings. */
  datatype Record = Record(url: string, username: string, password: string, comment: string, tags: string)

  /** The application's in-memory state. */
  datatype State = State(records: seq<Record>, visible: set<nat>)

  /** Every visible key names a stored record. */
  predicate Bounded(s: State)
  {
    forall k :: k in s.visible ==> k < |s.records|
  }

  /** State right after loading `records` at start-up: nothing is revealed. */
  function Initial(records: seq<Record>): (s: State)
    ensures s.records == records
    ensures Bounded(s)
    ensures forall k :: k !in s.visible
  {
    State(records, {})
  }

  /** Saving a new entry appends it. */
  function Add(s: State, rec: Record): (r: State)
    ensures |r.records| == |s.records| + 1
    ensures r.records[|s.records|] == rec
    ensures r.records[..|s.records|] == s.records
    ensures r.visible == s.visible
    ensures Bounded(s) ==> Bounded(r)
  {
    State(s.records + [rec], s.visible)
  }

  /** Importing a CSV file extends the list with its rows, in file order. */
  function Import(s: State, recs: seq<Record>): (r: State)
    ensures |r.records| == |s.records| + |recs|
    ensures r.records[..|s.records|] == s.records
    ensures r.records[|s.records|..] == recs
    ensures r.visible == s.visible
    ensures Bounded(s) ==> Bounded(r)
  {
    State(s.records + recs, s.visible)
  }

  /** Adds the given records one at a time, in order. */
  function AddEach(s: State, recs: seq<Record>): State
    decreases |recs|
  {
    if |recs| == 0 then s else AddEach(Add(s, recs[0]), recs[1..])
  }

  /** Importing a file is the same as adding its rows one by one, in file order. */
  lemma {:induction false} ImportIsRepeatedAdd(s: State, recs: seq<Record>)
    ensures Import(s, recs) == AddEach(s, recs)
    decreases |recs|
  {
    if |recs| > 0 {
      ImportIsRepeatedAdd(Add(s, recs[0]), recs[1..]);
      assert (s.records + [recs[0]]) + recs[1..] == s.records + recs;
    }
  }

  /** Saving an edited entry replaces the record at `i` and hides its password. */
  function Edit(s: State, i: nat, rec: Record): (r: State)
    requires i < |s.records|
    ensures |r.records| == |s.records|
    ensures r.records[i] == rec
    ensures forall j :: 0 <= j < |s.records| && j != i ==> r.records[j] == s.records[j]
    ensures i !in r.visible
    ensures forall j :: j != i ==> (j in r.visible <==> j in s.visible)
    ensures Bounded(s) ==> Bounded(r)
  {
    State(s.records[i := rec], s.visible - {i})
  }

  /** Double click or the context menu: flips whether the password at `i` is shown. */
  function Toggle(s: State, i: nat): (r: State)
    requires i < |s.records|
    ensures r.records == s.records
    ensures i in r.visible <==> i !in s.visible
    ensures forall j :: j != i ==> (j in r.visible <==> j in s.visible)
    ensures Bounded(s) ==> Bounded(r)
  {
    if i in s.visible then State(s.records, s.visible - {i})
    else State(s.records, s.visible + {i})
  }

  /** Toggling the same entry twice gives back the state it started from. */
  lemma ToggleTwice(s: State, i: nat)
    requires i < |s.records|
    ensures Toggle(Toggle(s, i), i) == s
  {
  }

  /** New key of a surviving visible key `k` once the record at `i` is gone. */
  function Shift(k: nat, i: nat): (k': nat)
    requires k != i
    ensures k < i ==> k' == k
    ensures k > i ==> k' + 1 == k
  {
    if k > i then k - 1 else k
  }

  /** The visible keys after the record at `i` is deleted: key `i` is dropped,
      keys below it are kept, keys above it move down by one. */
  function Renumber(vis: set<nat>, i: nat): (r: set<nat>)
    ensures forall j: nat :: j in r <==> (if j < i then j in vis else j + 1 in vis)
  {
    var r := set k | k in vis && k != i :: Shift(k, i);
    forall j: nat | (if j < i then j in vis else j + 1 in vis)
      ensures j in r
    {
      if j < i {
        assert Shift(j, i) == j;
      } else {
        assert Shift(j + 1, i) == j;
      }
    }
    r
  }

  /** Deleting the record at `i` removes it from the list and renumbers the
      visible keys so that visibility stays with every surviving record. */
  function Delete(s: State, i: nat): (r: State)
    requires i < |s.records|
    ensures |r.records| == |s.records| - 1
    ensures r.records[..i] == s.records[..i]
    ensures forall j :: i <= j < |r.records| ==> r.records[j] == s.records[j + 1]
    ensures forall j: nat :: j in r.visible <==> (if j < i then j in s.visible else j + 1 in s.visible)
    ensures Bounded(s) ==> Bounded(r)
  {
    State(s.records[..i] + s.records[i + 1..], Renumber(s.visible, i))
  }

  /** A record that survives the deletion of entry `i` sits at `Shift(j, i)`
      afterwards and is visible there exactly when it was visible before. */
  lemma DeleteKeepsVisibilityWithRecord(s: State, i: nat, j: nat)
    requires i < |s.records|
    requires j < |s.records| && j != i
    ensures Shift(j, i) < |Delete(s, i).records|
    ensures Delete(s, i).records[Shift(j, i)] == s.records[j]
    ensures Shift(j, i) in Delete(s, i).visible <==> j in s.visible
  {
  }
}
