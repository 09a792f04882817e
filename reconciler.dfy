/** The run reconciler: classifies each row of the latest deadline run,
    upserts the successes into the cumulative store keyed by the raw
    University string, and derives the retry set as the universe minus the
    store's keys. Files are values: `None` stands for a file that does not
    exist. */
module Reconciler {
  import opened Wrappers
  import opened Text
  import Sorting
  import DeadlineMiner

  type DeadlineRow = DeadlineMiner.DeadlineRow

  /** The two messages the miner writes when it finds no page or no dates. */
  const FailureMessages := [DeadlineMiner.NoPageMessage, DeadlineMiner.NoDatesMessage]
  const ErrorPrefix := "An error occurred:"

  /** A row is a failure iff its info is one of the two messages verbatim or
      starts with the error prefix; there is no check of content quality.
      Snippet text, which starts with an ellipsis, is never a failure. */
  function IsFailure(info: string): (failed: bool)
    ensures StartsWith(info, DeadlineMiner.Ellipsis) ==> !failed
  {
    SnippetIsNotFailure(info);
    info in FailureMessages || StartsWith(info, ErrorPrefix)
  }

  lemma SnippetIsNotFailure(info: string)
    ensures StartsWith(info, DeadlineMiner.Ellipsis) ==> info !in FailureMessages && !StartsWith(info, ErrorPrefix)
  {
    if StartsWith(info, DeadlineMiner.Ellipsis) {
      DeadlineMiner.EllipsisIsNotSentinel(info);
      assert info[0] == '.' && ErrorPrefix[0] == 'A';
    }
  }

  /** `newly_successful_rows`: the non-failure rows, in run order. */
  function SuccessRows(rows: seq<DeadlineRow>): (r: seq<DeadlineRow>)
    ensures forall x :: x in r <==> x in rows && !IsFailure(x.info)
    ensures |r| <= |rows|
  {
    if rows == [] then []
    else
      var last := rows[|rows| - 1];
      assert rows == rows[..|rows| - 1] + [last];
      SuccessRows(rows[..|rows| - 1]) + (if IsFailure(last.info) then [] else [last])
  }

  /** `d[row['University']] = row` for each row in turn. */
  function UpsertAll(m: map<string, DeadlineRow>, rows: seq<DeadlineRow>): (r: map<string, DeadlineRow>)
    ensures forall k :: k in r <==> k in m || exists x | x in rows :: x.university == k
    ensures forall k | k in r :: r[k] in rows || (k in m && r[k] == m[k])
  {
    if rows == [] then m
    else
      var last := rows[|rows| - 1];
      UpsertAll(m, rows[..|rows| - 1])[last.university := last]
  }

  /** The dictionary built from a file of rows. */
  function LoadStore(rows: seq<DeadlineRow>): map<string, DeadlineRow> {
    UpsertAll(map[], rows)
  }

  /** The store after one reconciliation: the old store with this run's
      successes upserted. */
  function ReconciledStore(existing: seq<DeadlineRow>, latest: seq<DeadlineRow>): map<string, DeadlineRow> {
    UpsertAll(LoadStore(existing), SuccessRows(latest))
  }

  function Names(rows: seq<DeadlineRow>): set<string> {
    set r | r in rows :: r.university
  }

  /** Every entry sits under its own University string. */
  ghost predicate Keyed(m: map<string, DeadlineRow>) {
    forall k | k in m :: m[k].university == k
  }

  lemma UpsertAllSnoc(m: map<string, DeadlineRow>, rows: seq<DeadlineRow>, y: DeadlineRow)
    ensures UpsertAll(m, rows + [y]) == UpsertAll(m, rows)[y.university := y]
  {
    assert (rows + [y])[..|rows|] == rows;
  }

  /** Upserting a run into a store is the store overridden by the run's own
      dictionary: later rows win, untouched keys keep their old row. */
  lemma {:induction false} UpsertIsOverride(m: map<string, DeadlineRow>, rows: seq<DeadlineRow>)
    ensures UpsertAll(m, rows) == m + LoadStore(rows)
  {
    if rows != [] {
      var p, last := rows[..|rows| - 1], rows[|rows| - 1];
      UpsertIsOverride(m, p);
      var l := LoadStore(p);
      assert (m + l)[last.university := last] == m + l[last.university := last];
    }
  }

  /** The dictionary of a run holds exactly the run's names, each mapped to a
      row of the run that carries that name. */
  lemma {:induction false} LoadStoreShape(rows: seq<DeadlineRow>)
    ensures LoadStore(rows).Keys == Names(rows)
    ensures Keyed(LoadStore(rows))
    ensures forall k | k in LoadStore(rows) :: LoadStore(rows)[k] in rows
  {
    if rows != [] {
      var p, last := rows[..|rows| - 1], rows[|rows| - 1];
      LoadStoreShape(p);
      assert rows == p + [last];
      assert Names(rows) == Names(p) + {last.university};
    }
  }

  /** Upserting the same run twice is the same as upserting it once. */
  lemma UpsertIdempotent(m: map<string, DeadlineRow>, rows: seq<DeadlineRow>)
    ensures UpsertAll(UpsertAll(m, rows), rows) == UpsertAll(m, rows)
  {
    UpsertIsOverride(m, rows);
    UpsertIsOverride(UpsertAll(m, rows), rows);
    var l := LoadStore(rows);
    assert (m + l) + l == m + l;
  }

  predicate SuccessAt(rows: seq<DeadlineRow>, i: int, k: string) {
    0 <= i < |rows| && rows[i].university == k && !IsFailure(rows[i].info)
  }

  /** Row i is the last successful row of the run for University k. */
  predicate LastSuccessAt(rows: seq<DeadlineRow>, i: int, k: string) {
    SuccessAt(rows, i, k) && forall j | i < j < |rows| :: !SuccessAt(rows, j, k)
  }

  lemma SuccessRowsSnoc(p: seq<DeadlineRow>, last: DeadlineRow)
    ensures SuccessRows(p + [last]) == SuccessRows(p) + (if IsFailure(last.info) then [] else [last])
  {
    assert (p + [last])[..|p|] == p;
  }

  /** Last run wins: a University with a success in the run maps to its last
      successful row, whatever the store held before. */
  lemma {:induction false} LastSuccessWins(m: map<string, DeadlineRow>, rows: seq<DeadlineRow>, k: string, i: int)
    requires LastSuccessAt(rows, i, k)
    ensures k in UpsertAll(m, SuccessRows(rows))
    ensures UpsertAll(m, SuccessRows(rows))[k] == rows[i]
  {
    var p, last := rows[..|rows| - 1], rows[|rows| - 1];
    assert rows == p + [last];
    SuccessRowsSnoc(p, last);
    var sp := SuccessRows(p);
    forall j | i < j < |p| ensures !SuccessAt(p, j, k) {
      assert !SuccessAt(rows, j, k);
    }
    if IsFailure(last.info) {
      assert SuccessRows(rows) == sp;
      assert LastSuccessAt(p, i, k);
      LastSuccessWins(m, p, k, i);
    } else {
      assert SuccessRows(rows) == sp + [last];
      UpsertAllSnoc(m, sp, last);
      if i < |rows| - 1 {
        assert !SuccessAt(rows, |rows| - 1, k);
        assert last.university != k;
        assert LastSuccessAt(p, i, k);
        LastSuccessWins(m, p, k, i);
      }
    }
  }

  /** A University with no success in the run keeps exactly what the store
      had: failed rows never add, remove or overwrite an entry. */
  lemma {:induction false} NoSuccessKeepsEntry(m: map<string, DeadlineRow>, rows: seq<DeadlineRow>, k: string)
    requires forall i | 0 <= i < |rows| :: !SuccessAt(rows, i, k)
    ensures k in UpsertAll(m, SuccessRows(rows)) <==> k in m
    ensures k in m ==> UpsertAll(m, SuccessRows(rows))[k] == m[k]
  {
    if rows != [] {
      var p, last := rows[..|rows| - 1], rows[|rows| - 1];
      assert rows == p + [last];
      SuccessRowsSnoc(p, last);
      var sp := SuccessRows(p);
      forall i | 0 <= i < |p| ensures !SuccessAt(p, i, k) {
        assert !SuccessAt(rows, i, k);
      }
      NoSuccessKeepsEntry(m, p, k);
      if IsFailure(last.info) {
        assert SuccessRows(rows) == sp;
      } else {
        assert SuccessRows(rows) == sp + [last];
        UpsertAllSnoc(m, sp, last);
        assert !SuccessAt(rows, |rows| - 1, k);
        assert last.university != k;
      }
    }
  }

  /** The store's keys are the old keys plus this run's successful names,
      raw strings as written, and no stored row is a failure row of this run. */
  lemma ReconciledKeys(m: map<string, DeadlineRow>, rows: seq<DeadlineRow>)
    ensures UpsertAll(m, SuccessRows(rows)).Keys
      == m.Keys + set r | r in rows && !IsFailure(r.info) :: r.university
    ensures forall k | k in UpsertAll(m, SuccessRows(rows)) ::
      var v := UpsertAll(m, SuccessRows(rows))[k];
      (k in m && v == m[k]) || (v in rows && !IsFailure(v.info))
  {
    UpsertIsOverride(m, SuccessRows(rows));
    LoadStoreShape(SuccessRows(rows));
  }

  /** A store that is written back and read again is the same store. */
  lemma ReloadStore(s: map<string, DeadlineRow>, written: seq<DeadlineRow>)
    requires Keyed(s)
    requires forall r :: r in written <==> r in s.Values
    ensures LoadStore(written) == s
  {
    LoadStoreShape(written);
    var l := LoadStore(written);
    forall k ensures k in l <==> k in s {
      if k in s { assert s[k] in s.Values; }
    }
    forall k | k in l ensures l[k] == s[k] {
      var r := l[k];
      assert r in s.Values;
      var k' :| k' in s && s[k'] == r;
    }
  }

  lemma ReconciledKeyed(existing: seq<DeadlineRow>, latest: seq<DeadlineRow>)
    ensures Keyed(ReconciledStore(existing, latest))
  {
    LoadStoreShape(existing);
    LoadStoreShape(SuccessRows(latest));
    UpsertIsOverride(LoadStore(existing), SuccessRows(latest));
  }

  /** Re-running with the same latest run and the store file the first run
      wrote gives the same store, hence the same retry set. */
  lemma RerunIsStable(existing: seq<DeadlineRow>, latest: seq<DeadlineRow>, written: seq<DeadlineRow>)
    requires forall r :: r in written <==> r in ReconciledStore(existing, latest).Values
    ensures ReconciledStore(written, latest) == ReconciledStore(existing, latest)
  {
    var s := ReconciledStore(existing, latest);
    ReconciledKeyed(existing, latest);
    ReloadStore(s, written);
    UpsertIdempotent(LoadStore(existing), SuccessRows(latest));
  }

  /** The store is left unwritten only when it is empty, and then the old
      store file held no rows: nothing is lost by not writing it. */
  lemma EmptyStoreHadNoRows(existing: seq<DeadlineRow>, latest: seq<DeadlineRow>)
    ensures existing != [] ==> ReconciledStore(existing, latest) != map[]
  {
    ReconciledKeys(LoadStore(existing), latest);
    LoadStoreShape(existing);
    if existing != [] {
      assert existing[0].university in Names(existing);
      assert existing[0].university in ReconciledStore(existing, latest);
    }
  }

  /** How the miner's rows classify: a failure exactly when no page was
      found, the page failed to load, or the page had no date match. */
  lemma MinedRowClassification(university: string,
                               search: string -> Option<seq<DeadlineMiner.SearchLink>>,
                               fetch: string -> DeadlineMiner.PageFetch, row: DeadlineRow)
    requires forall url :: DeadlineMiner.WellFormedFetch(fetch(url))
    requires DeadlineMiner.RowOutcome(university, search, fetch, row)
    ensures IsFailure(row.info) <==>
      match DeadlineMiner.FoundPage(university, search)
      case None => true
      case Some(u) => fetch(u).FetchFailed? || fetch(u).matches == []
  {
    var found := DeadlineMiner.FoundPage(university, search);
    if found.Some? {
      var page := fetch(found.value);
      if page.FetchFailed? {
        assert row.info[..|ErrorPrefix|] == ErrorPrefix;
      } else if page.matches != [] {
        LoadedPageIsSuccess(page, row.info);
      }
    }
  }

  /** Snippets from a loaded page with a date match never read as a
      failure. */
  lemma LoadedPageIsSuccess(page: DeadlineMiner.PageFetch, info: string)
    requires DeadlineMiner.WellFormedFetch(page) && DeadlineMiner.ScrapeOutcome(page, info)
    requires page.Loaded? && page.matches != []
    ensures !IsFailure(info)
  {
    var xs :| DeadlineMiner.Listing(xs, DeadlineMiner.SnippetSet(page.text, page.matches))
      && info == Join(xs, DeadlineMiner.SnippetSeparator);
    var first := DeadlineMiner.Snippet(page.text, page.matches[0]);
    assert first in DeadlineMiner.SnippetSet(page.text, page.matches);
    assert first in xs;
    assert xs[0] in DeadlineMiner.SnippetSet(page.text, page.matches);
    DeadlineMiner.JoinStartsWithFirst(xs, DeadlineMiner.SnippetSeparator, DeadlineMiner.Ellipsis);
  }

  /** The test is exact: the page message without its final period is a
      success. */
  lemma ClassificationIsExact()
    ensures !IsFailure("Could not find deadline page")
    ensures IsFailure("An error occurred: timeout")
  {
    var s := "Could not find deadline page";
    assert |s| != |DeadlineMiner.NoPageMessage| && |s| != |DeadlineMiner.NoDatesMessage|;
    assert s[0] == 'C';
    var e := "An error occurred: timeout";
    assert e[..|ErrorPrefix|] == ErrorPrefix;
  }

  function UniversityOf(r: DeadlineRow): string { r.university }

  datatype RetryFile = WriteRetryList(names: seq<string>) | RemoveRetryList
  datatype StoreFile = WriteStore(rows: seq<DeadlineRow>) | LeaveStore
  datatype RunOutcome =
    | UniverseMissing
    | LatestMissing
    | Reconciled(store: map<string, DeadlineRow>, retry: set<string>, retryFile: RetryFile, storeFile: StoreFile)

  /** What the retry file becomes: removed when nothing is left to retry,
      otherwise the names once each in ascending order. */
  ghost predicate RetryFileFor(retry: set<string>, f: RetryFile) {
    match f
    case RemoveRetryList => retry == {}
    case WriteRetryList(names) =>
      && retry != {}
      && Sorting.SortedBy(names, Sorting.Id)
      && Sorting.Distinct(names)
      && forall n :: n in names <==> n in retry
  }

  /** What the store file becomes: left as it is when the store is empty,
      otherwise every stored row once, ordered by University. */
  ghost predicate StoreFileFor(store: map<string, DeadlineRow>, f: StoreFile) {
    match f
    case LeaveStore => store == map[]
    case WriteStore(rows) =>
      && store != map[]
      && Sorting.SortedBy(rows, UniversityOf)
      && Sorting.Distinct(rows)
      && forall r :: r in rows <==> r in store.Values
  }

  /** `find_failed_universities`: `universeFile` is the Name column of the
      university file, `latestFile` the latest run, `storeFile` the
      successful-deadlines file. */
  method FindFailedUniversities(universeFile: Option<seq<string>>, latestFile: Option<seq<DeadlineRow>>,
                                storeFile: Option<seq<DeadlineRow>>) returns (out: RunOutcome)
    ensures universeFile.None? ==> out == UniverseMissing
    ensures universeFile.Some? && latestFile.None? ==> out == LatestMissing
    ensures universeFile.Some? && latestFile.Some? ==>
      && out.Reconciled?
      && out.store == ReconciledStore(storeFile.GetOr([]), latestFile.value)
      && out.retry == (set n | n in universeFile.value) - out.store.Keys
      && RetryFileFor(out.retry, out.retryFile)
      && StoreFileFor(out.store, out.storeFile)
  {
    if universeFile.None? {
      return UniverseMissing;
    }
    var allUniversities := CollectUniverse(universeFile.value);
    if latestFile.None? {
      return LatestMissing;
    }
    var newlySuccessful := SelectSuccesses(latestFile.value);
    var store: map<string, DeadlineRow> := map[];
    if storeFile.Some? {
      store := UpsertRows(store, storeFile.value);
    }
    if newlySuccessful != [] {
      store := UpsertRows(store, newlySuccessful);
    }
    var retry := allUniversities - store.Keys;
    var retryFile := WriteRetry(retry);
    var written := WriteStoreFile(store);
    return Reconciled(store, retry, retryFile, written);
  }

  /** The retry set misses nothing of the universe and holds no stored name. */
  lemma RetryPartition(universe: seq<string>, store: map<string, DeadlineRow>)
    ensures var retry := (set n | n in universe) - store.Keys;
      && retry !! store.Keys
      && forall n | n in universe :: n in retry || n in store
  {
  }

  /** Step 1: the set of all university names. */
  method CollectUniverse(names: seq<string>) returns (all: set<string>)
    ensures all == set n | n in names
  {
    all := {};
    for i := 0 to |names|
      invariant all == set k | 0 <= k < i :: names[k]
    {
      all := all + {names[i]};
    }
    forall n | n in names ensures n in all {
      var k :| 0 <= k < |names| && names[k] == n;
    }
  }

  /** Step 2: keep the rows that are not failures, in order. */
  method SelectSuccesses(latest: seq<DeadlineRow>) returns (newlySuccessful: seq<DeadlineRow>)
    ensures newlySuccessful == SuccessRows(latest)
  {
    newlySuccessful := [];
    for i := 0 to |latest|
      invariant newlySuccessful == SuccessRows(latest[..i])
    {
      var row := latest[i];
      assert latest[..i + 1] == latest[..i] + [row];
      SuccessRowsSnoc(latest[..i], row);
      if !IsFailure(row.info) {
        newlySuccessful := newlySuccessful + [row];
      }
    }
    assert latest[..|latest|] == latest;
  }

  /** Steps 3 and 4: `d[row['University']] = row` for each row in turn. */
  method UpsertRows(m: map<string, DeadlineRow>, rows: seq<DeadlineRow>) returns (store: map<string, DeadlineRow>)
    ensures store == UpsertAll(m, rows)
  {
    store := m;
    for i := 0 to |rows|
      invariant store == UpsertAll(m, rows[..i])
    {
      var row := rows[i];
      UpsertAllSnoc(m, rows[..i], row);
      assert rows[..i + 1] == rows[..i] + [row];
      store := store[row.university := row];
    }
    assert rows[..|rows|] == rows;
  }

  /** Step 5: write the sorted retry list, or remove the file. */
  method WriteRetry(retry: set<string>) returns (f: RetryFile)
    ensures RetryFileFor(retry, f)
  {
    if retry != {} {
      var listed := Sorting.Enumerate(retry);
      var names := Sorting.SortBy(listed, Sorting.Id);
      Sorting.SortPreservesDistinct(listed, Sorting.Id);
      assert forall n :: n in names <==> n in multiset(listed);
      f := WriteRetryList(names);
    } else {
      f := RemoveRetryList;
    }
  }

  /** Step 6: write the store sorted by University when it is not empty. */
  method WriteStoreFile(store: map<string, DeadlineRow>) returns (f: StoreFile)
    ensures StoreFileFor(store, f)
  {
    if |store| > 0 {
      var listed := Sorting.Enumerate(store.Values);
      var rows := Sorting.SortBy(listed, UniversityOf);
      Sorting.SortPreservesDistinct(listed, UniversityOf);
      assert forall r :: r in rows <==> r in multiset(listed);
      f := WriteStore(rows);
    } else {
      f := LeaveStore;
    }
  }
}
