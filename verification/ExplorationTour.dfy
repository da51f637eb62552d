/**
 * The exploration walk as one source of a feed session: some pages fail, the other sources record
 * books too, and the list of exclusions may have forgotten what was recorded long ago.
 */
module ExplorationTour {
  import opened Sequences
  import opened Catalog
  import opened Exploration
  import opened Pages

  ghost function OnSale(catalog: set<Book>): set<Book> {
    set b | b in catalog && b.available
  }

  /** One page: the source failed, or took rows given these exclusions. */
  datatype Stop = Missed | Took(excluded: set<int>, rows: seq<Book>)

  /** Exclusions are among what is recorded, which only grows, by at least the rows. */
  ghost predicate IsTourStep(catalog: set<Book>, limit: nat, key: int, before: set<int>, stop: Stop, next: int,
          after: set<int>)
  {
    && before <= after
    && match stop
       case Missed => next == key
       case Took(excluded, rows) =>
         excluded <= before && Elements(Ids(rows)) <= after && IsStep(catalog, limit, excluded, key, rows, next)
  }

  ghost predicate IsTour(catalog: set<Book>, limit: nat, keys: seq<int>, recorded: seq<set<int>>, stops: seq<Stop>) {
    && |keys| == |recorded| == |stops| + 1
    && forall k :: 0 <= k < |stops| ==> IsTourStep(catalog, limit, keys[k], recorded[k], stops[k], keys[k + 1], recorded[k + 1])
  }

  ghost function Successes(stops: seq<Stop>): nat {
    if stops == [] then 0 else Successes(stops[..|stops| - 1]) + if stops[|stops| - 1].Took? then 1 else 0
  }

  ghost predicate AllRecorded(catalog: set<Book>, recorded: set<int>) {
    forall b :: b in OnSale(catalog) ==> b.id in recorded
  }

  // ---- once around the ring ----

  /** The part of the ring between here and the end of one turn that began at start. */
  ghost function ToGo(catalog: set<Book>, start: int, wrapped: bool, key: int): set<Book> {
    set b | b in OnSale(catalog)
            && if wrapped then key < b.randomKey <= start else b.randomKey > key || b.randomKey <= start
  }

  /** Everything passed so far is recorded. */
  ghost predicate Passed(catalog: set<Book>, start: int, wrapped: bool, key: int, recorded: set<int>) {
    && (wrapped || start <= key)
    && forall b :: b in OnSale(catalog) && b !in ToGo(catalog, start, wrapped, key) ==> b.id in recorded
  }

  /** Books between the keys of a step, or below its key after a wrap, were excluded or are rows. */
  lemma StepCovers(catalog: set<Book>, limit: nat, key: int, before: set<int>, excluded: set<int>, rows: seq<Book>,
          next: int, after: set<int>, b: Book)
    requires limit >= 1 && DistinctKeys(catalog) && b in OnSale(catalog) && rows != []
    requires IsTourStep(catalog, limit, key, before, Took(excluded, rows), next, after)
    requires b.randomKey <= next && (Ahead(catalog, excluded, key) != {} ==> b.randomKey > key)
    ensures b.id in after
  {
    if b.id !in excluded {
      var queried := if Ahead(catalog, excluded, key) != {} then Ahead(catalog, excluded, key) else Remaining(catalog, excluded);
      HasRow(queried, limit, rows);
      AnswerIsInitialSegment(queried, limit, rows);
      assert b in queried && b in rows;
      IdOf(rows, b.id);
    }
  }

  lemma HasRow(table: set<Book>, limit: nat, rows: seq<Book>)
    requires Answers(rows, table, limit, BY_KEY) && rows != []
    ensures table != {} && rows[|rows| - 1] in table
  {
    assert rows[|rows| - 1] in rows;
  }

  /** What is ahead but not queried is excluded, hence recorded. */
  lemma NothingAhead(catalog: set<Book>, excluded: set<int>, key: int, b: Book)
    requires Ahead(catalog, excluded, key) == {} && b in OnSale(catalog) && b.randomKey > key
    ensures b.id in excluded
  {
    assert b.id !in excluded ==> b in Ahead(catalog, excluded, key);
  }

  lemma NothingRemains(catalog: set<Book>, excluded: set<int>, recorded: set<int>)
    requires Remaining(catalog, excluded) == {} && excluded <= recorded
    ensures AllRecorded(catalog, recorded)
  {
    forall b | b in OnSale(catalog) ensures b.id in recorded {
      assert b.id !in excluded ==> b in Remaining(catalog, excluded);
    }
  }

  lemma Smaller(less: set<Book>, more: set<Book>, last: Book)
    requires less <= more && (last in more || less == {} != more) && last !in less
    ensures |less| < |more|
  {
    ProperSubsetSize(less, more);
  }

  /** A step with something ahead goes on in the same turn. */
  lemma OnwardStep(catalog: set<Book>, limit: nat, start: int, wrapped: bool, key: int, before: set<int>,
          excluded: set<int>, rows: seq<Book>, next: int, after: set<int>)
    requires limit >= 1 && DistinctKeys(catalog) && Passed(catalog, start, wrapped, key, before)
    requires IsTourStep(catalog, limit, key, before, Took(excluded, rows), next, after)
    requires Ahead(catalog, excluded, key) != {} && ToGo(catalog, start, wrapped, key) != {}
    ensures Passed(catalog, start, wrapped, next, after)
    ensures |ToGo(catalog, start, wrapped, next)| < |ToGo(catalog, start, wrapped, key)|
  {
    StepIsNonEmpty(catalog, limit, excluded, key, rows, next);
    SplitsAtStart(catalog, excluded, key);
    assert rows != [];
    HasRow(Ahead(catalog, excluded, key), limit, rows);
    var togo, togo' := ToGo(catalog, start, wrapped, key), ToGo(catalog, start, wrapped, next);
    forall b | b in OnSale(catalog) && b !in togo' ensures b.id in after {
      if b in togo {
        StepCovers(catalog, limit, key, before, excluded, rows, next, after, b);
      }
    }
    assert togo' <= togo;
    if wrapped && next > start {
      assert togo' == {};
    }
    Smaller(togo', togo, rows[|rows| - 1]);
  }

  /** The step that finds nothing ahead goes back to the beginning of the ring. */
  lemma WrappingStep(catalog: set<Book>, limit: nat, start: int, key: int, before: set<int>,
          excluded: set<int>, rows: seq<Book>, next: int, after: set<int>)
    requires limit >= 1 && DistinctKeys(catalog) && Passed(catalog, start, false, key, before)
    requires IsTourStep(catalog, limit, key, before, Took(excluded, rows), next, after)
    requires Ahead(catalog, excluded, key) == {} && rows != [] && ToGo(catalog, start, false, key) != {}
    ensures Passed(catalog, start, true, next, after)
    ensures |ToGo(catalog, start, true, next)| < |ToGo(catalog, start, false, key)|
  {
    HasRow(Remaining(catalog, excluded), limit, rows);
    var togo, togo' := ToGo(catalog, start, false, key), ToGo(catalog, start, true, next);
    forall b | b in OnSale(catalog) && b !in togo' ensures b.id in after {
      if b.randomKey > key {
        NothingAhead(catalog, excluded, key, b);
      } else if b.randomKey <= next {
        StepCovers(catalog, limit, key, before, excluded, rows, next, after, b);
      } else {
        assert b !in togo;
      }
    }
    if next > start {
      assert togo' == {};
    }
    Smaller(togo', togo, rows[|rows| - 1]);
  }

  /** A successful page passes at least one more book of the turn, unless all books are recorded. */
  lemma TourStep(catalog: set<Book>, limit: nat, start: int, wrapped: bool, key: int, before: set<int>,
          stop: Stop, next: int, after: set<int>) returns (wrapped': bool)
    requires limit >= 1 && DistinctKeys(catalog) && Passed(catalog, start, wrapped, key, before)
    requires IsTourStep(catalog, limit, key, before, stop, next, after) && stop.Took?
    ensures AllRecorded(catalog, after)
            || (Passed(catalog, start, wrapped', next, after)
                && |ToGo(catalog, start, wrapped', next)| < |ToGo(catalog, start, wrapped, key)|)
  {
    wrapped' := wrapped;
    var excluded, rows := stop.excluded, stop.rows;
    if ToGo(catalog, start, wrapped, key) == {} {
      assert AllRecorded(catalog, before);
    } else if Ahead(catalog, excluded, key) != {} {
      OnwardStep(catalog, limit, start, wrapped, key, before, excluded, rows, next, after);
    } else if rows == [] {
      StepIsNonEmpty(catalog, limit, excluded, key, rows, next);
      NothingRemains(catalog, excluded, after);
    } else if wrapped {
      forall b | b in ToGo(catalog, start, wrapped, key) ensures b.id in excluded {
        NothingAhead(catalog, excluded, key, b);
      }
      assert AllRecorded(catalog, before);
    } else {
      WrappingStep(catalog, limit, start, key, before, excluded, rows, next, after);
      wrapped' := true;
    }
  }

  lemma {:induction false} TourCountsDown(catalog: set<Book>, limit: nat, keys: seq<int>, recorded: seq<set<int>>,
          stops: seq<Stop>, k: nat) returns (wrapped: bool)
    requires limit >= 1 && DistinctKeys(catalog) && IsTour(catalog, limit, keys, recorded, stops) && k <= |stops|
    ensures AllRecorded(catalog, recorded[k])
            || (Passed(catalog, keys[0], wrapped, keys[k], recorded[k])
                && |ToGo(catalog, keys[0], wrapped, keys[k])| + Successes(stops[..k]) <= |OnSale(catalog)|)
  {
    if k == 0 {
      wrapped := false;
      assert ToGo(catalog, keys[0], false, keys[0]) == OnSale(catalog);
    } else {
      var i := k - 1;
      wrapped := TourCountsDown(catalog, limit, keys, recorded, stops, i);
      assert stops[..k][..i] == stops[..i] && stops[..k][i] == stops[i];
      assert IsTourStep(catalog, limit, keys[i], recorded[i], stops[i], keys[i + 1], recorded[i + 1]);
      if !AllRecorded(catalog, recorded[i]) && stops[i].Took? {
        wrapped := TourStep(catalog, limit, keys[0], wrapped, keys[i], recorded[i], stops[i], keys[k], recorded[k]);
      }
    }
  }

  /**
   * With distinct keys: once as many pages have succeeded as there are books on sale, every book on
   * sale is recorded, whatever failed in between and whatever the exclusions had forgotten by then.
   */
  lemma TourRecordsAll(catalog: set<Book>, limit: nat, keys: seq<int>, recorded: seq<set<int>>, stops: seq<Stop>)
    requires limit >= 1 && DistinctKeys(catalog) && IsTour(catalog, limit, keys, recorded, stops)
    requires Successes(stops) >= |OnSale(catalog)|
    ensures AllRecorded(catalog, recorded[|stops|])
  {
    var wrapped := TourCountsDown(catalog, limit, keys, recorded, stops, |stops|);
    assert stops[..|stops|] == stops;
    var togo := ToGo(catalog, keys[0], wrapped, keys[|stops|]);
    assert |togo| == 0 ==> togo == {};
  }

  // ---- while nothing is forgotten ----

  /** All that is recorded is still excluded. */
  ghost predicate RemembersAll(recorded: seq<set<int>>, stops: seq<Stop>)
    requires |recorded| > |stops|
  {
    forall k :: 0 <= k < |stops| && stops[k].Took? ==> stops[k].excluded == recorded[k]
  }

  lemma {:induction false} FastTourCountsDown(catalog: set<Book>, limit: nat, keys: seq<int>, recorded: seq<set<int>>,
          stops: seq<Stop>, k: nat)
    requires limit >= 1 && DistinctKeys(catalog) && UniqueIds(catalog)
    requires IsTour(catalog, limit, keys, recorded, stops) && RemembersAll(recorded, stops) && k <= |stops|
    ensures Remaining(catalog, recorded[k]) == {}
            || PagesLeft(catalog, limit, recorded[k], keys[k]) + Successes(stops[..k])
               <= PagesLeft(catalog, limit, recorded[0], keys[0])
  {
    if k > 0 {
      var i := k - 1;
      FastTourCountsDown(catalog, limit, keys, recorded, stops, i);
      assert stops[..k][..i] == stops[..i] && stops[..k][i] == stops[i];
      assert IsTourStep(catalog, limit, keys[i], recorded[i], stops[i], keys[i + 1], recorded[i + 1]);
      ExcludingMoreIsFaster(catalog, limit, recorded[i], recorded[k], keys[k]);
      if stops[i].Took? && Remaining(catalog, recorded[i]) != {} {
        var rows := stops[i].rows;
        StepProgress(catalog, limit, recorded[i], keys[i], rows, keys[k]);
        ExcludingMoreIsFaster(catalog, limit, recorded[i] + Elements(Ids(rows)), recorded[k], keys[k]);
      }
    }
  }

  /** Then ceil(N / limit) + 1 successful pages are enough for the N books unseen at the start. */
  lemma FastTour(catalog: set<Book>, limit: nat, keys: seq<int>, recorded: seq<set<int>>, stops: seq<Stop>)
    requires limit >= 1 && DistinctKeys(catalog) && UniqueIds(catalog)
    requires IsTour(catalog, limit, keys, recorded, stops) && RemembersAll(recorded, stops)
    requires Successes(stops) >= CeilDiv(|Remaining(catalog, recorded[0])|, limit) + 1
    ensures AllRecorded(catalog, recorded[|stops|])
  {
    var n := |stops|;
    FastTourCountsDown(catalog, limit, keys, recorded, stops, n);
    assert stops[..n] == stops;
    PagesLeftBounds(catalog, limit, recorded[0], keys[0]);
    PagesLeftBounds(catalog, limit, recorded[n], keys[n]);
    NothingRemains(catalog, recorded[n], recorded[n]);
  }
}
