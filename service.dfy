/**
 * The service over its three collections. Every mutating path runs under
 * one lock in the original, so the store is modelled sequentially: one
 * method call is one request. `reachable` is the outcome of the
 * connectivity probe made before the store is used.
 */
module Service {
  import opened Common
  import opened Ranking
  import opened Detection
  import opened Records
  import opened Queries

  class Store {
    /** `detection_history`, in insertion order. */
    var history: seq<HistoryRecord>
    /** `confidence_scores`, in insertion order. */
    var confidences: seq<ConfidenceRow>
    /** `detection_stats`, in insertion order. */
    var stats: seq<LanguageStat>
    /** The next history id the store hands out. */
    var nextId: nat
    /** The current time; it advances with every commit. */
    var clock: nat

    ghost predicate Valid()
      reads this
    {
      Consistent(history, confidences, stats, nextId, clock)
    }

    constructor ()
      ensures Valid()
      ensures history == [] && confidences == [] && stats == []
    {
      history, confidences, stats := [], [], [];
      nextId, clock := 0, 0;
    }

    /** The locked block of `detect_language`: one history record, one
        confidence row per ranked entry in ranked order, and one more
        detection of the language, created with count 1 when absent. */
    method Commit(c: Classification, client: Client)
      requires Valid() && WellFormed(c)
      modifies this
      ensures Valid()
      ensures history == old(history) + [NewRecord(old(nextId), old(clock), c, client)]
      ensures confidences == old(confidences) + RowsOf(old(nextId), c.ranked)
      ensures stats == Upsert(old(stats), c.language, old(clock))
      ensures nextId == old(nextId) + 1 && clock == old(clock) + 1
    {
      CommitKeepsConsistent(history, confidences, stats, nextId, clock, c, client);
      history, confidences, stats, nextId, clock :=
        history + [NewRecord(nextId, clock, c, client)], confidences + RowsOf(nextId, c.ranked),
        Upsert(stats, c.language, clock), nextId + 1, clock + 1;
    }

    /** `POST /api/detect`. A rejected request touches nothing; an accepted
        one is answered whether or not the store is reachable, and is
        committed only when it is. */
    method DetectLanguage(raw: string, client: Client, detect: string -> Option<Language>,
                          values: string -> seq<Candidate>, reachable: bool)
      returns (r: Result<Classification, Error>)
      requires Valid()
      modifies this
      ensures Valid()
      ensures r == Classify(raw, detect, values)
      ensures r.Failure? || !reachable ==>
                history == old(history) && confidences == old(confidences) && stats == old(stats)
                && nextId == old(nextId) && clock == old(clock)
      ensures r.Success? && reachable ==>
                && history == old(history) + [NewRecord(old(nextId), old(clock), r.value, client)]
                && confidences == old(confidences) + RowsOf(old(nextId), r.value.ranked)
                && stats == Upsert(old(stats), r.value.language, old(clock))
                && nextId == old(nextId) + 1 && clock == old(clock) + 1
    {
      r := Classify(raw, detect, values);
      if r.Success? && reachable {
        Commit(r.value, client);
      }
    }

    /** `GET /api/history`. */
    method History(page: nat, perPage: nat, search: string, reachable: bool) returns (r: Result<HistoryPage, Error>)
      requires page >= 1 && perPage >= 1
      ensures !reachable ==> r == Failure(StoreUnavailable)
      ensures reachable ==> r == Success(ListHistory(history, page, perPage, search))
    {
      if !reachable {
        return Failure(StoreUnavailable);
      }
      r := Success(ListHistory(history, page, perPage, search));
    }

    /** `GET /api/history/<id>`. */
    method HistoryDetail(id: nat, reachable: bool) returns (r: Result<DetailView, Error>)
      ensures !reachable ==> r == Failure(StoreUnavailable)
      ensures reachable ==> r == Detail(history, confidences, id)
    {
      if !reachable {
        return Failure(StoreUnavailable);
      }
      r := Detail(history, confidences, id);
    }

    /** `GET /api/stats`. */
    method Stats(reachable: bool) returns (r: Result<seq<LanguageStat>, Error>)
      ensures !reachable ==> r == Failure(StoreUnavailable)
      ensures reachable ==> r == Success(TopLanguages(stats))
    {
      if !reachable {
        return Failure(StoreUnavailable);
      }
      r := Success(TopLanguages(stats));
    }

    /** `DELETE /api/history`: empties the three collections; the id and
        time counters carry on. Clearing an empty store succeeds as well. */
    method Clear(reachable: bool) returns (r: Result<(), Error>)
      requires Valid()
      modifies this
      ensures Valid()
      ensures r == if reachable then Success(()) else Failure(StoreUnavailable)
      ensures reachable ==> history == [] && confidences == [] && stats == []
      ensures !reachable ==> history == old(history) && confidences == old(confidences) && stats == old(stats)
      ensures nextId == old(nextId) && clock == old(clock)
    {
      if !reachable {
        return Failure(StoreUnavailable);
      }
      confidences := [];
      history := [];
      stats := [];
      r := Success(());
    }
  }
}
