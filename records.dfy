/**
 * The three collections' documents (history, confidence scores, detection
 * stats), the writes one classification makes to them, and the invariant
 * that ties the three together.
 */
module Records {
  import opened Common
  import opened Text
  import opened Sorting
  import opened Ranking
  import opened Detection

  /** Requester metadata stored with a record: `remote_addr` and the User-Agent header. */
  datatype Client = Client(address: Option<string>, userAgent: Option<string>)

  /** A `detection_history` document. */
  datatype HistoryRecord = HistoryRecord(
    id: nat, timestamp: nat, preview: string, fullText: string,
    language: Language, confidence: real, client: Client)

  /** A `confidence_scores` document; it has no rank field, its rank is its
      position among the rows of its history id. */
  datatype ConfidenceRow = ConfidenceRow(historyId: nat, language: Language, value: real)

  /** A `detection_stats` document. */
  datatype LanguageStat = LanguageStat(language: Language, count: nat, lastDetected: nat)

  /** The history document written for classification `c`. */
  function NewRecord(id: nat, now: nat, c: Classification, client: Client): (h: HistoryRecord)
    ensures h.id == id && h.timestamp == now
    ensures WellFormed(c) ==> RecordAgreesWithRows(h, RowsOf(id, c.ranked))
  {
    HistoryRecord(id, now, Preview(c.text), c.text, c.language, c.confidence, client)
  }

  /** The (language, confidence) projection of confidence rows. */
  function Entries(rows: seq<ConfidenceRow>): (es: seq<Candidate>)
    ensures |es| == |rows|
    ensures forall k :: 0 <= k < |rows| ==> es[k].language == rows[k].language && es[k].value == rows[k].value
  {
    seq(|rows|, k requires 0 <= k < |rows| => Candidate(rows[k].language, rows[k].value))
  }

  /** The confidence documents written for history id `id`, one per ranked entry. */
  function RowsOf(id: nat, ranked: seq<Candidate>): (rows: seq<ConfidenceRow>)
    ensures forall k :: 0 <= k < |rows| ==> rows[k].historyId == id
    ensures Entries(rows) == ranked
  {
    seq(|ranked|, k requires 0 <= k < |ranked| => ConfidenceRow(id, ranked[k].language, ranked[k].value))
  }

  /** `find({'history_id': id})`: the rows of one history id, in stored order. */
  function RowsFor(rows: seq<ConfidenceRow>, id: nat): (r: seq<ConfidenceRow>)
    ensures |r| <= |rows|
    ensures forall x :: x in r <==> x in rows && x.historyId == id
  {
    if rows == [] then []
    else (if rows[0].historyId == id then [rows[0]] else []) + RowsFor(rows[1..], id)
  }

  lemma {:induction false} RowsForAppend(a: seq<ConfidenceRow>, b: seq<ConfidenceRow>, id: nat)
    ensures RowsFor(a + b, id) == RowsFor(a, id) + RowsFor(b, id)
  {
    if a == [] {
      assert a + b == b;
    } else {
      assert (a + b)[1..] == a[1..] + b;
      RowsForAppend(a[1..], b, id);
    }
  }

  lemma {:induction false} RowsForAll(rows: seq<ConfidenceRow>, id: nat)
    requires forall k :: 0 <= k < |rows| ==> rows[k].historyId == id
    ensures RowsFor(rows, id) == rows
  {
    if rows != [] {
      RowsForAll(rows[1..], id);
    }
  }

  lemma {:induction false} RowsForNone(rows: seq<ConfidenceRow>, id: nat)
    requires forall k :: 0 <= k < |rows| ==> rows[k].historyId != id
    ensures RowsFor(rows, id) == []
  {
    if rows != [] {
      RowsForNone(rows[1..], id);
    }
  }

  /** How many history records carry `language`. */
  function CountOf(history: seq<HistoryRecord>, language: Language): nat
  {
    if history == [] then 0
    else CountOf(history[..|history| - 1], language) + (if history[|history| - 1].language == language then 1 else 0)
  }

  /** `find_one({'language': language})` on the stats collection. */
  function FindStat(stats: seq<LanguageStat>, language: Language): (r: Option<LanguageStat>)
    ensures r.None? <==> forall k :: 0 <= k < |stats| ==> stats[k].language != language
    ensures r.Some? ==> r.value in stats && r.value.language == language
  {
    if stats == [] then None
    else if stats[0].language == language then Some(stats[0])
    else FindStat(stats[1..], language)
  }

  /** The stored count for `language`, 0 when it has no stats document. */
  function StatCount(stats: seq<LanguageStat>, language: Language): nat
  {
    match FindStat(stats, language)
    case None => 0
    case Some(st) => st.count
  }

  /** `update_one({'language': l}, {'$inc': {'count': 1}, '$set': {'last_detected': now}}, upsert=True)`:
      the first document of `language` is incremented and stamped; without one, a new
      document with count 1 is appended. */
  function Upsert(stats: seq<LanguageStat>, language: Language, now: nat): (r: seq<LanguageStat>)
    ensures FindStat(r, language) == Some(LanguageStat(language, StatCount(stats, language) + 1, now))
    ensures forall l :: l != language ==> FindStat(r, l) == FindStat(stats, l)
    ensures |r| == |stats| + (if FindStat(stats, language).None? then 1 else 0)
    ensures forall k :: 0 <= k < |r| ==> r[k] in stats || r[k] == LanguageStat(language, StatCount(stats, language) + 1, now)
  {
    if stats == [] then [LanguageStat(language, 1, now)]
    else if stats[0].language == language then
      [stats[0].(count := stats[0].count + 1, lastDetected := now)] + stats[1..]
    else
      var r := [stats[0]] + Upsert(stats[1..], language, now);
      assert r[1..] == Upsert(stats[1..], language, now);
      r
  }

  /** No language has two stats documents. */
  predicate UniqueLanguages(stats: seq<LanguageStat>)
  {
    forall i, j :: 0 <= i < j < |stats| ==> stats[i].language != stats[j].language
  }

  /** The ids the history collection holds. */
  function Ids(history: seq<HistoryRecord>): set<nat>
  {
    set i | 0 <= i < |history| :: history[i].id
  }

  /** A history record and its confidence rows agree as written by one classification. */
  predicate RecordAgreesWithRows(h: HistoryRecord, rows: seq<ConfidenceRow>)
  {
    && h.preview == Preview(h.fullText)
    && Clean(h.fullText)
    && |h.fullText| >= MinTextLength
    && |rows| <= TopN
    && NonIncreasing(Entries(rows), Value)
    && h.confidence == MainConfidence(Entries(rows), h.language)
  }

  /** Ids and timestamps grow with insertion order and stay below the next ones to be handed out. */
  predicate Ordered(history: seq<HistoryRecord>, nextId: nat, clock: nat)
  {
    && (forall i, j :: 0 <= i < j < |history| ==> history[i].id < history[j].id && history[i].timestamp < history[j].timestamp)
    && (forall i :: 0 <= i < |history| ==> history[i].id < nextId && history[i].timestamp < clock)
  }

  /** Every confidence row belongs to a history record, and each record's rows are its ranked breakdown. */
  predicate RowsAgree(history: seq<HistoryRecord>, rows: seq<ConfidenceRow>)
  {
    && (forall k :: 0 <= k < |rows| ==> rows[k].historyId in Ids(history))
    && (forall i :: 0 <= i < |history| ==> RecordAgreesWithRows(history[i], RowsFor(rows, history[i].id)))
  }

  /** One stats document per language, and each language's count is its number of history records. */
  ghost predicate StatsAgree(history: seq<HistoryRecord>, stats: seq<LanguageStat>)
  {
    && UniqueLanguages(stats)
    && (forall k :: 0 <= k < |stats| ==> stats[k].count >= 1)
    && (forall l :: StatCount(stats, l) == CountOf(history, l))
  }

  /** The invariant of the three collections under the single-writer discipline. */
  ghost predicate Consistent(history: seq<HistoryRecord>, rows: seq<ConfidenceRow>, stats: seq<LanguageStat>,
                             nextId: nat, clock: nat)
  {
    Ordered(history, nextId, clock) && RowsAgree(history, rows) && StatsAgree(history, stats)
  }

  lemma {:induction false} UpsertKeepsUnique(stats: seq<LanguageStat>, language: Language, now: nat)
    requires UniqueLanguages(stats)
    ensures UniqueLanguages(Upsert(stats, language, now))
  {
    var r := Upsert(stats, language, now);
    if stats == [] {
    } else if stats[0].language == language {
      assert forall k :: 0 <= k < |r| ==> r[k].language == stats[k].language;
    } else {
      var rest := Upsert(stats[1..], language, now);
      UpsertKeepsUnique(stats[1..], language, now);
      assert r == [stats[0]] + rest;
      forall k | 0 <= k < |rest|
        ensures rest[k].language != stats[0].language
      {
        if rest[k] in stats[1..] {
          NotFirstLanguage(stats, rest[k]);
        }
      }
    }
  }

  lemma NotFirstLanguage(stats: seq<LanguageStat>, x: LanguageStat)
    requires UniqueLanguages(stats) && |stats| > 0
    requires x in stats[1..]
    ensures x.language != stats[0].language
  {
    var m :| 0 <= m < |stats[1..]| && stats[1..][m] == x;
    assert stats[m + 1] == x;
  }

  /** The new counts after an upsert: one more for `language`, the same for every other language. */
  lemma UpsertCounts(stats: seq<LanguageStat>, language: Language, now: nat)
    ensures forall l :: StatCount(Upsert(stats, language, now), l) == StatCount(stats, l) + (if l == language then 1 else 0)
  {
    var r := Upsert(stats, language, now);
    forall l
      ensures StatCount(r, l) == StatCount(stats, l) + (if l == language then 1 else 0)
    {
      if l != language {
        assert FindStat(r, l) == FindStat(stats, l);
      }
    }
  }

  lemma UpsertKeepsPositive(stats: seq<LanguageStat>, language: Language, now: nat)
    requires forall k :: 0 <= k < |stats| ==> stats[k].count >= 1
    ensures forall k :: 0 <= k < |Upsert(stats, language, now)| ==> Upsert(stats, language, now)[k].count >= 1
  {
    var r := Upsert(stats, language, now);
    forall k | 0 <= k < |r|
      ensures r[k].count >= 1
    {
      if r[k] in stats {
        var m :| 0 <= m < |stats| && stats[m] == r[k];
      }
    }
  }

  lemma CountOfAppend(history: seq<HistoryRecord>, h: HistoryRecord)
    ensures forall l :: CountOf(history + [h], l) == CountOf(history, l) + (if h.language == l then 1 else 0)
  {
    assert (history + [h])[..|history|] == history;
  }

  lemma AppendIds(history: seq<HistoryRecord>, h: HistoryRecord)
    ensures Ids(history + [h]) == Ids(history) + {h.id}
  {
    var history' := history + [h];
    assert forall i :: 0 <= i < |history| ==> history'[i] == history[i];
    assert history'[|history|] == h;
  }

  lemma CommitLeavesNoOrphans(history: seq<HistoryRecord>, rows: seq<ConfidenceRow>, h: HistoryRecord, added: seq<ConfidenceRow>)
    requires forall k :: 0 <= k < |rows| ==> rows[k].historyId in Ids(history)
    requires forall k :: 0 <= k < |added| ==> added[k].historyId == h.id
    ensures forall k :: 0 <= k < |rows + added| ==> (rows + added)[k].historyId in Ids(history + [h])
  {
    AppendIds(history, h);
    var rows' := rows + added;
    forall k | 0 <= k < |rows'|
      ensures rows'[k].historyId in Ids(history + [h])
    {
      if k >= |rows| {
        assert rows'[k] == added[k - |rows|];
      } else {
        assert rows'[k] == rows[k];
      }
    }
  }

  /** The new record's rows are exactly the batch written with it. */
  lemma NewRecordRows(history: seq<HistoryRecord>, rows: seq<ConfidenceRow>, nextId: nat, added: seq<ConfidenceRow>)
    requires forall k :: 0 <= k < |rows| ==> rows[k].historyId in Ids(history)
    requires forall i :: 0 <= i < |history| ==> history[i].id < nextId
    requires forall k :: 0 <= k < |added| ==> added[k].historyId == nextId
    ensures RowsFor(rows + added, nextId) == added
  {
    forall k | 0 <= k < |rows|
      ensures rows[k].historyId != nextId
    {
      assert rows[k].historyId in Ids(history);
    }
    RowsForAppend(rows, added, nextId);
    RowsForNone(rows, nextId);
    RowsForAll(added, nextId);
  }

  lemma CommitKeepsRowsAgree(history: seq<HistoryRecord>, rows: seq<ConfidenceRow>, nextId: nat, clock: nat,
                              c: Classification, client: Client)
    requires Ordered(history, nextId, clock) && RowsAgree(history, rows)
    requires WellFormed(c)
    ensures RowsAgree(history + [NewRecord(nextId, clock, c, client)], rows + RowsOf(nextId, c.ranked))
  {
    var h := NewRecord(nextId, clock, c, client);
    var history', added := history + [h], RowsOf(nextId, c.ranked);
    var rows' := rows + added;
    CommitLeavesNoOrphans(history, rows, h, added);
    forall i | 0 <= i < |history'|
      ensures RecordAgreesWithRows(history'[i], RowsFor(rows', history'[i].id))
    {
      if i < |history| {
        var id := history[i].id;
        assert history'[i] == history[i];
        RowsForAppend(rows, added, id);
        RowsForNone(added, id);
        assert RowsFor(rows', id) == RowsFor(rows, id);
      } else {
        assert history'[i] == h;
        NewRecordRows(history, rows, nextId, added);
      }
    }
  }

  lemma CommitKeepsStatsAgree(history: seq<HistoryRecord>, stats: seq<LanguageStat>, h: HistoryRecord, now: nat)
    requires StatsAgree(history, stats)
    ensures StatsAgree(history + [h], Upsert(stats, h.language, now))
  {
    UpsertKeepsUnique(stats, h.language, now);
    UpsertKeepsPositive(stats, h.language, now);
    UpsertCounts(stats, h.language, now);
    CountOfAppend(history, h);
  }

  /** Writing one classification (the history record, its confidence rows,
      the counter upsert) keeps the three collections consistent. */
  lemma CommitKeepsConsistent(history: seq<HistoryRecord>, rows: seq<ConfidenceRow>, stats: seq<LanguageStat>,
                              nextId: nat, clock: nat, c: Classification, client: Client)
    requires Consistent(history, rows, stats, nextId, clock)
    requires WellFormed(c)
    ensures Consistent(history + [NewRecord(nextId, clock, c, client)], rows + RowsOf(nextId, c.ranked),
                       Upsert(stats, c.language, clock), nextId + 1, clock + 1)
  {
    var h := NewRecord(nextId, clock, c, client);
    assert Ordered(history + [h], nextId + 1, clock + 1);
    CommitKeepsRowsAgree(history, rows, nextId, clock, c, client);
    CommitKeepsStatsAgree(history, stats, h, clock);
  }
}
