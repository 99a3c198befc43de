/**
 * The read side: the filtered, newest-first, paged history listing; the
 * detail lookup of one record with its confidence rows; and the top-ten
 * language counters.
 */
module Queries {
  import opened Common
  import opened Sorting
  import opened Ranking
  import opened Detection
  import opened Records

  // ---- search -------------------------------------------------------------

  /** Case folding of ASCII letters. */
  function Lower(c: char): char
  {
    if 'A' <= c <= 'Z' then (c as int + 32) as char else c
  }

  function Fold(s: string): string
  {
    seq(|s|, i requires 0 <= i < |s| => Lower(s[i]))
  }

  /** `needle` occurs in `hay`, tried at every offset from the left. */
  predicate Contains(hay: string, needle: string)
  {
    (|needle| <= |hay| && hay[..|needle|] == needle) || (hay != [] && Contains(hay[1..], needle))
  }

  /** `needle` occurs in `hay` starting at offset `i`. */
  predicate OccursAt(hay: string, needle: string, i: int)
  {
    0 <= i && i + |needle| <= |hay| && hay[i..i + |needle|] == needle
  }

  /** `Contains` finds an occurrence exactly when there is one. */
  lemma {:induction false} ContainsIffOccurrence(hay: string, needle: string)
    ensures Contains(hay, needle) <==> exists i :: OccursAt(hay, needle, i)
  {
    if exists i :: OccursAt(hay, needle, i) {
      var i :| OccursAt(hay, needle, i);
      if i > 0 {
        assert OccursAt(hay[1..], needle, i - 1) by {
          assert hay[1..][i - 1..i - 1 + |needle|] == hay[i..i + |needle|];
        }
        ContainsIffOccurrence(hay[1..], needle);
      }
    }
    if Contains(hay, needle) {
      if |needle| <= |hay| && hay[..|needle|] == needle {
        assert OccursAt(hay, needle, 0);
      } else {
        ContainsIffOccurrence(hay[1..], needle);
        var i :| OccursAt(hay[1..], needle, i);
        assert hay[1..][i..i + |needle|] == hay[i + 1..i + 1 + |needle|];
        assert OccursAt(hay, needle, i + 1);
      }
    }
  }

  /** The `$or` filter: an empty search matches everything, otherwise the
      search must occur, ignoring case, in the preview or in the language. */
  predicate Matches(h: HistoryRecord, search: string)
  {
    search == [] || Contains(Fold(h.preview), Fold(search)) || Contains(Fold(h.language), Fold(search))
  }

  /** The matching records, in stored order. */
  function Matching(history: seq<HistoryRecord>, search: string): (m: seq<HistoryRecord>)
    ensures |m| <= |history|
    ensures forall h :: h in m <==> h in history && Matches(h, search)
  {
    if history == [] then []
    else (if Matches(history[0], search) then [history[0]] else []) + Matching(history[1..], search)
  }

  /** Filtering one record keeps it exactly when it matches. */
  lemma MatchingOne(h: HistoryRecord, search: string)
    ensures Matching([h], search) == if Matches(h, search) then [h] else []
  {
    assert [h][1..] == [];
  }

  /** Filtering distributes over concatenation, so each stored record is
      counted once when it matches and not at all otherwise. */
  lemma {:induction false} MatchingAppend(a: seq<HistoryRecord>, b: seq<HistoryRecord>, search: string)
    ensures Matching(a + b, search) == Matching(a, search) + Matching(b, search)
  {
    if a == [] {
      assert a + b == b;
    } else {
      assert (a + b)[0] == a[0] && (a + b)[1..] == a[1..] + b;
      MatchingAppend(a[1..], b, search);
    }
  }

  lemma {:induction false} EmptySearchMatchesAll(history: seq<HistoryRecord>)
    ensures Matching(history, "") == history
  {
    if history != [] {
      EmptySearchMatchesAll(history[1..]);
      assert history == [history[0]] + history[1..];
    }
  }

  // ---- paging -------------------------------------------------------------

  /** `pages` is the ceiling of `total / perPage`: the fewest pages of
      `perPage` items that hold `total` items. */
  predicate IsCeilingOf(pages: int, total: int, perPage: int)
  {
    (pages - 1) * perPage < total <= pages * perPage
  }

  /** `(total + per_page - 1) // per_page`. */
  function PageCount(total: nat, perPage: nat): (pages: nat)
    requires perPage >= 1
    ensures IsCeilingOf(pages, total, perPage)
  {
    var pages := (total + perPage - 1) / perPage;
    assert total + perPage - 1 == pages * perPage + (total + perPage - 1) % perPage;
    pages
  }

  /** `skip((page - 1) * per_page)`. */
  function Offset(page: nat, perPage: nat): nat
    requires page >= 1
  {
    (page - 1) * perPage
  }

  /** `skip(...).limit(per_page)` on an ordered sequence. */
  function Window<T>(s: seq<T>, page: nat, perPage: nat): (w: seq<T>)
    requires page >= 1 && perPage >= 1
    ensures |w| <= perPage
    ensures w == [] <==> Offset(page, perPage) >= |s|
    ensures Offset(page, perPage) < |s| ==> |w| == Min(perPage, |s| - Offset(page, perPage))
    ensures forall k :: 0 <= k < |w| ==> Offset(page, perPage) + k < |s| && w[k] == s[Offset(page, perPage) + k]
  {
    var skip := Offset(page, perPage);
    if skip >= |s| then [] else s[skip..skip + Min(perPage, |s| - skip)]
  }

  /** A page holds items exactly when its number is at most the page count. */
  lemma PageInRange(total: nat, page: nat, perPage: nat)
    requires page >= 1 && perPage >= 1
    ensures Offset(page, perPage) < total <==> page <= PageCount(total, perPage)
  {
    var pages := PageCount(total, perPage);
    if page <= pages {
      assert (page - 1) * perPage <= (pages - 1) * perPage by {
        MulMonotone(page - 1, pages - 1, perPage);
      }
    } else {
      assert pages * perPage <= (page - 1) * perPage by {
        MulMonotone(pages, page - 1, perPage);
      }
    }
  }

  lemma MulMonotone(a: int, b: int, c: nat)
    requires a <= b
    ensures a * c <= b * c
  {
  }

  // ---- history listing ----------------------------------------------------

  /** The projected fields of a listed record. */
  datatype Summary = Summary(timestamp: nat, preview: string, language: Language, confidence: real)

  /** The listing response: `history`, `total`, `page`, `pages`. */
  datatype HistoryPage = HistoryPage(items: seq<Summary>, total: nat, page: nat, pages: nat)

  function Summarize(h: HistoryRecord): Summary
  {
    Summary(h.timestamp, h.preview, h.language, h.confidence)
  }

  function Timestamp(h: HistoryRecord): real
  {
    h.timestamp as real
  }

  /** `sort('timestamp', -1)`. */
  function NewestFirst(records: seq<HistoryRecord>): (r: seq<HistoryRecord>)
    ensures multiset(r) == multiset(records)
    ensures forall i, j :: 0 <= i < j < |r| ==> r[i].timestamp >= r[j].timestamp
  {
    SortDescIsStableSort(records, Timestamp);
    SortDesc(records, Timestamp)
  }

  /** The `find` projection applied to each record. */
  function Summaries(records: seq<HistoryRecord>): (r: seq<Summary>)
    ensures |r| == |records|
    ensures forall k :: 0 <= k < |r| ==> r[k] == Summarize(records[k])
  {
    seq(|records|, k requires 0 <= k < |records| => Summarize(records[k]))
  }

  /** `get_history` once the probe has succeeded. */
  function ListHistory(history: seq<HistoryRecord>, page: nat, perPage: nat, search: string): (r: HistoryPage)
    requires page >= 1 && perPage >= 1
    ensures r.total == |Matching(history, search)| && r.page == page
    ensures |r.items| <= perPage
  {
    var matching := Matching(history, search);
    HistoryPage(Summaries(Window(NewestFirst(matching), page, perPage)), |matching|, page, PageCount(|matching|, perPage))
  }

  /** `total` counts the matching records, `pages` is the ceiling of
      `total / per_page`, a page holds at most `per_page` items, and it is
      empty exactly when it lies past the last page. */
  lemma ListHistoryPaging(history: seq<HistoryRecord>, page: nat, perPage: nat, search: string)
    requires page >= 1 && perPage >= 1
    ensures var r := ListHistory(history, page, perPage, search);
            && r.total == |Matching(history, search)| && r.page == page
            && IsCeilingOf(r.pages, r.total, perPage)
            && |r.items| <= perPage
            && (r.items == [] <==> page > r.pages)
            && (page <= r.pages ==> |r.items| == Min(perPage, r.total - Offset(page, perPage)))
  {
    var matching := Matching(history, search);
    var total := |matching|;
    var pages := PageCount(total, perPage);
    var window := Window(NewestFirst(matching), page, perPage);
    assert |NewestFirst(matching)| == total by {
      assert |multiset(NewestFirst(matching))| == |multiset(matching)|;
    }
    PageInRange(total, page, perPage);
    assert ListHistory(history, page, perPage, search) == HistoryPage(Summaries(window), total, page, pages);
  }

  /** The items are the matching records newest first, starting at offset
      `(page - 1) * per_page`. */
  lemma ListHistoryOrder(history: seq<HistoryRecord>, page: nat, perPage: nat, search: string)
    requires page >= 1 && perPage >= 1
    ensures var r := ListHistory(history, page, perPage, search);
            && (forall i, j :: 0 <= i < j < |r.items| ==> r.items[i].timestamp >= r.items[j].timestamp)
            && (forall k :: 0 <= k < |r.items| ==>
                  && Offset(page, perPage) + k < r.total
                  && r.items[k] == Summarize(NewestFirst(Matching(history, search))[Offset(page, perPage) + k]))
  {
    var matching := Matching(history, search);
    var ordered := NewestFirst(matching);
    var skip := Offset(page, perPage);
    var w := Window(ordered, page, perPage);
    var items := Summaries(w);
    assert ListHistory(history, page, perPage, search) == HistoryPage(items, |matching|, page, PageCount(|matching|, perPage));
    assert |ordered| == |matching| by {
      assert |multiset(ordered)| == |multiset(matching)|;
    }
    forall k | 0 <= k < |items|
      ensures skip + k < |ordered| && items[k] == Summarize(ordered[skip + k])
    {
      assert items[k] == Summarize(w[k]);
    }
    forall i, j | 0 <= i < j < |items|
      ensures items[i].timestamp >= items[j].timestamp
    {
      assert items[i] == Summarize(ordered[skip + i]) && items[j] == Summarize(ordered[skip + j]);
    }
  }

  /** Every listed item is a summary of a stored record that matches the search. */
  lemma ListedItemsMatch(history: seq<HistoryRecord>, page: nat, perPage: nat, search: string, k: nat)
    requires page >= 1 && perPage >= 1
    requires k < |ListHistory(history, page, perPage, search).items|
    ensures exists h :: h in history && Matches(h, search) && ListHistory(history, page, perPage, search).items[k] == Summarize(h)
  {
    ListHistoryOrder(history, page, perPage, search);
    var matching := Matching(history, search);
    var ordered := NewestFirst(matching);
    var h := ordered[Offset(page, perPage) + k];
    assert h in multiset(ordered);
    assert h in matching;
  }

  /** Twenty-three records at twenty per page: two pages, of 20 and 3 items. */
  lemma TwentyThreeRecordsExample(history: seq<HistoryRecord>)
    requires |history| == 23
    ensures ListHistory(history, 1, 20, "").pages == 2
    ensures |ListHistory(history, 1, 20, "").items| == 20
    ensures |ListHistory(history, 2, 20, "").items| == 3
    ensures ListHistory(history, 3, 20, "").items == []
  {
    EmptySearchMatchesAll(history);
    ListHistoryPaging(history, 3, 20, "");
  }

  // ---- detail -------------------------------------------------------------

  /** The projected fields of a looked-up record. */
  datatype RecordView = RecordView(timestamp: nat, fullText: string, language: Language, confidence: real)

  /** The detail response: `history` and `confidences`. */
  datatype DetailView = DetailView(record: RecordView, confidences: seq<Candidate>)

  /** `find_one({'_id': id})`. */
  function FindRecord(history: seq<HistoryRecord>, id: nat): (r: Option<HistoryRecord>)
    ensures r.None? <==> forall i :: 0 <= i < |history| ==> history[i].id != id
    ensures r.Some? ==> r.value in history && r.value.id == id
  {
    if history == [] then None
    else if history[0].id == id then Some(history[0])
    else FindRecord(history[1..], id)
  }

  /** `get_history_detail` once the probe has succeeded: not found for an
      unknown id, otherwise the record and its rows in stored order. */
  function Detail(history: seq<HistoryRecord>, rows: seq<ConfidenceRow>, id: nat): (r: Result<DetailView, Error>)
    ensures r.Failure? <==> forall i :: 0 <= i < |history| ==> history[i].id != id
    ensures r.Failure? ==> r.error == NotFound
    ensures r.Success? ==> exists h :: h in history && h.id == id
                                       && r.value.record == RecordView(h.timestamp, h.fullText, h.language, h.confidence)
    ensures r.Success? ==> forall x :: x in r.value.confidences <==>
                                       exists row :: row in rows && row.historyId == id && x == Candidate(row.language, row.value)
  {
    match FindRecord(history, id)
    case None => Failure(NotFound)
    case Some(h) =>
      var mine := RowsFor(rows, id);
      var view := Entries(mine);
      assert forall x :: x in view <==> exists k :: 0 <= k < |mine| && x == Candidate(mine[k].language, mine[k].value);
      Success(DetailView(RecordView(h.timestamp, h.fullText, h.language, h.confidence), view))
  }

  /** In consistent collections a record's detail shows its ranked breakdown:
      at most five rows, values non-increasing, and the record's confidence is
      the detected language's value among them (0 when it is not there). */
  lemma DetailShowsRanking(history: seq<HistoryRecord>, rows: seq<ConfidenceRow>, stats: seq<LanguageStat>,
                           nextId: nat, clock: nat, id: nat)
    requires Consistent(history, rows, stats, nextId, clock)
    requires Detail(history, rows, id).Success?
    ensures var d := Detail(history, rows, id).value;
            && |d.confidences| <= TopN
            && NonIncreasing(d.confidences, Value)
            && d.record.confidence == MainConfidence(d.confidences, d.record.language)
  {
    var h := FindRecord(history, id).value;
    var i :| 0 <= i < |history| && history[i] == h;
    assert RecordAgreesWithRows(history[i], RowsFor(rows, history[i].id));
  }

  /** Looking up the record a commit has just written gives back the
      classification: its text, language and confidence, and its ranked
      entries in ranked order. */
  lemma DetailAfterCommit(history: seq<HistoryRecord>, rows: seq<ConfidenceRow>, stats: seq<LanguageStat>,
                          nextId: nat, clock: nat, c: Classification, client: Client)
    requires Consistent(history, rows, stats, nextId, clock)
    ensures Detail(history + [NewRecord(nextId, clock, c, client)], rows + RowsOf(nextId, c.ranked), nextId)
            == Success(DetailView(RecordView(clock, c.text, c.language, c.confidence), c.ranked))
  {
    var h := NewRecord(nextId, clock, c, client);
    FindAppended(history, h);
    NewRecordRows(history, rows, nextId, RowsOf(nextId, c.ranked));
  }

  lemma {:induction false} FindAppended(history: seq<HistoryRecord>, h: HistoryRecord)
    requires forall i :: 0 <= i < |history| ==> history[i].id != h.id
    ensures FindRecord(history + [h], h.id) == Some(h)
  {
    if history == [] {
      assert history + [h] == [h];
    } else {
      assert (history + [h])[1..] == history[1..] + [h];
      FindAppended(history[1..], h);
    }
  }

  // ---- statistics ---------------------------------------------------------

  /** How many counters `get_stats` returns. */
  const StatsLimit: nat := 10

  function CountKey(st: LanguageStat): real
  {
    st.count as real
  }

  /** `find().sort('count', -1).limit(10)`: the ten largest counters, ties in stored order. */
  function TopLanguages(stats: seq<LanguageStat>): (r: seq<LanguageStat>)
    ensures |r| == Min(StatsLimit, |stats|)
    ensures forall i, j :: 0 <= i < j < |r| ==> r[i].count >= r[j].count
    ensures multiset(r) <= multiset(stats)
    ensures forall x, i :: x in multiset(stats) - multiset(r) && 0 <= i < |r| ==> CountKey(x) <= CountKey(r[i])
  {
    Top(stats, CountKey, StatsLimit)
  }

  /** In consistent collections each reported counter is the number of
      history records with that language. */
  lemma TopLanguagesCountHistory(history: seq<HistoryRecord>, rows: seq<ConfidenceRow>, stats: seq<LanguageStat>,
                                 nextId: nat, clock: nat)
    requires Consistent(history, rows, stats, nextId, clock)
    ensures forall st :: st in TopLanguages(stats) ==> st.count == CountOf(history, st.language)
  {
    var top := TopLanguages(stats);
    forall st | st in top
      ensures st.count == CountOf(history, st.language)
    {
      assert st in multiset(top);
      var k :| 0 <= k < |stats| && stats[k] == st;
      UniqueFindStat(stats, k);
    }
  }

  lemma {:induction false} UniqueFindStat(stats: seq<LanguageStat>, k: nat)
    requires UniqueLanguages(stats) && k < |stats|
    ensures FindStat(stats, stats[k].language) == Some(stats[k])
  {
    if k > 0 {
      assert UniqueLanguages(stats[1..]);
      UniqueFindStat(stats[1..], k - 1);
    }
  }
}
