/**
  The traversal loop of `crawlNaverMap` (src/utils/crawler.ts:40-214) with the browser
  abstracted away. The list that the search frame renders is observed as the item count of
  each round (`rendered[k]` is what `$$('ul > li')` returns in round k), and the work on one
  item as the outcome of its `try` block: the name and jibun address it computed, or a
  failure that the per-item `catch` swallows. `ExtractFields` is that block for an item whose
  DOM reads succeed, built on the address pipeline of module Address.
 */
module Crawler {

  import opened Wrappers
  import opened Text
  import opened Address
  import opened Records
  import opened Numbers

  /** The `.place_bluelink` element of an item: its text content with the `span` children
      removed, and its full text content. */
  datatype NameLink = NameLink(withoutSpans: string, full: string)

  /** What the browser shows of one rendered list item. */
  datatype ItemView = ItemView(
    nameLink: Option<NameLink>,    // the name link, if the item has one
    innerText: string,             // the item's innerText before the expansion click
    blockTexts: seq<string>,       // textContent of the item's span and div elements, in document order
    expandedText: Option<string>)  // innerText after the click; None when reading it threw

  /** `text.split('\n')[0]` */
  function FirstLine(text: string): (r: string)
    ensures StartsWith(text, r)
    ensures forall k :: 0 <= k < |r| ==> r[k] != '\n'
    ensures |r| < |text| ==> text[|r|] == '\n'
  {
    if text == [] || text[0] == '\n' then [] else [text[0]] + FirstLine(text[1..])
  }

  /** The name: the trimmed link text without its spans, or the trimmed full link text when
      that is empty; without a link, the first line of the item's text. (The initial
      'Unknown' is overwritten on both paths, so it never reaches a record.) */
  function ItemName(v: ItemView): string {
    match v.nameLink
    case Some(link) =>
      var own := Trim(link.withoutSpans);
      if own != [] then own else Trim(link.full)
    case None => FirstLine(v.innerText)
  }

  /** A linked name is trimmed and prefers the text outside the spans; an unlinked name is
      the item text up to its first line break. */
  lemma ItemNameShape(v: ItemView)
    ensures v.nameLink.Some? ==> Trimmed(ItemName(v))
    ensures v.nameLink.Some? && Trim(v.nameLink.value.withoutSpans) != [] ==>
              ItemName(v) == Trim(v.nameLink.value.withoutSpans)
    ensures v.nameLink.None? ==> StartsWith(v.innerText, ItemName(v))
    ensures v.nameLink.None? ==> forall k :: 0 <= k < |ItemName(v)| ==> ItemName(v)[k] != '\n'
  {
  }

  /** What the `try` block of one item computes before its push: the name and the jibun
      address. */
  datatype Extracted = Extracted(name: string, jibunAddress: string)

  /** The `try` block of an item whose DOM reads succeed (crawler.ts:63-185). */
  function ExtractFields(v: ItemView): Extracted {
    Extracted(ItemName(v), JibunAddress(v.blockTexts, v.expandedText))
  }

  /** The outcome of the `try` block of rendered item `i` (0-based): what it computed, or
      None when it threw. */
  type Items = nat -> Option<Extracted>

  /** The outcome of an item whose DOM reads either all succeed, giving `view`, or throw. */
  function Observe(view: Option<ItemView>): Option<Extracted> {
    match view
    case Some(v) => Some(ExtractFields(v))
    case None => None
  }

  /** The record pushed for item `i` (crawler.ts:191-196). */
  function Record(e: Extracted, i: nat): CrawlItem {
    CrawlItem(i + 1, e.name, Some(e.jibunAddress), Some([]), None)
  }

  /** The round loop stops once more than this many rounds saw no change in the count. */
  const MaxFailCount: nat := 5

  /** The loop's variables: `results`, `previousCount` and `failCount`. */
  datatype Crawl = Crawl(results: seq<CrawlItem>, previousCount: nat, failCount: nat)

  /** Why the loop ended: `results.length < limit` failed, the stall `break`, or the model
      ran out of observed rounds. */
  datatype Stop = LimitReached | Stalled | Unobserved

  const Start: Crawl := Crawl([], 0, 0)

  /** What processing item `i` appends: its record, or nothing when it throws. */
  function Outcome(items: Items, i: nat): seq<CrawlItem> {
    match items(i)
    case Some(e) => [Record(e, i)]
    case None => []
  }

  /** The inner `for` loop, from index `i` while `i < count && results.length < limit`. */
  function Batch(results: seq<CrawlItem>, i: nat, count: nat, limit: int, items: Items): seq<CrawlItem>
    decreases count - i
  {
    if i < count && |results| < limit then Batch(results + Outcome(items, i), i + 1, count, limit, items)
    else results
  }

  /** One pass of the `while` body after the count is read: a stall round, or a batch that
      starts at `results.length`. The boolean is the `break`. */
  function Round(st: Crawl, count: nat, limit: int, items: Items): (Crawl, bool) {
    if count == st.previousCount then
      var failCount := st.failCount + 1;
      (Crawl(st.results, st.previousCount, failCount), failCount > MaxFailCount)
    else
      (Crawl(Batch(st.results, |st.results|, count, limit, items), count, st.failCount), false)
  }

  /** The `while (results.length < limit)` loop from round `round` on. */
  function Run(st: Crawl, rendered: seq<nat>, round: nat, limit: int, items: Items): (Crawl, Stop)
    requires round <= |rendered|
    decreases |rendered| - round
  {
    if |st.results| >= limit then (st, LimitReached)
    else if round == |rendered| then (st, Unobserved)
    else
      var (next, broke) := Round(st, rendered[round], limit, items);
      if broke then (next, Stalled) else Run(next, rendered, round + 1, limit, items)
  }

  /** `crawlNaverMap` after the list has appeared: the records and why the loop ended. */
  method CrawlNaverMap(limit: int, rendered: seq<nat>, items: Items) returns (results: seq<CrawlItem>, stop: Stop)
    ensures results == Run(Start, rendered, 0, limit, items).0.results
    ensures stop == Run(Start, rendered, 0, limit, items).1
    ensures |results| <= if limit < 0 then 0 else limit
    ensures stop == LimitReached <==> |results| >= limit
  {
    results := [];
    var previousCount: nat, failCount: nat, round: nat := 0, 0, 0;
    stop := LimitReached;
    while |results| < limit
      invariant round <= |rendered|
      invariant |results| <= if limit < 0 then 0 else limit
      invariant Run(Crawl(results, previousCount, failCount), rendered, round, limit, items)
                == Run(Start, rendered, 0, limit, items)
      decreases |rendered| - round
    {
      if round == |rendered| {
        stop := Unobserved;
        break;
      }
      var count := rendered[round];
      round := round + 1;
      if count == previousCount {
        failCount := failCount + 1;
        if failCount > MaxFailCount {
          stop := Stalled;
          break;
        }
        continue;
      }
      previousCount := count;
      ghost var before := results;
      var i := |results|;
      while i < count && |results| < limit
        invariant |results| <= if limit < 0 then 0 else limit
        invariant Batch(results, i, count, limit, items) == Batch(before, |before|, count, limit, items)
        decreases count - i
      {
        // the item's record, or nothing when processing it throws
        results := results + Outcome(items, i);
        i := i + 1;
      }
    }
  }

  // ---------------------------------------------------------------------------
  // What the loop guarantees.

  /** Record `r` is exactly what processing rendered item `r.id - 1` produced. */
  predicate FromItem(r: CrawlItem, items: Items) {
    r.id >= 1 && items(r.id - 1).Some? && r == Record(items(r.id - 1).value, r.id - 1)
  }

  predicate AllFromItems(results: seq<CrawlItem>, items: Items) {
    forall k :: 0 <= k < |results| ==> FromItem(results[k], items)
  }

  lemma {:induction false} BatchFromItems(results: seq<CrawlItem>, i: nat, count: nat, limit: int, items: Items)
    requires AllFromItems(results, items)
    ensures AllFromItems(Batch(results, i, count, limit, items), items)
    decreases count - i
  {
    if i < count && |results| < limit {
      var next := results + Outcome(items, i);
      assert AllFromItems(next, items) by {
        if items(i).Some? {
          assert FromItem(Record(items(i).value, i), items);
        }
      }
      BatchFromItems(next, i + 1, count, limit, items);
    }
  }

  lemma {:induction false} RunFromItems(st: Crawl, rendered: seq<nat>, round: nat, limit: int, items: Items)
    requires round <= |rendered|
    requires AllFromItems(st.results, items)
    ensures AllFromItems(Run(st, rendered, round, limit, items).0.results, items)
    decreases |rendered| - round
  {
    if |st.results| < limit && round < |rendered| {
      BatchFromItems(st.results, |st.results|, rendered[round], limit, items);
      var (next, broke) := Round(st, rendered[round], limit, items);
      if !broke {
        RunFromItems(next, rendered, round + 1, limit, items);
      }
    }
  }

  /** Every record comes from a rendered item that was processed without error, carries
      `id = index + 1` and an empty street address; an item whose processing throws leaves
      no record of its own. */
  lemma RecordsComeFromItems(limit: int, rendered: seq<nat>, items: Items)
    ensures var results := Run(Start, rendered, 0, limit, items).0.results;
            forall k :: 0 <= k < |results| ==>
              && results[k].id >= 1
              && items(results[k].id - 1).Some?
              && results[k] == Record(items(results[k].id - 1).value, results[k].id - 1)
              && results[k].roadAddress == Some([])
  {
    RunFromItems(Start, rendered, 0, limit, items);
  }

  /** A record pushed for an item whose outcome is the `try` block run on what the item
      shows holds the name and the trimmed jibun address the pipeline computes from it. */
  lemma RecordOfView(r: CrawlItem, i: nat, view: Option<ItemView>, outcome: Option<Extracted>)
    requires outcome == Observe(view) && outcome.Some? && r == Record(outcome.value, i)
    ensures view.Some? && r.name == ItemName(view.value)
    ensures r.jibunAddress == Some(JibunAddress(view.value.blockTexts, view.value.expandedText))
    ensures Trimmed(r.jibunAddress.value)
  {
  }

  /** `failCount` is never reset: it only grows, the loop stops on the sixth stall, and
      only a run that reaches the limit ends for that reason. */
  lemma {:induction false} StallsAreBounded(st: Crawl, rendered: seq<nat>, round: nat, limit: int, items: Items)
    requires round <= |rendered|
    requires st.failCount <= MaxFailCount
    ensures var (end, stop) := Run(st, rendered, round, limit, items);
            && st.failCount <= end.failCount <= MaxFailCount + 1
            && (stop == Stalled <==> end.failCount == MaxFailCount + 1)
            && (stop == LimitReached <==> |end.results| >= limit)
    decreases |rendered| - round
  {
    if |st.results| < limit && round < |rendered| {
      var (next, broke) := Round(st, rendered[round], limit, items);
      if !broke {
        StallsAreBounded(next, rendered, round + 1, limit, items);
      }
    }
  }

  /** Rounds that keep seeing the count of the previous round end the loop within
      `6 - failCount` rounds. */
  lemma {:induction false} StalledListStops(st: Crawl, rendered: seq<nat>, round: nat, limit: int, items: Items)
    requires round <= |rendered| && st.failCount <= MaxFailCount
    requires forall k :: round <= k < |rendered| ==> rendered[k] == st.previousCount
    requires |rendered| - round >= MaxFailCount + 1 - st.failCount
    ensures Run(st, rendered, round, limit, items).1 != Unobserved
    decreases |rendered| - round
  {
    if |st.results| < limit {
      var (next, broke) := Round(st, rendered[round], limit, items);
      if !broke {
        StalledListStops(next, rendered, round + 1, limit, items);
      }
    }
  }

  /** A list that never grows: whatever its fixed length, the loop ends within seven rounds,
      by the limit or by the stall rule, and a stalled run returns fewer than `limit`
      records. */
  lemma FixedListTerminates(limit: int, rendered: seq<nat>, items: Items)
    requires |rendered| >= MaxFailCount + 2
    requires forall k :: 0 <= k < |rendered| ==> rendered[k] == rendered[0]
    ensures Run(Start, rendered, 0, limit, items).1 != Unobserved
    ensures Run(Start, rendered, 0, limit, items).1 == Stalled ==>
              |Run(Start, rendered, 0, limit, items).0.results| < limit
  {
    StallsAreBounded(Start, rendered, 0, limit, items);
    if limit <= 0 {
    } else if rendered[0] == 0 {
      StalledListStops(Start, rendered, 0, limit, items);
    } else {
      var (next, broke) := Round(Start, rendered[0], limit, items);
      StalledListStops(next, rendered, 1, limit, items);
    }
  }

  /** Item `k` was processed without error for every `k`. */
  ghost predicate NoFailures(items: Items) {
    forall i: nat :: items(i).Some?
  }

  /** The ids are 1, 2, ..., n in order. */
  predicate ConsecutiveIds(results: seq<CrawlItem>) {
    forall k :: 0 <= k < |results| ==> results[k].id == k + 1
  }

  lemma {:induction false} BatchConsecutive(results: seq<CrawlItem>, count: nat, limit: int, items: Items)
    requires NoFailures(items) && ConsecutiveIds(results)
    ensures ConsecutiveIds(Batch(results, |results|, count, limit, items))
    decreases count - |results|
  {
    if |results| < count && |results| < limit {
      var n := |results|;
      var next := results + Outcome(items, n);
      assert |Outcome(items, n)| == 1 && Outcome(items, n)[0].id == n + 1;
      assert ConsecutiveIds(next);
      BatchConsecutive(next, count, limit, items);
    }
  }

  /** Without failures, a batch from `results.length` fills up to the count or the limit. */
  lemma {:induction false} BatchLength(results: seq<CrawlItem>, count: nat, limit: int, items: Items)
    requires NoFailures(items)
    ensures |Batch(results, |results|, count, limit, items)|
            == if |results| < count && |results| < limit then Min(count, limit) else |results|
    decreases count - |results|
  {
    if |results| < count && |results| < limit {
      var n := |results|;
      assert |Outcome(items, n)| == 1;
      BatchLength(results + Outcome(items, n), count, limit, items);
    }
  }

  lemma {:induction false} RunConsecutive(st: Crawl, rendered: seq<nat>, round: nat, limit: int, items: Items)
    requires round <= |rendered|
    requires NoFailures(items) && ConsecutiveIds(st.results)
    ensures ConsecutiveIds(Run(st, rendered, round, limit, items).0.results)
    decreases |rendered| - round
  {
    if |st.results| < limit && round < |rendered| {
      BatchConsecutive(st.results, rendered[round], limit, items);
      var (next, broke) := Round(st, rendered[round], limit, items);
      if !broke {
        RunConsecutive(next, rendered, round + 1, limit, items);
      }
    }
  }

  /** When no item fails, ids are exactly 1, 2, ..., n in order: the k-th record is item k's. */
  lemma NoFailuresGiveConsecutiveIds(limit: int, rendered: seq<nat>, items: Items)
    requires NoFailures(items)
    ensures var results := Run(Start, rendered, 0, limit, items).0.results;
            forall k :: 0 <= k < |results| ==> results[k].id == k + 1
  {
    RunConsecutive(Start, rendered, 0, limit, items);
  }

  /** When no item fails and the first round already shows at least `limit` items, the run
      returns exactly `limit` records and never processes an item beyond them. */
  lemma LimitIsMetExactly(limit: int, rendered: seq<nat>, items: Items)
    requires NoFailures(items) && 0 < limit && |rendered| >= 1 && rendered[0] >= limit
    ensures |Run(Start, rendered, 0, limit, items).0.results| == limit
    ensures Run(Start, rendered, 0, limit, items).1 == LimitReached
  {
    BatchLength([], rendered[0], limit, items);
  }

  /** The ids of some records, in order. */
  function Ids(results: seq<CrawlItem>): (r: seq<int>)
    ensures |r| == |results| && forall k :: 0 <= k < |r| ==> r[k] == results[k].id
  {
    seq(|results|, k requires 0 <= k < |results| => results[k].id)
  }

  /** The ids `i + 1` of the items in `[i, count)` that are processed without error. */
  function Succeeded(items: Items, i: nat, count: nat): seq<int>
    decreases count - i
  {
    if i < count then (if items(i).Some? then [i + 1] else []) + Succeeded(items, i + 1, count) else []
  }

  /** A batch with room for all of them adds exactly the records of the items in its range
      that do not throw, in index order. */
  lemma {:induction false} BatchIds(results: seq<CrawlItem>, i: nat, count: nat, limit: int, items: Items)
    requires |results| + |Succeeded(items, i, count)| <= limit
    ensures Ids(Batch(results, i, count, limit, items)) == Ids(results) + Succeeded(items, i, count)
    decreases count - i
  {
    if i < count && |results| < limit {
      var o := Outcome(items, i);
      assert Ids(o) == if items(i).Some? then [i + 1] else [];
      assert Ids(results + o) == Ids(results) + Ids(o);
      BatchIds(results + o, i + 1, count, limit, items);
    }
  }

  /** Rounds that only stall leave the records alone. */
  lemma {:induction false} RunStallKeepsResults(st: Crawl, rendered: seq<nat>, round: nat, limit: int, items: Items)
    requires round <= |rendered|
    requires forall k :: round <= k < |rendered| ==> rendered[k] == st.previousCount
    ensures Run(st, rendered, round, limit, items).0.results == st.results
    decreases |rendered| - round
  {
    if |st.results| < limit && round < |rendered| {
      var (next, broke) := Round(st, rendered[round], limit, items);
      if !broke {
        RunStallKeepsResults(next, rendered, round + 1, limit, items);
      }
    }
  }

  /** Per-item isolation: of five items the second throws; the other four are recorded with
      ids from their index, and the loop then stalls out short of the limit. */
  lemma SecondOfFiveFails(rendered: seq<nat>, items: Items)
    requires |rendered| == 7 && forall k :: 0 <= k < 7 ==> rendered[k] == 5
    requires forall i: nat :: items(i).None? <==> i == 1
    ensures var (end, stop) := Run(Start, rendered, 0, 10, items);
            Ids(end.results) == [1, 3, 4, 5] && stop == Stalled
  {
    assert Succeeded(items, 0, 5) == [1, 3, 4, 5] by {
      assert Succeeded(items, 4, 5) == [5];
      assert Succeeded(items, 3, 5) == [4, 5];
      assert Succeeded(items, 2, 5) == [3, 4, 5];
      assert Succeeded(items, 1, 5) == [3, 4, 5];
    }
    BatchIds([], 0, 5, 10, items);
    assert Ids([]) == [];
    var st := Crawl(Batch([], 0, 5, 10, items), 5, 0);
    assert Run(Start, rendered, 0, 10, items) == Run(st, rendered, 1, 10, items);
    RunStallKeepsResults(st, rendered, 1, 10, items);
    StalledListStops(st, rendered, 1, 10, items);
    StallsAreBounded(st, rendered, 1, 10, items);
  }

  // ---------------------------------------------------------------------------
  // Each batch starts at `results.length`. That is the first index not yet visited only
  // while no item has thrown; after a failure it lies behind it, and the next batch
  // records items that are already recorded.

  /** As written: of counts 3 then 4 with item 0 throwing, the first batch records items 1
      and 2, the second starts at index 2 and records item 2 a second time, then item 3. */
  lemma RevisitedItemIsRecordedTwice(rendered: seq<nat>, items: Items)
    requires |rendered| == 2 && rendered[0] == 3 && rendered[1] == 4
    requires forall i: nat :: items(i).None? <==> i == 0
    ensures var (end, stop) := Run(Start, rendered, 0, 10, items);
            && Ids(end.results) == [2, 3, 3, 4]
            && end.results[1] == end.results[2]
            && stop == Unobserved
  {
    RevisitedRun(rendered, items);
    SameIdSameRecord(10, rendered, items, 1, 2);
  }

  lemma RevisitedRun(rendered: seq<nat>, items: Items)
    requires |rendered| == 2 && rendered[0] == 3 && rendered[1] == 4
    requires forall i: nat :: items(i).None? <==> i == 0
    ensures var (end, stop) := Run(Start, rendered, 0, 10, items);
            Ids(end.results) == [2, 3, 3, 4] && stop == Unobserved
  {
    assert Succeeded(items, 0, 3) == [2, 3] by {
      assert Succeeded(items, 2, 3) == [3];
      assert Succeeded(items, 1, 3) == [2, 3];
    }
    BatchIds([], 0, 3, 10, items);
    assert Ids([]) == [];
    var first := Batch([], 0, 3, 10, items);
    assert Succeeded(items, 2, 4) == [3, 4] by {
      assert Succeeded(items, 3, 4) == [4];
    }
    BatchIds(first, 2, 4, 10, items);
    var st := Crawl(Batch(first, 2, 4, 10, items), 4, 0);
    assert |first| == 2 && |st.results| == 4;
    assert Run(Start, rendered, 0, 10, items) == Run(Crawl(first, 3, 0), rendered, 1, 10, items);
    assert Run(Crawl(first, 3, 0), rendered, 1, 10, items) == Run(st, rendered, 2, 10, items);
  }

  /** Two records with the same id are the same record: the id alone says which item was
      processed, and processing an item always yields the same record. */
  lemma SameIdSameRecord(limit: int, rendered: seq<nat>, items: Items, j: nat, k: nat)
    requires var results := Run(Start, rendered, 0, limit, items).0.results;
             j < |results| && k < |results| && results[j].id == results[k].id
    ensures var results := Run(Start, rendered, 0, limit, items).0.results;
            results[j] == results[k]
  {
    RecordsComeFromItems(limit, rendered, items);
  }

  /** The corrected loop variables: also the index of the first item not yet visited. */
  datatype FixedCrawl = FixedCrawl(results: seq<CrawlItem>, previousCount: nat, failCount: nat, processed: nat)

  const FixedStart: FixedCrawl := FixedCrawl([], 0, 0, 0)

  /** The batch loop that also reports the index it stopped at. */
  function BatchFrom(results: seq<CrawlItem>, i: nat, count: nat, limit: int, items: Items): (seq<CrawlItem>, nat)
    decreases count - i
  {
    if i < count && |results| < limit then BatchFrom(results + Outcome(items, i), i + 1, count, limit, items)
    else (results, i)
  }

  /** A round whose batch starts at the first item not yet visited. */
  function FixedRound(st: FixedCrawl, count: nat, limit: int, items: Items): (FixedCrawl, bool) {
    if count == st.previousCount then
      var failCount := st.failCount + 1;
      (st.(failCount := failCount), failCount > MaxFailCount)
    else
      var (results, processed) := BatchFrom(st.results, st.processed, count, limit, items);
      (FixedCrawl(results, count, st.failCount, processed), false)
  }

  function FixedRun(st: FixedCrawl, rendered: seq<nat>, round: nat, limit: int, items: Items): (FixedCrawl, Stop)
    requires round <= |rendered|
    decreases |rendered| - round
  {
    if |st.results| >= limit then (st, LimitReached)
    else if round == |rendered| then (st, Unobserved)
    else
      var (next, broke) := FixedRound(st, rendered[round], limit, items);
      if broke then (next, Stalled) else FixedRun(next, rendered, round + 1, limit, items)
  }

  /** Ids strictly increase, and none exceeds `bound`. */
  predicate IncreasingIds(results: seq<CrawlItem>, bound: int) {
    && (forall j, k :: 0 <= j < k < |results| ==> results[j].id < results[k].id)
    && (forall k :: 0 <= k < |results| ==> results[k].id <= bound)
  }

  lemma {:induction false} BatchFromIncreasing(results: seq<CrawlItem>, i: nat, count: nat, limit: int, items: Items)
    requires IncreasingIds(results, i)
    ensures var (r, processed) := BatchFrom(results, i, count, limit, items);
            i <= processed && IncreasingIds(r, processed)
    decreases count - i
  {
    if i < count && |results| < limit {
      var o := Outcome(items, i);
      assert |o| <= 1 && (|o| == 1 ==> o[0].id == i + 1);
      assert IncreasingIds(results + o, i + 1);
      BatchFromIncreasing(results + o, i + 1, count, limit, items);
    }
  }

  lemma {:induction false} FixedRunIncreasing(st: FixedCrawl, rendered: seq<nat>, round: nat, limit: int, items: Items)
    requires round <= |rendered|
    requires IncreasingIds(st.results, st.processed)
    ensures var end := FixedRun(st, rendered, round, limit, items).0;
            IncreasingIds(end.results, end.processed)
    decreases |rendered| - round
  {
    if |st.results| < limit && round < |rendered| {
      BatchFromIncreasing(st.results, st.processed, rendered[round], limit, items);
      var (next, broke) := FixedRound(st, rendered[round], limit, items);
      if !broke {
        FixedRunIncreasing(next, rendered, round + 1, limit, items);
      }
    }
  }

  /** Corrected: every item is visited at most once, so ids strictly increase and no place
      is recorded twice, whatever fails and however the count evolves. */
  lemma FixedRunVisitsEachItemOnce(limit: int, rendered: seq<nat>, items: Items)
    ensures var results := FixedRun(FixedStart, rendered, 0, limit, items).0.results;
            forall j, k :: 0 <= j < k < |results| ==> results[j].id < results[k].id
  {
    FixedRunIncreasing(FixedStart, rendered, 0, limit, items);
  }

  /** With room for all of them, a batch records the items of its range that do not throw
      and stops at the end of the range. */
  lemma {:induction false} BatchFromIds(results: seq<CrawlItem>, i: nat, count: nat, limit: int, items: Items)
    requires i <= count && |results| + |Succeeded(items, i, count)| < limit
    ensures var (r, processed) := BatchFrom(results, i, count, limit, items);
            Ids(r) == Ids(results) + Succeeded(items, i, count) && processed == count
    decreases count - i
  {
    if i < count {
      var o := Outcome(items, i);
      assert Ids(o) == if items(i).Some? then [i + 1] else [];
      assert Ids(results + o) == Ids(results) + Ids(o);
      BatchFromIds(results + o, i + 1, count, limit, items);
    }
  }

  /** Corrected, on the input above: item 2 is recorded once. */
  lemma FixedRunRecordsRevisitedItemOnce(rendered: seq<nat>, items: Items)
    requires |rendered| == 2 && rendered[0] == 3 && rendered[1] == 4
    requires forall i: nat :: items(i).None? <==> i == 0
    ensures Ids(FixedRun(FixedStart, rendered, 0, 10, items).0.results) == [2, 3, 4]
  {
    assert Succeeded(items, 0, 3) == [2, 3] by {
      assert Succeeded(items, 2, 3) == [3];
      assert Succeeded(items, 1, 3) == [2, 3];
    }
    BatchFromIds([], 0, 3, 10, items);
    assert Ids([]) == [];
    var first := BatchFrom([], 0, 3, 10, items).0;
    assert Succeeded(items, 3, 4) == [4];
    BatchFromIds(first, 3, 4, 10, items);
    var st := FixedCrawl(BatchFrom(first, 3, 4, 10, items).0, 4, 0, 4);
    assert |first| == 2 && |st.results| == 3;
    assert FixedRun(FixedStart, rendered, 0, 10, items) == FixedRun(FixedCrawl(first, 3, 0, 3), rendered, 1, 10, items);
    assert FixedRun(FixedCrawl(first, 3, 0, 3), rendered, 1, 10, items) == FixedRun(st, rendered, 2, 10, items);
  }
}
