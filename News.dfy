// The read-path handlers of the `/news` router: random sampling across the
// four categories, the "recents" listings and semantic search. The document
// store, the vector index and the embedding endpoint are replaced by what
// they return: per-category `$sample` results, the store's timestamp-sorted
// cursor, the matches' point ids and the `find_one` result for each of them.
module News {
  import opened UtcDate
  import opened TokenCodec
  import opened Records
  import opened TimestampSort

  /** The categories the handlers recognise, in the order they are sampled. */
  const Categories: seq<string> := ["football", "basketball", "futebol americano", "baseball"]

  datatype Option<T> = None | Some(value: T)

  /** Why a handler raises instead of answering. */
  datatype Failure =
    | InvalidObjectId    // `bson.ObjectId` rejects a decoded id
    | MissingRecord      // `find_one` found nothing, and `n['_id']` fails on None
    | UnusableTimestamp  // `float()` or `utcfromtimestamp` rejects a text timestamp

  /** A handler's answer: a JSON list of records, the empty object `{}`, or an exception. */
  datatype Reply = Listing(items: seq<Record>) | EmptyObject | Failed(failure: Failure)

  /** Python's `s[:k]` for k >= 0. */
  function Take<T>(s: seq<T>, k: nat): (r: seq<T>)
    ensures |r| == if k <= |s| then k else |s|
    ensures forall i :: 0 <= i < |r| ==> r[i] == s[i]
  {
    if k <= |s| then s[..k] else s
  }

  // Shared tail: sort newest first, then render every timestamp

  /**
   * `valid_news.sort(key=..., reverse=True)` followed by the loop that
   * overwrites each record's timestamp with its `DD-MM-YYYY` rendering.
   */
  method SortAndFormat(news: seq<Record>) returns (result: seq<Record>)
    requires AllNumeric(news) && AllInRange(news)
    ensures result == FormatAll(SortDesc(news))
  {
    result := SortDesc(news);
    ghost var sorted := result;
    for i := 0 to |result|
      invariant |result| == |sorted|
      invariant forall k :: 0 <= k < i ==> result[k] == WithDate(sorted[k])
      invariant forall k :: i <= k < |result| ==> result[k] == sorted[k]
    {
      result := result[i := WithDate(result[i])];
    }
    FormatAllPointwise(sorted);
  }

  /** A record whose timestamp has been rendered as `DD-MM-YYYY`. */
  predicate IsRendered(r: Record) {
    r.timestamp.Text? && IsDateText(r.timestamp.text)
  }

  /** The listing is newest first: no rendered date is earlier than one after it. */
  predicate NewestFirst(items: seq<Record>) {
    && (forall i :: 0 <= i < |items| ==> IsRendered(items[i]))
    && forall i, j :: 0 <= i < j < |items| ==>
      !Before(ParseDate(items[i].timestamp.text), ParseDate(items[j].timestamp.text))
  }

  /** Rendering a newest-first list keeps it newest first, now by calendar date. */
  lemma FormatAllNewestFirst(s: seq<Record>)
    requires AllNumeric(s) && AllInRange(s) && NonIncreasing(s)
    ensures NewestFirst(FormatAll(s))
  {
    FormatAllPointwise(s);
    var items := FormatAll(s);
    forall i | 0 <= i < |items| ensures IsRendered(items[i]) {
      WithDateRenders(s[i]);
    }
    forall i, j | 0 <= i < j < |items|
      ensures !Before(ParseDate(items[i].timestamp.text), ParseDate(items[j].timestamp.text))
    {
      FormatTimestampMonotone(Key(s[j]), Key(s[i]));
    }
  }

  /** A prefix of a newest-first listing is newest first. */
  lemma TakeNewestFirst(items: seq<Record>, k: nat)
    requires NewestFirst(items)
    ensures NewestFirst(Take(items, k))
  {
  }

  /**
   * `items` is a prefix of the records of `s` after a stable newest-first
   * sort, each with its timestamp rendered: what `sort(reverse=True)`, the
   * formatting loop and an optional `[:k]` promise together.
   */
  ghost predicate IsSortedRendering(items: seq<Record>, s: seq<Record>)
    requires AllNumeric(s)
  {
    exists sorted: seq<Record> ::
      && |sorted| == |s| && AllNumeric(sorted) && AllInRange(sorted)
      && IsStableSortDesc(sorted, s)
      && |items| <= |sorted|
      && forall i :: 0 <= i < |items| ==> items[i] == WithDate(sorted[i])
  }

  /** Each record of the sorted list is a record of the input. */
  lemma SortDescMember(s: seq<Record>, k: int)
    requires AllNumeric(s) && 0 <= k < |SortDesc(s)|
    ensures SortDesc(s)[k] in s
  {
    assert SortDesc(s)[k] in multiset(SortDesc(s));
  }

  lemma SortFormatTakeIsSortedRendering(s: seq<Record>, k: nat)
    requires AllNumeric(s) && AllInRange(s)
    ensures IsSortedRendering(Take(FormatAll(SortDesc(s)), k), s)
    ensures NewestFirst(Take(FormatAll(SortDesc(s)), k))
    ensures |Take(FormatAll(SortDesc(s)), k)| == if k <= |s| then k else |s|
  {
    var sorted := SortDesc(s);
    SortDescIsStableSortDesc(s);
    FormatAllPointwise(sorted);
    FormatAllNewestFirst(sorted);
    TakeNewestFirst(FormatAll(sorted), k);
    assert |sorted| == |s| by {
      assert |multiset(sorted)| == |multiset(s)|;
    }
  }

  /** Each rendered record comes from a record of the input. */
  ghost predicate RenderedFrom(items: seq<Record>, s: seq<Record>)
    requires AllNumeric(s) && AllInRange(s)
  {
    forall j :: 0 <= j < |items| ==> exists m :: 0 <= m < |s| && items[j] == WithDate(s[m])
  }

  lemma SortFormatTakeFromInput(s: seq<Record>, k: nat)
    requires AllNumeric(s) && AllInRange(s)
    ensures RenderedFrom(Take(FormatAll(SortDesc(s)), k), s)
  {
    var sorted := SortDesc(s);
    FormatAllPointwise(sorted);
    var items := Take(FormatAll(sorted), k);
    forall j | 0 <= j < |items| ensures exists m :: 0 <= m < |s| && items[j] == WithDate(s[m]) {
      SortDescMember(s, j);
      var m :| 0 <= m < |s| && s[m] == sorted[j];
      assert items[j] == WithDate(s[m]);
    }
  }

  /** Without a cut, the rendering holds every record of the input. */
  lemma SortFormatIsSortedRendering(s: seq<Record>)
    requires AllNumeric(s) && AllInRange(s)
    ensures IsSortedRendering(FormatAll(SortDesc(s)), s)
    ensures NewestFirst(FormatAll(SortDesc(s)))
    ensures |FormatAll(SortDesc(s))| == |s|
  {
    SortFormatTakeIsSortedRendering(s, |s|);
    FormatAllPointwise(SortDesc(s));
    assert Take(FormatAll(SortDesc(s)), |s|) == FormatAll(SortDesc(s));
  }

  // Random news from each category

  predicate SamplesInRange(samples: seq<seq<Record>>) {
    forall c :: 0 <= c < |samples| ==> AllInRange(samples[c])
  }

  /** The per-category results after the corruption filter, concatenated in category order. */
  function MergeSamples(samples: seq<seq<Record>>): seq<Record> {
    if samples == [] then []
    else MergeSamples(samples[..|samples| - 1]) + KeepValid(samples[|samples| - 1])
  }

  lemma {:induction false} MergeSamplesInRange(samples: seq<seq<Record>>)
    requires SamplesInRange(samples)
    ensures AllInRange(MergeSamples(samples))
  {
    if samples != [] {
      MergeSamplesInRange(samples[..|samples| - 1]);
      var front, last := MergeSamples(samples[..|samples| - 1]), KeepValid(samples[|samples| - 1]);
      assert AllInRange(last);
      assert forall k :: |front| <= k < |front| + |last| ==> (front + last)[k] == last[k - |front|];
    }
  }

  /** What `rand_news_from_each_category(n)` answers, given each category's `$sample` result. */
  function RandNewsReply(n: nat, samples: seq<seq<Record>>): Reply
    requires SamplesInRange(samples)
  {
    var merged := MergeSamples(samples);
    MergeSamplesInRange(samples);
    if !AllNumeric(merged) then Failed(UnusableTimestamp)
    else Listing(Take(FormatAll(SortDesc(merged)), n * |Categories|))
  }

  /** The inner loop over one category's sample: drop corrupt records, stringify `_id`. */
  method KeepValidRecords(result: seq<Record>) returns (kept: seq<Record>)
    ensures kept == KeepValid(result)
  {
    kept := [];
    for j := 0 to |result|
      invariant kept == KeepValid(result[..j])
    {
      var news := result[j];
      assert result[..j + 1][..j] == result[..j];
      if IsCorrupt(news) {
        continue;
      }
      news := Stringify(news);
      kept := kept + [news];
    }
    assert result[..|result|] == result;
  }

  method RandNewsFromEachCategory(n: nat, samples: seq<seq<Record>>) returns (reply: Reply)
    requires |samples| == |Categories| && SamplesInRange(samples)
    ensures reply == RandNewsReply(n, samples)
  {
    var newsByCategory: seq<Record> := [];
    for c := 0 to |Categories|
      invariant newsByCategory == MergeSamples(samples[..c])
    {
      var kept := KeepValidRecords(samples[c]);
      assert samples[..c + 1][..c] == samples[..c];
      newsByCategory := newsByCategory + kept;
    }
    assert samples[..|Categories|] == samples;
    MergeSamplesInRange(samples);
    if !AllNumeric(newsByCategory) {
      return Failed(UnusableTimestamp);
    }
    newsByCategory := SortAndFormat(newsByCategory);
    reply := Listing(Take(newsByCategory, n * |Categories|));
  }

  /** A record is in the merged list exactly when some sample holds it uncorrupted. */
  lemma {:induction false} MergeSamplesMembers(samples: seq<seq<Record>>, y: Record)
    ensures y in MergeSamples(samples) <==>
      exists c, i :: 0 <= c < |samples| && 0 <= i < |samples[c]|
        && !IsCorrupt(samples[c][i]) && y == Stringify(samples[c][i])
  {
    if samples != [] {
      var init, last := samples[..|samples| - 1], samples[|samples| - 1];
      assert MergeSamples(samples) == MergeSamples(init) + KeepValid(last);
      MergeSamplesMembers(init, y);
      KeepValidMembers(last, y);
      if y in MergeSamples(samples) {
        if y in MergeSamples(init) {
          var c, i :| 0 <= c < |init| && 0 <= i < |init[c]| && !IsCorrupt(init[c][i]) && y == Stringify(init[c][i]);
          assert samples[c] == init[c];
        } else {
          var i :| 0 <= i < |last| && !IsCorrupt(last[i]) && y == Stringify(last[i]);
          assert samples[|samples| - 1][i] == last[i];
        }
      }
      if exists c, i :: 0 <= c < |samples| && 0 <= i < |samples[c]| && !IsCorrupt(samples[c][i]) && y == Stringify(samples[c][i]) {
        var c, i :| 0 <= c < |samples| && 0 <= i < |samples[c]| && !IsCorrupt(samples[c][i]) && y == Stringify(samples[c][i]);
        if c < |samples| - 1 {
          assert init[c][i] == samples[c][i];
        } else {
          assert last[i] == samples[c][i];
        }
      }
    }
  }

  /**
   * Merging works category by category, in order: the merge of two runs of
   * samples is the merge of the first followed by the merge of the second.
   */
  lemma {:induction false} MergeSamplesAppend(a: seq<seq<Record>>, b: seq<seq<Record>>)
    ensures MergeSamples(a + b) == MergeSamples(a) + MergeSamples(b)
    decreases |b|
  {
    if b == [] {
      assert a + b == a;
    } else {
      var init, last := b[..|b| - 1], b[|b| - 1];
      assert (a + b)[..|a + b| - 1] == a + init && (a + b)[|a + b| - 1] == last;
      assert MergeSamples(a + b) == MergeSamples(a + init) + KeepValid(last);
      assert MergeSamples(b) == MergeSamples(init) + KeepValid(last);
      MergeSamplesAppend(a, init);
    }
  }

  /**
   * The sampling handler raises exactly when a sampled record survives the
   * corruption filter with a text timestamp; it never answers `{}`.
   */
  lemma RandNewsFailsIff(n: nat, samples: seq<seq<Record>>)
    requires SamplesInRange(samples)
    ensures RandNewsReply(n, samples).Failed? <==>
      exists c, i :: 0 <= c < |samples| && 0 <= i < |samples[c]|
        && !IsCorrupt(samples[c][i]) && samples[c][i].timestamp.Text?
    ensures RandNewsReply(n, samples).Failed? ==> RandNewsReply(n, samples).failure == UnusableTimestamp
    ensures !RandNewsReply(n, samples).EmptyObject?
  {
    var merged := MergeSamples(samples);
    if !AllNumeric(merged) {
      var k :| 0 <= k < |merged| && merged[k].timestamp.Text?;
      MergeSamplesMembers(samples, merged[k]);
    }
    if exists c, i :: 0 <= c < |samples| && 0 <= i < |samples[c]| && !IsCorrupt(samples[c][i]) && samples[c][i].timestamp.Text? {
      var c, i :| 0 <= c < |samples| && 0 <= i < |samples[c]| && !IsCorrupt(samples[c][i]) && samples[c][i].timestamp.Text?;
      MergeSamplesMembers(samples, Stringify(samples[c][i]));
      var k :| 0 <= k < |merged| && merged[k] == Stringify(samples[c][i]);
      assert !merged[k].timestamp.Numeric?;
    }
  }

  /**
   * A successful sampling answer is the merged survivors, stably sorted newest
   * first, rendered, and cut to `n` per category: at most `4 n` records, fewer
   * only when fewer survived.
   */
  lemma RandNewsListing(n: nat, samples: seq<seq<Record>>)
    requires SamplesInRange(samples) && RandNewsReply(n, samples).Listing?
    ensures AllNumeric(MergeSamples(samples))
    ensures var items := RandNewsReply(n, samples).items;
      && IsSortedRendering(items, MergeSamples(samples))
      && NewestFirst(items)
      && |items| == if n * |Categories| <= |MergeSamples(samples)| then n * |Categories| else |MergeSamples(samples)|
  {
    var merged := MergeSamples(samples);
    MergeSamplesInRange(samples);
    assert RandNewsReply(n, samples).items == Take(FormatAll(SortDesc(merged)), n * |Categories|);
    SortFormatTakeIsSortedRendering(merged, n * |Categories|);
  }

  /** `samples[c][i]` passes the filter with a timestamp the formatting loop accepts. */
  predicate Survives(samples: seq<seq<Record>>, c: int, i: int) {
    && 0 <= c < |samples| && 0 <= i < |samples[c]| && !IsCorrupt(samples[c][i])
    && samples[c][i].timestamp.Numeric? && InRange(samples[c][i])
  }

  /** Each of `items` is a surviving sampled record, stringified and rendered. */
  ghost predicate ComeFromSamples(items: seq<Record>, samples: seq<seq<Record>>) {
    forall k :: 0 <= k < |items| ==> FromSample(items[k], samples)
  }

  /** `item` is some surviving sampled record, stringified and rendered. */
  ghost predicate FromSample(item: Record, samples: seq<seq<Record>>) {
    exists c, i :: Survives(samples, c, i) && item == WithDate(Stringify(samples[c][i]))
  }

  /** Every record of a successful sampling answer comes, rendered, from an uncorrupted sampled record. */
  lemma RandNewsItemsFromSamples(n: nat, samples: seq<seq<Record>>)
    requires SamplesInRange(samples) && RandNewsReply(n, samples).Listing?
    ensures ComeFromSamples(RandNewsReply(n, samples).items, samples)
  {
    var merged := MergeSamples(samples);
    MergeSamplesInRange(samples);
    var items := RandNewsReply(n, samples).items;
    assert items == Take(FormatAll(SortDesc(merged)), n * |Categories|);
    SortFormatTakeFromInput(merged, n * |Categories|);
    forall k | 0 <= k < |items|
      ensures FromSample(items[k], samples)
    {
      var m :| 0 <= m < |merged| && items[k] == WithDate(merged[m]);
      MergeSamplesMembers(samples, merged[m]);
      var c, i :| 0 <= c < |samples| && 0 <= i < |samples[c]| && !IsCorrupt(samples[c][i]) && merged[m] == Stringify(samples[c][i]);
      assert Survives(samples, c, i);
    }
  }

  /** The record is listed under one of the four categories. */
  predicate UnderSomeCategory(r: Record) {
    exists c :: 0 <= c < |Categories| && Categories[c] in r.categories
  }

  /**
   * When each category's sample only holds records listed under that category,
   * every answered record is listed under one of the four categories.
   */
  lemma RandNewsCategories(n: nat, samples: seq<seq<Record>>)
    requires |samples| == |Categories| && SamplesInRange(samples)
    requires forall c, i :: 0 <= c < |samples| && 0 <= i < |samples[c]| ==> Categories[c] in samples[c][i].categories
    requires RandNewsReply(n, samples).Listing?
    ensures var items := RandNewsReply(n, samples).items;
      forall k :: 0 <= k < |items| ==> UnderSomeCategory(items[k])
  {
    RandNewsItemsFromSamples(n, samples);
    ItemsKeepCategories(RandNewsReply(n, samples).items, samples);
  }

  /** Rendered survivors of per-category samples keep the category they were sampled under. */
  lemma ItemsKeepCategories(items: seq<Record>, samples: seq<seq<Record>>)
    requires |samples| == |Categories|
    requires forall c, i :: 0 <= c < |samples| && 0 <= i < |samples[c]| ==> Categories[c] in samples[c][i].categories
    requires ComeFromSamples(items, samples)
    ensures forall k :: 0 <= k < |items| ==> UnderSomeCategory(items[k])
  {
    forall k | 0 <= k < |items|
      ensures UnderSomeCategory(items[k])
    {
      assert FromSample(items[k], samples);
      var c, i :| Survives(samples, c, i) && items[k] == WithDate(Stringify(samples[c][i]));
      assert items[k].categories == samples[c][i].categories;
      assert Categories[c] in items[k].categories;
    }
  }

  // Most recent news, overall and by category

  /** What the loop over `result[:n]` answers for the page it walks. */
  function PageReply(page: seq<Record>): Reply
    requires AllInRange(page)
  {
    if !AllNumeric(page) then Failed(UnusableTimestamp)
    else Listing(FormatAll(StringifyAll(page)))
  }

  /** What the recents handlers answer for the store's newest-first cursor `ranked`. */
  function RecentsReply(n: nat, ranked: seq<Record>): Reply
    requires AllInRange(ranked)
  {
    PageReply(Take(ranked, n))
  }

  function RecentsByCategoryReply(category: string, n: nat, ranked: seq<Record>): Reply
    requires AllInRange(ranked)
  {
    if category !in Categories then EmptyObject else RecentsReply(n, ranked)
  }

  /** The page fails as soon as one of its records has a text timestamp. */
  lemma PageReplyFails(page: seq<Record>, i: nat)
    requires AllInRange(page) && i < |page| && page[i].timestamp.Text?
    ensures PageReply(page) == Failed(UnusableTimestamp)
  {
  }

  /** One more record of the page, stringified and rendered, extends the listing. */
  lemma PageStep(page: seq<Record>, i: nat)
    requires i < |page| && AllNumeric(page[..i]) && page[i].timestamp.Numeric? && AllInRange(page)
    ensures AllInRange(page[..i]) && AllInRange(page[..i + 1]) && AllNumeric(page[..i + 1])
    ensures FormatAll(StringifyAll(page[..i + 1])) == FormatAll(StringifyAll(page[..i])) + [WithDate(Stringify(page[i]))]
  {
    var front, x := page[..i], page[i];
    assert page[..i + 1] == front + [x];
    assert AllInRange(front) by {
      forall k | 0 <= k < i ensures front[k] == page[k] {}
    }
    StringifyAllAppend(front, x);
    FormatAllAppend(StringifyAll(front), Stringify(x));
  }

  /**
   * The loop over `result[:n]` shared by both recents handlers: stringify
   * each `_id`, render each timestamp, append; a text timestamp raises.
   */
  method FormatPage(page: seq<Record>) returns (reply: Reply)
    requires AllInRange(page)
    ensures reply == PageReply(page)
  {
    var fullNews: seq<Record> := [];
    for i := 0 to |page|
      invariant AllNumeric(page[..i]) && AllInRange(page[..i])
      invariant fullNews == FormatAll(StringifyAll(page[..i]))
    {
      var news := page[i];
      news := Stringify(news);
      if news.timestamp.Text? {
        PageReplyFails(page, i);
        return Failed(UnusableTimestamp);
      }
      PageStep(page, i);
      fullNews := fullNews + [WithDate(news)];
    }
    assert page[..|page|] == page;
    reply := Listing(fullNews);
  }

  method MostRecentNews(n: nat, ranked: seq<Record>) returns (reply: Reply)
    requires AllInRange(ranked)
    ensures reply == RecentsReply(n, ranked)
  {
    var page := Take(ranked, n);
    reply := FormatPage(page);
  }

  method MostRecentByCategory(category: string, n: nat, ranked: seq<Record>) returns (reply: Reply)
    requires AllInRange(ranked)
    ensures reply == RecentsByCategoryReply(category, n, ranked)
    ensures category !in Categories ==> reply == EmptyObject
  {
    if category !in Categories {
      return EmptyObject;
    }
    var page := Take(ranked, n);
    reply := FormatPage(page);
  }

  /**
   * A recents listing raises exactly when one of the first `n` records of the
   * cursor has a text timestamp: there is no corruption filter on this path.
   * It never answers `{}`.
   */
  lemma RecentsFailsIff(n: nat, ranked: seq<Record>)
    requires AllInRange(ranked)
    ensures RecentsReply(n, ranked).Failed? <==>
      exists i :: 0 <= i < n && i < |ranked| && ranked[i].timestamp.Text?
    ensures RecentsReply(n, ranked).Failed? ==> RecentsReply(n, ranked).failure == UnusableTimestamp
    ensures !RecentsReply(n, ranked).EmptyObject?
  {
    var page := Take(ranked, n);
    if exists i :: 0 <= i < n && i < |ranked| && ranked[i].timestamp.Text? {
      var i :| 0 <= i < n && i < |ranked| && ranked[i].timestamp.Text?;
      assert page[i] == ranked[i];
    }
  }

  /**
   * The store's descending sort on `timestamp`: BSON ranks every string above
   * every number, so text timestamps come before all numeric ones.
   */
  predicate TextFirst(ranked: seq<Record>) {
    forall i, j :: 0 <= i < j < |ranked| && ranked[j].timestamp.Text? ==> ranked[i].timestamp.Text?
  }

  /**
   * With the store's ordering, a single text timestamp anywhere under the
   * cursor makes every recents request with `n >= 1` raise: legacy records
   * are not skipped on this path, they come first.
   */
  lemma RecentsFailOnAnyText(n: nat, ranked: seq<Record>, j: int)
    requires AllInRange(ranked) && TextFirst(ranked) && n >= 1
    requires 0 <= j < |ranked| && ranked[j].timestamp.Text?
    ensures RecentsReply(n, ranked) == Failed(UnusableTimestamp)
  {
    assert ranked[0].timestamp.Text?;
    RecentsFailsIff(n, ranked);
  }

  /**
   * A successful recents listing holds the first `n` records of the cursor
   * (all of them if there are fewer), in cursor order, each with its `_id`
   * stringified and its timestamp rendered; nothing else about them changes.
   */
  lemma RecentsListing(n: nat, ranked: seq<Record>)
    requires AllInRange(ranked) && RecentsReply(n, ranked).Listing?
    ensures var items := RecentsReply(n, ranked).items;
      && |items| == (if n <= |ranked| then n else |ranked|)
      && forall i :: 0 <= i < |items| ==>
        ranked[i].timestamp.Numeric? && items[i] == WithDate(Stringify(ranked[i]))
  {
    var page := Take(ranked, n);
    StringifyAllTimestamps(page);
    FormatAllPointwise(StringifyAll(page));
  }

  /**
   * When the store's cursor is in descending timestamp order, the listing's
   * rendered dates never increase from one record to the next.
   */
  lemma RecentsNewestFirst(n: nat, ranked: seq<Record>)
    requires AllInRange(ranked) && AllNumeric(ranked) && NonIncreasing(ranked)
    ensures RecentsReply(n, ranked).Listing? && NewestFirst(RecentsReply(n, ranked).items)
  {
    var page := Take(ranked, n);
    StringifyAllTimestamps(page);
    var stringified := StringifyAll(page);
    assert NonIncreasing(stringified) by {
      forall i, j | 0 <= i < j < |stringified| ensures Key(stringified[i]) >= Key(stringified[j]) {
        assert stringified[i].timestamp == ranked[i].timestamp && stringified[j].timestamp == ranked[j].timestamp;
      }
    }
    FormatAllNewestFirst(stringified);
  }

  /** The category handler answers `{}` exactly for a category outside the four. */
  lemma RecentsByCategoryEmptyIff(category: string, n: nat, ranked: seq<Record>)
    requires AllInRange(ranked)
    ensures RecentsByCategoryReply(category, n, ranked) == EmptyObject <==> category !in Categories
  {
    RecentsFailsIff(n, ranked);
  }

  /** When the store returns only records listed under `category`, so does the listing. */
  lemma RecentsByCategoryKeepsCategory(category: string, n: nat, ranked: seq<Record>)
    requires AllInRange(ranked) && RecentsByCategoryReply(category, n, ranked).Listing?
    requires forall i :: 0 <= i < |ranked| ==> category in ranked[i].categories
    ensures var items := RecentsByCategoryReply(category, n, ranked).items;
      forall i :: 0 <= i < |items| ==> category in items[i].categories
  {
    RecentsListing(n, ranked);
  }

  // Semantic search

  predicate AllFound(fetched: seq<Option<Record>>) {
    forall i :: 0 <= i < |fetched| ==> fetched[i].Some?
  }

  predicate FetchedInRange(fetched: seq<Option<Record>>) {
    forall i :: 0 <= i < |fetched| && fetched[i].Some? ==> InRange(fetched[i].value)
  }

  function Found(fetched: seq<Option<Record>>): (s: seq<Record>)
    requires AllFound(fetched)
    ensures |s| == |fetched| && forall i :: 0 <= i < |s| ==> s[i] == fetched[i].value
  {
    seq(|fetched|, i requires 0 <= i < |fetched| && fetched[i].Some? => fetched[i].value)
  }

  predicate AllIdsValid(tokens: seq<string>) {
    forall i :: 0 <= i < |tokens| ==> IsObjectIdHex(DecodeToken(tokens[i]))
  }

  /**
   * What `search_query` answers, given the point ids of the matches and what
   * `find_one` returned for each decoded id (`fetched[i]` for `tokens[i]`).
   */
  function SearchReply(tokens: seq<string>, fetched: seq<Option<Record>>): Reply
    requires |fetched| == |tokens| && FetchedInRange(fetched)
  {
    if !AllIdsValid(tokens) then Failed(InvalidObjectId)
    else if !AllFound(fetched) then Failed(MissingRecord)
    else
      var validNews := KeepValid(Found(fetched));
      if !AllNumeric(validNews) then Failed(UnusableTimestamp)
      else Listing(FormatAll(SortDesc(validNews)))
  }

  /** One more fetched record passes through the corruption filter or is dropped by it. */
  lemma FoundStep(fetched: seq<Option<Record>>, i: nat)
    requires i < |fetched| && AllFound(fetched[..i]) && fetched[i].Some?
    ensures AllFound(fetched[..i + 1])
    ensures KeepValid(Found(fetched[..i + 1]))
      == KeepValid(Found(fetched[..i])) + (if IsCorrupt(fetched[i].value) then [] else [Stringify(fetched[i].value)])
  {
    var front := Found(fetched[..i]);
    var prefix := fetched[..i + 1];
    assert AllFound(prefix) by {
      forall k | 0 <= k < i + 1 ensures prefix[k].Some? {
        if k < i {
          assert prefix[k] == fetched[..i][k];
        }
      }
    }
    var whole := Found(prefix);
    assert whole[..i] == front;
    assert whole == front + [fetched[i].value];
  }

  lemma SearchReplyMissing(tokens: seq<string>, fetched: seq<Option<Record>>, i: nat)
    requires |fetched| == |tokens| && FetchedInRange(fetched)
    requires AllIdsValid(tokens) && i < |fetched| && fetched[i].None?
    ensures SearchReply(tokens, fetched) == Failed(MissingRecord)
  {
  }

  method SearchQuery(tokens: seq<string>, fetched: seq<Option<Record>>) returns (reply: Reply)
    requires |fetched| == |tokens| && FetchedInRange(fetched)
    ensures reply == SearchReply(tokens, fetched)
  {
    var mongoIds := seq(|tokens|, i requires 0 <= i < |tokens| => DecodeToken(tokens[i]));
    if exists i :: 0 <= i < |mongoIds| && !IsObjectIdHex(mongoIds[i]) {
      return Failed(InvalidObjectId);
    }
    assert AllIdsValid(tokens) by {
      forall i | 0 <= i < |tokens| ensures IsObjectIdHex(DecodeToken(tokens[i])) {
        assert mongoIds[i] == DecodeToken(tokens[i]);
      }
    }
    var news := fetched;
    var validNews: seq<Record> := [];
    for i := 0 to |news|
      invariant AllFound(news[..i])
      invariant validNews == KeepValid(Found(news[..i]))
    {
      if news[i].None? {
        SearchReplyMissing(tokens, fetched, i);
        return Failed(MissingRecord);
      }
      var item := news[i].value;
      FoundStep(news, i);
      item := Stringify(item);
      if IsCorrupt(item) {
        continue;
      }
      validNews := validNews + [item];
    }
    assert news[..|news|] == news;
    assert AllIdsValid(tokens) && AllFound(news);
    if !AllNumeric(validNews) {
      return Failed(UnusableTimestamp);
    }
    validNews := SortAndFormat(validNews);
    reply := Listing(validNews);
  }

  /** Point ids of UUID shape, as the index assigns them, always decode to valid document ids. */
  lemma SearchUuidTokens(tokens: seq<string>, fetched: seq<Option<Record>>)
    requires |fetched| == |tokens| && FetchedInRange(fetched)
    requires forall i :: 0 <= i < |tokens| ==> IsUuidToken(tokens[i])
    ensures AllIdsValid(tokens)
    ensures SearchReply(tokens, fetched) != Failed(InvalidObjectId)
  {
    forall i | 0 <= i < |tokens| ensures IsObjectIdHex(DecodeToken(tokens[i])) {
      DecodeUuidToken(tokens[i]);
    }
  }

  /**
   * The three ways a search raises, in the order the handler meets them: an
   * undecodable id, then a match with no stored record, then a stored record
   * that passes the filter with a text timestamp. It never answers `{}`.
   */
  lemma SearchFailures(tokens: seq<string>, fetched: seq<Option<Record>>)
    requires |fetched| == |tokens| && FetchedInRange(fetched)
    ensures SearchReply(tokens, fetched) == Failed(InvalidObjectId) <==>
      exists i :: 0 <= i < |tokens| && !IsObjectIdHex(DecodeToken(tokens[i]))
    ensures SearchReply(tokens, fetched) == Failed(MissingRecord) <==>
      AllIdsValid(tokens) && exists i :: 0 <= i < |fetched| && fetched[i].None?
    ensures SearchReply(tokens, fetched) == Failed(UnusableTimestamp) <==>
      && AllIdsValid(tokens) && AllFound(fetched)
      && exists i :: 0 <= i < |fetched| && !IsCorrupt(fetched[i].value) && fetched[i].value.timestamp.Text?
    ensures !SearchReply(tokens, fetched).EmptyObject?
  {
    if AllIdsValid(tokens) && AllFound(fetched) {
      var found := Found(fetched);
      var valid := KeepValid(found);
      if !AllNumeric(valid) {
        var k :| 0 <= k < |valid| && valid[k].timestamp.Text?;
        KeepValidMembers(found, valid[k]);
      }
      if exists i :: 0 <= i < |fetched| && !IsCorrupt(fetched[i].value) && fetched[i].value.timestamp.Text? {
        var i :| 0 <= i < |fetched| && !IsCorrupt(fetched[i].value) && fetched[i].value.timestamp.Text?;
        KeepValidMembers(found, Stringify(found[i]));
        var k :| 0 <= k < |valid| && valid[k] == Stringify(found[i]);
        assert !valid[k].timestamp.Numeric?;
      }
    }
  }

  /**
   * A successful search lists every matched record that passes the filter,
   * each once per match, stably sorted newest first, with `_id` stringified
   * and timestamp rendered; a record appears exactly when it is such a match.
   */
  lemma SearchListing(tokens: seq<string>, fetched: seq<Option<Record>>)
    requires |fetched| == |tokens| && FetchedInRange(fetched) && SearchReply(tokens, fetched).Listing?
    ensures AllIdsValid(tokens) && AllFound(fetched)
    ensures AllNumeric(KeepValid(Found(fetched))) && AllInRange(KeepValid(Found(fetched)))
    ensures var items := SearchReply(tokens, fetched).items;
      && |items| == |KeepValid(Found(fetched))|
      && IsSortedRendering(items, KeepValid(Found(fetched)))
      && NewestFirst(items)
  {
    var valid := KeepValid(Found(fetched));
    assert AllInRange(Found(fetched));
    assert SearchReply(tokens, fetched).items == FormatAll(SortDesc(valid));
    SortFormatIsSortedRendering(valid);
  }

  /** `fetched[i]` is a stored record that passes the filter with a timestamp the formatting loop accepts. */
  predicate Matched(fetched: seq<Option<Record>>, i: int) {
    && 0 <= i < |fetched| && fetched[i].Some? && !IsCorrupt(fetched[i].value)
    && fetched[i].value.timestamp.Numeric? && InRange(fetched[i].value)
  }

  lemma SearchItemIsMatch(tokens: seq<string>, fetched: seq<Option<Record>>, k: int)
    requires |fetched| == |tokens| && FetchedInRange(fetched) && SearchReply(tokens, fetched).Listing?
    requires 0 <= k < |SearchReply(tokens, fetched).items|
    ensures exists i :: Matched(fetched, i) && SearchReply(tokens, fetched).items[k] == WithDate(Stringify(fetched[i].value))
  {
    var found := Found(fetched);
    var valid := KeepValid(found);
    assert AllInRange(found);
    var sorted := SortDesc(valid);
    FormatAllPointwise(sorted);
    SortDescMember(valid, k);
    KeepValidMembers(found, sorted[k]);
    var i :| 0 <= i < |found| && !IsCorrupt(found[i]) && sorted[k] == Stringify(found[i]);
    assert Matched(fetched, i);
  }

  lemma SearchMatchIsItem(tokens: seq<string>, fetched: seq<Option<Record>>, i: int)
    requires |fetched| == |tokens| && FetchedInRange(fetched) && SearchReply(tokens, fetched).Listing?
    requires Matched(fetched, i)
    ensures WithDate(Stringify(fetched[i].value)) in SearchReply(tokens, fetched).items
  {
    var found := Found(fetched);
    var valid := KeepValid(found);
    assert AllInRange(found);
    var sorted := SortDesc(valid);
    FormatAllPointwise(sorted);
    KeepValidMembers(found, Stringify(found[i]));
    assert Stringify(found[i]) in multiset(sorted);
    var k :| 0 <= k < |sorted| && sorted[k] == Stringify(found[i]);
    assert SearchReply(tokens, fetched).items[k] == WithDate(sorted[k]);
  }

  /** A record is in a successful search answer exactly when it renders a matched, uncorrupted record. */
  lemma SearchMembers(tokens: seq<string>, fetched: seq<Option<Record>>, y: Record)
    requires |fetched| == |tokens| && FetchedInRange(fetched) && SearchReply(tokens, fetched).Listing?
    ensures y in SearchReply(tokens, fetched).items <==>
      exists i :: Matched(fetched, i) && y == WithDate(Stringify(fetched[i].value))
  {
    var items := SearchReply(tokens, fetched).items;
    if y in items {
      var k :| 0 <= k < |items| && items[k] == y;
      SearchItemIsMatch(tokens, fetched, k);
    }
    if exists i :: Matched(fetched, i) && y == WithDate(Stringify(fetched[i].value)) {
      var i :| Matched(fetched, i) && y == WithDate(Stringify(fetched[i].value));
      SearchMatchIsItem(tokens, fetched, i);
    }
  }
}
