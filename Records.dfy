// News records as the handlers see them: raw documents from the store, the
// corruption filter that drops legacy string timestamps, the stringification
// of `_id`, and the rendering of the numeric timestamp as `DD-MM-YYYY`.
module Records {
  import opened UtcDate

  /** The stored `timestamp`: epoch seconds, or legacy text. */
  datatype Timestamp = Numeric(seconds: int) | Text(text: string)

  /** The `_id` field: the store's native ObjectId (by its hex form), or a string. */
  datatype DocumentId = ObjectId(hex: string) | IdString(value: string)

  datatype Record = Record(
    id: DocumentId,
    timestamp: Timestamp,
    title: string,
    authors: seq<string>,
    content: string,
    categories: seq<string>,
    link: string)

  /** Legacy data: a timestamp held as text containing a '-'. */
  predicate IsCorrupt(r: Record) {
    r.timestamp.Text? && '-' in r.timestamp.text
  }

  /** `str(news['_id'])`. */
  function IdText(id: DocumentId): string {
    match id
    case ObjectId(hex) => hex
    case IdString(value) => value
  }

  /** `news['_id'] = str(news['_id'])`. */
  function Stringify(r: Record): Record {
    r.(id := IdString(IdText(r.id)))
  }

  /** Numeric timestamps are seconds between 1970 and the end of year 9999. */
  predicate InRange(r: Record) {
    r.timestamp.Numeric? ==> 0 <= r.timestamp.seconds < MaxTimestamp
  }

  predicate AllInRange(s: seq<Record>) {
    forall i :: 0 <= i < |s| ==> InRange(s[i])
  }

  predicate AllNumeric(s: seq<Record>) {
    forall i :: 0 <= i < |s| ==> s[i].timestamp.Numeric?
  }

  /** `news['timestamp'] = utcfromtimestamp(news['timestamp']).strftime('%d-%m-%Y')`. */
  function WithDate(r: Record): Record
    requires r.timestamp.Numeric? && InRange(r)
  {
    r.(timestamp := Text(FormatTimestamp(r.timestamp.seconds)))
  }

  /**
   * Only the timestamp changes, and it becomes the `DD-MM-YYYY` text of the
   * UTC day the numeric timestamp falls on.
   */
  lemma WithDateRenders(r: Record)
    requires r.timestamp.Numeric? && InRange(r)
    ensures WithDate(r).timestamp.Text? && IsDateText(WithDate(r).timestamp.text)
    ensures ValidDate(ParseDate(WithDate(r).timestamp.text))
    ensures DaysFromCivil(ParseDate(WithDate(r).timestamp.text)) == r.timestamp.seconds / SecondsPerDay
    ensures WithDate(r).(timestamp := r.timestamp) == r
  {
    FormatTimestampDenotes(r.timestamp.seconds);
  }

  /** Stringify applied to every record, in order. */
  function StringifyAll(s: seq<Record>): (r: seq<Record>)
    ensures |r| == |s|
    ensures forall i :: 0 <= i < |s| ==> r[i] == Stringify(s[i])
  {
    if s == [] then [] else [Stringify(s[0])] + StringifyAll(s[1..])
  }

  /** Stringifying `_id`s leaves every timestamp as it was. */
  lemma StringifyAllTimestamps(s: seq<Record>)
    ensures forall i :: 0 <= i < |s| ==> StringifyAll(s)[i].timestamp == s[i].timestamp
    ensures AllNumeric(StringifyAll(s)) == AllNumeric(s) && AllInRange(StringifyAll(s)) == AllInRange(s)
  {
  }

  lemma StringifyAllAppend(s: seq<Record>, x: Record)
    ensures StringifyAll(s + [x]) == StringifyAll(s) + [Stringify(x)]
  {
  }

  /** WithDate applied to every record, in order. */
  function FormatAll(s: seq<Record>): seq<Record>
    requires AllNumeric(s) && AllInRange(s)
  {
    if s == [] then [] else [WithDate(s[0])] + FormatAll(s[1..])
  }

  lemma {:induction false} FormatAllPointwise(s: seq<Record>)
    requires AllNumeric(s) && AllInRange(s)
    ensures |FormatAll(s)| == |s|
    ensures forall i :: 0 <= i < |s| ==> FormatAll(s)[i] == WithDate(s[i])
  {
    if s != [] {
      FormatAllPointwise(s[1..]);
    }
  }

  lemma {:induction false} FormatAllAppend(s: seq<Record>, x: Record)
    requires AllNumeric(s) && AllInRange(s) && x.timestamp.Numeric? && InRange(x)
    ensures AllNumeric(s + [x]) && AllInRange(s + [x])
    ensures FormatAll(s + [x]) == FormatAll(s) + [WithDate(x)]
  {
    if s != [] {
      assert (s + [x])[1..] == s[1..] + [x];
      FormatAllAppend(s[1..], x);
    }
  }

  /**
   * The corruption filter of the sampling and search loops: every record that
   * is not corrupt, with its `_id` stringified, in input order.
   */
  function KeepValid(s: seq<Record>): (r: seq<Record>)
    ensures |r| <= |s|
    ensures AllInRange(s) ==> AllInRange(r)
  {
    if s == [] then []
    else
      var last := s[|s| - 1];
      KeepValid(s[..|s| - 1]) + (if IsCorrupt(last) then [] else [Stringify(last)])
  }

  /** The filter distributes over concatenation: it works record by record, in order. */
  lemma {:induction false} KeepValidAppend(a: seq<Record>, b: seq<Record>)
    ensures KeepValid(a + b) == KeepValid(a) + KeepValid(b)
    decreases |b|
  {
    if b == [] {
      assert a + b == a;
    } else {
      var last := b[|b| - 1];
      assert (a + b)[..|a + b| - 1] == a + b[..|b| - 1];
      KeepValidAppend(a, b[..|b| - 1]);
    }
  }

  /** A single record survives iff it is not corrupt, with only its `_id` changed. */
  lemma KeepValidSingle(x: Record)
    ensures KeepValid([x]) == if IsCorrupt(x) then [] else [Stringify(x)]
  {
    assert [x][..0] == [];
  }

  /** Indices of the records that are not corrupt, in increasing order. */
  function SurvivorIndices(s: seq<Record>): seq<int> {
    if s == [] then []
    else SurvivorIndices(s[..|s| - 1]) + (if IsCorrupt(s[|s| - 1]) then [] else [|s| - 1])
  }

  /** The indices are those of the non-corrupt records, all of them, in increasing order. */
  lemma {:induction false} SurvivorIndicesSpec(s: seq<Record>)
    ensures forall k :: 0 <= k < |SurvivorIndices(s)| ==>
      0 <= SurvivorIndices(s)[k] < |s| && !IsCorrupt(s[SurvivorIndices(s)[k]])
    ensures forall k, l :: 0 <= k < l < |SurvivorIndices(s)| ==> SurvivorIndices(s)[k] < SurvivorIndices(s)[l]
    ensures forall i :: 0 <= i < |s| && !IsCorrupt(s[i]) ==> i in SurvivorIndices(s)
  {
    if s != [] {
      var init, last := s[..|s| - 1], s[|s| - 1];
      SurvivorIndicesSpec(init);
      var front := SurvivorIndices(init);
      var idx := SurvivorIndices(s);
      assert idx == front + (if IsCorrupt(last) then [] else [|s| - 1]);
      forall k | 0 <= k < |front| ensures s[front[k]] == init[front[k]] {
      }
      forall i | 0 <= i < |s| && !IsCorrupt(s[i]) ensures i in idx {
        if i < |s| - 1 {
          assert s[i] == init[i] && i in front;
        } else {
          assert idx[|front|] == i;
        }
      }
    }
  }

  /**
   * The filter keeps exactly the non-corrupt records, in their relative order,
   * each with only its `_id` stringified.
   */
  lemma {:induction false} KeepValidIsSurvivors(s: seq<Record>)
    ensures |KeepValid(s)| == |SurvivorIndices(s)|
    ensures forall k :: 0 <= k < |KeepValid(s)| ==>
      0 <= SurvivorIndices(s)[k] < |s| && KeepValid(s)[k] == Stringify(s[SurvivorIndices(s)[k]])
  {
    if s != [] {
      var front, last := s[..|s| - 1], s[|s| - 1];
      KeepValidIsSurvivors(front);
      var kept, idx := KeepValid(front), SurvivorIndices(front);
      assert KeepValid(s) == kept + (if IsCorrupt(last) then [] else [Stringify(last)]);
      assert SurvivorIndices(s) == idx + (if IsCorrupt(last) then [] else [|s| - 1]);
      forall k | 0 <= k < |KeepValid(s)|
        ensures 0 <= SurvivorIndices(s)[k] < |s| && KeepValid(s)[k] == Stringify(s[SurvivorIndices(s)[k]])
      {
        if k < |kept| {
          assert KeepValid(s)[k] == kept[k] && SurvivorIndices(s)[k] == idx[k];
          assert s[idx[k]] == front[idx[k]];
        }
      }
    }
  }

  /** Membership in the filtered list: both directions. */
  lemma KeepValidMembers(s: seq<Record>, y: Record)
    ensures y in KeepValid(s) <==> exists i :: 0 <= i < |s| && !IsCorrupt(s[i]) && y == Stringify(s[i])
  {
    KeepValidIsSurvivors(s);
    SurvivorIndicesSpec(s);
    var r, idx := KeepValid(s), SurvivorIndices(s);
    if y in r {
      var k :| 0 <= k < |r| && r[k] == y;
      assert 0 <= idx[k] < |s| && !IsCorrupt(s[idx[k]]) && y == Stringify(s[idx[k]]);
    }
    if i :| 0 <= i < |s| && !IsCorrupt(s[i]) && y == Stringify(s[i]) {
      assert i in idx;
      var k :| 0 <= k < |idx| && idx[k] == i;
      assert r[k] == y;
    }
  }
}
