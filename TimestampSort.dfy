// `list.sort(key=lambda news: float(news['timestamp']), reverse=True)` on
// records whose timestamps are all numeric: a stable sort, most recent first.
// The reference definition is insertion sort; the lemmas below state what
// Python guarantees of its sort (a permutation, ordered, stable).
module TimestampSort {
  import opened Records

  function Key(r: Record): int
    requires r.timestamp.Numeric?
  {
    r.timestamp.seconds
  }

  /** Timestamps never increase from left to right. */
  predicate NonIncreasing(s: seq<Record>)
    requires AllNumeric(s)
  {
    forall i, j :: 0 <= i < j < |s| ==> Key(s[i]) >= Key(s[j])
  }

  /** The records carrying timestamp `k`, in their order in `s`. */
  function WithKey(s: seq<Record>, k: int): seq<Record>
    requires AllNumeric(s)
  {
    if s == [] then []
    else (if Key(s[0]) == k then [s[0]] else []) + WithKey(s[1..], k)
  }

  /** Places `x` in front of the first record that is not more recent than it. */
  function Insert(x: Record, t: seq<Record>): (r: seq<Record>)
    requires x.timestamp.Numeric? && AllNumeric(t)
    ensures AllNumeric(r)
    ensures multiset(r) == multiset(t) + multiset{x}
    ensures InRange(x) && AllInRange(t) ==> AllInRange(r)
    ensures |r| > 0 && (r[0] == x || (t != [] && r[0] == t[0]))
  {
    if t == [] || Key(x) >= Key(t[0]) then [x] + t
    else
      assert t == [t[0]] + t[1..];
      [t[0]] + Insert(x, t[1..])
  }

  /** The stable descending sort of `s` by timestamp. */
  function SortDesc(s: seq<Record>): (r: seq<Record>)
    requires AllNumeric(s)
    ensures AllNumeric(r)
    ensures multiset(r) == multiset(s)
    ensures AllInRange(s) ==> AllInRange(r)
    ensures NonIncreasing(r)
  {
    if s == [] then []
    else
      assert s == [s[0]] + s[1..];
      InsertNonIncreasing(s[0], SortDesc(s[1..]));
      Insert(s[0], SortDesc(s[1..]))
  }

  lemma {:induction false} InsertNonIncreasing(x: Record, t: seq<Record>)
    requires x.timestamp.Numeric? && AllNumeric(t) && NonIncreasing(t)
    ensures NonIncreasing(Insert(x, t))
  {
    if t != [] && Key(x) < Key(t[0]) {
      var rest := Insert(x, t[1..]);
      InsertNonIncreasing(x, t[1..]);
      assert Key(t[0]) >= Key(rest[0]);
      assert Insert(x, t) == [t[0]] + rest;
    }
  }

  /** Inserting `x` places it before every record of `t` with the same timestamp. */
  lemma {:induction false} WithKeyInsert(x: Record, t: seq<Record>, k: int)
    requires x.timestamp.Numeric? && AllNumeric(t)
    ensures WithKey(Insert(x, t), k) == (if Key(x) == k then [x] else []) + WithKey(t, k)
  {
    if t == [] || Key(x) >= Key(t[0]) {
      assert ([x] + t)[1..] == t;
    } else {
      WithKeyInsert(x, t[1..], k);
      assert ([t[0]] + Insert(x, t[1..]))[1..] == Insert(x, t[1..]);
      if Key(x) == k {
        assert Key(t[0]) != k;
      }
    }
  }

  /** Stability: records with equal timestamps keep their relative order. */
  lemma {:induction false} SortDescStable(s: seq<Record>, k: int)
    requires AllNumeric(s)
    ensures WithKey(SortDesc(s), k) == WithKey(s, k)
  {
    if s != [] {
      SortDescStable(s[1..], k);
      WithKeyInsert(s[0], SortDesc(s[1..]), k);
    }
  }

  /** What Python promises of the sort: a permutation, most recent first, stable. */
  ghost predicate IsStableSortDesc(sorted: seq<Record>, s: seq<Record>)
    requires AllNumeric(s) && AllNumeric(sorted)
  {
    && multiset(sorted) == multiset(s)
    && NonIncreasing(sorted)
    && forall k :: WithKey(sorted, k) == WithKey(s, k)
  }

  lemma SortDescIsStableSortDesc(s: seq<Record>)
    requires AllNumeric(s)
    ensures IsStableSortDesc(SortDesc(s), s)
  {
    forall k ensures WithKey(SortDesc(s), k) == WithKey(s, k) {
      SortDescStable(s, k);
    }
  }
}
