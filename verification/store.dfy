/**
 * The session store and the request processor. The store is an ordered map
 * from timestamp to value; a query visits the stored keys of an inclusive
 * range in ascending order, sums their values in an `i64`, divides by their
 * count rounding toward zero and narrows the quotient to `i32`.
 */
module Store {
  import opened Ints
  import opened BigEndian
  import opened Decoder

  /** One connection's store: at most one value per timestamp. */
  type Db = map<I32, I32>

  /** The stored keys a query over `[minTs, maxTs]` visits (none when the range is inverted). */
  function Matched(db: Db, minTs: int, maxTs: int): (ks: set<I32>)
    ensures ks <= db.Keys
    ensures forall k :: k in ks ==> minTs <= k <= maxTs
    ensures forall k :: k in db && minTs <= k <= maxTs ==> k in ks
    ensures minTs > maxTs ==> ks == {}
    ensures minTs <= maxTs ==> |ks| <= maxTs - minTs + 1
  {
    var ks := set k | k in db && minTs <= k <= maxTs;
    if minTs <= maxTs then
      IntervalCardinality(ks, minTs, maxTs);
      ks
    else ks
  }

  /** The least element of a non-empty set of keys. */
  ghost function Least(ks: set<I32>): (m: I32)
    requires ks != {}
    ensures m in ks && forall k :: k in ks ==> m <= k
  {
    LeastExists(ks);
    var m :| m in ks && forall k :: k in ks ==> m <= k;
    m
  }

  lemma LeastExists(ks: set<I32>)
    requires ks != {}
    ensures exists m :: m in ks && forall k :: k in ks ==> m <= k
  {
    var m := LeastKey(ks);
  }

  lemma {:induction false} LeastKey(ks: set<I32>) returns (m: I32)
    requires ks != {}
    ensures m in ks && forall k :: k in ks ==> m <= k
    decreases ks
  {
    var x :| x in ks;
    if ks == {x} {
      m := x;
    } else {
      var rest := LeastKey(ks - {x});
      m := if x < rest then x else rest;
      forall k | k in ks
        ensures m <= k
      {
        if k != x { assert k in ks - {x}; }
      }
    }
  }

  /** The sum of the values stored at `ks`, taken in ascending key order as the range scan does. */
  ghost function SumAscending(db: Db, ks: set<I32>): (sum: int)
    requires ks <= db.Keys
    ensures I32Min * |ks| <= sum <= I32Max * |ks|
    decreases ks
  {
    if ks == {} then 0
    else
      var k := Least(ks);
      BoundsStep(I32Min, I32Max, |ks - {k}|, SumAscending(db, ks - {k}), db[k]);
      db[k] + SumAscending(db, ks - {k})
  }

  /** The order of the scan does not matter: taking out any one key leaves the rest summing to the difference. */
  lemma {:induction false} SumWithout(db: Db, ks: set<I32>, k: I32)
    requires ks <= db.Keys && k in ks
    ensures SumAscending(db, ks) == db[k] + SumAscending(db, ks - {k})
    decreases ks
  {
    var m := Least(ks);
    if k != m {
      var rest := ks - {m};
      SumWithout(db, rest, k);
      assert m in ks - {k};
      assert Least(ks - {k}) == m;
      assert (ks - {k}) - {m} == rest - {k};
    }
  }

  /** The mean a query replies with: 0 for an empty match, else the sum over the count rounded toward zero. */
  ghost function RangeMean(db: Db, minTs: I32, maxTs: I32): (mean: int)
    ensures I32Min <= mean <= I32Max
  {
    var ks := Matched(db, minTs, maxTs);
    if ks == {} then 0
    else
      MeanWithinBounds(db, ks, I32Min, I32Max);
      TruncDiv(SumAscending(db, ks), |ks|)
  }

  /** If every value stored at `ks` lies in `[lo, hi]`, their sum lies between `lo` and `hi` times their count. */
  lemma {:induction false} SumBounds(db: Db, ks: set<I32>, lo: int, hi: int)
    requires ks <= db.Keys
    requires forall k :: k in ks ==> lo <= db[k] <= hi
    ensures lo * |ks| <= SumAscending(db, ks) <= hi * |ks|
    decreases ks
  {
    if ks != {} {
      var k := Least(ks);
      SumBounds(db, ks - {k}, lo, hi);
      BoundsStep(lo, hi, |ks - {k}|, SumAscending(db, ks - {k}), db[k]);
    }
  }

  lemma BoundsStep(lo: int, hi: int, n: int, sum: int, v: int)
    requires lo * n <= sum <= hi * n
    requires lo <= v <= hi
    ensures lo * (n + 1) <= sum + v <= hi * (n + 1)
  {
    assert lo * (n + 1) == lo * n + lo;
    assert hi * (n + 1) == hi * n + hi;
  }

  /** The mean of a non-empty match lies between any bounds of the matched values. */
  lemma MeanWithinBounds(db: Db, ks: set<I32>, lo: int, hi: int)
    requires ks != {} && ks <= db.Keys
    requires forall k :: k in ks ==> lo <= db[k] <= hi
    ensures lo <= TruncDiv(SumAscending(db, ks), |ks|) <= hi
  {
    SumBounds(db, ks, lo, hi);
    TruncDivWithin(SumAscending(db, ks), |ks|, lo, hi);
  }

  /** A set of integers inside `[lo, hi]` has at most `hi - lo + 1` elements. */
  lemma {:induction false} IntervalCardinality(ks: set<int>, lo: int, hi: int)
    requires lo <= hi + 1
    requires forall k :: k in ks ==> lo <= k <= hi
    ensures |ks| <= hi - lo + 1
    decreases hi - lo
  {
    if lo <= hi {
      var rest := ks - {hi};
      IntervalCardinality(rest, lo, hi - 1);
    } else {
      assert forall k :: k !in ks;
      assert ks == {};
    }
  }

  /**
   * No query can overflow the `i64` accumulator: at most 2^32 keys match and
   * every value is an `i32`, so every partial sum stays in `i64`.
   */
  lemma MatchedSumFitsI64(db: Db, minTs: I32, maxTs: I32)
    ensures |Matched(db, minTs, maxTs)| <= 0x1_0000_0000
    ensures I64Min <= SumAscending(db, Matched(db, minTs, maxTs)) <= I64Max
  {
    var ks := Matched(db, minTs, maxTs);
    IntervalCardinality(ks, I32Min, I32Max);
    SumBounds(db, ks, I32Min, I32Max);
  }

  /** The key of a smallest and of a largest value among a non-empty set of stored keys. */
  lemma {:induction false} ExtremeKeys(db: Db, ks: set<I32>) returns (kMin: I32, kMax: I32)
    requires ks != {} && ks <= db.Keys
    ensures kMin in ks && kMax in ks
    ensures forall k :: k in ks ==> db[kMin] <= db[k] <= db[kMax]
    decreases ks
  {
    var x :| x in ks;
    if ks == {x} {
      kMin, kMax := x, x;
    } else {
      kMin, kMax := ExtremeKeys(db, ks - {x});
      if db[x] < db[kMin] { kMin := x; }
      if db[x] > db[kMax] { kMax := x; }
    }
  }

  /**
   * The mean of a non-empty match is at least its smallest and at most its
   * largest matched value, so narrowing it to `i32` never changes it.
   */
  lemma MeanBetweenMatchedValues(db: Db, minTs: I32, maxTs: I32)
    requires Matched(db, minTs, maxTs) != {}
    ensures exists kMin, kMax ::
      && kMin in Matched(db, minTs, maxTs) && kMax in Matched(db, minTs, maxTs)
      && db[kMin] <= RangeMean(db, minTs, maxTs) <= db[kMax]
    ensures WrapI32(RangeMean(db, minTs, maxTs)) == RangeMean(db, minTs, maxTs)
  {
    var ks := Matched(db, minTs, maxTs);
    var kMin, kMax := ExtremeKeys(db, ks);
    MeanWithinBounds(db, ks, db[kMin], db[kMax]);
  }

  /** An inverted range matches nothing, whatever the store holds, and replies 0. */
  lemma InvertedRangeMeansZero(db: Db, minTs: I32, maxTs: I32)
    requires minTs > maxTs
    ensures Matched(db, minTs, maxTs) == {}
    ensures RangeMean(db, minTs, maxTs) == 0
  {
  }

  /** The sum over `ks` depends only on the values stored at `ks`. */
  lemma {:induction false} SumAgrees(db1: Db, db2: Db, ks: set<I32>)
    requires ks <= db1.Keys && ks <= db2.Keys
    requires forall k :: k in ks ==> db1[k] == db2[k]
    ensures SumAscending(db1, ks) == SumAscending(db2, ks)
    decreases ks
  {
    if ks != {} {
      SumAgrees(db1, db2, ks - {Least(ks)});
    }
  }

  /** Keys outside `[minTs, maxTs]` never contribute: stores that agree on the range give the same mean. */
  lemma OnlyRangeContributes(db1: Db, db2: Db, minTs: I32, maxTs: I32)
    requires forall k: I32 :: minTs <= k <= maxTs ==> (k in db1 <==> k in db2)
    requires forall k :: k in db1 && k in db2 && minTs <= k <= maxTs ==> db1[k] == db2[k]
    ensures RangeMean(db1, minTs, maxTs) == RangeMean(db2, minTs, maxTs)
  {
    var ks := Matched(db1, minTs, maxTs);
    assert ks == Matched(db2, minTs, maxTs);
    SumAgrees(db1, db2, ks);
  }

  /**
   * The range scan of a query: visit the matched keys in ascending order,
   * counting them and summing their values in an `i64`. `BTreeMap::range`
   * panics on an inverted range, so the caller checks it first.
   */
  method ScanRange(db: Db, minTs: I32, maxTs: I32) returns (count: I64, total: I64)
    requires minTs <= maxTs
    ensures count as int == |Matched(db, minTs, maxTs)|
    ensures total as int == SumAscending(db, Matched(db, minTs, maxTs))
  {
    ghost var ks := Matched(db, minTs, maxTs);
    var pending := Matched(db, minTs, maxTs);
    MatchedSumFitsI64(db, minTs, maxTs);
    count, total := 0, 0;
    while pending != {}
      invariant pending <= ks
      invariant count as int + |pending| == |ks|
      invariant total + SumAscending(db, pending) == SumAscending(db, ks)
      invariant I32Min * count <= total <= I32Max * count
      decreases pending
    {
      LeastExists(pending);
      var k :| k in pending && forall j :: j in pending ==> k <= j;
      assert k == Least(pending);
      BoundsStep(I32Min, I32Max, count as int, total as int, db[k] as int);
      count := count + 1;
      total := total + db[k] as I64;
      pending := pending - {k};
    }
  }

  /**
   * The query branch of the request processor: scan the range when it is not
   * inverted, divide the sum by the count rounding toward zero (0 for no
   * match), and narrow the quotient with `as i32`.
   */
  method QueryMean(db: Db, minTs: I32, maxTs: I32) returns (mean: I32)
    ensures mean == RangeMean(db, minTs, maxTs)
    ensures minTs > maxTs || Matched(db, minTs, maxTs) == {} ==> mean == 0
    ensures Matched(db, minTs, maxTs) != {} ==>
      exists kMin, kMax ::
        && kMin in Matched(db, minTs, maxTs) && kMax in Matched(db, minTs, maxTs)
        && db[kMin] <= mean <= db[kMax]
  {
    var count: I64 := 0;
    var total: I64 := 0;
    if minTs <= maxTs {
      count, total := ScanRange(db, minTs, maxTs);
    }
    var wide: I64 := 0;
    if count > 0 {
      MeanWithinBounds(db, Matched(db, minTs, maxTs), I32Min, I32Max);
      wide := TruncDiv(total, count);
    }
    mean := WrapI32(wide);
    if Matched(db, minTs, maxTs) != {} {
      MeanBetweenMatchedValues(db, minTs, maxTs);
    }
  }

  /** The store after one request: an insert overwrites its key, nothing else changes the store. */
  function Apply(db: Db, req: Request): (r: Db)
    ensures req.Insert? ==> r.Keys == db.Keys + {req.timestamp} && r[req.timestamp] == req.value
    ensures req.Insert? ==> forall k :: k in db && k != req.timestamp ==> r[k] == db[k]
    ensures !req.Insert? ==> r == db
  {
    match req
    case Insert(timestamp, value) => db[timestamp := value]
    case _ => db
  }

  /** The bytes one request writes back: four big-endian bytes of the mean for a query, nothing otherwise. */
  ghost function Reply(db: Db, req: Request): (out: seq<Byte>)
    ensures |out| == if req.Query? then 4 else 0
    ensures req.Query? ==> FromBeBytes(out) == RangeMean(db, req.minTs, req.maxTs)
  {
    match req
    case Query(minTs, maxTs) =>
      var mean := RangeMean(db, minTs, maxTs);
      FromToBeBytes(mean);
      ToBeBytes(mean)
    case _ => []
  }

  /** Inserting twice at one timestamp leaves the later value, as if the first insert had not happened. */
  lemma LastWriteWins(db: Db, timestamp: I32, first: I32, second: I32)
    ensures Apply(Apply(db, Insert(timestamp, first)), Insert(timestamp, second)) == Apply(db, Insert(timestamp, second))
  {
  }

  /** An insert never creates a second entry: it adds one key only when the timestamp is new. */
  lemma InsertCardinality(db: Db, timestamp: I32, value: I32)
    ensures |Apply(db, Insert(timestamp, value))| == if timestamp in db then |db| else |db| + 1
  {
  }

  /** An insert outside a query's range does not change that query's reply. */
  lemma InsertOutsideRange(db: Db, timestamp: I32, value: I32, minTs: I32, maxTs: I32)
    requires timestamp < minTs || maxTs < timestamp
    ensures RangeMean(Apply(db, Insert(timestamp, value)), minTs, maxTs) == RangeMean(db, minTs, maxTs)
  {
    OnlyRangeContributes(Apply(db, Insert(timestamp, value)), db, minTs, maxTs);
  }
}
