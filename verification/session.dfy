/**
 * One connection: a fresh empty store, then complete nine-byte frames read
 * in order, each decoded and processed against the store the previous one
 * left. The inbound stream is a finite byte sequence; the only read failure
 * is that fewer than nine bytes remain, which ends the session. The outbound
 * stream is the sequence of bytes written so far.
 */
module Session {
  import opened Ints
  import opened BigEndian
  import opened Decoder
  import opened Store

  /** The bytes a session starting from `db` writes for `input`: four per complete 'Q' frame; a trailing partial frame writes nothing. */
  ghost function Output(db: Db, input: seq<Byte>): (out: seq<Byte>)
    ensures |out| == 4 * QueryFrames(input)
    decreases |input|
  {
    if |input| < FrameSize then []
    else
      var req := Decode(input[..FrameSize]);
      Reply(db, req) + Output(Apply(db, req), input[FrameSize..])
  }

  /** The store a session starting from `db` is left with after the complete frames of `input`; no key is ever removed. */
  function FinalStore(db: Db, input: seq<Byte>): (r: Db)
    ensures db.Keys <= r.Keys
    decreases |input|
  {
    if |input| < FrameSize then db
    else FinalStore(Apply(db, Decode(input[..FrameSize])), input[FrameSize..])
  }

  /** The number of complete frames of `input` whose tag is 'Q'. */
  function QueryFrames(input: seq<Byte>): (n: nat)
    decreases |input|
  {
    if |input| < FrameSize then 0
    else (if input[0] == QueryTag then 1 else 0) + QueryFrames(input[FrameSize..])
  }

  /** The state `echo` owns: the session store and the bytes written back on the stream. */
  class Connection {
    var db: Db
    var out: seq<Byte>

    constructor ()
      ensures db == map[] && out == []
    {
      db := map[];
      out := [];
    }

    /** `Query::process`: run one request against the store, appending its reply to the stream. */
    method Process(req: Request)
      modifies this
      ensures db == Apply(old(db), req)
      ensures out == old(out) + Reply(old(db), req)
      ensures req.Insert? ==> out == old(out) && db == old(db)[req.timestamp := req.value]
      ensures req.Query? ==> db == old(db) && |out| == |old(out)| + 4
      ensures req.Unknown? ==> db == old(db) && out == old(out)
    {
      match req
      case Insert(timestamp, value) =>
        db := db[timestamp := value];
      case Query(minTs, maxTs) =>
        var mean := QueryMean(db, minTs, maxTs);
        out := out + ToBeBytes(mean);
      case Unknown =>
    }
  }

  /**
   * `echo`: a fresh connection reads complete frames until fewer than nine
   * bytes remain, processing each in order; returns everything written back.
   */
  method Echo(input: seq<Byte>) returns (out: seq<Byte>)
    ensures out == Output(map[], input)
  {
    var conn := new Connection();
    var pos := 0;
    ghost var frames := 0;
    while pos + FrameSize <= |input|
      invariant pos == frames * FrameSize <= |input|
      invariant conn.db == FinalStore(map[], input[..pos])
      invariant conn.out == Output(map[], input[..pos])
      decreases |input| - pos
    {
      var req := Decode(input[pos..pos + FrameSize]);
      OutputSnoc(map[], input, frames);
      conn.Process(req);
      pos, frames := pos + FrameSize, frames + 1;
    }
    out := conn.out;
    PartialFrameIgnored(map[], input, frames);
  }

  /** Processing the frame after the first `frames` ones appends its reply and applies it to the store. */
  lemma OutputSnoc(db: Db, input: seq<Byte>, frames: nat)
    requires (frames + 1) * FrameSize <= |input|
    ensures var pos := frames * FrameSize;
      && Output(db, input[..pos + FrameSize]) ==
           Output(db, input[..pos]) + Reply(FinalStore(db, input[..pos]), Decode(input[pos..pos + FrameSize]))
      && FinalStore(db, input[..pos + FrameSize]) ==
           Apply(FinalStore(db, input[..pos]), Decode(input[pos..pos + FrameSize]))
  {
    var pos := frames * FrameSize;
    var prefix, frame := input[..pos], input[pos..pos + FrameSize];
    assert input[..pos + FrameSize] == prefix + frame;
    DivModOf(frames, FrameSize, 0);
    OutputAppend(db, prefix, frame);
    FinalStoreAppend(db, prefix, frame);
    OutputCons(FinalStore(db, prefix), frame, []);
    assert frame + [] == frame;
  }

  /** Unfolding one complete leading frame. */
  lemma OutputCons(db: Db, frame: seq<Byte>, rest: seq<Byte>)
    requires |frame| == FrameSize
    ensures Output(db, frame + rest) == Reply(db, Decode(frame)) + Output(Apply(db, Decode(frame)), rest)
    ensures FinalStore(db, frame + rest) == FinalStore(Apply(db, Decode(frame)), rest)
  {
    assert (frame + rest)[..FrameSize] == frame;
    assert (frame + rest)[FrameSize..] == rest;
  }

  /**
   * Frames are processed strictly in order: the replies to a whole number of
   * frames come first, then the replies of the rest, processed against the
   * store those frames left.
   */
  lemma {:induction false} OutputAppend(db: Db, first: seq<Byte>, rest: seq<Byte>)
    requires |first| % FrameSize == 0
    ensures Output(db, first + rest) == Output(db, first) + Output(FinalStore(db, first), rest)
    decreases |first|
  {
    if |first| > 0 {
      var frame, tail := first[..FrameSize], first[FrameSize..];
      var req := Decode(frame);
      var next := Apply(db, req);
      assert first == frame + tail;
      assert first + rest == frame + (tail + rest);
      OutputCons(db, frame, tail + rest);
      OutputCons(db, frame, tail);
      WholeFramesLeft(|first|);
      OutputAppend(next, tail, rest);
      calc {
        Output(db, first + rest);
        Reply(db, req) + Output(next, tail + rest);
        Reply(db, req) + (Output(next, tail) + Output(FinalStore(next, tail), rest));
        (Reply(db, req) + Output(next, tail)) + Output(FinalStore(next, tail), rest);
        Output(db, first) + Output(FinalStore(db, first), rest);
      }
    } else {
      assert first + rest == rest;
    }
  }

  /** The store after a whole number of frames and then more input is the store the rest leaves, starting from theirs. */
  lemma {:induction false} FinalStoreAppend(db: Db, first: seq<Byte>, rest: seq<Byte>)
    requires |first| % FrameSize == 0
    ensures FinalStore(db, first + rest) == FinalStore(FinalStore(db, first), rest)
    decreases |first|
  {
    if |first| > 0 {
      var frame, tail := first[..FrameSize], first[FrameSize..];
      assert first == frame + tail;
      assert first + rest == frame + (tail + rest);
      OutputCons(db, frame, tail + rest);
      OutputCons(db, frame, tail);
      WholeFramesLeft(|first|);
      FinalStoreAppend(Apply(db, Decode(frame)), tail, rest);
    } else {
      assert first + rest == rest;
    }
  }

  /** Removing one frame from a whole number of frames leaves a whole number of frames. */
  lemma WholeFramesLeft(n: nat)
    requires n % FrameSize == 0 && n >= FrameSize
    ensures (n - FrameSize) % FrameSize == 0
  {
    var q := n / FrameSize;
    DivModOf(q - 1, FrameSize, 0);
  }

  /**
   * A trailing partial frame is never processed: after the first `frames`
   * complete frames, fewer than nine remaining bytes write nothing and leave
   * the store as it was.
   */
  lemma {:induction false} PartialFrameIgnored(db: Db, input: seq<Byte>, frames: nat)
    requires frames * FrameSize <= |input| < (frames + 1) * FrameSize
    ensures Output(db, input) == Output(db, input[..frames * FrameSize])
    ensures FinalStore(db, input) == FinalStore(db, input[..frames * FrameSize])
    decreases frames
  {
    if frames > 0 {
      var frame, tail := input[..FrameSize], input[FrameSize..];
      var m := (frames - 1) * FrameSize;
      assert frames * FrameSize == m + FrameSize;
      PartialFrameIgnored(Apply(db, Decode(frame)), tail, frames - 1);
      assert input[..m + FrameSize] == frame + tail[..m];
      OutputCons(db, frame, tail[..m]);
    } else {
      assert |input| < FrameSize;
    }
  }

  /** A frame with an unknown tag writes nothing, leaves the store alone, and the session carries on. */
  lemma UnknownFrameSkipped(db: Db, frame: seq<Byte>, rest: seq<Byte>)
    requires |frame| == FrameSize && frame[0] != InsertTag && frame[0] != QueryTag
    ensures Output(db, frame + rest) == Output(db, rest)
    ensures FinalStore(db, frame + rest) == FinalStore(db, rest)
  {
    OutputCons(db, frame, rest);
  }

  /** A session that opens with a query over `[0, 0]` gets back four zero bytes. */
  lemma FreshQueryRepliesZero()
    ensures Output(map[], Frame(QueryTag, 0, 0)) == [0, 0, 0, 0]
  {
  }

  /**
   * Inserts at 12345, 12346, 12347 and 40960, then a query over
   * [12288, 16384]: only the first three match, and the reply is the big-endian
   * encoding of (101 + 102 + 100) / 3 = 101.
   */
  lemma ThreeOfFourMatch()
    ensures Output(map[], Frame(InsertTag, 12345, 101) + Frame(InsertTag, 12346, 102) + Frame(InsertTag, 12347, 100)
                        + Frame(InsertTag, 40960, 5) + Frame(QueryTag, 12288, 16384)) == [0, 0, 0, 101]
  {
    var f1, f2, f3 := Frame(InsertTag, 12345, 101), Frame(InsertTag, 12346, 102), Frame(InsertTag, 12347, 100);
    var f4, q := Frame(InsertTag, 40960, 5), Frame(QueryTag, 12288, 16384);
    DecodeFrame(InsertTag, 12345, 101);
    DecodeFrame(InsertTag, 12346, 102);
    DecodeFrame(InsertTag, 12347, 100);
    DecodeFrame(InsertTag, 40960, 5);
    DecodeFrame(QueryTag, 12288, 16384);
    var db1: Db := map[12345 := 101];
    var db2 := db1[12346 := 102];
    var db3 := db2[12347 := 100];
    var db4 := db3[40960 := 5];
    assert f1 + f2 + f3 + f4 + q == f1 + (f2 + (f3 + (f4 + q)));
    OutputCons(map[], f1, f2 + (f3 + (f4 + q)));
    OutputCons(db1, f2, f3 + (f4 + q));
    OutputCons(db2, f3, f4 + q);
    OutputCons(db3, f4, q);
    OutputCons(db4, q, []);
    assert q + [] == q;
    assert Output(db4, []) == [];
    MeanOfThree(db4);
  }

  /** The range mean of the scenario above. */
  lemma MeanOfThree(db: Db)
    requires db == map[12345 := 101, 12346 := 102, 12347 := 100, 40960 := 5]
    ensures Reply(db, Query(12288, 16384)) == [0, 0, 0, 101]
  {
    var ks := Matched(db, 12288, 16384);
    assert ks == {12345, 12346, 12347};
    assert Least(ks) == 12345;
    assert ks - {12345} == {12346, 12347};
    assert Least({12346, 12347}) == 12346;
    assert {12346, 12347} - {12346} == {12347};
    assert Least({12347}) == 12347;
    assert {12347} - {12347} == {};
    assert SumAscending(db, ks) == 303;
    assert RangeMean(db, 12288, 16384) == 101;
    assert ToBeBytes(101) == [0, 0, 0, 101];
  }
}
