/**
 * The wire format of a request and its decoder. A frame is nine bytes: a
 * tag byte, then two big-endian `i32` fields. The decoder never fails: a tag
 * it does not know yields `Unknown`.
 */
module Decoder {
  import opened Ints
  import opened BigEndian

  const FrameSize: nat := 9
  /** ASCII 'I'. */
  const InsertTag: Byte := 0x49
  /** ASCII 'Q'. */
  const QueryTag: Byte := 0x51

  /** The source's `Query` enum: one decoded request. */
  datatype Request =
    | Insert(timestamp: I32, value: I32)
    | Query(minTs: I32, maxTs: I32)
    | Unknown

  /** The request a complete frame carries; the tag byte alone selects the variant. */
  function Decode(frame: seq<Byte>): (r: Request)
    requires |frame| == FrameSize
    ensures r.Insert? <==> frame[0] == InsertTag
    ensures r.Query? <==> frame[0] == QueryTag
    ensures r.Insert? ==> ToBeBytes(r.timestamp) == frame[1..5] && ToBeBytes(r.value) == frame[5..9]
    ensures r.Query? ==> ToBeBytes(r.minTs) == frame[1..5] && ToBeBytes(r.maxTs) == frame[5..9]
  {
    ToFromBeBytes(frame[1..5]);
    ToFromBeBytes(frame[5..9]);
    var first := FromBeBytes(frame[1..5]);
    var second := FromBeBytes(frame[5..9]);
    if frame[0] == InsertTag then Insert(first, second)
    else if frame[0] == QueryTag then Query(first, second)
    else Unknown
  }

  /** The frame a client sends: a tag followed by two big-endian `i32` fields. */
  function Frame(tag: Byte, first: I32, second: I32): (f: seq<Byte>)
    ensures |f| == FrameSize && f[0] == tag
  {
    [tag] + ToBeBytes(first) + ToBeBytes(second)
  }

  /** Decoding recovers both fields of any frame, and the tag alone picks the variant. */
  lemma DecodeFrame(tag: Byte, first: I32, second: I32)
    ensures Decode(Frame(tag, first, second)) ==
      if tag == InsertTag then Insert(first, second)
      else if tag == QueryTag then Query(first, second)
      else Unknown
  {
    var f := Frame(tag, first, second);
    assert f[1..5] == ToBeBytes(first);
    assert f[5..9] == ToBeBytes(second);
    FromToBeBytes(first);
    FromToBeBytes(second);
  }

  /**
   * Every nine bytes are a frame: the tag and the two fields the decoder reads
   * from them rebuild the input exactly, so decoding loses nothing.
   */
  lemma FrameOfFields(f: seq<Byte>)
    requires |f| == FrameSize
    ensures f == Frame(f[0], FromBeBytes(f[1..5]), FromBeBytes(f[5..9]))
  {
    ToFromBeBytes(f[1..5]);
    ToFromBeBytes(f[5..9]);
    assert f == [f[0]] + f[1..5] + f[5..9];
  }

  /** Requests written out byte by byte decode as the big-endian reading of their fields says. */
  lemma DecodeLiterals()
    ensures Decode([0x49, 0, 0, 0x30, 0x39, 0, 0, 0, 0x65]) == Insert(12345, 101)
    ensures Decode([0x51, 0, 0, 0x30, 0, 0, 0, 0x40, 0]) == Query(12288, 16384)
    ensures Decode([0x51, 0xFF, 0xFF, 0xFF, 0xFE, 0x7F, 0xFF, 0xFF, 0xFF]) == Query(-2, I32Max)
    ensures Decode([0x58, 0, 0, 0, 1, 0, 0, 0, 2]) == Unknown
  {
    FrameLiterals();
    DecodeFrame(InsertTag, 12345, 101);
    DecodeFrame(QueryTag, 12288, 16384);
    var f: seq<Byte> := [0x51, 0xFF, 0xFF, 0xFF, 0xFE, 0x7F, 0xFF, 0xFF, 0xFF];
    assert f[1..5] == [0xFF, 0xFF, 0xFF, 0xFE] && f[5..9] == [0x7F, 0xFF, 0xFF, 0xFF];
    ByteOrderVectors();
  }

  /** The bytes of the frames of the five-request example session. */
  lemma FrameLiterals()
    ensures Frame(InsertTag, 12345, 101) == [0x49, 0, 0, 0x30, 0x39, 0, 0, 0, 0x65]
    ensures Frame(InsertTag, 12346, 102) == [0x49, 0, 0, 0x30, 0x3A, 0, 0, 0, 0x66]
    ensures Frame(InsertTag, 12347, 100) == [0x49, 0, 0, 0x30, 0x3B, 0, 0, 0, 0x64]
    ensures Frame(InsertTag, 40960, 5) == [0x49, 0, 0, 0xA0, 0, 0, 0, 0, 5]
    ensures Frame(QueryTag, 12288, 16384) == [0x51, 0, 0, 0x30, 0, 0, 0, 0x40, 0]
  {
    FrameOfFields([0x49, 0, 0, 0x30, 0x39, 0, 0, 0, 0x65]);
    FrameOfFields([0x49, 0, 0, 0x30, 0x3A, 0, 0, 0, 0x66]);
    FrameOfFields([0x49, 0, 0, 0x30, 0x3B, 0, 0, 0, 0x64]);
    FrameOfFields([0x49, 0, 0, 0xA0, 0, 0, 0, 0, 5]);
    FrameOfFields([0x51, 0, 0, 0x30, 0, 0, 0, 0x40, 0]);
  }
}
