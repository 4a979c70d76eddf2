# means-to-an-end: the per-connection protocol engine

This project models, in Dafny, the non-networking core of a small TCP service.
Each connection keeps its own time-indexed store. It answers two 9-byte binary
requests:

- `I` (0x49) inserts `value` at `timestamp`;
- `Q` (0x51) replies with the mean of the values whose timestamps lie in the
  inclusive range `[min_ts, max_ts]`.

The model has three layers, and their properties are proved:

- **Frame decoder** (`Decoder`). It turns nine bytes into `Insert`, `Query` or
  `Unknown`. Byte 0 is the tag. Bytes 1-4 and 5-8 are big-endian
  two's-complement `i32`s (`BigEndian`). Decoding never fails. The frame
  layout and the byte order both round-trip exactly, and the byte weights are
  pinned by a reference big-endian fold and by literal byte vectors.
- **Request processor** (`Store`). The store is a map from `i32` timestamp
  to `i32` value.
  - An insert overwrites its key and changes nothing else.
  - A query scans the matched keys in ascending order (`ScanRange`, a loop
    with invariants, called by `QueryMean`). It counts them and sums their
    values in an `i64`, then divides with Rust's round-toward-zero `/` (`Ints.TruncDiv`; Dafny's own `/`
    is Euclidean). It narrows the quotient with a modelled `as i32`
    (`Ints.WrapI32`) and writes four big-endian bytes.
  - The model proves that the `i64` sum cannot overflow: at most 2^32 keys
    match, and each value is an `i32`. It also proves that the mean lies
    between the smallest and the largest matched value, so the narrowing
    never changes the quotient.
- **Connection handler** (`Session`).
  - A `Connection` object owns the store (`db`) and the bytes written back
    (`out`). `Connection.Process` is `Query::process`.
  - `Echo` is the read loop. It starts from an empty store and processes
    complete 9-byte frames in input order. It stops when fewer than nine
    bytes remain.
  - Its result equals the ghost specification `Output`. Lemmas about
    `Output` state the following:
    - frames are processed in order, each against the store the previous
      ones left;
    - the reply holds four bytes per `Q` frame (the contract of `Output`);
    - a trailing partial frame does nothing;
    - an unknown tag is skipped and the session goes on.
  - Two example sessions are proved as concrete lemmas.

The inbound stream is a finite byte sequence (`seq<Byte>`, with `Byte` the
integers 0..255). The only read failure modelled is "fewer than nine bytes
left". That is what Rust's `read_exact` reports as `UnexpectedEof`, and it
ends the session. The outbound stream is the sequence of bytes appended so
far.

A quotient outside the `i32` range would make the narrowing `as i32` wrap
around. The code never produces one: the mean of `i32` values always lies
between the smallest and the largest of them
(`Store.MeanBetweenMatchedValues`). So the modelled wrap is never exercised.

## Model

| member | source | states |
|---|---|---|
| `Ints.WrapI32` | src/main.rs:61 | `as i32` gives the unique `i32` congruent to its argument modulo 2^32, and leaves a value already in `i32` range unchanged |
| `Ints.TruncDiv` | src/main.rs:59 | Rust's `i64 / i64` for a positive divisor: the remainder `a - q*b` lies in `[0, b)` for a non-negative dividend and in `(-b, 0]` for a negative one (rounds toward zero) |
| `Ints.TruncDivDiffersFromEuclidean` | src/main.rs:59 | on `-7 / 2` the source's division gives -3 where Dafny's Euclidean `/` gives -4, which is why the division is modelled explicitly |
| `Ints.TruncDivWithin` | src/main.rs:59 | if `lo*b <= a <= hi*b` then the rounded-toward-zero quotient lies in `[lo, hi]` |
| `BigEndian.FromBeBytes` | src/main.rs:85-86 | `i32::from_be_bytes` gives an `i32` that is negative exactly when the first byte's top bit is set (two's complement) |
| `BigEndian.ToBeBytes` | src/main.rs:65 | `i32::to_be_bytes` gives exactly four bytes, with the first byte's top bit set exactly for negative values |
| `BigEndian.FromToBeBytes` | src/main.rs:65 | decoding the 4-byte big-endian reply encoding gives back the integer: `FromBeBytes(ToBeBytes(x)) == x` |
| `BigEndian.ToFromBeBytes` | src/main.rs:85-86 | every 4 bytes are the encoding of what they decode to: `ToBeBytes(FromBeBytes(b)) == b` |
| `BigEndian.FromBeBytesIsFold` | src/main.rs:85-86 | `i32::from_be_bytes` is the 32-bit two's-complement reading (`as i32`) of the unsigned big-endian fold `BeValue`, in which each byte shifts the ones before it up by eight bits |
| `BigEndian.ByteOrderVectors` | src/main.rs:85-86 | on vectors of distinct bytes the first byte is the most significant: `12 34 56 78` is 0x12345678, `FF FF FF FE` is -2, `80 00 00 00` is the `i32` minimum and `7F FF FF FF` the maximum, and `to_be_bytes` gives these bytes back |
| `Decoder.Decode` | src/main.rs:84-97 | a 9-byte frame decodes to `Insert` exactly when byte 0 is 'I' and to `Query` exactly when it is 'Q' (otherwise `Unknown`); the first field is the big-endian `i32` whose four bytes are bytes 1-4 and the second the one whose bytes are 5-8 |
| `Decoder.DecodeFrame` | src/main.rs:84-97 | a frame with tag 'I' decodes to `Insert` and one with tag 'Q' to `Query`, each carrying the two big-endian fields; any other tag decodes to `Unknown` |
| `Decoder.FrameOfFields` | src/main.rs:84-97 | every 9 bytes equal the frame rebuilt from their tag and their two decoded fields, so decoding is total and loses nothing |
| `Decoder.DecodeLiterals` | src/main.rs:84-97 | frames written out byte by byte decode as the wire format says: `49 00 00 30 39 00 00 00 65` is `Insert(12345, 101)`, `51 00 00 30 00 00 00 40 00` is `Query(12288, 16384)`, `51 FF FF FF FE 7F FF FF FF` is `Query(-2, i32::MAX)`, and tag 'X' is `Unknown` |
| `Decoder.FrameLiterals` | src/main.rs:84-97 | the five frames of the example session `ThreeOfFourMatch` are, byte for byte, the literal wire frames (for example `Insert(40960, 5)` is `49 00 00 A0 00 00 00 00 05`) |
| `Store.RangeMean` | src/main.rs:49-61 | the query's mean (0 on an empty match, otherwise the sum over the matched keys divided by their count, rounded toward zero) always lies in the `i32` range |
| `Store.Matched` | src/main.rs:53-54 | the keys a query visits are exactly the stored keys in `[min_ts, max_ts]`: none for an inverted range, and at most `max_ts - min_ts + 1` otherwise |
| `Store.SumAscending` | src/main.rs:54-57 | the sum of the values at `n` stored keys, taken least key first, lies between `n * i32::MIN` and `n * i32::MAX` |
| `Store.SumWithout` | src/main.rs:54-57 | the sum does not depend on the scan order: for any key `k` of the set, it is `db[k]` plus the sum over the other keys |
| `Store.SumBounds` | src/main.rs:51-57 | when every matched value lies in `[lo, hi]`, their sum lies in `[lo*n, hi*n]` for `n` matched keys |
| `Store.MeanWithinBounds` | src/main.rs:59 | the mean of a non-empty match lies within any bounds of the matched values |
| `Store.MatchedSumFitsI64` | src/main.rs:52-57 | at most 2^32 keys match, and their sum fits the `i64` accumulator |
| `Store.MeanBetweenMatchedValues` | src/main.rs:59-61 | for a non-empty match, some matched value is at most the mean and some matched value is at least the mean, so `as i32` leaves the mean unchanged |
| `Store.InvertedRangeMeansZero` | src/main.rs:53 | when `min_ts > max_ts`, nothing matches and the mean is 0, whatever the store holds |
| `Store.OnlyRangeContributes` | src/main.rs:54 | two stores that agree on the keys and values inside `[min_ts, max_ts]` give the same mean, so keys outside the range never contribute |
| `Store.ScanRange` | src/main.rs:53-57 | the `for_each` over `db.range(min_ts..=max_ts)` ends with `count` equal to the number of matched keys and `total` equal to the sum of their values, with no `i64` overflow at any step; it is only called on a range that is not inverted, on which `BTreeMap::range` would panic |
| `Store.QueryMean` | src/main.rs:49-61 | the query branch returns exactly `RangeMean`; the result is 0 for an inverted or empty range and otherwise lies between the smallest and the largest matched value |
| `Store.Apply` | src/main.rs:45-48 | an insert stores `value` at `timestamp` and keeps every other key and value; a query or an unknown request leaves the store unchanged |
| `Store.Reply` | src/main.rs:49-68 | a query writes exactly four bytes, which decode to the range mean; an insert or an unknown request writes nothing |
| `Store.LastWriteWins` | src/main.rs:47 | inserting twice at one timestamp leaves the same store as inserting only the later value |
| `Store.InsertCardinality` | src/main.rs:47 | an insert adds an entry only for a new timestamp, so a timestamp never has two entries |
| `Store.InsertOutsideRange` | src/main.rs:47-54 | an insert whose timestamp is outside a query's range does not change that query's reply |
| `Session.Connection.constructor` | src/main.rs:74 | a connection starts with an empty store and nothing written |
| `Session.Connection.Process` | src/main.rs:42-70 | the new store is `Apply` of the old one and the reply `Reply` is appended. An insert only updates its key, a query leaves the store unchanged and appends 4 bytes, and an unknown request changes nothing |
| `Session.Output` | src/main.rs:80-107 | the bytes a session writes are exactly four per complete frame tagged 'Q' and nothing for any other frame or for a trailing partial frame |
| `Session.FinalStore` | src/main.rs:80-99 | the store a session is left with contains every key it started with: no request removes a key |
| `Session.Echo` | src/main.rs:73-107 | the read loop writes exactly `Output(map[], input)`: it starts from an empty store, processes complete frames in order, and stops with fewer than nine bytes left |
| `Session.OutputSnoc` | src/main.rs:80-99 | processing one more complete frame appends its reply, computed against the store the earlier frames left, and applies it to that store |
| `Session.OutputAppend` | src/main.rs:80-99 | for input split after a whole number of frames, the output is the first part's replies followed by the rest's replies, computed from the store the first part left |
| `Session.FinalStoreAppend` | src/main.rs:80-99 | after a whole number of frames, the rest of the input starts from the store those frames left |
| `Session.PartialFrameIgnored` | src/main.rs:82-105 | a trailing partial frame writes nothing and leaves the store as the complete frames left it |
| `Session.UnknownFrameSkipped` | src/main.rs:96 | a frame with an unknown tag writes nothing and leaves the store alone, and the following frames are processed as if it were absent |
| `Session.FreshQueryRepliesZero` | src/main.rs:49-66 | a fresh session whose first frame is a query over `[0, 0]` gets back the four bytes `0 0 0 0` |
| `Session.ThreeOfFourMatch` | src/main.rs:45-66 | four inserts at 12345, 12346, 12347 and 40960, then a query over `[12288, 16384]`: the reply is `0 0 0 101`, the big-endian form of `(101 + 102 + 100) / 3` |

## Left out

- The TCP listener, the accept loop and the thread spawned per connection (src/main.rs:17-33). These are networking and concurrency. Each session owns its own store: `Echo` allocates a fresh `Connection`, so sessions are isolated by construction.
- Command-line parsing of the port with `clap` and building the socket address (src/main.rs:10-22). This is glue around a foreign library.
- Logging with `println!`/`eprintln!` and `peer_addr().unwrap()`. These are observability side channels that do not affect the protocol.
- Read errors other than running out of input (src/main.rs:100-104). The input is a finite byte sequence, so the only failure is that fewer than nine bytes remain. That case ends the session, like every read error in the source.
- The `expect` panic on a failed write (src/main.rs:64-66). Writing a reply is modelled as appending to the output, which cannot fail.
- The `BTreeMap` implementation. The store is a mathematical map. Range iteration is the set of stored keys in `[min_ts, max_ts]`, visited least key first.
- Bytes are integers 0..255 (`Byte`) rather than `bv8`. Every use of them in the source is arithmetic.
