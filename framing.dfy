/**
 * The length-prefixed framing shared by the server session and the client:
 * a frame is the payload length as a big-endian quint32 followed by the payload.
 * `Drain` is the reference definition of the incremental read loop that both
 * `ClientSession::onReadyRead` and `NetworkClient::onReadyRead` run over the
 * socket's receive buffer, including its guard `bytesAvailable() >= 4`.
 */
module Framing {

  type Byte = b: int | 0 <= b < 256

  const U32Limit: int := 0x1_0000_0000

  /** QDataStream's big-endian encoding of a quint32. */
  function Be32(n: nat): (b: seq<Byte>)
    requires n < U32Limit
    ensures |b| == 4
  {
    [n / 0x100_0000, (n / 0x1_0000) % 0x100, (n / 0x100) % 0x100, n % 0x100]
  }

  /** QDataStream's big-endian decoding of a quint32. */
  function ReadBe32(b: seq<Byte>): (n: nat)
    requires |b| == 4
    ensures n < U32Limit
  {
    var b0: int, b1: int, b2: int, b3: int := b[0], b[1], b[2], b[3];
    ((b0 * 0x100 + b1) * 0x100 + b2) * 0x100 + b3
  }

  /** Dividing by 256 twice or three times is dividing by 2^16 or 2^24. */
  lemma DivBytes(n: nat)
    ensures n / 0x100 / 0x100 == n / 0x1_0000
    ensures n / 0x1_0000 / 0x100 == n / 0x100_0000
  {
    var q1, r1 := n / 0x100, n % 0x100;
    var q2, r2 := q1 / 0x100, q1 % 0x100;
    var q3, r3 := q2 / 0x100, q2 % 0x100;
    assert n == q2 * 0x1_0000 + (r2 * 0x100 + r1);
    assert n == q3 * 0x100_0000 + (r3 * 0x1_0000 + r2 * 0x100 + r1);
  }

  lemma ReadBe32OfBe32(n: nat)
    requires n < U32Limit
    ensures ReadBe32(Be32(n)) == n
  {
    DivBytes(n);
    var q1, r1 := n / 0x100, n % 0x100;
    var q2, r2 := q1 / 0x100, q1 % 0x100;
    var q3, r3 := q2 / 0x100, q2 % 0x100;
    assert n == ((q3 * 0x100 + r3) * 0x100 + r2) * 0x100 + r1;
  }

  lemma Be32OfReadBe32(b: seq<Byte>)
    requires |b| == 4
    ensures Be32(ReadBe32(b)) == b
  {
    var b0: int, b1: int, b2: int, b3: int := b[0], b[1], b[2], b[3];
    var n := ReadBe32(b);
    var q2 := b0 * 0x100 + b1;
    var q1 := q2 * 0x100 + b2;
    assert n == q1 * 0x100 + b3;
    assert n / 0x100 == q1 && n % 0x100 == b3;
    assert q1 / 0x100 == q2 && q1 % 0x100 == b2;
    assert q2 / 0x100 == b0 && q2 % 0x100 == b1;
    DivBytes(n);
  }

  /**
   * What `sendResponse`/`sendMessage` write: the payload size cast to quint32
   * (so it wraps for payloads of 4 GiB or more), big-endian, then the payload.
   */
  function EncodeFrame(payload: seq<Byte>): (f: seq<Byte>)
    ensures |f| == 4 + |payload|
    ensures f[4..] == payload
    ensures |payload| < U32Limit ==> ReadBe32(f[..4]) == |payload|
  {
    var header := Be32(|payload| % U32Limit);
    ReadBe32OfBe32(|payload| % U32Limit);
    assert (header + payload)[..4] == header;
    header + payload
  }

  /** The outcome of one run of the read loop: payloads taken, then the decoder state. */
  datatype Drained = Drained(frames: seq<seq<Byte>>, pending: nat, rest: seq<Byte>)

  /** `frames` taken earlier, followed by a later run `d`. */
  function After(frames: seq<seq<Byte>>, d: Drained): Drained
  {
    Drained(frames + d.frames, d.pending, d.rest)
  }

  /** The loop exits when fewer than 4 bytes remain or the pending payload is not all there. */
  predicate Stalled(d: Drained)
  {
    |d.rest| < 4 || |d.rest| < d.pending
  }

  /** The payload length one iteration works with: a fresh header, or the one pending. */
  function SizeAt(pending: nat, buf: seq<Byte>): nat
    requires |buf| >= 4
  {
    if pending == 0 then ReadBe32(buf[..4]) else pending
  }

  /** The bytes left after one iteration has consumed its header, if any. */
  function BodyAt(pending: nat, buf: seq<Byte>): seq<Byte>
    requires |buf| >= 4
  {
    if pending == 0 then buf[4..] else buf
  }

  /**
   * The read loop: `pending` is `currentMessageSize` (0 meaning no header has
   * been consumed) and `buf` the bytes the socket has buffered. Each iteration
   * first requires 4 buffered bytes, reads a header only when `pending == 0`,
   * then waits unless the whole payload is there.
   */
  function Drain(pending: nat, buf: seq<Byte>): (d: Drained)
    requires pending < U32Limit
    ensures d.pending < U32Limit
    ensures Stalled(d)
    ensures |d.rest| <= |buf|
    decreases |buf|
  {
    if |buf| < 4 then Drained([], pending, buf)
    else
      var size, body := SizeAt(pending, buf), BodyAt(pending, buf);
      if |body| < size then Drained([], size, body)
      else After([body[..size]], Drain(0, body[size..]))
  }

  /** Bytes are only ever taken from the front: what the loop leaves is a suffix of its input. */
  lemma {:induction false} DrainConsumesPrefix(pending: nat, buf: seq<Byte>)
    requires pending < U32Limit
    ensures var r := Drain(pending, buf).rest; r == buf[|buf| - |r|..]
    decreases |buf|
  {
    if |buf| >= 4 {
      var size, body := SizeAt(pending, buf), BodyAt(pending, buf);
      assert body == buf[|buf| - |body|..];
      if |body| >= size {
        var tail := body[size..];
        DrainConsumesPrefix(0, tail);
        assert Drain(pending, buf).rest == Drain(0, tail).rest;
        assert tail == buf[|buf| - |tail|..];
      }
    }
  }

  /** A header announcing 0 bytes yields an empty payload at once, and decoding goes on behind it. */
  lemma ZeroLengthFrame(rest: seq<Byte>)
    ensures Drain(0, Be32(0) + rest) == After([[]], Drain(0, rest))
  {
    ReadBe32OfBe32(0);
    var buf := Be32(0) + rest;
    assert buf[..4] == Be32(0);
    DrainReadsHeader(buf);
    assert buf[4..4] == [] && buf[4..] == rest;
  }

  /** A pending length persists, and nothing is consumed, until its payload is buffered. */
  lemma DrainWaits(pending: nat, buf: seq<Byte>)
    requires 0 < pending < U32Limit && |buf| < pending
    ensures Drain(pending, buf) == Drained([], pending, buf)
  {
  }

  /**
   * With a header already consumed, exactly `pending` bytes are taken as the
   * next payload and decoding restarts from `currentMessageSize == 0`.
   */
  lemma DrainTakesPending(pending: nat, buf: seq<Byte>)
    requires 0 < pending < U32Limit && |buf| >= 4 && |buf| >= pending
    ensures Drain(pending, buf) == After([buf[..pending]], Drain(0, buf[pending..]))
  {
  }

  /** With no header consumed, the header is read first and the frame decoded behind it. */
  lemma DrainReadsHeader(buf: seq<Byte>)
    requires |buf| >= 4
    ensures var size := ReadBe32(buf[..4]);
            Drain(0, buf) ==
              if |buf| - 4 < size then Drained([], size, buf[4..])
              else After([buf[4..4 + size]], Drain(0, buf[4 + size..]))
  {
    var size, body := ReadBe32(buf[..4]), buf[4..];
    assert SizeAt(0, buf) == size && BodyAt(0, buf) == body;
    if |body| >= size {
      SliceOfSlice(buf, 4, size);
      assert Drain(0, buf) == After([body[..size]], Drain(0, body[size..]));
    } else {
      assert Drain(0, buf) == Drained([], size, body);
    }
  }

  lemma SliceOfSlice(s: seq<Byte>, i: nat, j: nat)
    requires i + j <= |s|
    ensures s[i..][..j] == s[i..i + j] && s[i..][j..] == s[i + j..]
  {
  }

  /** The concatenation of the frames of a list of payloads. */
  function EncodeAll(payloads: seq<seq<Byte>>): (s: seq<Byte>)
  {
    if payloads == [] then [] else EncodeFrame(payloads[0]) + EncodeAll(payloads[1..])
  }

  predicate AllFit(payloads: seq<seq<Byte>>)
  {
    forall i :: 0 <= i < |payloads| ==> |payloads[i]| < U32Limit
  }

  /**
   * Decoding inverts encoding: frames that reach a decoder with no header
   * pending come out as the same payloads, in order, and a trailing
   * incomplete frame `tail` is left for later.
   */
  lemma {:induction false} DrainEncodeAll(payloads: seq<seq<Byte>>, tail: seq<Byte>)
    requires AllFit(payloads)
    requires |tail| < 4
    ensures Drain(0, EncodeAll(payloads) + tail) == Drained(payloads, 0, tail)
  {
    if payloads != [] {
      var p := payloads[0];
      var rest := EncodeAll(payloads[1..]) + tail;
      var buf := EncodeFrame(p) + rest;
      assert EncodeAll(payloads) + tail == buf;
      FrameThenRest(p, rest);
      DrainReadsHeader(buf);
      assert Drain(0, buf) == After([p], Drain(0, rest));
      DrainEncodeAll(payloads[1..], tail);
      assert [p] + payloads[1..] == payloads;
      assert After([p], Drained(payloads[1..], 0, tail)) == Drained(payloads, 0, tail);
    }
  }

  /** A frame followed by more bytes: its header gives the payload's length, and the payload precedes the rest. */
  lemma FrameThenRest(p: seq<Byte>, rest: seq<Byte>)
    requires |p| < U32Limit
    ensures var buf := EncodeFrame(p) + rest;
      |buf| >= 4 && ReadBe32(buf[..4]) == |p| && |buf| - 4 >= |p|
      && buf[4..4 + |p|] == p && buf[4 + |p|..] == rest
  {
    var f := EncodeFrame(p);
    var buf := f + rest;
    assert buf[..4] == f[..4];
    assert buf[4..4 + |p|] == f[4..];
    assert buf[4 + |p|..] == rest;
  }

  /**
   * Splitting the input between two calls of the loop changes nothing as long
   * as the first call does not stop with a pending length of 1 to 3 bytes:
   * the second call resumes exactly where the first stopped.
   */
  lemma {:induction false} DrainSplit(pending: nat, a: seq<Byte>, b: seq<Byte>)
    requires pending < U32Limit
    requires Drain(pending, a).pending == 0 || Drain(pending, a).pending >= 4
    ensures var d := Drain(pending, a);
            Drain(pending, a + b) == After(d.frames, Drain(d.pending, d.rest + b))
    decreases |a|
  {
    var d := Drain(pending, a);
    if |a| < 4 {
      assert d == Drained([], pending, a);
      AfterNothing(Drain(pending, a + b));
    } else {
      var size, body := SizeAt(pending, a), BodyAt(pending, a);
      if |body| < size {
        assert d == Drained([], size, body);
        DrainSplitWaiting(pending, a, b);
        AfterNothing(Drain(size, body + b));
      } else {
        var rest := body[size..];
        var d' := Drain(0, rest);
        assert d == After([body[..size]], d');
        DrainSplitTaking(pending, a, b);
        DrainSplit(0, rest, b);
        AfterAfter([body[..size]], d'.frames, Drain(d'.pending, d'.rest + b));
      }
    }
  }

  lemma AfterNothing(d: Drained)
    ensures After([], d) == d
  {
    assert [] + d.frames == d.frames;
  }

  lemma AfterAfter(f1: seq<seq<Byte>>, f2: seq<seq<Byte>>, d: Drained)
    ensures After(f1, After(f2, d)) == After(f1 + f2, d)
  {
    assert f1 + (f2 + d.frames) == (f1 + f2) + d.frames;
  }

  /** The case of `DrainSplit` where the first call takes a whole payload first. */
  lemma DrainSplitTaking(pending: nat, a: seq<Byte>, b: seq<Byte>)
    requires pending < U32Limit && |a| >= 4
    requires |BodyAt(pending, a)| >= SizeAt(pending, a)
    ensures var size, body := SizeAt(pending, a), BodyAt(pending, a);
            Drain(pending, a + b) == After([body[..size]], Drain(0, body[size..] + b))
  {
    var size, body := SizeAt(pending, a), BodyAt(pending, a);
    assert (a + b)[..4] == a[..4];
    assert SizeAt(pending, a + b) == size;
    assert BodyAt(pending, a + b) == body + b;
    assert (body + b)[..size] == body[..size];
    assert (body + b)[size..] == body[size..] + b;
  }

  /** The case of `DrainSplit` where the first call stops waiting for a payload of 4 or more bytes. */
  lemma DrainSplitWaiting(pending: nat, a: seq<Byte>, b: seq<Byte>)
    requires pending < U32Limit && |a| >= 4
    requires |BodyAt(pending, a)| < SizeAt(pending, a)
    requires SizeAt(pending, a) >= 4
    ensures Drain(pending, a + b) == Drain(SizeAt(pending, a), BodyAt(pending, a) + b)
  {
    var size, body := SizeAt(pending, a), BodyAt(pending, a);
    assert (a + b)[..4] == a[..4];
    assert SizeAt(pending, a + b) == size;
    assert BodyAt(pending, a + b) == body + b;
  }

  /**
   * The guard `bytesAvailable() >= 4` also gates a pending payload: once a
   * header announcing a 2-byte payload has been consumed, the payload itself
   * is not delivered when it arrives alone, but waits for more input.
   */
  lemma ShortPayloadWaits(x: Byte, y: Byte)
    ensures Drain(0, Be32(2)) == Drained([], 2, [])
    ensures Drain(2, [x, y]) == Drained([], 2, [x, y])
    ensures Drain(0, Be32(2) + [x, y]) == Drained([[x, y]], 0, [])
  {
    ReadBe32OfBe32(2);
    var buf := Be32(2) + [x, y];
    assert buf[..4] == Be32(2);
    assert buf[4..] == [x, y];
    assert [x, y][..2] == [x, y];
  }
}
