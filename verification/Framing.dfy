/** Length-prefixed frames over a byte stream: FrameReader against every way of cutting the stream. */
module Framing {
  import opened Prelude

  type byte = x: int | 0 <= x < 256

  type Bytes = seq<byte>

  const MAX_FRAME_BYTES: nat := 8 * 1024 * 1024

  function WriteUInt32BE(n: nat): (r: Bytes)
    requires n < 0x1_0000_0000
    ensures |r| == 4 && ReadUInt32BE(r) == n
  {
    var top3 := n / 256;
    var top2 := top3 / 256;
    [top2 / 256, top2 % 256, top3 % 256, n % 256]
  }

  function ReadUInt32BE(b: Bytes): (n: nat)
    requires |b| >= 4
    ensures n < 0x1_0000_0000
  {
    ((b[0] as int * 256 + b[1] as int) * 256 + b[2] as int) * 256 + b[3] as int
  }

  /** frame(payload): refused when the length does not fit the prefix. */
  function Frame(payload: Bytes): Option<Bytes> {
    if |payload| < 0x1_0000_0000 then Some(WriteUInt32BE(|payload|) + payload) else None
  }

  /** The framed concatenation of a list of payloads. */
  function Stream(payloads: seq<Bytes>): Bytes
    requires forall p :: p in payloads ==> |p| <= MAX_FRAME_BYTES
  {
    if payloads == [] then [] else
      assert payloads[0] in payloads;
      Frame(payloads[0]).value + Stream(payloads[1..])
  }

  /** The head of the buffer announces more than the reader will believe. */
  predicate Desynchronised(buf: Bytes) {
    |buf| >= 4 && ReadUInt32BE(buf) > MAX_FRAME_BYTES
  }

  predicate HoldsFrame(buf: Bytes) {
    |buf| >= 4 && !Desynchronised(buf) && |buf| >= 4 + ReadUInt32BE(buf)
  }

  /** Payloads taken off the front, what stays buffered, and whether the reader threw. */
  datatype Drained = Drained(out: seq<Bytes>, rest: Bytes, threw: bool)

  function Drain(buf: Bytes): Drained
    decreases |buf|
  {
    if !HoldsFrame(buf) then Drained([], buf, Desynchronised(buf))
    else
      var len := ReadUInt32BE(buf);
      var d := Drain(buf[4 + len..]);
      Drained([buf[4..4 + len]] + d.out, d.rest, d.threw)
  }

  class FrameReader {
    var buf: Bytes

    constructor ()
      ensures buf == []
    {
      buf := [];
    }

    /** push(chunk): None is the thrown error, after which the buffer still starts at the bad frame. */
    method Push(chunk: Bytes) returns (r: Option<seq<Bytes>>)
      modifies this
      ensures var d := Drain(old(buf) + chunk);
        buf == d.rest && r == if d.threw then None else Some(d.out)
    {
      buf := buf + chunk;
      var out: seq<Bytes> := [];
      ghost var whole := Drain(buf);
      while true
        invariant whole == Drained(out + Drain(buf).out, Drain(buf).rest, Drain(buf).threw)
        decreases |buf|
      {
        if |buf| < 4 {
          break;
        }
        var len := ReadUInt32BE(buf);
        if len > MAX_FRAME_BYTES {
          return None;
        }
        if |buf| < 4 + len {
          break;
        }
        assert out + ([buf[4..4 + len]] + Drain(buf[4 + len..]).out)
            == (out + [buf[4..4 + len]]) + Drain(buf[4 + len..]).out;
        out := out + [buf[4..4 + len]];
        buf := buf[4 + len..];
      }
      assert out + [] == out;
      return Some(out);
    }
  }

  // ---- the wire, byte by byte ------------------------------------------------------------------

  /** The first four bytes, the most significant first. */
  predicate Announces(buf: Bytes, n: nat) {
    |buf| >= 4 && n == buf[0] as int * 16777216 + buf[1] as int * 65536 + buf[2] as int * 256 + buf[3] as int
  }

  /** A frame is its payload behind four bytes that announce its length; a length too long for them is refused. */
  lemma FrameOnTheWire(payload: Bytes)
    ensures Frame(payload).None? <==> |payload| >= 4294967296
    ensures var f := Frame(payload);
      f.Some? ==> |f.value| == 4 + |payload| && Announces(f.value, |payload|) && f.value[4..] == payload
  {
    if |payload| < 4294967296 {
      BigEndian(Frame(payload).value);
      var head := WriteUInt32BE(|payload|);
      assert (head + payload)[0] == head[0] && (head + payload)[1] == head[1]
          && (head + payload)[2] == head[2] && (head + payload)[3] == head[3];
    }
  }

  lemma BigEndian(buf: Bytes)
    requires |buf| >= 4
    ensures Announces(buf, ReadUInt32BE(buf))
  {
  }

  /** The reader throws exactly when what it is left with announces more than 8 MiB; otherwise what stays is
      short of its own frame, and every payload handed out is within the limit. */
  lemma WhatStays(buf: Bytes)
    ensures var d := Drain(buf);
      && (d.threw <==> exists n: nat :: Announces(d.rest, n) && n > 8388608)
      && (!d.threw ==> |d.rest| < 4 || exists n: nat :: Announces(d.rest, n) && |d.rest| < 4 + n)
      && forall p :: p in d.out ==> |p| <= 8388608
  {
    DrainIsLossless(buf);
    if |Drain(buf).rest| >= 4 {
      BigEndian(Drain(buf).rest);
    }
  }

  // ---- one buffer ------------------------------------------------------------------------

  /** Nothing is lost, invented or reordered, and no complete frame is left behind. */
  lemma {:induction false} DrainIsLossless(buf: Bytes)
    ensures var d := Drain(buf);
      && (forall p :: p in d.out ==> |p| <= MAX_FRAME_BYTES)
      && Stream(d.out) + d.rest == buf
      && !HoldsFrame(d.rest)
      && (d.threw <==> Desynchronised(d.rest))
    decreases |buf|
  {
    if HoldsFrame(buf) {
      var len := ReadUInt32BE(buf);
      var tail := Drain(buf[4 + len..]);
      DrainIsLossless(buf[4 + len..]);
      HeadIsAFrame(buf);
      PutBack(buf, 4 + len, buf[4..4 + len], tail.out, tail.rest);
    }
  }

  lemma PutBack(buf: Bytes, n: nat, payload: Bytes, out: seq<Bytes>, rest: Bytes)
    requires n <= |buf| && |payload| <= MAX_FRAME_BYTES && Frame(payload).value == buf[..n]
    requires forall p :: p in out ==> |p| <= MAX_FRAME_BYTES
    requires Stream(out) + rest == buf[n..]
    ensures forall p :: p in [payload] + out ==> |p| <= MAX_FRAME_BYTES
    ensures Stream([payload] + out) + rest == buf
  {
    StreamCons(payload, out);
    assert buf == buf[..n] + buf[n..];
  }

  lemma StreamCons(payload: Bytes, more: seq<Bytes>)
    requires |payload| <= MAX_FRAME_BYTES && forall p :: p in more ==> |p| <= MAX_FRAME_BYTES
    ensures forall p :: p in [payload] + more ==> |p| <= MAX_FRAME_BYTES
    ensures Stream([payload] + more) == Frame(payload).value + Stream(more)
  {
    assert ([payload] + more)[1..] == more;
  }

  lemma HeadIsAFrame(buf: Bytes)
    requires HoldsFrame(buf)
    ensures var len := ReadUInt32BE(buf); Frame(buf[4..4 + len]).value == buf[..4 + len]
  {
    PrefixIsCanonical(buf[..4]);
    assert ReadUInt32BE(buf[..4]) == ReadUInt32BE(buf);
  }

  /** Four bytes are the prefix of exactly one length. */
  lemma PrefixIsCanonical(b: Bytes)
    requires |b| == 4
    ensures WriteUInt32BE(ReadUInt32BE(b)) == b
  {
    var n := ReadUInt32BE(b);
    var top2 := b[0] as int * 256 + b[1] as int;
    assert n / 256 == top2 * 256 + b[2] as int;
    assert n / 256 / 256 == top2;
  }

  lemma FrameHeads(payload: Bytes, more: Bytes)
    requires |payload| <= MAX_FRAME_BYTES
    ensures var buf := Frame(payload).value + more;
      HoldsFrame(buf) && ReadUInt32BE(buf) == |payload|
      && buf[4..4 + |payload|] == payload && buf[4 + |payload|..] == more
  {
    var head := WriteUInt32BE(|payload|);
    var buf := (head + payload) + more;
    assert buf[0] == head[0] && buf[1] == head[1] && buf[2] == head[2] && buf[3] == head[3];
  }

  /** Draining a framed list gives the list back. */
  lemma {:induction false} DrainInvertsStream(payloads: seq<Bytes>)
    requires forall p :: p in payloads ==> |p| <= MAX_FRAME_BYTES
    ensures Drain(Stream(payloads)) == Drained(payloads, [], false)
  {
    if payloads != [] {
      assert payloads[0] in payloads;
      DrainInvertsStream(payloads[1..]);
      FrameHeads(payloads[0], Stream(payloads[1..]));
      assert payloads == [payloads[0]] + payloads[1..];
    }
  }

  // ---- many reads ------------------------------------------------------------------------

  lemma HeadUnchanged(buf: Bytes, more: Bytes)
    requires |buf| >= 4
    ensures ReadUInt32BE(buf + more) == ReadUInt32BE(buf)
  {
  }

  lemma HeadFrameUnchanged(buf: Bytes, more: Bytes)
    requires HoldsFrame(buf)
    ensures HoldsFrame(buf + more) && ReadUInt32BE(buf + more) == ReadUInt32BE(buf)
    ensures var len := ReadUInt32BE(buf);
      (buf + more)[4..4 + len] == buf[4..4 + len] && (buf + more)[4 + len..] == buf[4 + len..] + more
  {
  }

  /** Draining early and then reading more is the same as reading it all first. */
  lemma {:induction false} DrainInTwoReads(a: Bytes, b: Bytes)
    requires !Drain(a).threw
    ensures var d := Drain(a); var e := Drain(d.rest + b);
      Drain(a + b) == Drained(d.out + e.out, e.rest, e.threw)
    decreases |a|
  {
    if HoldsFrame(a) {
      var tail := a[4 + ReadUInt32BE(a)..];
      HeadFrameUnchanged(a, b);
      DrainInTwoReads(tail, b);
      var len := ReadUInt32BE(a);
      DrainStep(a, len, a[4..4 + len], tail);
      DrainStep(a + b, len, a[4..4 + len], tail + b);
      PrependBoth(a[4..4 + len], Drain(tail).out, Drain(Drain(tail).rest + b).out);
    } else {
      assert [] + Drain(a + b).out == Drain(a + b).out;
    }
  }

  lemma DrainStep(buf: Bytes, len: nat, payload: Bytes, tail: Bytes)
    requires HoldsFrame(buf) && len == ReadUInt32BE(buf) && payload == buf[4..4 + len] && tail == buf[4 + len..]
    ensures Drain(buf) == Drained([payload] + Drain(tail).out, Drain(tail).rest, Drain(tail).threw)
  {
  }

  lemma PrependBoth(x: Bytes, a: seq<Bytes>, b: seq<Bytes>)
    ensures [x] + (a + b) == ([x] + a) + b
  {
  }

  /** The reader fed chunk by chunk from `buf`, stopping at the first throw. */
  function Run(buf: Bytes, chunks: seq<Bytes>): Drained
    decreases |chunks|
  {
    if chunks == [] then Drained([], buf, false)
    else
      var d := Drain(buf + chunks[0]);
      if d.threw then Drained([], d.rest, true)
      else
        var r := Run(d.rest, chunks[1..]);
        Drained(d.out + r.out, r.rest, r.threw)
  }

  function Concat(chunks: seq<Bytes>): Bytes {
    if chunks == [] then [] else chunks[0] + Concat(chunks[1..])
  }

  /** A reader is always idle between reads: nothing complete is waiting, nothing bad is at the head. */
  predicate Idle(buf: Bytes) {
    !HoldsFrame(buf) && !Desynchronised(buf)
  }

  /** However the stream was cut, a run throws exactly when the whole stream would; if not it delivers the
      same payloads and keeps the same remainder, and if so it delivers them short of what the throwing
      read discarded. */
  lemma {:induction false} CutsDoNotMatter(buf: Bytes, chunks: seq<Bytes>)
    requires Idle(buf)
    ensures var whole := Drain(buf + Concat(chunks)); var r := Run(buf, chunks);
      && r.threw == whole.threw && (!r.threw ==> r == whole)
      && r.out + LostWith(buf, chunks) == whole.out
    decreases |chunks|
  {
    DeliveredAndLost(buf, chunks);
    if chunks == [] {
      assert buf + [] == buf;
    } else {
      var first, rest := buf + chunks[0], Concat(chunks[1..]);
      assert buf + Concat(chunks) == first + rest;
      DrainIsLossless(first);
      if Drain(first).threw {
        ThrowIsPermanent(first, rest);
      } else {
        DrainInTwoReads(first, rest);
        CutsDoNotMatter(Drain(first).rest, chunks[1..]);
      }
    }
  }

  /** Once the head is desynchronised, reading more never recovers. */
  lemma {:induction false} ThrowIsPermanent(buf: Bytes, more: Bytes)
    requires Drain(buf).threw
    ensures Drain(buf + more).threw
    decreases |buf|
  {
    if HoldsFrame(buf) {
      var len := ReadUInt32BE(buf);
      HeadUnchanged(buf, more);
      assert (buf + more)[4 + len..] == buf[4 + len..] + more;
      ThrowIsPermanent(buf[4 + len..], more);
    } else {
      HeadUnchanged(buf, more);
    }
  }

  /** The promise of the module: any list of payloads, cut anywhere, comes out whole with nothing
      left in the buffer. */
  lemma Reassembly(payloads: seq<Bytes>, chunks: seq<Bytes>)
    requires forall p :: p in payloads ==> |p| <= MAX_FRAME_BYTES
    requires Concat(chunks) == Stream(payloads)
    ensures Run([], chunks) == Drained(payloads, [], false)
  {
    CutsDoNotMatter([], chunks);
    assert [] + Concat(chunks) == Stream(payloads);
    DrainInvertsStream(payloads);
  }

  /** On any run that did not throw, framed outputs followed by the buffer are the bytes received. */
  lemma RunIsLossless(chunks: seq<Bytes>)
    requires !Run([], chunks).threw
    ensures var r := Run([], chunks);
      && (forall p :: p in r.out ==> |p| <= MAX_FRAME_BYTES)
      && Stream(r.out) + r.rest == Concat(chunks)
      && Idle(r.rest)
  {
    CutsDoNotMatter([], chunks);
    assert [] + Concat(chunks) == Concat(chunks);
    DrainIsLossless(Concat(chunks));
  }

  // ---- what a throw costs ------------------------------------------------------------------

  /** The payloads completed by the very read that throws: push discards them with the error. */
  function LostWith(buf: Bytes, chunks: seq<Bytes>): seq<Bytes>
    decreases |chunks|
  {
    if chunks == [] then []
    else
      var d := Drain(buf + chunks[0]);
      if d.threw then d.out else LostWith(d.rest, chunks[1..])
  }

  /** Bytes after the bad length change nothing of what came before it. */
  lemma {:induction false} ThrowFixesTheOutput(buf: Bytes, more: Bytes)
    requires Drain(buf).threw
    ensures Drain(buf + more).out == Drain(buf).out
    decreases |buf|
  {
    if HoldsFrame(buf) {
      HeadFrameUnchanged(buf, more);
      ThrowFixesTheOutput(buf[4 + ReadUInt32BE(buf)..], more);
    } else {
      HeadUnchanged(buf, more);
    }
  }

  /** However the stream is cut, what was delivered followed by what the throwing read discarded is
      everything the stream holds ahead of its bad length. */
  lemma {:induction false} DeliveredAndLost(buf: Bytes, chunks: seq<Bytes>)
    requires Idle(buf)
    ensures Run(buf, chunks).out + LostWith(buf, chunks) == Drain(buf + Concat(chunks)).out
    decreases |chunks|
  {
    if chunks == [] {
      assert buf + [] == buf;
    } else {
      var first, rest := buf + chunks[0], Concat(chunks[1..]);
      assert buf + Concat(chunks) == first + rest;
      DrainIsLossless(first);
      if Drain(first).threw {
        ThrowFixesTheOutput(first, rest);
        ThrowsNow(buf, chunks);
      } else {
        var d := Drain(first);
        ThrowsLater(buf, chunks);
        DrainInTwoReads(first, rest);
        DeliveredAndLost(d.rest, chunks[1..]);
        DeliveredThenLost(d.out, Run(d.rest, chunks[1..]).out, LostWith(d.rest, chunks[1..]));
      }
    }
  }

  lemma ThrowsNow(buf: Bytes, chunks: seq<Bytes>)
    requires chunks != [] && Drain(buf + chunks[0]).threw
    ensures Run(buf, chunks).out + LostWith(buf, chunks) == Drain(buf + chunks[0]).out
  {
  }

  lemma ThrowsLater(buf: Bytes, chunks: seq<Bytes>)
    requires chunks != [] && !Drain(buf + chunks[0]).threw
    ensures var d := Drain(buf + chunks[0]);
      Run(buf, chunks).out == d.out + Run(d.rest, chunks[1..]).out
      && LostWith(buf, chunks) == LostWith(d.rest, chunks[1..])
  {
  }

  lemma DeliveredThenLost(a: seq<Bytes>, b: seq<Bytes>, c: seq<Bytes>)
    ensures (a + b) + c == a + (b + c)
  {
  }

  /** The read that throws completed a frame: some chunk brings the bad length in together with the end
      of a frame before it. */
  ghost predicate ThrowingReadCompletes(buf: Bytes, chunks: seq<Bytes>) {
    exists k :: 0 <= k < |chunks| && !Run(buf, chunks[..k]).threw
      && Drain(Run(buf, chunks[..k]).rest + chunks[k]).threw
      && HoldsFrame(Run(buf, chunks[..k]).rest + chunks[k])
  }

  /** A throw costs a payload exactly when its own read completed a frame. */
  lemma ThrowLosesItsOwnRead(buf: Bytes, chunks: seq<Bytes>)
    requires Idle(buf)
    ensures Run(buf, chunks).out != Drain(buf + Concat(chunks)).out <==> ThrowingReadCompletes(buf, chunks)
  {
    DeliveredAndLost(buf, chunks);
    LostExactly(buf, chunks);
  }

  lemma {:induction false} LostExactly(buf: Bytes, chunks: seq<Bytes>)
    ensures LostWith(buf, chunks) != [] <==> ThrowingReadCompletes(buf, chunks)
    decreases |chunks|
  {
    if chunks != [] {
      var d := Drain(buf + chunks[0]);
      assert chunks[..0] == [];
      if d.threw {
        forall k | 0 < k < |chunks| ensures Run(buf, chunks[..k]).threw {
          assert chunks[..k][0] == chunks[0];
        }
        assert HoldsFrame(buf + chunks[0]) <==> d.out != [];
        if d.out != [] {
          assert !Run(buf, chunks[..0]).threw && Run(buf, chunks[..0]).rest == buf;
        }
      } else {
        LostExactly(d.rest, chunks[1..]);
        forall k | 0 < k <= |chunks|
          ensures Run(buf, chunks[..k]).threw == Run(d.rest, chunks[1..][..k - 1]).threw
          ensures Run(buf, chunks[..k]).rest == Run(d.rest, chunks[1..][..k - 1]).rest
        {
          assert chunks[..k][0] == chunks[0] && chunks[..k][1..] == chunks[1..][..k - 1];
        }
        CompletesLater(buf, chunks, d.rest);
      }
    }
  }

  lemma CompletesLater(buf: Bytes, chunks: seq<Bytes>, rest: Bytes)
    requires chunks != [] && !Drain(buf + chunks[0]).threw
    requires forall k :: 0 < k <= |chunks| ==>
      Run(buf, chunks[..k]).threw == Run(rest, chunks[1..][..k - 1]).threw
      && Run(buf, chunks[..k]).rest == Run(rest, chunks[1..][..k - 1]).rest
    ensures ThrowingReadCompletes(buf, chunks) <==> ThrowingReadCompletes(rest, chunks[1..])
  {
    var later := chunks[1..];
    assert chunks[..0] == [];
    if ThrowingReadCompletes(buf, chunks) {
      var k :| 0 <= k < |chunks| && !Run(buf, chunks[..k]).threw
        && Drain(Run(buf, chunks[..k]).rest + chunks[k]).threw && HoldsFrame(Run(buf, chunks[..k]).rest + chunks[k]);
      assert k != 0;
      assert later[k - 1] == chunks[k];
      assert !Run(rest, later[..k - 1]).threw;
    }
    if ThrowingReadCompletes(rest, later) {
      var k :| 0 <= k < |later| && !Run(rest, later[..k]).threw
        && Drain(Run(rest, later[..k]).rest + later[k]).threw && HoldsFrame(Run(rest, later[..k]).rest + later[k]);
      assert chunks[k + 1] == later[k] && later[..(k + 1) - 1] == later[..k];
      assert !Run(buf, chunks[..k + 1]).threw;
    }
  }

  /** One frame and a bad head: lost in one read, delivered in two. */
  lemma OneReadOrTwo(payload: Bytes, bad: Bytes)
    requires |payload| <= MAX_FRAME_BYTES && Desynchronised(bad)
    ensures var framed := Frame(payload).value;
      Run([], [framed + bad]).out == [] && Run([], [framed, bad]).out == [payload]
      && Run([], [framed + bad]).threw && Run([], [framed, bad]).threw
  {
    var framed := Frame(payload).value;
    DrainOneFrame(payload, bad);
    DrainOneFrame(payload, []);
    assert framed + [] == framed && [] + framed == framed && [] + bad == bad;
    assert [] + (framed + bad) == framed + bad;
    var two := [framed, bad];
    assert two[0] == framed && two[1..] == [bad] && [bad][1..] == [];
    assert Run([], [bad]) == Drained([], bad, true);
    assert [payload] + [] == [payload];
  }

  lemma DrainOneFrame(payload: Bytes, more: Bytes)
    requires |payload| <= MAX_FRAME_BYTES && !HoldsFrame(more)
    ensures Drain(Frame(payload).value + more) == Drained([payload], more, Desynchronised(more))
  {
    FrameHeads(payload, more);
    assert [payload] + [] == [payload];
  }
}
