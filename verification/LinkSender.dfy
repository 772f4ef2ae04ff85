/**
 The send side of the IMRT link.  The outcome of every `write` is chosen by the
 environment: `script(i)` is the outcome of the i-th call on the connection.
 */
module LinkSender {
  import opened Bytes
  import opened ImrtFrame
  import opened ReadLoop

  /** `write` takes some bytes, or fails with -1 and one of three kinds of errno. */
  datatype WriteOutcome = Took(count: nat) | WouldBlock | Reset | OtherError

  // `ssize_t` has 32 bits, so does `unsigned int`
  const SSIZE_MAX: nat := 0x7FFF_FFFF
  const UINT_MAX: nat := 0xFFFF_FFFF
  const RETRIES: nat := 10

  const INSTALL_WASM_BYTECODE_APP: uint16 := 4

  function Min(a: nat, b: nat): nat {
    if a <= b then a else b
  }

  /** How many of `length` bytes a call with this outcome puts on the wire. */
  function Accepted(o: WriteOutcome, length: nat): (n: nat)
    ensures n <= length
  {
    if o.Took? then Min(o.count, Min(length, SSIZE_MAX)) else 0
  }

  /** What `write` returns. */
  function Returns(o: WriteOutcome, length: nat): (ret: int)
    ensures -1 <= ret <= SSIZE_MAX
  {
    if o.Took? then Accepted(o, length) else -1
  }

  /** The usual arithmetic conversions: compared with an `unsigned int`, an `ssize_t` becomes one. */
  function AsUnsigned(ret: int): (v: uint32) {
    ret % 0x1_0000_0000
  }

  /** The call failed, and not because the wire was full. */
  predicate Fails(o: WriteOutcome) {
    o.Reset? || o.OtherError?
  }

  /** The answer given after the last write. */
  predicate Answer(o: WriteOutcome, length: nat) {
    !o.WouldBlock? && AsUnsigned(Returns(o, length)) == length
  }

  /** It is wrong for a failed write of UINT_MAX bytes, taken for a full one, and right in every other case. */
  lemma AnswerWrongExactly(o: WriteOutcome, length: nat)
    requires 0 < length <= UINT_MAX
    ensures (Answer(o, length) <==> Accepted(o, length) == length) <==> !(length == UINT_MAX && Fails(o))
  {
    assert AsUnsigned(-1) == UINT_MAX;
  }

  class Connection {
    var open: bool             // g_runtime_conn_fd is not -1
    var closed: bool           // close was called on the descriptor
    var calls: nat             // writes so far
    ghost var wire: seq<byte>  // what the runtime receives
    const script: nat -> WriteOutcome

    constructor (script: nat -> WriteOutcome)
      ensures open && !closed && calls == 0 && wire == [] && this.script == script
    {
      open, closed, calls, wire, this.script := true, false, 0, [], script;
    }

    method Write(buf: seq<byte>) returns (outcome: WriteOutcome)
      modifies `calls, `wire
      ensures calls == old(calls) + 1 && outcome == script(old(calls))
      ensures wire == old(wire) + buf[..Accepted(outcome, |buf|)]
    {
      outcome := script(calls);
      calls := calls + 1;
      wire := wire + buf[..Accepted(outcome, |buf|)];
    }

    /** Only the last of at most eleven writes can take bytes, and it alone decides the answer. */
    method HostToolSendData(buf: seq<byte>) returns (ok: bool)
      requires |buf| <= UINT_MAX
      modifies `calls, `wire, `closed
      ensures !open || buf == [] ==> !ok && calls == old(calls) && wire == old(wire) && closed == old(closed)
      ensures open && buf != [] ==>
                && old(calls) < calls <= old(calls) + 11
                && (forall i | old(calls) <= i < calls - 1 :: script(i).WouldBlock?)
                && (script(calls - 1).WouldBlock? ==> calls == old(calls) + 11)
                && wire == old(wire) + buf[..Accepted(script(calls - 1), |buf|)]
                && ok == Answer(script(calls - 1), |buf|)
                && closed == (old(closed) || script(calls - 1).Reset? || script(calls - 1).WouldBlock?)
      ensures open && buf != [] ==>
                ((ok <==> wire == old(wire) + buf) <==> !(|buf| == UINT_MAX && Fails(script(calls - 1))))
    {
      if !open || |buf| <= 0 {
        return false;
      }
      var count := 0;
      var outcome := Write(buf);
      assert wire == old(wire) + buf[..Accepted(outcome, |buf|)];
      while outcome.WouldBlock?
        invariant 0 <= count <= RETRIES
        invariant calls == old(calls) + count + 1
        invariant outcome == script(calls - 1)
        invariant forall i | old(calls) <= i < calls - 1 :: script(i).WouldBlock?
        invariant wire == old(wire) + buf[..Accepted(outcome, |buf|)]
        invariant closed == old(closed)
        decreases RETRIES - count
      {
        count := count + 1;
        if count > RETRIES {
          closed := true;
          AnswerWrongExactly(outcome, |buf|);
          return false;
        }
        outcome := Write(buf);
      }
      if outcome.Reset? {
        closed := true;
      }
      AnswerWrongExactly(outcome, |buf|);
      assert |wire| == old(|wire|) + Accepted(outcome, |buf|);
      return AsUnsigned(Returns(outcome, |buf|)) == |buf|;
    }

    /** A segment is reported sent exactly when all of it, and something, went out. */
    method SendSegment(segment: seq<byte>) returns (ok: bool, ghost sent: nat)
      requires |segment| <= SSIZE_MAX
      modifies `calls, `wire, `closed
      ensures calls <= old(calls) + 11
      ensures sent <= |segment| && wire == old(wire) + segment[..sent]
      ensures ok <==> sent == |segment| && segment != []
    {
      ok := HostToolSendData(segment);
      sent := if open && segment != [] then Accepted(script(calls - 1), |segment|) else 0;
    }

    /** The four segments of a frame, in order, stopping at the first that is not sent. */
    method SendRequest(packed: seq<byte>, isInstallWasmBytecodeApp: bool) returns (ret: int)
      requires |packed| <= SSIZE_MAX
      modifies `calls, `wire, `closed
      ensures ret == 0 || ret == -1
      ensures calls <= old(calls) + 44
      ensures var msgType := if isInstallWasmBytecodeApp then INSTALL_WASM_BYTECODE_APP else REQUEST_PACKET;
              var frame := Encode(Message(msgType, packed));
              exists n | 0 <= n <= |frame| ::
                && wire == old(wire) + frame[..n]
                && (ret == 0 <==> n == |frame| && packed != [])
    {
      var msgType := REQUEST_PACKET;
      if isInstallWasmBytecodeApp {
        msgType := INSTALL_WASM_BYTECODE_APP;
      }
      SwapWritesNetworkOrder(msgType, |packed|);
      ghost var frame := Encode(Message(msgType, packed));
      FrameSegments(Message(msgType, packed));
      ghost var n;
      ret := -1;

      var ok;
      ok, n := SendSegment([LEADING0, LEADING1]);
      assert wire == old(wire) + frame[..n];
      if !ok {
        return;
      }
      ok, n := SendSegment(ToLe16(Swap16(msgType)));
      Extends(old(wire), frame, 2, n, ToBe16(msgType), wire);
      if !ok {
        return;
      }
      ok, n := SendSegment(ToLe32(Swap32(|packed|)));
      Extends(old(wire), frame, 4, n, ToBe32(|packed|), wire);
      if !ok {
        return;
      }
      ok, n := SendSegment(packed);
      Extends(old(wire), frame, HEADER, n, packed, wire);
      if !ok {
        return;
      }
      ret := 0;
    }
  }

  lemma FrameSegments(m: Message)
    requires |m.payload| <= SSIZE_MAX
    ensures var f := Encode(m);
            && f[..2] == [LEADING0, LEADING1]
            && f[2..4] == ToBe16(m.kind)
            && f[4..HEADER] == ToBe32(|m.payload|)
            && f[HEADER..] == m.payload
  {
  }

  lemma Extends(w: seq<byte>, f: seq<byte>, at: nat, n: nat, segment: seq<byte>, wire: seq<byte>)
    requires at + |segment| <= |f| && f[at..at + |segment|] == segment && n <= |segment|
    requires wire == (w + f[..at]) + segment[..n]
    ensures wire == w + f[..at + n]
  {
  }

  /** After a success the runtime's decoder, if it was between frames, has the message and is so again. */
  lemma {:induction false} SentIsReceived(wire: seq<byte>, m: Message, t: seq<byte>)
    requires |m.payload| <= 1048576 && Parse(wire).tail == []
    ensures Parse(wire + Encode(m)) == Parsed(Parse(wire).messages + [m], [])
    ensures t <= Encode(m) && t != Encode(m) ==>
              Parse(wire + t) == Parsed(Parse(wire).messages, t)
  {
    ParseSplits(wire, Encode(m));
    ParseSplits(wire, t);
    DecodesOne(m);
    assert [] + Encode(m) == Encode(m);
    assert [] + t == t;
    if t <= Encode(m) && t != Encode(m) {
      PartOfFrameStaysOpen(m, t);
    }
  }

  lemma PartOfFrameStaysOpen(m: Message, t: seq<byte>)
    requires Acceptable(m) && t <= Encode(m) && t != Encode(m)
    ensures Parse(t) == Parsed([], t)
  {
    FrameSegments(m);
    var f := Encode(m);
    if |t| >= HEADER {
      assert t[4..8] == f[4..8];
    }
  }
}
