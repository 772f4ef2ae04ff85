/**
 Feeding the receive context what is read from the runtime.  A buffer is abandoned at
 the first response or request it completes, so what follows in the same buffer is lost.
 */
module ReadLoop {
  import opened Bytes
  import opened ImrtFrame
  import opened RecvContext
  import opened Seqs

  // Packet types numbered in WAMR's host_link.h
  const REQUEST_PACKET: uint16 := 2
  const RESPONSE_PACKET: uint16 := 3

  datatype Reply = Incomplete | Event | Response

  /** A packet of another type is completed and dropped. */
  function ReplyTo(m: Message): (r: Reply) {
    if m.kind == RESPONSE_PACKET then Response
    else if m.kind == REQUEST_PACKET then Event
    else Incomplete
  }

  /** The message completed by byte `b` after the stream `h`, if any. */
  function CompletedBy(h: seq<byte>, b: byte): (m: Option<Message>) {
    match ReadHead(Parse(h).tail + [b])
    case Frame(_, m) => Some(m)
    case _ => None
  }

  /** Byte `b` after the stream `h` completes a response or a request. */
  predicate Stops(h: seq<byte>, b: byte) {
    CompletedBy(h, b).Some? && ReplyTo(CompletedBy(h, b).value) != Incomplete
  }

  /** How many bytes of `buf` are handled after the stream `h`. */
  function Taken(h: seq<byte>, buf: seq<byte>): (n: nat)
    ensures n <= |buf|
    decreases |buf|
  {
    if buf == [] then 0
    else if Stops(h, buf[0]) then 1
    else 1 + Taken(h + [buf[0]], buf[1..])
  }

  /** The message a buffer is abandoned at. */
  function Found(h: seq<byte>, buf: seq<byte>): (m: Option<Message>)
    decreases |buf|
  {
    if buf == [] then None
    else if Stops(h, buf[0]) then CompletedBy(h, buf[0])
    else Found(h + [buf[0]], buf[1..])
  }

  /** Byte `i` of `buf`, read after the stream `h`, completes a response or a request. */
  predicate StopsAt(h: seq<byte>, buf: seq<byte>, i: nat)
    requires i < |buf|
  {
    Stops(h + buf[..i], buf[i])
  }

  lemma StopsAtNext(h: seq<byte>, buf: seq<byte>, i: nat)
    requires 0 < i < |buf|
    ensures StopsAt(h, buf, i) == StopsAt(h + [buf[0]], buf[1..], i - 1)
    ensures CompletedBy(h + buf[..i], buf[i]) == CompletedBy((h + [buf[0]]) + buf[1..][..i - 1], buf[1..][i - 1])
  {
    MoveFirst(h, buf, i);
  }

  /** The handled part is the shortest prefix that completes a response or request. */
  lemma {:induction false} TakenIsShortest(h: seq<byte>, buf: seq<byte>)
    ensures var n := Taken(h, buf);
            && (forall i | 0 <= i < n - 1 :: !StopsAt(h, buf, i))
            && (Found(h, buf).None? ==> n == |buf| && forall i | 0 <= i < |buf| :: !StopsAt(h, buf, i))
            && (Found(h, buf).Some? ==>
                  n > 0 && StopsAt(h, buf, n - 1) && Found(h, buf) == CompletedBy(h + buf[..n - 1], buf[n - 1]))
    decreases |buf|
  {
    if buf != [] {
      assert h + buf[..0] == h;
      assert StopsAt(h, buf, 0) == Stops(h, buf[0]);
      if !Stops(h, buf[0]) {
        TakenIsShortest(h + [buf[0]], buf[1..]);
        forall i | 0 < i < |buf|
          ensures StopsAt(h, buf, i) == StopsAt(h + [buf[0]], buf[1..], i - 1)
        {
          StopsAtNext(h, buf, i);
        }
        if Taken(h, buf) > 1 {
          StopsAtNext(h, buf, Taken(h, buf) - 1);
        }
      }
    }
  }

  lemma TakenNext(h: seq<byte>, buf: seq<byte>, i: nat)
    requires i < |buf|
    ensures Stops(h, buf[i]) <==>
              CompletedBy(h, buf[i]).Some? && ReplyTo(CompletedBy(h, buf[i]).value) != Incomplete
    ensures var h1, b := h + [buf[i]], buf[i];
            && Taken(h, buf[i..]) == (if Stops(h, b) then 1 else 1 + Taken(h1, buf[i + 1..]))
            && Found(h, buf[i..]) == (if Stops(h, b) then CompletedBy(h, b) else Found(h1, buf[i + 1..]))
            && Taken(h1, buf[i + 1..]) <= |buf| - i - 1
            && (CodeFor(Parse(h), Parse(h1)) == COMPLETED <==> CompletedBy(h, b).Some?)
            && Parse(h1).messages == Parse(h).messages + CompletedBy(h, b).ToSeq()
  {
    StepTracksParse(h, buf[i]);
    MoveOn([], buf, i);
  }

  lemma TakenNothing(h: seq<byte>, buf: seq<byte>)
    requires buf == []
    ensures Taken(h, buf) == 0 && Found(h, buf).None?
  {
  }

  /** The last of the bytes `taken` after the stream `h` completes a message of this kind. */
  ghost predicate EndsMessage(h: seq<byte>, taken: seq<byte>, kind: uint16) {
    && taken != []
    && var before, after := Parse(h + taken[..|taken| - 1]).messages, Parse(h + taken).messages;
       |after| == |before| + 1 && after[..|before|] == before && after[|before|].kind == kind
  }

  lemma OneMoreMessage(h: seq<byte>, b: byte)
    ensures Parse(h + [b]).messages == Parse(h).messages + CompletedBy(h, b).ToSeq()
  {
    StepTracksParse(h, b);
  }

  lemma LastEndsMessage(h: seq<byte>, t: seq<byte>, b: byte)
    ensures CompletedBy(h + t, b).Some? ==> EndsMessage(h, t + [b], CompletedBy(h + t, b).value.kind)
    ensures !Stops(h + t, b) ==>
              !EndsMessage(h, t + [b], RESPONSE_PACKET) && !EndsMessage(h, t + [b], REQUEST_PACKET)
  {
    var taken := t + [b];
    assert taken[..|taken| - 1] == t;
    Associates(h, t, [b]);
    OneMoreMessage(h + t, b);
    hide Parse, CompletedBy;
    var ms, m := Parse(h + t).messages, CompletedBy(h + t, b);
    assert (ms + m.ToSeq())[..|ms|] == ms;
  }

  /** The handled part of a buffer ends with the packet found in it, or completes neither a response nor a request. */
  lemma ReplyToRead(h: seq<byte>, buf: seq<byte>)
    ensures var taken := buf[..Taken(h, buf)]; var m := Found(h, buf);
            && (m.None? ==> !EndsMessage(h, taken, RESPONSE_PACKET) && !EndsMessage(h, taken, REQUEST_PACKET))
            && (m.Some? ==> EndsMessage(h, taken, m.value.kind))
  {
    var n := Taken(h, buf);
    TakenIsShortest(h, buf);
    hide Parse, Taken, Found, CompletedBy, Stops, EndsMessage;
    if n > 0 {
      LastEndsMessage(h, buf[..n - 1], buf[n - 1]);
      assert buf[..n - 1] + [buf[n - 1]] == buf[..n];
      assert StopsAt(h, buf, n - 1) == Stops(h + buf[..n - 1], buf[n - 1]);
    } else {
      NothingTaken(h, buf[..n]);
    }
  }

  /** The reply for the packet found, if any, tells how the handled part ends. */
  lemma ReplyMeans(h: seq<byte>, buf: seq<byte>, reply: Reply)
    requires var m := Found(h, buf); reply == if m.None? then Incomplete else ReplyTo(m.value)
    requires reply == Incomplete ==> Found(h, buf).None?
    ensures var taken := buf[..Taken(h, buf)];
            && (reply == Response <==> EndsMessage(h, taken, RESPONSE_PACKET))
            && (reply == Event <==> EndsMessage(h, taken, REQUEST_PACKET))
  {
    ReplyToRead(h, buf);
  }

  lemma NothingTaken(h: seq<byte>, taken: seq<byte>)
    requires taken == []
    ensures forall kind :: !EndsMessage(h, taken, kind)
  {
  }

  method ProcessRcvdData(buf: seq<byte>, ctx: Context) returns (reply: Reply)
    requires ctx.Valid()
    modifies ctx, ctx.payload
    ensures ctx.Valid() && (ctx.payload == null || ctx.payload == old(ctx.payload) || fresh(ctx.payload))
    ensures ctx.history == old(ctx.history) + buf[..Taken(old(ctx.history), buf)]
    ensures var m := Found(old(ctx.history), buf);
            && (m.None? ==> reply == Incomplete)
            && (m.Some? ==> reply != Incomplete && ctx.Holds(m.value))
    ensures var taken := buf[..Taken(old(ctx.history), buf)];
            && (reply == Response <==> EndsMessage(old(ctx.history), taken, RESPONSE_PACKET))
            && (reply == Event <==> EndsMessage(old(ctx.history), taken, REQUEST_PACKET))
  {
    hide Parse, Stops, Taken, Found, EndsMessage;
    ghost var h := ctx.history;
    var pos := 0;
    assert h + buf[..0] == h && buf[0..] == buf;
    while pos < |buf|
      invariant 0 <= pos <= |buf|
      invariant ctx.Valid() && (ctx.payload == null || ctx.payload == old(ctx.payload) || fresh(ctx.payload))
      invariant ctx.history == h + buf[..pos]
      invariant Taken(h, buf) == pos + Taken(ctx.history, buf[pos..])
      invariant Found(h, buf) == Found(ctx.history, buf[pos..])
    {
      TakenNext(ctx.history, buf, pos);
      MoveOn(h, buf, pos);
      var code := ctx.ByteArrive(buf[pos]);
      pos := pos + 1;
      if code == COMPLETED {
        if ctx.MessageType() == RESPONSE_PACKET {
          ReplyMeans(h, buf, Response);
          return Response;
        }
        if ctx.MessageType() == REQUEST_PACKET {
          ReplyMeans(h, buf, Event);
          return Event;
        }
      }
    }
    TakenNothing(ctx.history, buf[pos..]);
    ReplyMeans(h, buf, Incomplete);
    return Incomplete;
  }

  // ---- Whole runs of the main loop ----

  /** The bytes handled and the packets delivered over a run of reads. */
  datatype Run = Run(history: seq<byte>, delivered: seq<Message>)

  function RunReads(h: seq<byte>, buffers: seq<seq<byte>>): (r: Run)
    decreases |buffers|
  {
    if buffers == [] then Run(h, [])
    else
      var rest := RunReads(h + buffers[0][..Taken(h, buffers[0])], buffers[1..]);
      Run(rest.history, Found(h, buffers[0]).ToSeq() + rest.delivered)
  }

  method ServeReads(ctx: Context, buffers: seq<seq<byte>>) returns (delivered: seq<Message>)
    requires ctx.Valid()
    modifies ctx, ctx.payload
    ensures ctx.Valid()
    ensures RunReads(old(ctx.history), buffers) == Run(ctx.history, delivered)
  {
    ghost var h := ctx.history;
    delivered := [];
    assert buffers[0..] == buffers;
    for i := 0 to |buffers|
      invariant ctx.Valid() && (ctx.payload == null || ctx.payload == old(ctx.payload) || fresh(ctx.payload))
      invariant var rest := RunReads(ctx.history, buffers[i..]);
                RunReads(h, buffers) == Run(rest.history, delivered + rest.delivered)
    {
      RunReadsNext(ctx.history, buffers, i);
      ghost var before, found := delivered, Found(ctx.history, buffers[i]);
      var reply := ProcessRcvdData(buffers[i], ctx);
      if reply != Incomplete {
        delivered := delivered + [Message(ctx.MessageType(), if ctx.payload == null then [] else ctx.payload[..])];
      }
      assert delivered == before + found.ToSeq();
      Associates(before, found.ToSeq(), RunReads(ctx.history, buffers[i + 1..]).delivered);
    }
    assert buffers[|buffers|..] == [];
  }

  lemma RunReadsNext(h: seq<byte>, buffers: seq<seq<byte>>, i: nat)
    requires i < |buffers|
    ensures var next := RunReads(h + buffers[i][..Taken(h, buffers[i])], buffers[i + 1..]);
            RunReads(h, buffers[i..]) == Run(next.history, Found(h, buffers[i]).ToSeq() + next.delivered)
  {
    MoveOn([], buffers, i);
  }

  function Concat(buffers: seq<seq<byte>>): (s: seq<byte>) {
    if buffers == [] then [] else buffers[0] + Concat(buffers[1..])
  }

  /** The messages among `ms` that are handed to the main loop. */
  function Bridged(ms: seq<Message>): (r: seq<Message>) {
    if ms == [] then []
    else (if ReplyTo(ms[0]) != Incomplete then [ms[0]] else []) + Bridged(ms[1..])
  }

  /** No read completes a response or request before its last byte. */
  ghost predicate CutAtPackets(h: seq<byte>, buffers: seq<seq<byte>>)
    decreases |buffers|
  {
    buffers != [] ==>
      && (forall i | 0 <= i < |buffers[0]| - 1 :: !StopsAt(h, buffers[0], i))
      && CutAtPackets(h + buffers[0], buffers[1..])
  }

  lemma {:induction false} BridgedConcat(ms: seq<Message>, ns: seq<Message>)
    ensures Bridged(ms + ns) == Bridged(ms) + Bridged(ns)
    decreases |ms|
  {
    if ms == [] {
      assert ms + ns == ns;
    } else {
      BridgedConcat(ms[1..], ns);
      ConsAppend(ms, ns);
      Associates(if ReplyTo(ms[0]) != Incomplete then [ms[0]] else [], Bridged(ms[1..]), Bridged(ns));
    }
  }

  /** Message by message: exactly the responses and the requests are handed on. */
  lemma BridgedOne(m: Message)
    ensures Bridged([m]) == if m.kind == RESPONSE_PACKET || m.kind == REQUEST_PACKET then [m] else []
  {
    assert Bridged([m][1..]) == [];
  }

  lemma {:induction false} BridgedExactly(ms: seq<Message>, m: Message)
    ensures multiset(Bridged(ms))[m] ==
            if m.kind == RESPONSE_PACKET || m.kind == REQUEST_PACKET then multiset(ms)[m] else 0
    decreases |ms|
  {
    if ms != [] {
      BridgedExactly(ms[1..], m);
      BridgedOne(ms[0]);
      assert ms == [ms[0]] + ms[1..];
    }
  }

  /** Whatever is read, the main loop is handed responses and requests only. */
  lemma {:induction false} DeliveredKinds(h: seq<byte>, buffers: seq<seq<byte>>)
    ensures forall m | m in RunReads(h, buffers).delivered :: m.kind == RESPONSE_PACKET || m.kind == REQUEST_PACKET
    decreases |buffers|
  {
    if buffers != [] {
      DeliveredKinds(h + buffers[0][..Taken(h, buffers[0])], buffers[1..]);
      TakenIsShortest(h, buffers[0]);
    }
  }

  lemma ByteDelivers(h: seq<byte>, b: byte)
    ensures Bridged(Parse(h + [b]).messages) ==
            Bridged(Parse(h).messages) + if Stops(h, b) then CompletedBy(h, b).ToSeq() else []
  {
    var ms, m := Parse(h).messages, CompletedBy(h, b);
    StepTracksParse(h, b);
    BridgedConcat(ms, m.ToSeq());
    assert Parse(h + [b]).messages == ms + m.ToSeq();
    assert Bridged(m.ToSeq()) == if Stops(h, b) then m.ToSeq() else [];
  }

  /** What a buffer completes, of the types handed on, up to where it is abandoned. */
  lemma {:induction false} TakenDelivers(h: seq<byte>, buf: seq<byte>)
    ensures Bridged(Parse(h + buf[..Taken(h, buf)]).messages) ==
            Bridged(Parse(h).messages) + Found(h, buf).ToSeq()
    decreases |buf|
  {
    if buf == [] {
      assert h + buf[..0] == h;
    } else {
      ByteDelivers(h, buf[0]);
      MoveFirst(h, buf, Taken(h, buf));
      if Stops(h, buf[0]) {
        assert (h + [buf[0]]) + buf[1..][..0] == h + [buf[0]];
      } else {
        TakenDelivers(h + [buf[0]], buf[1..]);
      }
    }
  }

  /** Over any run, every packet of a handed-on type among the bytes handled is delivered once, in order. */
  lemma {:induction false} RunDelivers(h: seq<byte>, buffers: seq<seq<byte>>)
    ensures var r := RunReads(h, buffers);
            Bridged(Parse(r.history).messages) == Bridged(Parse(h).messages) + r.delivered
    decreases |buffers|
  {
    if buffers != [] {
      TakenDelivers(h, buffers[0]);
      RunDelivers(h + buffers[0][..Taken(h, buffers[0])], buffers[1..]);
    }
  }

  /** Nothing read is ignored exactly when no packet ends inside a read. */
  lemma {:induction false} NothingIgnoredIff(h: seq<byte>, buffers: seq<seq<byte>>)
    ensures |h| <= |RunReads(h, buffers).history| <= |h| + |Concat(buffers)|
    ensures |RunReads(h, buffers).history| == |h| + |Concat(buffers)| ==> CutAtPackets(h, buffers)
    ensures h <= RunReads(h, buffers).history
    ensures RunReads(h, buffers).history == h + Concat(buffers) <==> CutAtPackets(h, buffers)
    decreases |buffers|
  {
    if buffers != [] {
      var n := Taken(h, buffers[0]);
      TakenIsShortest(h, buffers[0]);
      NothingIgnoredIff(h + buffers[0][..n], buffers[1..]);
      if n == |buffers[0]| {
        assert buffers[0][..n] == buffers[0];
        Associates(h, buffers[0], Concat(buffers[1..]));
      }
    }
  }

  /** Started between frames, frames cut at their packets are delivered in full and in order. */
  lemma FramesDelivered(h: seq<byte>, ms: seq<Message>, buffers: seq<seq<byte>>)
    requires Parse(h).tail == [] && AllAcceptable(ms)
    requires Concat(buffers) == EncodeAll(ms) && CutAtPackets(h, buffers)
    ensures RunReads(h, buffers) == Run(h + EncodeAll(ms), Bridged(ms))
  {
    NothingIgnoredIff(h, buffers);
    RunDelivers(h, buffers);
    DecodesAfter(h, ms);
    BridgedConcat(Parse(h).messages, ms);
    SameRest(Bridged(Parse(h).messages), Bridged(ms), RunReads(h, buffers).delivered);
  }

  ghost predicate AllBridged(ms: seq<Message>) {
    forall i | 0 <= i < |ms| :: ReplyTo(ms[i]) != Incomplete
  }

  lemma {:induction false} BridgedAll(ms: seq<Message>)
    requires AllBridged(ms)
    ensures Bridged(ms) == ms
    decreases |ms|
  {
    if ms != [] {
      BridgedAll(ms[1..]);
    }
  }

  lemma {:induction false} BridgedIsShorter(ms: seq<Message>)
    requires AllAcceptable(ms)
    ensures AllAcceptable(Bridged(ms)) && |EncodeAll(Bridged(ms))| <= |EncodeAll(ms)|
    decreases |ms|
  {
    if ms != [] {
      var rest := Bridged(ms[1..]);
      BridgedIsShorter(ms[1..]);
      if ReplyTo(ms[0]) != Incomplete {
        assert ([ms[0]] + rest)[1..] == rest;
      } else {
        assert [] + rest == rest;
      }
    }
  }

  /** What is delivered had its frames among the bytes handled. */
  lemma DeliveredWasHandled(h: seq<byte>, buffers: seq<seq<byte>>)
    requires Parse(h).tail == []
    ensures var r := RunReads(h, buffers);
            AllAcceptable(r.delivered) && |h| + |EncodeAll(r.delivered)| <= |r.history|
  {
    var r := RunReads(h, buffers);
    NothingIgnoredIff(h, buffers);
    var w := r.history[|h|..];
    assert r.history == h + w && [] + w == w;
    ParseSplits(h, w);
    RunDelivers(h, buffers);
    BridgedConcat(Parse(h).messages, Parse(w).messages);
    SameRest(Bridged(Parse(h).messages), Bridged(Parse(w).messages), r.delivered);
    FramesFit(w);
    BridgedIsShorter(Parse(w).messages);
  }

  /** Responses and requests are all delivered exactly when no read completes one before its last byte. */
  lemma DeliveredExactly(h: seq<byte>, ms: seq<Message>, buffers: seq<seq<byte>>)
    requires Parse(h).tail == [] && AllAcceptable(ms) && AllBridged(ms) && Concat(buffers) == EncodeAll(ms)
    ensures RunReads(h, buffers).delivered == ms <==> CutAtPackets(h, buffers)
  {
    if CutAtPackets(h, buffers) {
      FramesDelivered(h, ms, buffers);
      BridgedAll(ms);
    } else if RunReads(h, buffers).delivered == ms {
      DeliveredWasHandled(h, buffers);
      NothingIgnoredIff(h, buffers);
    }
  }

  /** What one read, from the start, completes before it is abandoned, and what it delivers of that. */
  lemma OneReadTakes(buf: seq<byte>)
    ensures var taken := Parse(buf[..Taken([], buf)]).messages;
            && taken <= Parse(buf).messages
            && Bridged(taken) == Found([], buf).ToSeq()
            && (Found([], buf).None? ==> taken == Parse(buf).messages)
  {
    var k := Taken([], buf);
    TakenDelivers([], buf);
    TakenIsShortest([], buf);
    assert [] + buf[..k] == buf[..k] && buf[..k] + buf[k..] == buf && buf[..|buf|] == buf;
    assert [] + Found([], buf).ToSeq() == Found([], buf).ToSeq();
    ParseSplits(buf[..k], buf[k..]);
  }

  /** One read delivers one packet at most: the first it completes. */
  lemma OneReadDelivers(buf: seq<byte>, ms: seq<Message>)
    requires Parse(buf).messages == ms && AllBridged(ms) && ms != []
    ensures Found([], buf) == Some(ms[0])
  {
    hide Parse, Taken, Found;
    var taken := Parse(buf[..Taken([], buf)]).messages;
    OneReadTakes(buf);
    forall i | 0 <= i < |taken| ensures ReplyTo(taken[i]) != Incomplete {
      assert taken[i] == ms[i];
    }
    BridgedAll(taken);
  }

  /** Of two packets in one read, be it an event and the response a client waits for, the second is ignored. */
  lemma SecondIsIgnored(m: Message, n: Message)
    requires AllAcceptable([m, n]) && AllBridged([m, n])
    ensures RunReads([], [EncodeAll([m, n])]).delivered == [m]
  {
    var buf := EncodeAll([m, n]);
    DecodesToItself([m, n]);
    OneReadDelivers(buf, [m, n]);
    RunReadsNext([], [buf], 0);
    assert [buf][0..] == [buf] && [m] + [] == [m];
  }
}
