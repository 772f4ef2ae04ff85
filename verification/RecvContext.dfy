/**
 The receive side of the IMRT link: the context updated one byte at a time, and the loop
 that feeds it the buffers read from the runtime.
 */
module RecvContext {
  import opened Bytes
  import opened ImrtFrame
  import opened Seqs

  datatype Phase = NonStart | Leading | Type | Size | Payload

  // Results of handling one byte
  const INVALID := -1
  const COMPLETED := 0
  const MORE := 1
  const IN_PAYLOAD := 2

  /** What the return code of a byte says about the stream read before and after it. */
  function CodeFor(before: Parsed, after: Parsed): (code: int) {
    if |after.messages| > |before.messages| then COMPLETED
    else if after.tail == [] then INVALID
    else if |before.tail| >= HEADER then IN_PAYLOAD
    else MORE
  }

  /** The open frame after byte `b`, and the return code, from the open frame before it. */
  function TailAfter(t: seq<byte>, b: byte): (r: seq<byte>) {
    if ReadHead(t + [b]).Open? then t + [b] else []
  }

  function StepCode(t: seq<byte>, b: byte): (code: int) {
    match ReadHead(t + [b])
    case Frame(_, _) => COMPLETED
    case Skip(_) => INVALID
    case Open => if |t| >= HEADER then IN_PAYLOAD else MORE
  }

  /** `TailAfter` and `StepCode` follow the parser of the whole stream. */
  lemma StepTracksParse(h: seq<byte>, b: byte)
    ensures IsTail(Parse(h).tail)
    ensures Parse(h + [b]).tail == TailAfter(Parse(h).tail, b)
    ensures StepCode(Parse(h).tail, b) == CodeFor(Parse(h), Parse(h + [b]))
    ensures var r := ReadHead(Parse(h).tail + [b]);
            Parse(h + [b]).messages == Parse(h).messages + if r.Frame? then [r.message] else []
  {
    ParseSplits(h, []);
    ParseOneMore(h, b);
  }

  class Context {
    var phase: Phase
    var sizeInPhase: int
    var typeField: seq<byte>      // the memory of message_type
    var sizeField: seq<byte>      // the memory of payload_size
    var payload: array?<byte>
    ghost var history: seq<byte>  // every byte handled so far

    function MessageType(): uint16
      requires |typeField| == 2
      reads this
    {
      FromLe16(typeField)
    }

    function PayloadSize(): uint32
      requires |sizeField| == 4
      reads this
    {
      FromLe32(sizeField)
    }

    /** The fields stand for the open frame `t`, and the next write stays inside them. */
    ghost predicate Represents(t: seq<byte>)
      requires |typeField| == 2 && |sizeField| == 4
      reads this, payload
    {
      if t == [] then phase.NonStart?
      else if |t| == 1 then phase.Leading?
      else if |t| < 4 then
        && phase.Type?
        && sizeInPhase == |t| - 2
        && typeField[..sizeInPhase] == t[2..]
      else if |t| < HEADER then
        && phase.Size?
        && sizeInPhase == |t| - 4
        && MessageType() == FromBe16(t[2..4])
        && sizeField[..sizeInPhase] == t[4..]
      else
        && phase.Payload?
        && MessageType() == FromBe16(t[2..4])
        && PayloadSize() == FromBe32(t[4..8])
        && payload != null && payload.Length == PayloadSize()
        && 1 <= payload.Length <= MAX_PAYLOAD
        && 0 <= sizeInPhase == |t| - HEADER < payload.Length
        && payload[..sizeInPhase] == t[HEADER..]
    }

    ghost predicate Valid()
      reads this, payload
    {
      |typeField| == 2 && |sizeField| == 4 && Represents(Parse(history).tail)
    }

    /** The context still holds the whole message `m`. */
    ghost predicate Holds(m: Message)
      requires |typeField| == 2
      reads this, payload
    {
      && MessageType() == m.kind
      && (if payload == null then m.payload == [] else m.payload == payload[..])
    }

    constructor ()
      ensures Valid() && history == [] && payload == null
    {
      phase, sizeInPhase := NonStart, 0;
      typeField, sizeField := [0, 0], [0, 0, 0, 0];
      payload := null;
      history := [];
    }

    method InNonStart(ch: byte, ghost t: seq<byte>) returns (code: int)
      requires |typeField| == 2 && |sizeField| == 4 && IsTail(t) && Represents(t)
      requires phase == NonStart
      modifies `phase, `sizeField, `payload
      ensures |typeField| == 2 && |sizeField| == 4 && Represents(TailAfter(t, ch))
      ensures payload == null && code == StepCode(t, ch)
      ensures ReadHead(t + [ch]).Frame? ==> Holds(ReadHead(t + [ch]).message)
    {
      if payload != null {
        payload := null;
        sizeField := ToLe32(0);
      }
      if LEADING0 == ch {
        phase := Leading;
      } else {
        return INVALID;
      }
      return MORE;
    }

    method InLeading(ch: byte, ghost t: seq<byte>) returns (code: int)
      requires |typeField| == 2 && |sizeField| == 4 && IsTail(t) && Represents(t)
      requires phase == Leading
      modifies `phase, `sizeInPhase
      ensures |typeField| == 2 && |sizeField| == 4 && Represents(TailAfter(t, ch))
      ensures code == StepCode(t, ch)
      ensures ReadHead(t + [ch]).Frame? ==> Holds(ReadHead(t + [ch]).message)
    {
      if LEADING1 == ch {
        phase, sizeInPhase := Type, 0;
      } else {
        phase := NonStart;
        return INVALID;
      }
      return MORE;
    }

    method InType(ch: byte, ghost t: seq<byte>) returns (code: int)
      requires |typeField| == 2 && |sizeField| == 4 && IsTail(t) && Represents(t)
      requires phase == Type
      modifies `phase, `sizeInPhase, `typeField
      ensures |typeField| == 2 && |sizeField| == 4 && Represents(TailAfter(t, ch))
      ensures code == StepCode(t, ch)
      ensures ReadHead(t + [ch]).Frame? ==> Holds(ReadHead(t + [ch]).message)
    {
      typeField := typeField[sizeInPhase := ch];
      sizeInPhase := sizeInPhase + 1;
      if sizeInPhase == 2 {
        assert typeField == t[2..] + [ch] == (t + [ch])[2..4];
        SwapReadsNetworkOrder16(typeField);
        typeField := ToLe16(Swap16(MessageType()));
        phase, sizeInPhase := Size, 0;
      }
      return MORE;
    }

    method InSize(ch: byte, ghost t: seq<byte>) returns (code: int)
      requires |typeField| == 2 && |sizeField| == 4 && IsTail(t) && Represents(t)
      requires phase == Size
      modifies `phase, `sizeInPhase, `sizeField, `payload
      ensures |typeField| == 2 && |sizeField| == 4 && Represents(TailAfter(t, ch))
      ensures (payload == old(payload) || payload == null || fresh(payload)) && code == StepCode(t, ch)
      ensures ReadHead(t + [ch]).Frame? ==> Holds(ReadHead(t + [ch]).message)
    {
      sizeField := sizeField[sizeInPhase := ch];
      sizeInPhase := sizeInPhase + 1;
      assert (t + [ch])[2..4] == t[2..4];
      if sizeInPhase == 4 {
        assert sizeField == t[4..] + [ch] == (t + [ch])[4..8];
        SwapReadsNetworkOrder(sizeField);
        sizeField := ToLe32(Swap32(PayloadSize()));
        phase, sizeInPhase := Payload, 0;
        payload := null;
        if PayloadSize() == 0 {
          phase, sizeInPhase := NonStart, 0;
          return COMPLETED;
        }
        if PayloadSize() > 1024 * 1024 {
          phase, sizeInPhase := NonStart, 0;
          return INVALID;
        }
        payload := new byte[PayloadSize()];
        phase, sizeInPhase := Payload, 0;
      }
      return MORE;
    }

    method InPayload(ch: byte, ghost t: seq<byte>) returns (code: int)
      requires |typeField| == 2 && |sizeField| == 4 && IsTail(t) && Represents(t)
      requires phase == Payload
      modifies `phase, `sizeInPhase, payload
      ensures |typeField| == 2 && |sizeField| == 4 && Represents(TailAfter(t, ch))
      ensures payload == old(payload) && code == StepCode(t, ch)
      ensures ReadHead(t + [ch]).Frame? ==> Holds(ReadHead(t + [ch]).message)
    {
      assert (t + [ch])[2..4] == t[2..4] && (t + [ch])[4..8] == t[4..8];
      payload[sizeInPhase] := ch;
      sizeInPhase := sizeInPhase + 1;
      assert payload[..sizeInPhase] == (t + [ch])[HEADER..];
      if sizeInPhase == PayloadSize() {
        phase, sizeInPhase := NonStart, 0;
        return COMPLETED;
      }
      return IN_PAYLOAD;
    }

    method ByteArrive(ch: byte) returns (code: int)
      requires Valid()
      modifies this, payload
      ensures Valid() && history == old(history) + [ch]
      ensures payload == null || payload == old(payload) || fresh(payload)
      ensures code == CodeFor(Parse(old(history)), Parse(history))
      ensures code == 0 <==> |Parse(history).messages| > |Parse(old(history)).messages|
      ensures code == -1 <==> code != 0 && Parse(history).tail == []
      ensures code == 2 <==> code != 0 && Parse(history).tail != [] && |Parse(old(history)).tail| >= 8
      ensures code == COMPLETED ==>
                Parse(history).messages != [] && Holds(Parse(history).messages[|Parse(history).messages| - 1])
    {
      ghost var t := Parse(history).tail;
      StepTracksParse(history, ch);
      match phase {
        case NonStart => code := InNonStart(ch, t);
        case Leading => code := InLeading(ch, t);
        case Type => code := InType(ch, t);
        case Size => code := InSize(ch, t);
        case Payload => code := InPayload(ch, t);
      }
      history := history + [ch];
    }
  }

  /** What each phase may index: a write at `sizeInPhase` is inside its field or buffer. */
  lemma WritesStayInside(c: Context)
    requires c.Valid()
    ensures c.phase.Type? ==> 0 <= c.sizeInPhase < 2
    ensures c.phase.Size? ==> 0 <= c.sizeInPhase < 4
    ensures c.phase.Payload? ==>
              && c.payload != null && 0 <= c.sizeInPhase < c.payload.Length == c.PayloadSize()
              && 1 <= c.payload.Length <= MAX_PAYLOAD
  {
  }
}
