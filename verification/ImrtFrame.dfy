/**
 The IMRT link frame: 0x12 0x34, a 16-bit type, a 32-bit payload size (both in network
 order), then the payload.  `Parse` reads a whole byte stream at once; it is the
 reference the byte-at-a-time receive context is proved against.
 */
module ImrtFrame {
  import opened Bytes
  import opened Seqs

  const LEADING0: byte := 0x12
  const LEADING1: byte := 0x34
  const HEADER: nat := 8
  const MAX_PAYLOAD: nat := 1024 * 1024

  datatype Message = Message(kind: uint16, payload: seq<byte>)

  /** The messages completed by a stream, and the bytes of the frame still open at its end. */
  datatype Parsed = Parsed(messages: seq<Message>, tail: seq<byte>)

  /** What the first bytes of a stream amount to. */
  datatype Head =
    | Open                          // nothing yet, or a frame that more bytes may complete
    | Skip(length: nat)             // bytes thrown away
    | Frame(length: nat, message: Message)

  function ReadHead(s: seq<byte>): (h: Head)
    ensures !h.Open? ==> 1 <= h.length <= |s|
  {
    if s == [] then Open
    else if s[0] != LEADING0 then Skip(1)
    else if |s| == 1 then Open
    else if s[1] != LEADING1 then Skip(2)
    else if |s| < HEADER then Open
    else
      var size := FromBe32(s[4..8]);
      if size > MAX_PAYLOAD then Skip(HEADER)
      else if |s| < HEADER + size then Open
      else Frame(HEADER + size, Message(FromBe16(s[2..4]), s[HEADER..HEADER + size]))
  }

  function Parse(s: seq<byte>): (r: Parsed)
    decreases |s|
  {
    match ReadHead(s)
    case Open => Parsed([], s)
    case Skip(n) => Parse(s[n..])
    case Frame(n, m) =>
      var rest := Parse(s[n..]);
      Parsed([m] + rest.messages, rest.tail)
  }

  function Encode(m: Message): (s: seq<byte>)
    requires |m.payload| < 0x1_0000_0000
    ensures |s| == HEADER + |m.payload|
  {
    [LEADING0, LEADING1] + ToBe16(m.kind) + ToBe32(|m.payload|) + m.payload
  }

  /** The frame, byte by byte. */
  lemma FrameLayout(m: Message)
    requires |m.payload| < 0x1_0000_0000
    ensures var f := Encode(m); var n := |m.payload|;
            && |f| == 8 + n && f[0] == 0x12 && f[1] == 0x34
            && f[2] == m.kind / 256 && f[3] == m.kind % 256
            && f[4] == n / 16777216 && f[5] == n / 65536 % 256 && f[6] == n / 256 % 256 && f[7] == n % 256
            && f[8..] == m.payload
  {
    var n: uint32 := |m.payload|;
    var f := Encode(m);
    assert f[2..4] == ToBe16(m.kind) && f[4..8] == ToBe32(n);
    assert f[4] == ToBe32(n)[0] && f[5] == ToBe32(n)[1] && f[6] == ToBe32(n)[2] && f[7] == ToBe32(n)[3];
    assert f[2] == ToBe16(m.kind)[0] && f[3] == ToBe16(m.kind)[1];
    BytesOfSize(n);
  }

  lemma BytesOfSize(n: uint32)
    ensures n / 0x1_0000 / 0x100 == n / 16777216 && n / 0x1_0000 % 0x100 == n / 65536 % 256
    ensures n % 0x1_0000 / 0x100 == n / 256 % 256 && n % 0x1_0000 % 0x100 == n % 256
  {
  }

  /** Messages small enough for the receiver. */
  ghost predicate Acceptable(m: Message) {
    |m.payload| <= MAX_PAYLOAD
  }

  ghost predicate AllAcceptable(ms: seq<Message>) {
    forall i | 0 <= i < |ms| :: Acceptable(ms[i])
  }

  function EncodeAll(ms: seq<Message>): (s: seq<byte>)
    requires AllAcceptable(ms)
  {
    if ms == [] then [] else Encode(ms[0]) + EncodeAll(ms[1..])
  }

  /** `t` can be all that is left open when a stream ends. */
  ghost predicate IsTail(t: seq<byte>) {
    ReadHead(t).Open?
  }

  // ---- Streams may be cut anywhere ----

  lemma HeadStable(s: seq<byte>, t: seq<byte>)
    requires !ReadHead(s).Open?
    ensures ReadHead(s + t) == ReadHead(s)
  {
    if |s| >= HEADER {
      assert (s + t)[2..4] == s[2..4] && (s + t)[4..8] == s[4..8];
      var n := ReadHead(s).length;
      assert s[0] == LEADING0 && s[1] == LEADING1 && n >= HEADER ==> (s + t)[HEADER..n] == s[HEADER..n];
    }
  }

  /** What was completed stays completed, and only the open tail matters to what follows. */
  lemma {:induction false} ParseSplits(s: seq<byte>, t: seq<byte>)
    ensures IsTail(Parse(s).tail)
    ensures Parse(s + t) ==
            Parsed(Parse(s).messages + Parse(Parse(s).tail + t).messages, Parse(Parse(s).tail + t).tail)
    decreases |s|
  {
    if !ReadHead(s).Open? {
      HeadStable(s, t);
      var n := ReadHead(s).length;
      assert (s + t)[n..] == s[n..] + t;
      ParseSplits(s[n..], t);
      var rest := Parse(s[n..]);
      if ReadHead(s).Frame? {
        Associates([ReadHead(s).message], rest.messages, Parse(rest.tail + t).messages);
      }
    }
  }

  /** One more byte ends at most one message. */
  lemma {:induction false} ParseOneMore(s: seq<byte>, b: byte)
    ensures var t := Parse(s).tail; var r := Parse(s + [b]);
            match ReadHead(t + [b])
            case Open => r == Parsed(Parse(s).messages, t + [b])
            case Skip(_) => r == Parsed(Parse(s).messages, [])
            case Frame(n, m) => n == |t| + 1 && r == Parsed(Parse(s).messages + [m], [])
  {
    ParseSplits(s, [b]);
    HeadOneMore(Parse(s).tail, b);
  }

  /** A frame that is open is settled, if at all, by its very last byte. */
  lemma HeadOneMore(t: seq<byte>, b: byte)
    requires IsTail(t)
    ensures var h := ReadHead(t + [b]); !h.Open? ==> h.length == |t| + 1
  {
    if |t| >= HEADER {
      assert (t + [b])[4..8] == t[4..8];
    }
  }

  /** The encodings of the messages, in order, each after the bytes thrown away before it; then the last such bytes. */
  function Woven(thrown: seq<seq<byte>>, ms: seq<Message>): (s: seq<byte>)
    requires |thrown| == |ms| + 1 && AllAcceptable(ms)
  {
    thrown[0] + if ms == [] then [] else Encode(ms[0]) + Woven(thrown[1..], ms[1..])
  }

  lemma WovenMore(bytes: seq<byte>, thrown: seq<seq<byte>>, ms: seq<Message>)
    requires |thrown| == |ms| + 1 && AllAcceptable(ms)
    ensures Woven([bytes + thrown[0]] + thrown[1..], ms) == bytes + Woven(thrown, ms)
  {
    var more := [bytes + thrown[0]] + thrown[1..];
    assert more[1..] == thrown[1..];
    Associates(bytes, thrown[0], if ms == [] then [] else Encode(ms[0]) + Woven(thrown[1..], ms[1..]));
  }

  lemma WovenFrame(m: Message, thrown: seq<seq<byte>>, ms: seq<Message>)
    requires |thrown| == |ms| + 1 && Acceptable(m) && AllAcceptable(ms)
    ensures AllAcceptable([m] + ms) && Woven([[]] + thrown, [m] + ms) == Encode(m) + Woven(thrown, ms)
  {
    assert forall i | 0 <= i < |ms| :: ([m] + ms)[i + 1] == ms[i];
    assert ([m] + ms)[1..] == ms && ([[]] + thrown)[1..] == thrown;
    assert [] + (Encode(m) + Woven(thrown, ms)) == Encode(m) + Woven(thrown, ms);
  }

  /** A frame recognised is the encoding of its message, byte for byte. */
  lemma FrameIsEncoding(s: seq<byte>)
    requires ReadHead(s).Frame?
    ensures var h := ReadHead(s); Acceptable(h.message) && s[..h.length] == Encode(h.message)
  {
    var size := FromBe32(s[4..8]);
    BackToBe16(s[2..4]);
    BackToBe32(s[4..8]);
    assert s[..HEADER + size] == [s[0], s[1]] + s[2..4] + s[4..8] + s[HEADER..HEADER + size];
  }

  /** The stream consists of these encodings and thrown bytes, and the open tail. */
  ghost predicate Explains(s: seq<byte>, thrown: seq<seq<byte>>, p: Parsed) {
    && AllAcceptable(p.messages) && |thrown| == |p.messages| + 1
    && s == Woven(thrown, p.messages) + p.tail
  }

  lemma ExplainsAfterSkip(s: seq<byte>, n: nat, thrown: seq<seq<byte>>, p: Parsed)
    requires n <= |s| && Explains(s[n..], thrown, p)
    ensures Explains(s, [s[..n] + thrown[0]] + thrown[1..], p)
  {
    WovenMore(s[..n], thrown, p.messages);
    Associates(s[..n], Woven(thrown, p.messages), p.tail);
    assert s == s[..n] + s[n..];
  }

  lemma ExplainsAfterFrame(s: seq<byte>, m: Message, thrown: seq<seq<byte>>, p: Parsed)
    requires Acceptable(m) && Encode(m) <= s && Explains(s[|Encode(m)|..], thrown, p)
    ensures Explains(s, [[]] + thrown, Parsed([m] + p.messages, p.tail))
  {
    WovenFrame(m, thrown, p.messages);
    Associates(Encode(m), Woven(thrown, p.messages), p.tail);
    assert s == Encode(m) + s[|Encode(m)|..];
  }

  /**
   Sound: the stream consists of the encodings of exactly the messages reported, in order,
   with bytes thrown away between them, and the open tail.  Nothing is invented or reordered.
   */
  lemma {:induction false} FramesInStream(s: seq<byte>) returns (thrown: seq<seq<byte>>)
    ensures Explains(s, thrown, Parse(s))
    decreases |s|
  {
    var h := ReadHead(s);
    if h.Open? {
      thrown := [[]];
      assert Woven(thrown, []) == [] && [] + s == s;
    } else {
      var rest := FramesInStream(s[h.length..]);
      if h.Skip? {
        thrown := [s[..h.length] + rest[0]] + rest[1..];
        ExplainsAfterSkip(s, h.length, rest, Parse(s));
      } else {
        thrown := [[]] + rest;
        FrameIsEncoding(s);
        ExplainsAfterFrame(s, h.message, rest, Parse(s[h.length..]));
      }
    }
  }

  /** The frame of `m` lies in `s` at `i`. */
  ghost predicate Occurs(s: seq<byte>, m: Message, i: nat) {
    Acceptable(m) && i + |Encode(m)| <= |s| && s[i..i + |Encode(m)|] == Encode(m)
  }

  lemma OccursLater(before: seq<byte>, s: seq<byte>, m: Message, i: nat)
    requires Occurs(s, m, i)
    ensures Occurs(before + s, m, |before| + i)
  {
    assert (before + s)[|before| + i..|before| + i + |Encode(m)|] == s[i..i + |Encode(m)|];
  }

  lemma {:induction false} WovenHolds(thrown: seq<seq<byte>>, ms: seq<Message>, m: Message) returns (i: nat)
    requires |thrown| == |ms| + 1 && AllAcceptable(ms) && m in ms
    ensures Occurs(Woven(thrown, ms), m, i)
    decreases |ms|
  {
    var f, rest := Encode(ms[0]), Woven(thrown[1..], ms[1..]);
    i := 0;
    if m == ms[0] {
      assert (f + rest)[..|f|] == f;
    } else {
      i := WovenHolds(thrown[1..], ms[1..], m);
      OccursLater(f, rest, m, i);
      i := |f| + i;
    }
    OccursLater(thrown[0], f + rest, m, i);
    i := |thrown[0]| + i;
  }

  lemma {:induction false} WovenIsLonger(thrown: seq<seq<byte>>, ms: seq<Message>)
    requires |thrown| == |ms| + 1 && AllAcceptable(ms)
    ensures |EncodeAll(ms)| <= |Woven(thrown, ms)|
    decreases |ms|
  {
    if ms != [] {
      WovenIsLonger(thrown[1..], ms[1..]);
    }
  }

  /** Each message reported has its frame in the stream, and all of them and the open tail fit in it. */
  lemma FramesFit(s: seq<byte>)
    ensures var p := Parse(s);
            && AllAcceptable(p.messages) && |EncodeAll(p.messages)| + |p.tail| <= |s|
            && forall m | m in p.messages :: Acceptable(m) && exists i: nat :: Occurs(s, m, i)
  {
    var thrown := FramesInStream(s);
    var p := Parse(s);
    WovenIsLonger(thrown, p.messages);
    forall m | m in p.messages ensures Acceptable(m) && exists i: nat :: Occurs(s, m, i) {
      var i := WovenHolds(thrown, p.messages, m);
      var w := Woven(thrown, p.messages);
      assert s[i..i + |Encode(m)|] == w[i..i + |Encode(m)|];
      assert Occurs(s, m, i);
    }
  }

  // ---- Decoding inverts encoding ----

  lemma HeadOfEncoding(m: Message, t: seq<byte>)
    requires |m.payload| < 0x1_0000_0000
    ensures var s := Encode(m) + t;
            ReadHead(s) == if Acceptable(m) then Frame(|Encode(m)|, m) else Skip(HEADER)
    ensures (Encode(m) + t)[HEADER..] == m.payload + t
    ensures (Encode(m) + t)[|Encode(m)|..] == t
  {
    var s := Encode(m) + t;
    assert s[2..4] == ToBe16(m.kind);
    assert s[4..8] == ToBe32(|m.payload|);
    assert s[HEADER..HEADER + |m.payload|] == m.payload;
  }

  lemma ParseFrame(m: Message, t: seq<byte>)
    requires Acceptable(m)
    ensures Parse(Encode(m) + t) == Parsed([m] + Parse(t).messages, Parse(t).tail)
  {
    HeadOfEncoding(m, t);
  }

  /** Started between frames, the stream of any messages decodes to exactly these. */
  lemma {:induction false} DecodeInvertsEncode(ms: seq<Message>, t: seq<byte>)
    requires AllAcceptable(ms)
    ensures Parse(EncodeAll(ms) + t) == Parsed(ms + Parse(t).messages, Parse(t).tail)
    decreases |ms|
  {
    if ms == [] {
      assert EncodeAll(ms) + t == t;
    } else {
      var rest := EncodeAll(ms[1..]) + t;
      assert EncodeAll(ms) + t == Encode(ms[0]) + rest;
      ParseFrame(ms[0], rest);
      DecodeInvertsEncode(ms[1..], t);
      ConsAppend(ms, Parse(t).messages);
    }
  }

  /** From every state between frames, whatever was read before. */
  lemma {:induction false} DecodesAfter(s: seq<byte>, ms: seq<Message>)
    requires Parse(s).tail == [] && AllAcceptable(ms)
    ensures Parse(s + EncodeAll(ms)) == Parsed(Parse(s).messages + ms, [])
  {
    ParseSplits(s, EncodeAll(ms));
    DecodesToItself(ms);
    assert [] + EncodeAll(ms) == EncodeAll(ms);
  }

  lemma DecodesOne(m: Message)
    requires Acceptable(m)
    ensures EncodeAll([m]) == Encode(m)
    ensures Parse(Encode(m)) == Parsed([m], [])
  {
    assert [m][1..] == [];
    assert Encode(m) + [] == Encode(m);
    DecodesToItself([m]);
  }

  lemma {:induction false} EncodeAllConcat(ms: seq<Message>, ns: seq<Message>)
    requires AllAcceptable(ms) && AllAcceptable(ns)
    ensures AllAcceptable(ms + ns) && EncodeAll(ms + ns) == EncodeAll(ms) + EncodeAll(ns)
    decreases |ms|
  {
    if ms == [] {
      assert ms + ns == ns;
    } else {
      EncodeAllConcat(ms[1..], ns);
      ConsAppend(ms, ns);
      Associates(Encode(ms[0]), EncodeAll(ms[1..]), EncodeAll(ns));
    }
  }

  /** Prefix-free, hence injective: encodings extend each other only as the lists do. */
  lemma EncodingIsPrefixFree(ms: seq<Message>, ns: seq<Message>)
    requires AllAcceptable(ms) && AllAcceptable(ns)
    ensures EncodeAll(ms) <= EncodeAll(ns) <==> ms <= ns
    ensures EncodeAll(ms) == EncodeAll(ns) <==> ms == ns
  {
    if EncodeAll(ms) <= EncodeAll(ns) {
      EncodedPrefix(ms, ns);
    }
    if EncodeAll(ns) <= EncodeAll(ms) {
      EncodedPrefix(ns, ms);
    }
    if ms <= ns {
      EncodeAllConcat(ms, ns[|ms|..]);
      assert ms + ns[|ms|..] == ns;
    }
  }

  lemma EncodedPrefix(ms: seq<Message>, ns: seq<Message>)
    requires AllAcceptable(ms) && AllAcceptable(ns)
    requires EncodeAll(ms) <= EncodeAll(ns)
    ensures ms <= ns
  {
    DecodesToItself(ns);
    DecodesFirst(ms, EncodeAll(ns));
  }

  lemma DecodesFirst(ms: seq<Message>, s: seq<byte>)
    requires AllAcceptable(ms) && EncodeAll(ms) <= s
    ensures ms <= Parse(s).messages
  {
    var t := s[|EncodeAll(ms)|..];
    assert s == EncodeAll(ms) + t;
    DecodeInvertsEncode(ms, t);
  }

  lemma DecodesToItself(ms: seq<Message>)
    requires AllAcceptable(ms)
    ensures Parse(EncodeAll(ms)) == Parsed(ms, [])
  {
    DecodeInvertsEncode(ms, []);
    assert EncodeAll(ms) + [] == EncodeAll(ms) && ms + [] == ms;
  }

  /** A size over the limit is refused at the eighth header byte, and hunting resumes there. */
  lemma OversizeRefused(m: Message, t: seq<byte>)
    requires 1048576 < |m.payload| < 0x1_0000_0000
    ensures forall k | 0 < k < HEADER :: Parse(Encode(m)[..k]) == Parsed([], Encode(m)[..k])
    ensures Parse(Encode(m)[..HEADER]) == Parsed([], [])
    ensures Parse(Encode(m) + t) == Parse(m.payload + t)
  {
    HeadOfEncoding(m, t);
    HeadOfEncoding(m.(payload := []), []);
    var s := Encode(m);
    assert s[..HEADER][4..8] == ToBe32(|m.payload|);
    assert s[..HEADER][HEADER..] == [];
  }

  // ---- Resynchronisation ----

  lemma {:induction false} NothingWithoutLeading(s: seq<byte>)
    requires LEADING0 !in s
    ensures Parse(s) == Parsed([], [])
    decreases |s|
  {
    if s != [] {
      NothingWithoutLeading(s[1..]);
    }
  }

  /** Longest an open frame can stay open, counted from its first leading byte. */
  const SETTLE: nat := HEADER - 1 + MAX_PAYLOAD

  /** How many more bytes the open frame `t` can take before the decoder is between frames. */
  function BytesLeft(t: seq<byte>): (n: nat)
    requires IsTail(t)
    ensures n == 0 <==> t == []
    ensures n <= SETTLE
  {
    if t == [] then 0
    else if |t| < HEADER then HEADER - |t| + MAX_PAYLOAD
    else HEADER + FromBe32(t[4..8]) - |t|
  }

  /** Every byte taken inside a frame brings the decoder nearer to leaving it. */
  lemma OpenFrameShrinks(t: seq<byte>, b: byte)
    requires IsTail(t) && t != []
    ensures IsTail(Parse(t + [b]).tail)
    ensures BytesLeft(Parse(t + [b]).tail) < BytesLeft(t)
  {
    ParseSplits(t, [b]);
    ParseOneMore(t, b);
    ParseSplits(t + [b], []);
    if |t| >= HEADER {
      assert (t + [b])[4..8] == t[4..8];
    }
  }

  /** From any state, enough bytes without 0x12 leave the decoder between frames. */
  lemma {:induction false} SelfStabilising(t: seq<byte>, w: seq<byte>)
    requires IsTail(t)
    requires LEADING0 !in w && |w| >= BytesLeft(t)
    ensures Parse(t + w).tail == []
    ensures |Parse(t + w).messages| <= 1
    decreases |w|
  {
    if t == [] {
      assert t + w == w;
      NothingWithoutLeading(w);
    } else {
      var s := t + [w[0]];
      OpenFrameShrinks(t, w[0]);
      ParseOneMore(t, w[0]);
      assert t + w == s + w[1..];
      ParseSplits(s, w[1..]);
      assert LEADING0 !in w[1..];
      if Parse(s).tail == [] {
        assert [] + w[1..] == w[1..];
        NothingWithoutLeading(w[1..]);
      } else {
        SelfStabilising(s, w[1..]);
      }
    }
  }

  /** SETTLE is the least such bound: one byte fewer can leave a frame open. */
  lemma SettleIsTight(w: seq<byte>)
    requires w == [LEADING1, 0, 0, 0, 0x10, 0, 0] + seq(MAX_PAYLOAD - 1, _ => 0 as byte)
    ensures IsTail([LEADING0]) && LEADING0 !in w && |w| == SETTLE - 1
    ensures Parse([LEADING0] + w).tail != []
  {
    var s := [LEADING0] + w;
    assert s[4..8] == [0, 0x10, 0, 0];
    assert FromBe16([0, 0x10]) == 0x10 && FromBe16([0, 0]) == 0;
    assert s[4..8][..2] == [0, 0x10] && s[4..8][2..] == [0, 0];
    assert FromBe32(s[4..8]) == MAX_PAYLOAD;
  }

  /** The length of the run of 0x12 bytes at the end of `s`. */
  function TrailingLeads(s: seq<byte>): (n: nat)
    ensures n <= |s|
  {
    if s == [] || s[|s| - 1] != LEADING0 then 0 else 1 + TrailingLeads(s[..|s| - 1])
  }

  lemma {:induction false} TrailingLeadsIsTheRun(s: seq<byte>)
    ensures var n := TrailingLeads(s);
            && (forall i | |s| - n <= i < |s| :: s[i] == LEADING0)
            && (n < |s| ==> s[|s| - n - 1] != LEADING0)
  {
    if s != [] && s[|s| - 1] == LEADING0 {
      TrailingLeadsIsTheRun(s[..|s| - 1]);
    }
  }

  lemma NoiseOneMore(s: seq<byte>, b: byte)
    requires Parse(s) == Parsed([], []) || Parse(s) == Parsed([], [LEADING0])
    requires b != LEADING1
    ensures Parse(s + [b]) ==
            Parsed([], if Parse(s).tail == [] && b == LEADING0 then [LEADING0] else [])
  {
    ParseOneMore(s, b);
    var t := Parse(s).tail + [b];
    assert t[0] == if Parse(s).tail == [] then b else LEADING0;
  }

  /** A 0x12 that follows a run of odd length is taken, and wasted, as the second leading byte. */
  predicate OddRun(s: seq<byte>) {
    s != [] && s[|s| - 1] == LEADING0 && !OddRun(s[..|s| - 1])
  }

  lemma {:induction false} OddRunIsParity(s: seq<byte>)
    ensures OddRun(s) <==> TrailingLeads(s) % 2 == 1
  {
    if s != [] && s[|s| - 1] == LEADING0 {
      OddRunIsParity(s[..|s| - 1]);
    }
  }

  lemma {:induction false} NoiseState(noise: seq<byte>)
    requires LEADING1 !in noise
    ensures Parse(noise) == Parsed([], if OddRun(noise) then [LEADING0] else [])
    decreases |noise|
  {
    if noise != [] {
      var s, b := noise[..|noise| - 1], noise[|noise| - 1];
      NoiseState(s);
      assert b in noise;
      NoiseOneMore(s, b);
      assert noise == s + [b];
    }
  }

  /** In noise without 0x34, each pair of 0x12 bytes cancels. */
  lemma NoiseParity(noise: seq<byte>)
    requires LEADING1 !in noise
    ensures Parse(noise) == Parsed([], if TrailingLeads(noise) % 2 == 1 then [LEADING0] else [])
  {
    NoiseState(noise);
    OddRunIsParity(noise);
  }

  /** A frame that follows such noise is recognised exactly when the run is even. */
  lemma ResyncParity(noise: seq<byte>, m: Message)
    requires LEADING1 !in noise && Acceptable(m)
    ensures TrailingLeads(noise) % 2 == 0 ==> Parse(noise + Encode(m)) == Parsed([m], [])
    ensures TrailingLeads(noise) % 2 == 1 ==> Parse(noise + Encode(m)) == Parse(Encode(m)[2..])
    ensures m in Parse(noise + Encode(m)).messages <==> TrailingLeads(noise) % 2 == 0
  {
    var f := Encode(m);
    NoiseParity(noise);
    ParseSplits(noise, f);
    if TrailingLeads(noise) % 2 == 0 {
      DecodesOne(m);
      assert [] + f == f;
    } else {
      LeadTakenAway(m);
      if m in Parse(f[2..]).messages {
        FramesFit(f[2..]);
      }
    }
  }

  /** A pending 0x12 takes the frame's own 0x12 with it, and the 0x34 that follows is skipped. */
  lemma LeadTakenAway(m: Message)
    requires Acceptable(m)
    ensures Parse([LEADING0] + Encode(m)) == Parse(Encode(m)[2..])
  {
    var f := Encode(m);
    var s := [LEADING0] + f;
    assert f[0] == LEADING0 && f[1] == LEADING1 && s[1] == f[0];
    assert ReadHead(s) == Skip(2) && s[2..] == f[1..];
    assert ReadHead(f[1..]) == Skip(1) && f[1..][1..] == f[2..];
  }
}
