/**
 `attr2json`: a cursor over the layout of an attribute container, building a JSON object.
 A read past the end of the buffer, undefined in C, is the outcome `Overrun` here.
 */
module AttrReader {
  import opened Bytes
  import opened Seqs
  import opened AttrContainer

  datatype Json =
    | Null | Bool(b: bool) | Number(x: real) | String(s: CStr)
    | Array(items: seq<Json>) | Object(members: seq<Member>)

  datatype Member = Member(key: CStr, value: Json)

  /** What floating-point images stand for, the image of a double, and the double nearest to an integer. */
  datatype FloatingPoint = FloatingPoint(
    float: seq<byte> -> real, double: seq<byte> -> real,
    image: real -> seq<byte>, nearest: int -> real)

  /** The object built and where the cursor ends; or a read out of bounds; or a loop that never ends. */
  datatype Outcome = Done(members: seq<Member>, end: nat) | Overrun | Spins

  // ---- Reads at the cursor ----

  /** Reads go through the signed type, as the helpers do. */
  function GetInt16(buf: seq<byte>, p: nat): (v: int)
    requires p + 2 <= |buf|
  {
    Signed16(FromLe16(buf[p..p + 2]))
  }

  function GetUint16(buf: seq<byte>, p: nat): (v: uint16)
    requires p + 2 <= |buf|
  {
    GetInt16(buf, p) % 0x1_0000
  }

  function GetInt32(buf: seq<byte>, p: nat): (v: int)
    requires p + 4 <= |buf|
  {
    Signed32(FromLe32(buf[p..p + 4]))
  }

  function GetUint32(buf: seq<byte>, p: nat): (v: uint32)
    requires p + 4 <= |buf|
  {
    GetInt32(buf, p) % 0x1_0000_0000
  }

  /** Reading a length through the signed type loses nothing. */
  lemma SignedReadsLoseNothing(buf: seq<byte>, p: nat)
    requires p + 4 <= |buf|
    ensures GetUint16(buf, p) == FromLe16(buf[p..p + 2])
    ensures GetUint32(buf, p) == FromLe32(buf[p..p + 4])
  {
  }

  /** The NUL-terminated string at `p`, if it ends inside the buffer. */
  function CString(buf: seq<byte>, p: nat): (s: Option<CStr>)
    decreases |buf| - p
  {
    if p >= |buf| then None
    else if buf[p] == 0 then Some([])
    else
      var rest := CString(buf, p + 1);
      if rest.None? then None else Some([buf[p]] + rest.value)
  }

  /** The value of tag `t` at `p`, and the length the cursor moves by; None for a tag not handled. */
  datatype Read = Item(value: Option<Json>, length: nat) | ReadOverrun | ReadSpins

  ghost function ReadValue(fp: FloatingPoint, buf: seq<byte>, p: nat, t: byte): (r: Read) {
    if t == BYTEARRAY then (if p + 4 > |buf| then ReadOverrun else ReadItems(buf, p))
    else ReadScalar(fp, buf, p, t)
  }

  /** The values read without a loop. */
  function ReadScalar(fp: FloatingPoint, buf: seq<byte>, p: nat, t: byte): (r: Read) {
    if t == SHORT then
      if p + 2 > |buf| then ReadOverrun else Item(Some(Number(GetInt16(buf, p) as real)), 2)
    else if t == INT then
      if p + 4 > |buf| then ReadOverrun else Item(Some(Number(GetInt32(buf, p) as real)), 4)
    else if t == INT64 then
      if p + 8 > |buf| then ReadOverrun
      else Item(Some(Number(fp.nearest(Signed64(FromLe32(buf[p + 4..p + 8]), FromLe32(buf[p..p + 4]))))), 8)
    else if t == BYTE then
      if p + 1 > |buf| then ReadOverrun else Item(Some(Number(Signed8(buf[p]) as real)), 1)
    else if t == UINT16 then
      if p + 2 > |buf| then ReadOverrun else Item(Some(Number(FromLe16(buf[p..p + 2]) as real)), 2)
    else if t == FLOAT then
      if p + 4 > |buf| then ReadOverrun else Item(Some(Number(fp.float(buf[p..p + 4]))), 4)
    else if t == DOUBLE then
      if p + 8 > |buf| then ReadOverrun else Item(Some(Number(fp.double(buf[p..p + 8]))), 8)
    else if t == BOOLEAN then
      if p + 1 > |buf| then ReadOverrun else Item(Some(Bool(buf[p] != 0)), 1)
    else if t == STRING then
      if p + 2 > |buf| || CString(buf, p + 2).None? then ReadOverrun
      else Item(Some(String(CString(buf, p + 2).value)), 2 + GetUint16(buf, p))
    else Item(None, 0)
  }

  // ---- The inner loop over a byte array, round by round ----

  /** The loop after some rounds: its counter and the items added; or its exit; or a read out of bounds. */
  datatype Loop = Running(j: uint16, items: seq<Json>) | Ended(items: seq<Json>) | OutOfBounds

  /** `j++` on a `uint16_t`. */
  function Increment16(j: uint16): (r: uint16) {
    (j + 1) % 0x1_0000
  }

  function Round(buf: seq<byte>, p: nat, l: Loop): (r: Loop)
    requires p + 4 <= |buf|
  {
    if !l.Running? then l
    else if l.j >= GetUint32(buf, p) then Ended(l.items)
    else if p + 4 + l.j >= |buf| then OutOfBounds
    else Running(Increment16(l.j), l.items + [Number(Signed8(buf[p + 4 + l.j]) as real)])
  }

  function Rounds(buf: seq<byte>, p: nat, k: nat): (r: Loop)
    requires p + 4 <= |buf|
  {
    if k == 0 then Running(0, []) else Round(buf, p, Rounds(buf, p, k - 1))
  }

  /** However many rounds it has gone, the loop goes on. */
  ghost predicate NeverEnds(buf: seq<byte>, p: nat)
    requires p + 4 <= |buf|
  {
    forall k: nat :: Rounds(buf, p, k).Running?
  }

  /** What becomes of the loop: it goes on for ever, or is where it stopped. */
  ghost function ReadItems(buf: seq<byte>, p: nat): (r: Read)
    requires p + 4 <= |buf|
  {
    if NeverEnds(buf, p) then ReadSpins
    else
      var k: nat :| !Rounds(buf, p, k).Running?;
      match Rounds(buf, p, k)
      case Ended(items) => Item(Some(Array(items)), 4 + GetUint32(buf, p))
      case _ => ReadOverrun
  }

  lemma {:induction false} StaysStopped(buf: seq<byte>, p: nat, k: nat, l: nat)
    requires p + 4 <= |buf| && k <= l && !Rounds(buf, p, k).Running?
    ensures Rounds(buf, p, l) == Rounds(buf, p, k)
    decreases l - k
  {
    if k < l {
      StaysStopped(buf, p, k, l - 1);
    }
  }

  /** Wherever the loop is found stopped is where it stopped. */
  lemma StoppedAt(buf: seq<byte>, p: nat, k: nat)
    requires p + 4 <= |buf| && !Rounds(buf, p, k).Running?
    ensures !NeverEnds(buf, p)
    ensures ReadItems(buf, p) == match Rounds(buf, p, k)
                                 case Ended(items) => Item(Some(Array(items)), 4 + GetUint32(buf, p))
                                 case _ => ReadOverrun
  {
    forall l: nat | !Rounds(buf, p, l).Running? ensures Rounds(buf, p, l) == Rounds(buf, p, k) {
      StaysStopped(buf, p, if k <= l then k else l, if k <= l then l else k);
    }
  }

  /** Until it wraps, the counter counts the rounds. */
  lemma {:induction false} FirstRounds(buf: seq<byte>, p: nat, k: nat)
    requires p + 4 + k <= |buf| && k <= GetUint32(buf, p) && k < 0x1_0000
    ensures Rounds(buf, p, k) == Running(k, Numbers(buf[p + 4..p + 4 + k]))
  {
    if k > 0 {
      FirstRounds(buf, p, k - 1);
      var bytes := buf[p + 4..p + 4 + k];
      assert bytes[..k - 1] == buf[p + 4..p + 4 + (k - 1)];
      assert Numbers(bytes) == Numbers(bytes[..k - 1]) + [Number(Signed8(bytes[k - 1]) as real)];
    }
  }

  /** A length of 65536 or more is out of the counter's reach: it wraps, and reads the same bytes again. */
  lemma {:induction false} RunsOn(buf: seq<byte>, p: nat, k: nat)
    requires p + 4 + 0x1_0000 <= |buf| && GetUint32(buf, p) >= 0x1_0000
    ensures Rounds(buf, p, k).Running?
  {
    if k > 0 {
      hide GetUint32, Signed8, Increment16;
      RunsOn(buf, p, k - 1);
    }
  }

  /** The length at `p` is one the counter reaches, and so many bytes follow it. */
  predicate Fits(buf: seq<byte>, p: nat)
    requires p + 4 <= |buf|
  {
    GetUint32(buf, p) < 0x1_0000 && p + 4 + GetUint32(buf, p) <= |buf|
  }

  /** The loop goes on for ever exactly when the length is over 65535 and the first 65536 bytes are there to read. */
  lemma NeverEndsExactly(buf: seq<byte>, p: nat)
    requires p + 4 <= |buf|
    ensures NeverEnds(buf, p) <==> GetUint32(buf, p) >= 0x1_0000 && p + 4 + 0x1_0000 <= |buf|
    ensures var n := GetUint32(buf, p);
            ReadItems(buf, p) ==
            if NeverEnds(buf, p) then ReadSpins
            else if Fits(buf, p) then Item(Some(Array(Numbers(buf[p + 4..p + 4 + n]))), 4 + n)
            else ReadOverrun
  {
    hide GetUint32, Numbers, Rounds, ReadItems;
    var n := GetUint32(buf, p);
    if n >= 0x1_0000 && p + 4 + 0x1_0000 <= |buf| {
      forall k: nat ensures Rounds(buf, p, k).Running? {
        RunsOn(buf, p, k);
      }
      NeverEndingSpins(buf, p);
    } else {
      var k := if Fits(buf, p) then n else |buf| - p - 4;
      FirstRounds(buf, p, k);
      NextRound(buf, p, k, Numbers(buf[p + 4..p + 4 + k]));
      StoppedAt(buf, p, k + 1);
    }
  }

  lemma NeverEndingSpins(buf: seq<byte>, p: nat)
    requires p + 4 <= |buf| && NeverEnds(buf, p)
    ensures ReadItems(buf, p) == ReadSpins
  {
  }

  /** `char` is signed. */
  function Numbers(bytes: seq<byte>): (items: seq<Json>)
    ensures |items| == |bytes| && forall i | 0 <= i < |items| :: items[i] == Number(Signed8(bytes[i]) as real)
  {
    seq(|bytes|, i requires 0 <= i < |bytes| => Number(Signed8(bytes[i]) as real))
  }

  /** The attribute at `p`. An attribute with a tag not handled adds no member, and its value is not skipped. */
  datatype ReadOne = One(members: seq<Member>, next: nat) | OneOverrun | OneSpins

  ghost function ReadAttr(fp: FloatingPoint, buf: seq<byte>, p: nat): (r: ReadOne) {
    if p + 2 > |buf| then OneOverrun
    else
      var q := p + 2 + GetUint16(buf, p);
      if q >= |buf| then OneOverrun
      else
        match ReadValue(fp, buf, q + 1, buf[q])
        case ReadOverrun => OneOverrun
        case Item(None, _) => One([], q + 1)
        case Item(Some(value), n) =>
          (match CString(buf, p + 2)
           case None => OneOverrun
           case Some(key) => One([Member(key, value)], q + 1 + n))
        case ReadSpins => if CString(buf, p + 2).None? then OneOverrun else OneSpins
  }

  ghost function ReadAttrs(fp: FloatingPoint, buf: seq<byte>, p: nat, attrNum: nat): (r: Outcome)
    decreases attrNum
  {
    if attrNum == 0 then Done([], p)
    else
      match ReadAttr(fp, buf, p)
      case OneOverrun => Overrun
      case OneSpins => Spins
      case One(ms, next) =>
        After(ms, ReadAttrs(fp, buf, next, attrNum - 1))
  }

  // ---- The loop ----

  method Attr2Json(fp: FloatingPoint, buf: seq<byte>, attrNum: uint16) returns (r: Outcome)
    ensures r == ReadAttrs(fp, buf, 0, attrNum)
  {
    hide ReadAttr;
    var root: seq<Member> := [];
    var p: nat := 0;
    for i := 0 to attrNum
      invariant ReadAttrs(fp, buf, 0, attrNum) == After(root, ReadAttrs(fp, buf, p, attrNum - i))
    {
      var one := OneAttribute(fp, buf, p);
      match one {
        case OneOverrun => return Overrun;
        case OneSpins => return Spins;
        case One(ms, next) =>
          AfterAfter(root, ms, ReadAttrs(fp, buf, next, attrNum - i - 1));
          root, p := root + ms, next;
      }
    }
    assert root + [] == root;
    return Done(root, p);
  }

  /** The members read before an outcome, put in front of those it reads. */
  function After(root: seq<Member>, r: Outcome): (q: Outcome) {
    if r.Done? then Done(root + r.members, r.end) else r
  }

  lemma AfterAfter(root: seq<Member>, ms: seq<Member>, r: Outcome)
    ensures After(root, After(ms, r)) == After(root + ms, r)
  {
    if r.Done? {
      Associates(root, ms, r.members);
    }
  }

  /** One round of the loop: the key, the tag, and the value the tag calls for. */
  method OneAttribute(fp: FloatingPoint, buf: seq<byte>, start: nat) returns (r: ReadOne)
    ensures r == ReadAttr(fp, buf, start)
  {
    var p := start;
    if p + 2 > |buf| {
      return OneOverrun;
    }
    var key := CString(buf, p + 2);
    p := p + 2 + GetUint16(buf, p);
    if p >= |buf| {
      return OneOverrun;
    }
    var t := buf[p];
    p := p + 1;
    if t == BYTEARRAY {
      if p + 4 > |buf| || key.None? {
        return OneOverrun;
      }
      var read := ByteArrayItems(buf, p);
      match read {
        case ReadOverrun => return OneOverrun;
        case ReadSpins => return OneSpins;
        case Item(value, n) => return One([Member(key.value, value.value)], p + n);
      }
    }
    match ReadScalar(fp, buf, p, t) {
      case Item(None, _) => return One([], p);
      case Item(Some(value), n) =>
        if key.None? {
          return OneOverrun;
        }
        return One([Member(key.value, value)], p + n);
      case _ => return OneOverrun;
    }
  }

  /** One more round, from a counter that has not wrapped. */
  lemma NextRound(buf: seq<byte>, p: nat, j: uint16, items: seq<Json>)
    requires p + 4 <= |buf| && Rounds(buf, p, j) == Running(j, items)
    ensures var n := GetUint32(buf, p);
            Rounds(buf, p, j + 1) ==
            if j >= n then Ended(items)
            else if p + 4 + j >= |buf| then OutOfBounds
            else Running(Increment16(j), items + [Number(Signed8(buf[p + 4 + j]) as real)])
    ensures Increment16(j) as int == if j == 0xFFFF then 0 else j + 1
  {
    hide GetUint32, Signed8;
  }

  /** The inner loop, left where its counter wraps: the rounds then repeat without end. */
  method ByteArrayItems(buf: seq<byte>, p: nat) returns (r: Read)
    requires p + 4 <= |buf|
    ensures r == ReadItems(buf, p)
    ensures r.ReadSpins? <==> forall k: nat :: Rounds(buf, p, k).Running?
    ensures r.Item? ==> r.value.Some?
  {
    hide GetUint32, Signed8, Rounds, Increment16;
    var n := GetUint32(buf, p);
    var items := [];
    var j: uint16 := 0;
    NeverEndsExactly(buf, p);
    FirstRounds(buf, p, 0);
    while j < n
      invariant j <= n && p + 4 + j <= |buf|
      invariant Rounds(buf, p, j) == Running(j, items)
      decreases n - j
    {
      NextRound(buf, p, j, items);
      if p + 4 + j >= |buf| {
        StoppedAt(buf, p, j + 1);
        return ReadOverrun;
      }
      items := items + [Number(Signed8(buf[p + 4 + j]) as real)];
      if Increment16(j) == 0 {
        return ReadSpins;
      }
      j := Increment16(j);
    }
    NextRound(buf, p, j, items);
    StoppedAt(buf, p, j + 1);
    r := Item(Some(Array(items)), 4 + n);
  }
}
