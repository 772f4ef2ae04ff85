/** `attr2json` reads back the layout of every well-formed attribute list. */
module AttrRoundTrip {
  import opened Bytes
  import opened Seqs
  import opened AttrContainer
  import opened AttrReader

  /** The bytes `s` are in the buffer at `p`. */
  predicate At(buf: seq<byte>, p: nat, s: seq<byte>) {
    p + |s| <= |buf| && buf[p..p + |s|] == s
  }

  lemma AtConcat(buf: seq<byte>, p: nat, s: seq<byte>, t: seq<byte>)
    requires At(buf, p, s + t)
    ensures At(buf, p, s) && At(buf, p + |s|, t)
  {
    assert s == (s + t)[..|s|] && t == (s + t)[|s|..];
  }

  lemma {:induction false} CStringAt(buf: seq<byte>, p: nat, s: seq<byte>)
    requires NoNul(s) && At(buf, p, s + [0])
    ensures CString(buf, p) == Some(s)
    decreases |s|
  {
    if s == [] {
      assert buf[p] == (s + [0])[0];
    } else {
      ConsAppend(s, [0]);
      assert s + [0] == [s[0]] + (s[1..] + [0]);
      AtConcat(buf, p, [s[0]], s[1..] + [0]);
      assert buf[p] == buf[p..p + 1][0];
      CStringAt(buf, p + 1, s[1..]);
      assert s == [s[0]] + s[1..];
    }
  }

  /** The number or other JSON value an attribute value stands for. */
  function JsonOf(fp: FloatingPoint, value: Value): (j: Json) {
    match value
    case Short(v) => Number(v as real)
    case Int(v) => Number(v as real)
    case Int64(v) => Number(fp.nearest(v))
    case Byte(v) => Number(v as real)
    case Uint16(v) => Number(v as real)
    case Float(image) => Number(fp.float(image))
    case Double(image) => Number(fp.double(image))
    case Boolean(b) => Bool(b)
    case Str(s) => String(s)
    case ByteArray(bytes) => Array(Numbers(bytes))
  }

  function MembersOf(fp: FloatingPoint, attrs: seq<Attr>): (ms: seq<Member>) {
    if attrs == [] then []
    else [Member(attrs[0].key, JsonOf(fp, attrs[0].value))] + MembersOf(fp, attrs[1..])
  }

  /** The inner loop's counter can reach the length. */
  predicate Countable(value: Value) {
    value.ByteArray? ==> |value.bytes| < 0x1_0000
  }

  ghost predicate AllCountable(attrs: seq<Attr>) {
    forall i | 0 <= i < |attrs| :: Countable(attrs[i].value)
  }

  lemma AllCountableCons(attrs: seq<Attr>)
    requires attrs != []
    ensures AllCountable(attrs) <==> Countable(attrs[0].value) && AllCountable(attrs[1..])
  {
    assert forall i | 0 < i < |attrs| :: attrs[i] == attrs[1..][i - 1];
  }

  lemma SignedBack(v: int)
    ensures -0x80 <= v < 0x80 ==> Signed8(v % 0x100) == v
    ensures -0x8000 <= v < 0x8000 ==> Signed16(v % 0x1_0000) == v
    ensures -0x8000_0000 <= v < 0x8000_0000 ==> Signed32(v % 0x1_0000_0000) == v
  {
  }

  lemma ReadsNumber(fp: FloatingPoint, buf: seq<byte>, p: nat, value: Value)
    requires FitsType(value) && At(buf, p, LayoutValue(value))
    requires value.Short? || value.Int? || value.Byte? || value.Uint16? || value.Boolean?
    ensures ReadValue(fp, buf, p, Tag(value)) == Item(Some(JsonOf(fp, value)), |LayoutValue(value)|)
  {
    var s := LayoutValue(value);
    match value {
      case Short(v) => SignedBack(v); assert FromLe16(s) == v % 0x1_0000;
      case Int(v) => SignedBack(v); assert FromLe32(s) == v % 0x1_0000_0000;
      case Byte(v) => SignedBack(v); assert buf[p] == buf[p..p + 1][0];
      case Uint16(v) => assert FromLe16(s) == v;
      case Boolean(_) => assert buf[p] == buf[p..p + 1][0];
    }
  }

  lemma ReadsImage(fp: FloatingPoint, buf: seq<byte>, p: nat, value: Value)
    requires FitsType(value) && At(buf, p, LayoutValue(value))
    requires value.Int64? || value.Float? || value.Double?
    ensures ReadValue(fp, buf, p, Tag(value)) == Item(Some(JsonOf(fp, value)), |LayoutValue(value)|)
  {
    var s := LayoutValue(value);
    if value.Int64? {
      assert buf[p..p + 4] == s[..4] && buf[p + 4..p + 8] == s[4..];
    }
  }

  lemma ReadsString(fp: FloatingPoint, buf: seq<byte>, p: nat, value: Value)
    requires value.Str? && FitsType(value) && At(buf, p, LayoutValue(value))
    ensures ReadValue(fp, buf, p, STRING) == Item(Some(String(value.s)), |LayoutValue(value)|)
  {
    var n := ToLe16(|value.s| + 1);
    Associates(n, value.s, [0]);
    AtConcat(buf, p, n, value.s + [0]);
    CStringAt(buf, p + 2, value.s);
    SignedLength16(buf, p);
  }

  lemma SignedLength16(buf: seq<byte>, p: nat)
    requires p + 2 <= |buf|
    ensures GetUint16(buf, p) == FromLe16(buf[p..p + 2])
  {
  }

  lemma ReadsByteArray(fp: FloatingPoint, buf: seq<byte>, p: nat, value: Value)
    requires value.ByteArray? && FitsType(value) && At(buf, p, LayoutValue(value))
    ensures ReadValue(fp, buf, p, BYTEARRAY) ==
            if Countable(value) then Item(Some(Array(Numbers(value.bytes))), |LayoutValue(value)|) else ReadSpins
  {
    AtConcat(buf, p, ToLe32(|value.bytes|), value.bytes);
    SignedReadsLoseNothing(buf, p);
    NeverEndsExactly(buf, p);
  }

  /** The inner loop over a byte array never ends exactly when the array is longer than its counter can count. */
  lemma ByteArrayEndsExactly(buf: seq<byte>, p: nat, value: Value)
    requires value.ByteArray? && FitsType(value) && At(buf, p, LayoutValue(value))
    ensures NeverEnds(buf, p) <==> !Countable(value)
  {
    AtConcat(buf, p, ToLe32(|value.bytes|), value.bytes);
    SignedReadsLoseNothing(buf, p);
    NeverEndsExactly(buf, p);
  }

  /** At `q` the buffer has this byte array, and the loop over it goes on for ever. */
  ghost predicate SpinsOn(buf: seq<byte>, q: nat, value: Value) {
    value.ByteArray? && FitsType(value) && At(buf, q, LayoutValue(value)) && NeverEnds(buf, q)
  }

  lemma {:induction false} SpinsSomewhere(buf: seq<byte>, p: nat, attrs: seq<Attr>) returns (i: nat, q: nat)
    requires AllWellFormed(attrs) && At(buf, p, Layout(attrs)) && !AllCountable(attrs)
    ensures i < |attrs| && SpinsOn(buf, q, attrs[i].value)
    decreases |attrs|
  {
    hide LayoutValue;
    var a, rest := attrs[0], attrs[1..];
    AllCountableCons(attrs);
    AtConcat(buf, p, LayoutAttr(a), Layout(rest));
    if Countable(a.value) {
      i, q := SpinsSomewhere(buf, p + |LayoutAttr(a)|, rest);
      i := i + 1;
    } else {
      var head := ToLe16(|a.key| + 1) + (a.key + [0]) + [Tag(a.value)];
      AtConcat(buf, p, head, LayoutValue(a.value));
      i, q := 0, p + |head|;
      ByteArrayEndsExactly(buf, q, a.value);
    }
  }

  lemma ReadsValue(fp: FloatingPoint, buf: seq<byte>, p: nat, value: Value)
    requires FitsType(value) && At(buf, p, LayoutValue(value))
    ensures ReadValue(fp, buf, p, Tag(value)) ==
            if Countable(value) then Item(Some(JsonOf(fp, value)), |LayoutValue(value)|) else ReadSpins
  {
    match value {
      case Str(_) => ReadsString(fp, buf, p, value);
      case ByteArray(_) => ReadsByteArray(fp, buf, p, value);
      case Int64(_) => ReadsImage(fp, buf, p, value);
      case Float(_) => ReadsImage(fp, buf, p, value);
      case Double(_) => ReadsImage(fp, buf, p, value);
      case _ => ReadsNumber(fp, buf, p, value);
    }
  }

  lemma ReadAttrAt(fp: FloatingPoint, buf: seq<byte>, p: nat, key: CStr, tag: byte)
    requires |key| + 1 < 0x1_0000 && At(buf, p, ToLe16(|key| + 1) + (key + [0]) + [tag])
    ensures var q := p + 2 + |key| + 1;
            && q < |buf| && buf[q] == tag
            && ReadAttr(fp, buf, p) ==
               match ReadValue(fp, buf, q + 1, tag)
               case ReadOverrun => OneOverrun
               case ReadSpins => OneSpins
               case Item(None, _) => One([], q + 1)
               case Item(Some(value), n) => One([Member(key, value)], q + 1 + n)
  {
    hide ReadValue;
    var n, k := ToLe16(|key| + 1), key + [0];
    AtConcat(buf, p, n + k, [tag]);
    AtConcat(buf, p, n, k);
    CStringAt(buf, p + 2, key);
    SignedLength16(buf, p);
    var q := p + 2 + |k|;
    assert buf[q] == buf[q..q + 1][0];
  }

  /** An attribute with any other tag adds no member, and the cursor stays before its value. */
  lemma OtherTagAddsNothing(fp: FloatingPoint, buf: seq<byte>, p: nat, key: CStr, tag: byte)
    requires |key| + 1 < 0x1_0000 && At(buf, p, ToLe16(|key| + 1) + (key + [0]) + [tag])
    requires tag !in [SHORT, INT, INT64, BYTE, UINT16, FLOAT, DOUBLE, BOOLEAN, STRING, BYTEARRAY]
    ensures ReadAttr(fp, buf, p) == One([], p + 2 + |key| + 1 + 1)
  {
    ReadAttrAt(fp, buf, p, key, tag);
    assert forall t | t in [SHORT, INT, INT64, BYTE, UINT16, FLOAT, DOUBLE, BOOLEAN, STRING, BYTEARRAY] :: tag != t;
  }

  /** The bytes a value without a length takes. */
  function Width(tag: byte): (n: nat) {
    if tag == BYTE || tag == BOOLEAN then 1
    else if tag == SHORT || tag == UINT16 then 2
    else if tag == INT || tag == FLOAT then 4
    else 8
  }

  /** Reading such a value overruns the buffer exactly when its last byte is not there; else the cursor passes it. */
  lemma OverrunsExactly(fp: FloatingPoint, buf: seq<byte>, p: nat, tag: byte)
    requires tag in [SHORT, INT, INT64, BYTE, UINT16, FLOAT, DOUBLE, BOOLEAN]
    ensures ReadValue(fp, buf, p, tag) == ReadOverrun <==> p + Width(tag) > |buf|
    ensures p + Width(tag) <= |buf| ==>
              var r := ReadValue(fp, buf, p, tag); r.Item? && r.value.Some? && r.length == Width(tag)
  {
  }

  /** Any byte but 0 is true. */
  lemma NonZeroIsTrue(fp: FloatingPoint, buf: seq<byte>, p: nat)
    requires p < |buf| && buf[p] > 0
    ensures ReadValue(fp, buf, p, BOOLEAN) == Item(Some(Bool(true)), 1)
  {
  }

  lemma ReadsAttr(fp: FloatingPoint, buf: seq<byte>, p: nat, a: Attr)
    requires WellFormed(a) && At(buf, p, LayoutAttr(a))
    ensures ReadAttr(fp, buf, p) ==
            if Countable(a.value) then One([Member(a.key, JsonOf(fp, a.value))], p + |LayoutAttr(a)|) else OneSpins
  {
    hide ReadAttr, ReadValue, LayoutValue;
    var head, body := ToLe16(|a.key| + 1) + (a.key + [0]) + [Tag(a.value)], LayoutValue(a.value);
    AtConcat(buf, p, head, body);
    ReadAttrAt(fp, buf, p, a.key, Tag(a.value));
    var q := p + 2 + |a.key| + 1;
    assert p + |head| == q + 1 && |LayoutAttr(a)| == |head| + |body|;
    ReadsValue(fp, buf, q + 1, a.value);
  }

  lemma {:induction false} ReadsAll(fp: FloatingPoint, buf: seq<byte>, p: nat, attrs: seq<Attr>)
    requires AllWellFormed(attrs) && At(buf, p, Layout(attrs))
    ensures ReadAttrs(fp, buf, p, |attrs|) ==
            if AllCountable(attrs) then Done(MembersOf(fp, attrs), p + |Layout(attrs)|) else Spins
    decreases |attrs|
  {
    hide ReadAttr, LayoutAttr;
    if attrs != [] {
      var s, rest := LayoutAttr(attrs[0]), attrs[1..];
      AllCountableCons(attrs);
      AtConcat(buf, p, s, Layout(rest));
      ReadsAttr(fp, buf, p, attrs[0]);
      if Countable(attrs[0].value) {
        ReadsAll(fp, buf, p + |s|, rest);
      }
    }
  }

  /**
   Wherever the layout of well-formed attributes starts in the buffer, all of them are read
   in order and the cursor ends exactly at the end of the layout; unless a byte array is
   longer than 65535, and then, and only then, the inner loop over one goes on for ever.
   */
  lemma {:induction false} ReadsLayout(fp: FloatingPoint, buf: seq<byte>, p: nat, attrs: seq<Attr>)
    requires AllWellFormed(attrs) && At(buf, p, Layout(attrs))
    ensures ReadAttrs(fp, buf, p, |attrs|) ==
            if AllCountable(attrs) then Done(MembersOf(fp, attrs), p + |Layout(attrs)|) else Spins
    ensures !AllCountable(attrs) ==> exists i: nat, q: nat :: i < |attrs| && SpinsOn(buf, q, attrs[i].value)
  {
    hide ReadAttrs, Layout, SpinsOn;
    ReadsAll(fp, buf, p, attrs);
    if !AllCountable(attrs) {
      var i, q := SpinsSomewhere(buf, p, attrs);
    }
  }
}
