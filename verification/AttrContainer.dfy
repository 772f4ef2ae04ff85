/**
 Attribute containers as `attr2json` reads them: a list of keys and typed values, laid out
 as key length, key, type tag and value, in the byte order of the (little-endian) host.
 */
module AttrContainer {
  import opened Bytes
  import opened Seqs

  // Type tags numbered in WAMR's attr_container.h
  const SHORT: byte := 1
  const INT: byte := 2
  const INT64: byte := 3
  const BYTE: byte := 4
  const UINT16: byte := 5
  const FLOAT: byte := 6
  const DOUBLE: byte := 7
  const BOOLEAN: byte := 8
  const STRING: byte := 9
  const BYTEARRAY: byte := 10

  type CStr = s: seq<byte> | NoNul(s)

  predicate NoNul(s: seq<byte>) {
    0 !in s
  }

  datatype Value =
    | Short(v: int) | Int(v: int) | Int64(v: int) | Byte(v: int) | Uint16(v: int)
    | Float(image: seq<byte>) | Double(image: seq<byte>)
    | Boolean(b: bool) | Str(s: CStr) | ByteArray(bytes: seq<byte>)

  datatype Attr = Attr(key: CStr, value: Value)

  /** The value fits its type, and its length the length field. */
  predicate FitsType(value: Value) {
    match value
    case Short(v) => -0x8000 <= v < 0x8000
    case Int(v) => -0x8000_0000 <= v < 0x8000_0000
    case Int64(v) => -0x8000_0000_0000_0000 <= v < 0x8000_0000_0000_0000
    case Byte(v) => -0x80 <= v < 0x80
    case Uint16(v) => 0 <= v < 0x1_0000
    case Float(image) => |image| == 4
    case Double(image) => |image| == 8
    case Boolean(_) => true
    case Str(s) => |s| + 1 < 0x1_0000
    case ByteArray(bytes) => |bytes| < 0x1_0000_0000
  }

  predicate WellFormed(a: Attr) {
    |a.key| + 1 < 0x1_0000 && FitsType(a.value)
  }

  // ---- Two's complement ----

  function Signed8(b: byte): (v: int)
    ensures -0x80 <= v < 0x80 && v % 0x100 == b
  {
    if b < 0x80 then b else b as int - 0x100
  }

  function Signed16(u: uint16): (v: int)
    ensures -0x8000 <= v < 0x8000 && v % 0x1_0000 == u
  {
    if u < 0x8000 then u else u as int - 0x1_0000
  }

  function Signed32(u: uint32): (v: int)
    ensures -0x8000_0000 <= v < 0x8000_0000 && v % 0x1_0000_0000 == u
  {
    if u < 0x8000_0000 then u else u as int - 0x1_0000_0000
  }

  function Signed64(high: uint32, low: uint32): (v: int)
  {
    Signed32(high) * 0x1_0000_0000 + low
  }

  function ToLe64(v: int): (s: seq<byte>)
    requires -0x8000_0000_0000_0000 <= v < 0x8000_0000_0000_0000
    ensures |s| == 8 && Signed64(FromLe32(s[4..]), FromLe32(s[..4])) == v
  {
    var low, high := ToLe32(v % 0x1_0000_0000), ToLe32(v / 0x1_0000_0000 % 0x1_0000_0000);
    assert (low + high)[..4] == low && (low + high)[4..] == high;
    SignedHigh(v / 0x1_0000_0000);
    low + high
  }

  lemma SignedHigh(v: int)
    requires -0x8000_0000 <= v < 0x8000_0000
    ensures Signed32(v % 0x1_0000_0000) == v
  {
  }

  // ---- The layout ----

  function Tag(value: Value): (t: byte) {
    match value
    case Short(_) => SHORT
    case Int(_) => INT
    case Int64(_) => INT64
    case Byte(_) => BYTE
    case Uint16(_) => UINT16
    case Float(_) => FLOAT
    case Double(_) => DOUBLE
    case Boolean(_) => BOOLEAN
    case Str(_) => STRING
    case ByteArray(_) => BYTEARRAY
  }

  function LayoutValue(value: Value): (s: seq<byte>)
    requires FitsType(value)
  {
    match value
    case Short(v) => ToLe16(v % 0x1_0000)
    case Int(v) => ToLe32(v % 0x1_0000_0000)
    case Int64(v) => ToLe64(v)
    case Byte(v) => [v % 0x100]
    case Uint16(v) => ToLe16(v)
    case Float(image) => image
    case Double(image) => image
    case Boolean(b) => [if b then 1 else 0]
    case Str(s) => ToLe16(|s| + 1) + s + [0]
    case ByteArray(bytes) => ToLe32(|bytes|) + bytes
  }

  function LayoutAttr(a: Attr): (s: seq<byte>)
    requires WellFormed(a)
  {
    ToLe16(|a.key| + 1) + (a.key + [0]) + [Tag(a.value)] + LayoutValue(a.value)
  }

  ghost predicate AllWellFormed(attrs: seq<Attr>) {
    forall i | 0 <= i < |attrs| :: WellFormed(attrs[i])
  }

  function Layout(attrs: seq<Attr>): (s: seq<byte>)
    requires AllWellFormed(attrs)
  {
    if attrs == [] then [] else LayoutAttr(attrs[0]) + Layout(attrs[1..])
  }
}
