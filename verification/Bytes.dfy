/** Bytes, and the little-endian memory images the 32-bit x86 build works on. */
module Bytes {

  type byte = b: int | 0 <= b < 0x100

  type uint16 = v: int | 0 <= v < 0x1_0000

  type uint32 = v: int | 0 <= v < 0x1_0000_0000

  /** The number whose big-endian (network order) image is `s`. */
  function FromBe16(s: seq<byte>): (v: uint16)
    requires |s| == 2
  {
    var high: int, low: int := s[0], s[1];
    high * 0x100 + low
  }

  function FromBe32(s: seq<byte>): (v: uint32)
    requires |s| == 4
  {
    var high: int, low: int := FromBe16(s[..2]), FromBe16(s[2..]);
    high * 0x1_0000 + low
  }

  function ToBe16(v: uint16): (s: seq<byte>)
    ensures |s| == 2 && FromBe16(s) == v
  {
    [v / 0x100, v % 0x100]
  }

  function ToBe32(v: uint32): (s: seq<byte>)
    ensures |s| == 4 && FromBe32(s) == v
  {
    var high, low := ToBe16(v / 0x1_0000), ToBe16(v % 0x1_0000);
    assert (high + low)[..2] == high && (high + low)[2..] == low;
    high + low
  }

  /** No other image has the same number. */
  lemma BackToBe16(s: seq<byte>)
    requires |s| == 2
    ensures ToBe16(FromBe16(s)) == s
  {
    SplitBytes(s[0], s[1]);
  }

  lemma SplitBytes(high: byte, low: byte)
    ensures (high as int * 0x100 + low) / 0x100 == high && (high as int * 0x100 + low) % 0x100 == low
  {
  }

  lemma BackToBe32(s: seq<byte>)
    requires |s| == 4
    ensures ToBe32(FromBe32(s)) == s
  {
    SplitHalves(FromBe16(s[..2]), FromBe16(s[2..]));
    BackToBe16(s[..2]);
    BackToBe16(s[2..]);
  }

  /** The number a host variable holds when `s` is its image in memory. */
  function FromLe16(s: seq<byte>): (v: uint16)
    requires |s| == 2
  {
    FromBe16([s[1], s[0]])
  }

  function FromLe32(s: seq<byte>): (v: uint32)
    requires |s| == 4
  {
    var low: int, high: int := FromLe16(s[..2]), FromLe16(s[2..]);
    high * 0x1_0000 + low
  }

  function ToLe16(v: uint16): (s: seq<byte>)
    ensures |s| == 2 && FromLe16(s) == v
  {
    [v % 0x100, v / 0x100]
  }

  function ToLe32(v: uint32): (s: seq<byte>)
    ensures |s| == 4 && FromLe32(s) == v
  {
    var low, high := ToLe16(v % 0x1_0000), ToLe16(v / 0x1_0000);
    assert (low + high)[..2] == low && (low + high)[2..] == high;
    low + high
  }

  /** `htons` and `ntohs` on a little-endian host: both swap the two bytes. */
  function Swap16(v: uint16): (r: uint16)
  {
    v % 0x100 * 0x100 + v / 0x100
  }

  /** `htonl` and `ntohl` on a little-endian host. */
  function Swap32(v: uint32): (r: uint32)
  {
    var high: int, low: int := Swap16(v % 0x1_0000), Swap16(v / 0x1_0000);
    high * 0x1_0000 + low
  }

  /** Swapping before a store leaves the network image of the value in memory. */
  lemma {:induction false} SwapWritesNetworkOrder(v: uint16, w: uint32)
    ensures ToLe16(Swap16(v)) == ToBe16(v)
    ensures ToLe32(Swap32(w)) == ToBe32(w)
  {
    var high, low := w / 0x1_0000, w % 0x1_0000;
    SwapWritesNetworkOrder16(v);
    SwapWritesNetworkOrder16(high);
    SwapWritesNetworkOrder16(low);
    assert Swap32(w) % 0x1_0000 == Swap16(high) && Swap32(w) / 0x1_0000 == Swap16(low);
  }

  lemma SwapWritesNetworkOrder16(v: uint16)
    ensures ToLe16(Swap16(v)) == ToBe16(v)
  {
  }

  lemma SwapReadsNetworkOrder16(s: seq<byte>)
    requires |s| == 2
    ensures Swap16(FromLe16(s)) == FromBe16(s)
  {
    var v := FromLe16(s);
    assert v % 0x100 == s[0] && v / 0x100 == s[1];
  }

  /** Swapping after a load turns the bytes received, in order, into the number sent. */
  lemma {:induction false} SwapReadsNetworkOrder(s: seq<byte>)
    requires |s| == 4
    ensures Swap32(FromLe32(s)) == FromBe32(s)
  {
    var low: int, high: int := FromLe16(s[..2]), FromLe16(s[2..]);
    SplitHalves(high, low);
    SwapReadsNetworkOrder16(s[..2]);
    SwapReadsNetworkOrder16(s[2..]);
  }

  lemma SplitHalves(high: uint16, low: uint16)
    ensures (high as int * 0x1_0000 + low) / 0x1_0000 == high
    ensures (high as int * 0x1_0000 + low) % 0x1_0000 == low
  {
  }
}
