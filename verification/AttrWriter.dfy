/**
 `json2attr`, and what a pass through it and `attr2json` does to a JSON object: not the
 identity, but a normalisation that a second pass leaves alone.
 */
module AttrWriter {
  import opened Bytes
  import opened Seqs
  import opened AttrContainer
  import opened AttrReader
  import opened AttrRoundTrip

  /** The conversion to an integer type drops the fraction. */
  function Trunc(x: real): (v: int) {
    if x >= 0.0 then x.Floor else -((-x).Floor)
  }

  /** Numbers whose conversion to `int8_t` is defined. */
  predicate Int8(x: real) {
    -129.0 < x < 128.0
  }

  lemma TruncFits(x: real)
    requires Int8(x)
    ensures -0x80 <= Trunc(x) < 0x80
  {
  }

  /** The numbers an array starts with. */
  function NumericPrefix(items: seq<Json>): (xs: seq<real>)
    ensures |xs| <= |items|
  {
    if items == [] || !items[0].Number? then [] else [items[0].x] + NumericPrefix(items[1..])
  }

  function Int8Images(xs: seq<real>): (bytes: seq<byte>)
    ensures |bytes| == |xs|
  {
    if xs == [] then [] else [Trunc(xs[0]) % 0x100] + Int8Images(xs[1..])
  }

  /** JSON numbers are doubles. */
  predicate IsDouble(fp: FloatingPoint, x: real) {
    |fp.image(x)| == 8 && fp.double(fp.image(x)) == x
  }

  /** The value fits a container: its lengths their fields, its array numbers `int8_t`. */
  ghost predicate Writable(fp: FloatingPoint, value: Json) {
    match value
    case Number(x) => IsDouble(fp, x)
    case String(s) => |s| + 1 < 0x1_0000
    case Array(items) => |NumericPrefix(items)| < 0x1_0000 && forall x | x in NumericPrefix(items) :: Int8(x)
    case _ => true
  }

  ghost predicate AllWritable(fp: FloatingPoint, members: seq<Member>) {
    forall i | 0 <= i < |members| :: |members[i].key| + 1 < 0x1_0000 && Writable(fp, members[i].value)
  }

  ghost predicate DistinctKeys(members: seq<Member>) {
    forall i, j | 0 <= i < j < |members| :: members[i].key != members[j].key
  }

  /** What setting an attribute makes of a container. */
  type Setter = (seq<Attr>, Attr) -> seq<Attr>

  ghost predicate HasKey(attrs: seq<Attr>, key: CStr) {
    exists a | a in attrs :: a.key == key
  }

  /** An attribute that fits goes to the end, if the container does not have its key. */
  ghost predicate AppendsNew(put: Setter) {
    forall attrs, a | WellFormed(a) && !HasKey(attrs, a.key) :: put(attrs, a) == attrs + [a]
  }

  /** The attribute a member becomes, if any. */
  function AttrOf(fp: FloatingPoint, m: Member): (a: Option<Attr>) {
    match m.value
    case Number(x) => Some(Attr(m.key, Double(fp.image(x))))
    case Bool(b) => Some(Attr(m.key, Boolean(b)))
    case String(s) => Some(Attr(m.key, Str(s)))
    case Array(items) =>
      var xs := NumericPrefix(items);
      if xs == [] then None else Some(Attr(m.key, ByteArray(Int8Images(xs))))
    case _ => None
  }

  function Put(put: Setter, attrs: seq<Attr>, a: Option<Attr>): (r: seq<Attr>) {
    if a.Some? then put(attrs, a.value) else attrs
  }

  /** The container once the members are set in order; None if an empty array makes the conversion fail. */
  function PutAll(fp: FloatingPoint, put: Setter, attrs: seq<Attr>, members: seq<Member>): (r: Option<seq<Attr>>)
    decreases |members|
  {
    if members == [] then Some(attrs)
    else if members[0].value == Array([]) then None
    else PutAll(fp, put, Put(put, attrs, AttrOf(fp, members[0])), members[1..])
  }

  function Container(fp: FloatingPoint, put: Setter, json: Json): (r: Option<seq<Attr>>) {
    if json.Object? then PutAll(fp, put, [], json.members) else None
  }

  /** The numbers an array starts with can be converted. */
  ghost predicate Convertible(value: Json) {
    value.Array? ==> forall x | x in NumericPrefix(value.items) :: Int8(x)
  }

  method Json2Attr(fp: FloatingPoint, put: Setter, json: Json) returns (r: Option<seq<Attr>>)
    requires json.Object? ==> forall m | m in json.members :: Convertible(m.value)
    ensures r == Container(fp, put, json)
  {
    if !json.Object? {
      return None;
    }
    var attrs: seq<Attr> := [];
    var members := json.members;
    assert members[0..] == members;
    for k := 0 to |members|
      invariant PutAll(fp, put, [], members) == PutAll(fp, put, attrs, members[k..])
    {
      var item := members[k];
      MoveOn([], members, k);
      assert item in json.members;
      match item.value {
        case Number(x) => attrs := put(attrs, Attr(item.key, Double(fp.image(x))));
        case Bool(b) => attrs := put(attrs, Attr(item.key, Boolean(b)));
        case String(s) => attrs := put(attrs, Attr(item.key, Str(s)));
        case Array(items) =>
          if |items| == 0 {
            return None;
          }
          var bytes := ArrayBytes(items);
          if |bytes| > 0 {
            attrs := put(attrs, Attr(item.key, ByteArray(bytes)));
          }
        case _ =>
      }
    }
    return Some(attrs);
  }

  /** The inner loop: converts numbers until an item is not one. */
  method ArrayBytes(items: seq<Json>) returns (bytes: seq<byte>)
    requires forall x | x in NumericPrefix(items) :: Int8(x)
    ensures bytes == Int8Images(NumericPrefix(items))
  {
    bytes := [];
    var i := 0;
    assert items[0..] == items;
    while i < |items| && items[i].Number?
      invariant 0 <= i <= |items|
      invariant Int8Images(NumericPrefix(items)) == bytes + Int8Images(NumericPrefix(items[i..]))
    {
      MoveOn([], items, i);
      assert NumericPrefix(items[i..]) == [items[i].x] + NumericPrefix(items[i + 1..]);
      Associates(bytes, [Trunc(items[i].x) % 0x100], Int8Images(NumericPrefix(items[i + 1..])));
      bytes := bytes + [Trunc(items[i].x) % 0x100];
      i := i + 1;
    }
  }

  /** The attributes of members with distinct keys; None if there is an empty array. */
  function AttrsOf(fp: FloatingPoint, members: seq<Member>): (r: Option<seq<Attr>>) {
    if members == [] then Some([])
    else if members[0].value == Array([]) then None
    else
      var rest := AttrsOf(fp, members[1..]);
      if rest.None? then None else Some(AttrOf(fp, members[0]).ToSeq() + rest.value)
  }

  /** Attributes set before those of `r`. */
  function Before(attrs: seq<Attr>, r: Option<seq<Attr>>): (q: Option<seq<Attr>>) {
    if r.Some? then Some(attrs + r.value) else None
  }

  lemma BeforeBefore(attrs: seq<Attr>, more: seq<Attr>, r: Option<seq<Attr>>)
    ensures Before(attrs, Before(more, r)) == Before(attrs + more, r)
  {
    if r.Some? {
      Associates(attrs, more, r.value);
    }
  }

  /** New keys are set one after the other. */
  lemma {:induction false} PutAllAppends(fp: FloatingPoint, put: Setter, attrs: seq<Attr>, members: seq<Member>)
    requires AppendsNew(put) && DistinctKeys(members) && AllWritable(fp, members)
    requires forall m | m in members :: !HasKey(attrs, m.key)
    ensures PutAll(fp, put, attrs, members) == Before(attrs, AttrsOf(fp, members))
    decreases |members|
  {
    if members == [] {
      assert attrs + [] == attrs;
    } else if members[0].value != Array([]) {
      var m, rest := members[0], members[1..];
      var a := AttrOf(fp, m);
      var more := Put(put, attrs, a);
      AttrOfKept(fp, m);
      assert m in members;
      assert more == attrs + a.ToSeq();
      forall n | n in rest ensures !HasKey(more, n.key) {
        var i :| 0 <= i < |rest| && rest[i] == n;
        assert members[i + 1] == n && n in members;
      }
      WritableRest(fp, members);
      PutAllAppends(fp, put, more, rest);
      BeforeBefore(attrs, a.ToSeq(), AttrsOf(fp, rest));
    }
  }

  lemma AttrsSet(fp: FloatingPoint, put: Setter, members: seq<Member>)
    requires AppendsNew(put) && DistinctKeys(members) && AllWritable(fp, members)
    ensures PutAll(fp, put, [], members) == AttrsOf(fp, members)
  {
    PutAllAppends(fp, put, [], members);
    if AttrsOf(fp, members).Some? {
      assert [] + AttrsOf(fp, members).value == AttrsOf(fp, members).value;
    }
  }

  lemma WritableRest(fp: FloatingPoint, members: seq<Member>)
    requires members != [] && AllWritable(fp, members)
    ensures AllWritable(fp, members[1..])
    ensures DistinctKeys(members) ==> DistinctKeys(members[1..])
  {
    forall i | 0 <= i < |members| - 1
      ensures |members[1..][i].key| + 1 < 0x1_0000 && Writable(fp, members[1..][i].value)
    {
      assert members[1..][i] == members[i + 1];
    }
  }

  // ---- The normalisation ----

  function Truncated(xs: seq<real>): (items: seq<Json>) {
    if xs == [] then [] else [Number(Trunc(xs[0]) as real)] + Truncated(xs[1..])
  }

  /** Numbers, booleans and strings survive; an array keeps its truncated numeric prefix; the rest vanishes. */
  function Kept(m: Member): (r: Option<Member>) {
    match m.value
    case Number(_) => Some(m)
    case Bool(_) => Some(m)
    case String(_) => Some(m)
    case Array(items) =>
      if NumericPrefix(items) == [] then None else Some(Member(m.key, Array(Truncated(NumericPrefix(items)))))
    case Null => None
    case Object(_) => None
  }

  function AllKept(members: seq<Member>): (ms: seq<Member>) {
    if members == [] then [] else Kept(members[0]).ToSeq() + AllKept(members[1..])
  }

  ghost predicate HasEmptyArray(members: seq<Member>) {
    exists i | 0 <= i < |members| :: members[i].value == Array([])
  }

  ghost function Normalise(json: Json): (r: Option<Json>) {
    if json.Object? && !HasEmptyArray(json.members) then Some(Object(AllKept(json.members))) else None
  }

  lemma NumbersCons(b: byte, bytes: seq<byte>)
    ensures Numbers([b] + bytes) == [Number(Signed8(b) as real)] + Numbers(bytes)
  {
  }

  /** The stored byte is the truncated number. */
  lemma ByteOfTrunc(x: real)
    requires Int8(x)
    ensures Signed8(Trunc(x) % 0x100) == Trunc(x)
  {
    TruncFits(x);
    SignedBack(Trunc(x));
  }

  lemma {:induction false} NumbersOfImages(xs: seq<real>)
    requires forall x | x in xs :: Int8(x)
    ensures Numbers(Int8Images(xs)) == Truncated(xs)
  {
    if xs != [] {
      NumbersOfImages(xs[1..]);
      ByteOfTrunc(xs[0]);
      NumbersCons(Trunc(xs[0]) % 0x100, Int8Images(xs[1..]));
    }
  }

  /** A member's attribute is well formed, countable, and read back as what is kept of the member. */
  lemma AttrOfKept(fp: FloatingPoint, m: Member)
    requires |m.key| + 1 < 0x1_0000 && Writable(fp, m.value)
    ensures match AttrOf(fp, m)
            case None => Kept(m).None?
            case Some(a) => WellFormed(a) && Countable(a.value) && Kept(m) == Some(Member(a.key, JsonOf(fp, a.value)))
  {
    if m.value.Array? {
      NumbersOfImages(NumericPrefix(m.value.items));
    }
  }

  lemma {:induction false} AttrsOfKept(fp: FloatingPoint, members: seq<Member>)
    requires AllWritable(fp, members)
    ensures AttrsOf(fp, members).None? <==> HasEmptyArray(members)
    ensures var r := AttrsOf(fp, members);
            r.Some? ==> AllWellFormed(r.value) && AllCountable(r.value) && |r.value| == |AllKept(members)|
                        && MembersOf(fp, r.value) == AllKept(members)
    decreases |members|
  {
    if members != [] {
      var rest := members[1..];
      assert forall i | 0 < i < |members| :: members[i] == rest[i - 1];
      WritableRest(fp, members);
      AttrsOfKept(fp, rest);
      AttrOfKept(fp, members[0]);
      if AttrsOf(fp, members).Some? {
        var attrs, a := AttrsOf(fp, rest).value, AttrOf(fp, members[0]);
        if a.Some? {
          assert ([a.value] + attrs)[1..] == attrs;
        } else {
          assert [] + attrs == attrs;
          assert [] + AllKept(rest) == AllKept(rest);
        }
      }
    }
  }

  /** What can be written: distinct keys, values that fit, and no more attributes than a container counts. */
  ghost predicate WritableObject(fp: FloatingPoint, json: Json) {
    json.Object? ==>
      DistinctKeys(json.members) && AllWritable(fp, json.members) && |AllKept(json.members)| < 0x1_0000
  }

  /** Through the layout and back: exactly the normalisation, or a failure when that is undefined. */
  lemma PassIsNormalisation(fp: FloatingPoint, put: Setter, json: Json)
    requires AppendsNew(put) && WritableObject(fp, json)
    ensures match Container(fp, put, json)
            case None => Normalise(json).None?
            case Some(attrs) =>
              && |attrs| < 0x1_0000 && AllWellFormed(attrs)
              && var r := ReadAttrs(fp, Layout(attrs), 0, |attrs|);
                 r.Done? && r.end == |Layout(attrs)| && Normalise(json) == Some(Object(r.members))
  {
    if json.Object? {
      AttrsSet(fp, put, json.members);
      AttrsOfKept(fp, json.members);
      var r := AttrsOf(fp, json.members);
      if r.Some? {
        assert Layout(r.value)[0..|Layout(r.value)|] == Layout(r.value);
        ReadsLayout(fp, Layout(r.value), 0, r.value);
      }
    }
  }

  lemma {:induction false} PrefixOfTruncated(xs: seq<real>)
    requires forall x | x in xs :: Int8(x)
    ensures |Truncated(xs)| == |xs|
    ensures Truncated(NumericPrefix(Truncated(xs))) == Truncated(xs)
    ensures forall x | x in NumericPrefix(Truncated(xs)) :: Int8(x)
    ensures NumericPrefix(Truncated(xs)) == [] <==> xs == []
  {
    if xs != [] {
      assert Int8(xs[0]);
      TruncFits(xs[0]);
      PrefixOfTruncated(xs[1..]);
      var head, rest := Trunc(xs[0]) as real, NumericPrefix(Truncated(xs[1..]));
      assert NumericPrefix(Truncated(xs)) == [head] + rest;
      assert Trunc(head) == Trunc(xs[0]);
    }
  }

  /** What is kept of a member is kept again, whole, and can be written again. */
  lemma KeptTwice(fp: FloatingPoint, m: Member)
    requires |m.key| + 1 < 0x1_0000 && Writable(fp, m.value)
    ensures Kept(m).Some? ==> var k := Kept(m).value;
              Kept(k) == Some(k) && k.key == m.key && k.value != Array([]) && Writable(fp, k.value)
  {
    if m.value.Array? {
      PrefixOfTruncated(NumericPrefix(m.value.items));
    }
  }

  lemma KeptCons(fp: FloatingPoint, m: Member, ks: seq<Member>)
    requires Kept(m) == Some(m) && m.value != Array([]) && |m.key| + 1 < 0x1_0000 && Writable(fp, m.value)
    requires AllKept(ks) == ks && !HasEmptyArray(ks) && AllWritable(fp, ks)
    ensures AllKept([m] + ks) == [m] + ks && !HasEmptyArray([m] + ks) && AllWritable(fp, [m] + ks)
  {
    assert ([m] + ks)[1..] == ks;
  }

  lemma {:induction false} AllKeptTwice(fp: FloatingPoint, members: seq<Member>)
    requires AllWritable(fp, members)
    ensures var ks := AllKept(members);
            AllKept(ks) == ks && !HasEmptyArray(ks) && AllWritable(fp, ks) && |ks| <= |members|
    decreases |members|
  {
    if members != [] {
      var rest := members[1..];
      WritableRest(fp, members);
      AllKeptTwice(fp, rest);
      KeptTwice(fp, members[0]);
      var ks := AllKept(rest);
      if Kept(members[0]).Some? {
        assert AllKept(members) == [Kept(members[0]).value] + ks;
        KeptCons(fp, Kept(members[0]).value, ks);
      } else {
        assert [] + ks == ks;
      }
    }
  }

  lemma {:induction false} KeptKeysAreKeys(members: seq<Member>)
    ensures forall k | k in AllKept(members) :: exists m | m in members :: m.key == k.key
    decreases |members|
  {
    if members != [] {
      KeptKeysAreKeys(members[1..]);
      assert members[0] in members;
      assert forall m | m in members[1..] :: m in members;
    }
  }

  lemma {:induction false} KeptKeysDistinct(members: seq<Member>)
    requires DistinctKeys(members)
    ensures DistinctKeys(AllKept(members))
    decreases |members|
  {
    if members != [] {
      var rest := members[1..];
      var ks := AllKept(rest);
      assert DistinctKeys(rest);
      KeptKeysDistinct(rest);
      KeptKeysAreKeys(rest);
      forall i | 0 <= i < |ks| ensures ks[i].key != members[0].key {
        assert ks[i] in ks;
        var m :| m in rest && m.key == ks[i].key;
        var j :| 0 <= j < |rest| && rest[j] == m;
        assert members[j + 1] == m;
      }
    }
  }

  /** The result of one pass is a fixed point: it can be written again and comes back as it is. */
  lemma NormalisationIsIdempotent(fp: FloatingPoint, json: Json)
    requires WritableObject(fp, json) && Normalise(json).Some?
    ensures var j := Normalise(json).value;
            Normalise(j) == Some(j) && j.Object? && WritableObject(fp, j)
  {
    AllKeptTwice(fp, json.members);
    KeptKeysDistinct(json.members);
  }
}
