/** What `json2attr` writes, member by member. */
module AttrWritten {
  import opened Bytes
  import opened Seqs
  import opened AttrContainer
  import opened AttrReader
  import opened AttrWriter

  /** `v` is `x` without its fraction. */
  predicate IsTruncation(v: int, x: real) {
    if x >= 0.0 then v as real <= x < v as real + 1.0 else v as real - 1.0 < x <= v as real
  }

  /** The bytes are the numbers the array starts with, up to its end or the first item that is none. */
  ghost predicate IsNumericHead(items: seq<Json>, bytes: seq<byte>) {
    && 0 < |bytes| <= |items|
    && (forall i | 0 <= i < |bytes| :: items[i].Number? && IsTruncation(Signed8(bytes[i]), items[i].x))
    && (|bytes| < |items| ==> !items[|bytes|].Number?)
  }

  /** The attribute that the member is written as. */
  ghost predicate WrittenAs(fp: FloatingPoint, m: Member, a: Attr) {
    && a.key == m.key
    && match m.value
       case Number(x) => a.value == Double(fp.image(x))
       case Bool(b) => a.value == Boolean(b)
       case String(s) => a.value == Str(s)
       case Array(items) => a.value.ByteArray? && IsNumericHead(items, a.value.bytes)
       case _ => false
  }

  /** A member that is not written. */
  predicate Vanishes(m: Member) {
    match m.value
    case Null => true
    case Object(_) => true
    case Array(items) => items != [] && !items[0].Number?
    case _ => false
  }

  /** `from` tells which member each attribute is written for: in order, and the members it leaves out vanish. */
  ghost predicate Written(fp: FloatingPoint, members: seq<Member>, attrs: seq<Attr>, from: seq<nat>) {
    && |from| == |attrs|
    && (forall k | 0 <= k < |from| :: from[k] < |members|)
    && (forall k, l | 0 <= k < l < |from| :: from[k] < from[l])
    && (forall k | 0 <= k < |from| :: WrittenAs(fp, members[from[k]], attrs[k]))
    && (forall i | 0 <= i < |members| && i !in from :: Vanishes(members[i]))
  }

  lemma TruncIsTruncation(x: real)
    ensures IsTruncation(Trunc(x), x)
  {
  }

  lemma {:induction false} NumericPrefixIsHead(items: seq<Json>)
    ensures var xs := NumericPrefix(items);
            && (forall i | 0 <= i < |xs| :: items[i] == Number(xs[i]))
            && (|xs| < |items| ==> !items[|xs|].Number?)
  {
    if items != [] && items[0].Number? {
      NumericPrefixIsHead(items[1..]);
    }
  }

  lemma {:induction false} ImagesAreTruncations(xs: seq<real>)
    requires forall x | x in xs :: Int8(x)
    ensures var bytes := Int8Images(xs); forall i | 0 <= i < |xs| :: IsTruncation(Signed8(bytes[i]), xs[i])
  {
    if xs != [] {
      assert xs[0] in xs;
      ImagesAreTruncations(xs[1..]);
      ByteOfTrunc(xs[0]);
      TruncIsTruncation(xs[0]);
    }
  }

  /** A member that can be written is written as its attribute, or vanishes, or fails the whole conversion. */
  lemma OneMemberWritten(fp: FloatingPoint, m: Member)
    requires Writable(fp, m.value)
    ensures var a := AttrOf(fp, m);
            if a.Some? then WrittenAs(fp, m, a.value) && !Vanishes(m) && m.value != Array([])
            else Vanishes(m) || m.value == Array([])
  {
    if m.value.Array? {
      NumericPrefixIsHead(m.value.items);
      ImagesAreTruncations(NumericPrefix(m.value.items));
    }
  }

  function Later(from: seq<nat>): (r: seq<nat>)
    ensures |r| == |from| && forall k | 0 <= k < |r| :: r[k] == from[k] + 1
  {
    seq(|from|, k requires 0 <= k < |from| => from[k] + 1)
  }

  lemma InLater(from: seq<nat>, i: nat)
    requires i in from
    ensures i + 1 in Later(from)
  {
    var k :| 0 <= k < |from| && from[k] == i;
    assert Later(from)[k] == i + 1;
  }

  /** One more member in front, which vanishes. */
  lemma WrittenWithout(fp: FloatingPoint, m: Member, members: seq<Member>, attrs: seq<Attr>, from: seq<nat>)
    requires Written(fp, members, attrs, from) && Vanishes(m)
    ensures Written(fp, [m] + members, attrs, Later(from))
  {
    hide WrittenAs, Vanishes;
    var more, late := [m] + members, Later(from);
    assert forall i | 0 <= i < |members| :: more[i + 1] == members[i];
    forall k | 0 <= k < |late| ensures WrittenAs(fp, more[late[k]], attrs[k]) {
      assert more[late[k]] == members[from[k]];
    }
    forall i | 0 < i < |more| && i !in late ensures Vanishes(more[i]) {
      NotLater(from, i - 1);
      assert Vanishes(members[i - 1]);
    }
  }

  lemma NotLater(from: seq<nat>, i: nat)
    requires i + 1 !in Later(from)
    ensures i !in from
  {
    if i in from {
      InLater(from, i);
    }
  }

  /** One more member in front, which is written as `a`. */
  lemma WrittenWith(fp: FloatingPoint, m: Member, members: seq<Member>, a: Attr, attrs: seq<Attr>, from: seq<nat>)
    requires Written(fp, members, attrs, from) && WrittenAs(fp, m, a)
    ensures Written(fp, [m] + members, [a] + attrs, [0] + Later(from))
  {
    hide WrittenAs, Vanishes, Later;
    var more, all, rest := [m] + members, [a] + attrs, Later(from);
    var late := [0] + rest;
    assert |rest| == |from| && forall k | 0 <= k < |rest| :: rest[k] == from[k] + 1;
    assert late[0] == 0 && forall k | 0 < k < |late| :: late[k] == rest[k - 1];
    forall k | 0 <= k < |late| ensures WrittenAs(fp, more[late[k]], all[k]) {
      if k > 0 {
        assert more[late[k]] == members[from[k - 1]] && all[k] == attrs[k - 1];
      }
    }
    forall i | 0 <= i < |more| && i !in late ensures Vanishes(more[i]) {
      assert 0 in late && i !in rest;
      NotLater(from, i - 1);
      assert more[i] == members[i - 1];
    }
  }

  lemma {:induction false} MembersWritten(fp: FloatingPoint, members: seq<Member>) returns (from: seq<nat>)
    requires AllWritable(fp, members) && AttrsOf(fp, members).Some?
    ensures Written(fp, members, AttrsOf(fp, members).value, from)
    decreases |members|
  {
    if members == [] {
      from := [];
    } else {
      var m, rest := members[0], members[1..];
      WritableRest(fp, members);
      from := MembersWritten(fp, rest);
      OneMemberWritten(fp, m);
      var attrs := AttrsOf(fp, rest).value;
      assert members == [m] + rest;
      match AttrOf(fp, m) {
        case None =>
          WrittenWithout(fp, m, rest, attrs, from);
          assert [] + attrs == attrs;
          from := Later(from);
        case Some(a) =>
          WrittenWith(fp, m, rest, a, attrs, from);
          from := [0] + Later(from);
      }
    }
  }

  /**
   The container of an object: for each member in order, a number's double, a boolean, a
   string, or the truncated numeric head of an array; nothing for the rest.  There is none
   exactly for what is not an object, or has an empty array.
   */
  lemma WrittenExactly(fp: FloatingPoint, put: Setter, json: Json) returns (from: seq<nat>)
    requires AppendsNew(put) && WritableObject(fp, json)
    ensures match Container(fp, put, json)
            case None => json.Object? ==> exists m :: m in json.members && m.value == Array([])
            case Some(attrs) =>
              && json.Object? && (forall m | m in json.members :: m.value != Array([]))
              && Written(fp, json.members, attrs, from)
  {
    from := [];
    if json.Object? {
      AttrsSet(fp, put, json.members);
      AttrsOfKept(fp, json.members);
      if AttrsOf(fp, json.members).Some? {
        from := MembersWritten(fp, json.members);
      } else {
        var i :| 0 <= i < |json.members| && json.members[i].value == Array([]);
        assert json.members[i] in json.members;
      }
    }
  }
}
