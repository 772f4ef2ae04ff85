/** Small facts about sequences shared by the other modules. */
module Seqs {

  datatype Option<+T> = None | Some(value: T) {
    /** No element, or one. */
    function ToSeq(): seq<T> {
      if Some? then [value] else []
    }
  }

  lemma ConsAppend<T>(s: seq<T>, t: seq<T>)
    requires s != []
    ensures [s[0]] + (s[1..] + t) == s + t
    ensures (s + t)[1..] == s[1..] + t
  {
  }

  lemma Associates<T>(s: seq<T>, t: seq<T>, u: seq<T>)
    ensures (s + t) + u == s + (t + u)
  {
  }

  /** Moving the first element of `t` over to `s`. */
  lemma MoveFirst<T>(s: seq<T>, t: seq<T>, n: nat)
    requires 0 < n <= |t|
    ensures (s + [t[0]]) + t[1..][..n - 1] == s + t[..n]
  {
  }

  /** Moving on from position `i` of `t`. */
  lemma MoveOn<T>(s: seq<T>, t: seq<T>, i: nat)
    requires i < |t|
    ensures (s + t[..i]) + [t[i]] == s + t[..i + 1]
    ensures t[i..][0] == t[i] && t[i..][1..] == t[i + 1..]
  {
  }

  ghost predicate Distinct<T>(s: seq<T>) {
    forall i, j | 0 <= i < j < |s| :: s[i] != s[j]
  }

  /** `s` without its element at `k`. */
  function Without<T>(s: seq<T>, k: nat): (r: seq<T>)
    requires k < |s|
    ensures |r| == |s| - 1
  {
    s[..k] + s[k + 1..]
  }

  lemma DistinctInsert<T>(s: seq<T>, k: nat, x: T)
    requires Distinct(s) && k <= |s| && x !in s
    ensures Distinct(s[..k] + [x] + s[k..])
  {
  }

  lemma DistinctUpdate<T>(s: seq<T>, k: nat, x: T)
    requires Distinct(s) && k < |s| && x !in s
    ensures s[k := x] == s[..k] + [x] + s[k + 1..] && Distinct(s[k := x])
  {
  }

  lemma DistinctWithout<T>(s: seq<T>, k: nat)
    requires Distinct(s) && k < |s|
    ensures Distinct(Without(s, k))
  {
  }

  lemma DistinctConcat<T>(s: seq<T>, t: seq<T>)
    requires Distinct(s) && Distinct(t) && forall x | x in s :: x !in t
    ensures Distinct(s + t)
  {
    forall i, j | 0 <= i < j < |s + t| ensures (s + t)[i] != (s + t)[j] {
      if i < |s| <= j {
        assert s[i] in s && t[j - |s|] in t;
      }
    }
  }

  lemma SameRest<T>(s: seq<T>, t: seq<T>, u: seq<T>)
    requires s + t == s + u
    ensures t == u
  {
    assert t == (s + t)[|s|..] && u == (s + u)[|s|..];
  }
}
