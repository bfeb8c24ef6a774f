/** Small facts about sequences shared by the line and word counters. */
module Seqs {

  /** Number of occurrences of x in s. */
  function Count<T(==)>(x: T, s: seq<T>): (r: nat)
    ensures r <= |s|
    ensures r == 0 <==> x !in s
  {
    if s == [] then 0 else (if s[0] == x then 1 else 0) + Count(x, s[1..])
  }

  lemma {:induction false} CountAppend<T>(x: T, a: seq<T>, b: seq<T>)
    ensures Count(x, a + b) == Count(x, a) + Count(x, b)
  {
    if a != [] {
      assert (a + b)[1..] == a[1..] + b;
      CountAppend(x, a[1..], b);
    } else {
      assert a + b == b;
    }
  }

  /** The concatenation of all pieces, in order. */
  function Concat<T>(ss: seq<seq<T>>): seq<T>
  {
    if ss == [] then [] else ss[0] + Concat(ss[1..])
  }

  lemma ConcatCons<T>(s: seq<T>, ss: seq<seq<T>>)
    ensures Concat([s] + ss) == s + Concat(ss)
  {
    assert ([s] + ss)[1..] == ss;
  }
}
