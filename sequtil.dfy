/** Small sequence functions shared by the tokenizer, the corpus loader and the index. */
module SeqUtil {

  /** Number of occurrences of `x` in `s`. */
  function Count<T(==)>(x: T, s: seq<T>): nat
    decreases |s|
  {
    if s == [] then 0 else Count(x, s[..|s| - 1]) + (if s[|s| - 1] == x then 1 else 0)
  }

  /** `x` repeated `n` times. */
  function Repeat<T>(x: T, n: nat): seq<T>
  {
    if n == 0 then [] else Repeat(x, n - 1) + [x]
  }

  /** Concatenation of all the pieces of `ss`, left to right. */
  function Flatten<T>(ss: seq<seq<T>>): seq<T>
    decreases |ss|
  {
    if ss == [] then [] else ss[0] + Flatten(ss[1..])
  }

  lemma {:induction false} CountAppend<T>(x: T, a: seq<T>, b: seq<T>)
    ensures Count(x, a + b) == Count(x, a) + Count(x, b)
    decreases |b|
  {
    if b == [] {
      assert a + b == a;
    } else {
      var b' := b[..|b| - 1];
      assert (a + b)[..|a + b| - 1] == a + b';
      CountAppend(x, a, b');
    }
  }

  lemma {:induction false} CountZero<T>(x: T, s: seq<T>)
    ensures Count(x, s) == 0 <==> x !in s
    decreases |s|
  {
    if s != [] {
      var s' := s[..|s| - 1];
      CountZero(x, s');
      assert s == s' + [s[|s| - 1]];
    }
  }

  lemma {:induction false} RepeatFacts<T>(x: T, n: nat)
    ensures |Repeat(x, n)| == n
    ensures forall y :: y in Repeat(x, n) ==> y == x
    ensures Count(x, Repeat(x, n)) == n
  {
    if n > 0 {
      RepeatFacts(x, n - 1);
      assert Repeat(x, n)[..n - 1] == Repeat(x, n - 1);
    }
  }

  /** An element found only in the left part of `a + b` sits before one found only in the right part. */
  lemma ConcatSides<T>(a: seq<T>, b: seq<T>, x: T, y: T, p: nat, q: nat)
    requires x !in b && y !in a
    requires p < |a + b| && q < |a + b| && (a + b)[p] == x && (a + b)[q] == y
    ensures p < |a| <= q
  {
  }
}
