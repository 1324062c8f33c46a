/** The two filter stages of main.go, run sequentially over the values they
    receive: the positive filter (negativeFilterStageInt) and the
    multiple-of-three filter (notDivideThreeFunc). */
module Filters {
  import opened Subsequence

  /** Go's integer quotient: division truncated toward zero (-7 / 3 == -2). */
  function GoQuot(a: int, b: int): (q: int)
    requires b != 0
  {
    var m := if b > 0 then b else -b;
    var t := if a >= 0 then a / m else -((-a) / m);
    if b > 0 then t else -t
  }

  /** Go's integer remainder: `a == GoQuot(a, b) * b + r`, so the result takes
      the sign of the dividend (-7 % 3 == -1). A zero divisor panics in Go. */
  function GoRem(a: int, b: int): (r: int)
    requires b != 0
    ensures a == GoQuot(a, b) * b + r
    ensures (if b > 0 then -b < r < b else b < r < -b)
    ensures a >= 0 ==> r >= 0
    ensures a < 0 ==> r <= 0
  {
    var m := if b > 0 then b else -b;
    if a >= 0 then a % m else -((-a) % m)
  }

  /** The predicate of negativeFilterStageInt. */
  predicate Positive(v: int)
  {
    v > 0
  }

  /** The predicate of notDivideThreeFunc, with Go's `%`. Go's truncated
      remainder and the mathematical one agree on divisibility by three,
      negative values included. */
  predicate DividesByThree(v: int): (b: bool)
    ensures b <==> v % 3 == 0
    ensures b <==> GoRem(-v, 3) == 0
  {
    GoRem(v, 3) == 0
  }

  /** The values of `s` that satisfy `keep`, in their original order. */
  function Filter(s: seq<int>, keep: int -> bool): (r: seq<int>)
    ensures |r| <= |s|
    ensures forall x :: x in r <==> x in s && keep(x)
  {
    if s == [] then []
    else if keep(s[0]) then [s[0]] + Filter(s[1..], keep)
    else Filter(s[1..], keep)
  }

  /** Filtering distributes over concatenation: the stage decides each value on
      its own, whatever came before it. */
  lemma {:induction false} FilterAppend(a: seq<int>, b: seq<int>, keep: int -> bool)
    ensures Filter(a + b, keep) == Filter(a, keep) + Filter(b, keep)
    decreases |a|
  {
    if a == [] {
      assert a + b == b;
    } else {
      FilterAppend(a[1..], b, keep);
      assert (a + b)[0] == a[0];
      assert (a + b)[1..] == a[1..] + b;
      if keep(a[0]) {
        calc {
          Filter(a + b, keep);
          [a[0]] + Filter(a[1..] + b, keep);
          [a[0]] + (Filter(a[1..], keep) + Filter(b, keep));
          ([a[0]] + Filter(a[1..], keep)) + Filter(b, keep);
        }
      }
    }
  }

  /** A filter only drops values: its output is an order-preserving subsequence
      of its input. */
  lemma {:induction false} FilterIsSubsequence(s: seq<int>, keep: int -> bool)
    ensures IsSubseq(Filter(s, keep), s)
    decreases |s|
  {
    if s != [] {
      FilterIsSubsequence(s[1..], keep);
      var rest := Filter(s[1..], keep);
      if keep(s[0]) {
        assert ([s[0]] + rest)[1..] == rest;
      } else if rest != [] {
        assert IsSubseq(rest, s[1..]);
      }
    }
  }

  /** Two filters in a row keep exactly the values that pass both predicates. */
  lemma {:induction false} FilterCompose(s: seq<int>, p: int -> bool, q: int -> bool)
    ensures Filter(Filter(s, p), q) == Filter(s, x => p(x) && q(x))
    decreases |s|
  {
    if s != [] {
      FilterCompose(s[1..], p, q);
      if p(s[0]) {
        assert ([s[0]] + Filter(s[1..], p))[1..] == Filter(s[1..], p);
      }
    }
  }

  /** The loop of a filter stage over the values it receives before shutdown:
      each value that satisfies `keep` is forwarded, the rest are dropped. */
  method FilterStage(input: seq<int>, keep: int -> bool) returns (forwarded: seq<int>)
    ensures forwarded == Filter(input, keep)
  {
    forwarded := [];
    for i := 0 to |input|
      invariant forwarded == Filter(input[..i], keep)
    {
      var data := input[i];
      if keep(data) {
        forwarded := forwarded + [data];
      }
      FilterAppend(input[..i], [data], keep);
      assert Filter([data], keep) == if keep(data) then [data] else [] by {
        assert [data][1..] == [];
      }
      assert input[..i + 1] == input[..i] + [data];
    }
    assert input[..|input|] == input;
  }

  /** negativeFilterStageInt: forwards v exactly when v > 0, in arrival order. */
  method NegativeFilterStage(input: seq<int>) returns (forwarded: seq<int>)
    ensures forwarded == Filter(input, Positive)
    ensures forall x :: x in forwarded <==> x in input && x > 0
    ensures IsSubseq(forwarded, input)
  {
    forwarded := FilterStage(input, Positive);
    FilterIsSubsequence(input, Positive);
  }

  /** notDivideThreeFunc: forwards v exactly when v % 3 == 0, in arrival order. */
  method NotDivideThreeStage(input: seq<int>) returns (forwarded: seq<int>)
    ensures forwarded == Filter(input, DividesByThree)
    ensures forall x :: x in forwarded <==> x in input && x % 3 == 0
    ensures IsSubseq(forwarded, input)
  {
    forwarded := FilterStage(input, DividesByThree);
    FilterIsSubsequence(input, DividesByThree);
  }
}
