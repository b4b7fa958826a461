/**
  The closure exercise: `fibonacci`, `fibonacciReal` and `fibonacciReal2`
  each return a function whose two captured variables step through the
  Fibonacci numbers. Each closure is a class here: its captured variables
  are the fields, a call is `Next`. Go's `int` is taken to be 64 bits wide,
  so every addition wraps (`Int64`).
 */
module Closures {
  import opened GoBasics

  function Fib(n: nat): nat
  {
    if n < 2 then n else Fib(n - 1) + Fib(n - 2)
  }

  /** The value the generators return on call `k` (counting from 0): the
      Fibonacci number, as a 64-bit `int`. */
  function Output(k: nat): int
  {
    Int64(Fib(k))
  }

  /** One step of the captured pair: if it held the wrapped `(Fib(k),
      Fib(k+1))`, the wrapped sum is `Fib(k+2)`. */
  lemma Step(k: nat)
    ensures Int64(Output(k + 1) + Output(k)) == Output(k + 2)
  {
    Int64Add(Fib(k + 1), Fib(k));
  }

  /** The addition law `Fib(m+n+1) = Fib(m+1)Fib(n+1) + Fib(m)Fib(n)`. */
  lemma {:induction false} FibAdd(m: nat, n: nat)
    ensures Fib(m + n + 1) == Fib(m + 1) * Fib(n + 1) + Fib(m) * Fib(n)
  {
    if n == 0 {
      assert Fib(n + 1) == 1 && Fib(n) == 0;
    } else if n == 1 {
      Unfold(m);
      assert Fib(n + 1) == 1 && Fib(n) == 1;
    } else {
      var p := n - 2;
      FibAdd(m, p + 1);
      FibAdd(m, p);
      FibAddStep(m, p);
    }
  }

  lemma FibAddStep(m: nat, p: nat)
    requires Fib(m + p + 2) == Fib(m + 1) * Fib(p + 2) + Fib(m) * Fib(p + 1)
    requires Fib(m + p + 1) == Fib(m + 1) * Fib(p + 1) + Fib(m) * Fib(p)
    ensures Fib(m + p + 3) == Fib(m + 1) * Fib(p + 3) + Fib(m) * Fib(p + 2)
  {
    Unfold(m + p + 1);
    Unfold(p + 1);
    Unfold(p);
    Regroup(Fib(m + 1), Fib(m), Fib(p + 2), Fib(p + 1), Fib(p));
  }

  lemma Unfold(k: nat)
    ensures Fib(k + 2) == Fib(k + 1) + Fib(k)
  {
  }

  lemma Regroup(a: int, b: int, x: int, y: int, z: int)
    ensures (a * x + b * y) + (a * y + b * z) == a * (x + y) + b * (y + z)
  {
  }

  lemma {:induction false} FibMonotone(i: nat, j: nat)
    requires i <= j
    ensures Fib(i) <= Fib(j)
    decreases j - i
  {
    if i < j {
      FibMonotone(i + 1, j);
      assert Fib(i) <= Fib(i + 1) by {
        if i >= 1 { assert Fib(i + 1) == Fib(i) + Fib(i - 1); }
      }
    }
  }

  /** The doubling laws: from `Fib(n)` and `Fib(n+1)` to `Fib(2n)` and
      `Fib(2n+1)`. */
  lemma DoublingOdd(n: nat, a: nat, b: nat)
    requires Fib(n) == a && Fib(n + 1) == b
    ensures Fib(n + n + 1) == a * a + b * b
  {
    FibAdd(n, n);
  }

  lemma DoublingEven(n: nat, a: nat, b: nat)
    requires n >= 1 && Fib(n) == a && Fib(n + 1) == b
    ensures Fib(n + n) == a * b + (b - a) * a
  {
    var m := n - 1;
    FibAdd(m, n);
    assert Fib(n + 1) == Fib(n) + Fib(m);
  }

  /** Doubling from `Fib(5) = 5`, `Fib(6) = 8` via `n = 11` to `n = 23`. */
  lemma Fib24()
    ensures Fib(23) == 28657 && Fib(24) == 46368
  {
    DoublingEven(5, 5, 8);
    DoublingOdd(5, 5, 8);
    Unfold(10);
    DoublingEven(11, 89, 144);
    DoublingOdd(11, 89, 144);
    Unfold(22);
  }

  /** One more doubling, to `n = 46`. */
  lemma Fib47()
    ensures Fib(46) == 1836311903 && Fib(47) == 2971215073
  {
    Fib24();
    DoublingEven(23, 28657, 46368);
    DoublingOdd(23, 28657, 46368);
  }

  /** `Fib(92)` is the last Fibonacci number below 2^63. */
  lemma LargestInt64()
    ensures Fib(92) == 7540113804746346429 < TWO_63
    ensures Fib(93) == 12200160415121876738 >= TWO_63
  {
    Fib47();
    DoublingEven(46, 1836311903, 2971215073);
    DoublingOdd(46, 1836311903, 2971215073);
  }

  /** The first 93 calls (`k <= 92`) return the exact Fibonacci number; call
      93 is the first whose value has wrapped around. */
  lemma ExactUpTo92(k: nat)
    ensures k <= 92 ==> Output(k) == Fib(k)
    ensures k == 93 ==> Output(k) != Fib(k)
  {
    LargestInt64();
    if k <= 92 {
      FibMonotone(k, 92);
    }
  }

  /** `fibonacci()`: captures `last, new := 0, 1`. */
  class Fibonacci {
    var last: int
    /** `new` in the source (a keyword here). */
    var next: int
    /** Number of calls made so far. */
    ghost var calls: nat

    ghost predicate Valid()
      reads this
    {
      last == Output(calls) && next == Output(calls + 1)
    }

    constructor ()
      ensures Valid() && calls == 0
      ensures last == 0 && next == 1
    {
      last, next := 0, 1;
      calls := 0;
    }

    /** The closure body: `temp := new + last; old := last; last = new;
        new = temp; return old`. */
    method Next() returns (v: int)
      requires Valid()
      modifies this
      ensures Valid() && calls == old(calls) + 1
      ensures v == old(last) && v == Output(old(calls))
      ensures last == old(next)
    {
      Step(calls);
      var temp := Int64(next + last);
      var prev := last;
      last := next;
      next := temp;
      calls := calls + 1;
      v := prev;
    }
  }

  /** `fibonacciReal()`: captures `total, nextTotal := 0, 1`. */
  class FibonacciReal {
    var total: int
    var nextTotal: int
    ghost var calls: nat

    ghost predicate Valid()
      reads this
    {
      total == Output(calls) && nextTotal == Output(calls + 1)
    }

    constructor ()
      ensures Valid() && calls == 0
      ensures total == 0 && nextTotal == 1
    {
      total, nextTotal := 0, 1;
      calls := 0;
    }

    /** `result := total; total, nextTotal = nextTotal, nextTotal+result`. */
    method Next() returns (result: int)
      requires Valid()
      modifies this
      ensures Valid() && calls == old(calls) + 1
      ensures result == old(total) && result == Output(old(calls))
      ensures total == old(nextTotal)
    {
      Step(calls);
      result := total;
      total, nextTotal := nextTotal, Int64(nextTotal + result);
      calls := calls + 1;
    }
  }

  /** `fibonacciReal2()`: captures `x, y = 0, 1`. */
  class FibonacciReal2 {
    var x: int
    var y: int
    ghost var calls: nat

    ghost predicate Valid()
      reads this
    {
      x == Output(calls) && y == Output(calls + 1)
    }

    constructor ()
      ensures Valid() && calls == 0
      ensures x == 0 && y == 1
    {
      x, y := 0, 1;
      calls := 0;
    }

    /** `z, x, y = x, y, x+y`. */
    method Next() returns (z: int)
      requires Valid()
      modifies this
      ensures Valid() && calls == old(calls) + 1
      ensures z == old(x) && z == Output(old(calls))
      ensures x == old(y)
    {
      Step(calls);
      z, x, y := x, y, Int64(x + y);
      calls := calls + 1;
    }
  }

  /** Calls a fresh `fibonacci()` generator `n` times; the values are the
      Fibonacci numbers from `Fib(0)`. */
  method RunFibonacci(n: nat) returns (a: seq<int>)
    ensures |a| == n && forall k :: 0 <= k < n ==> a[k] == Output(k)
  {
    var f := new Fibonacci();
    a := [];
    for i := 0 to n
      invariant f.Valid() && f.calls == i
      invariant |a| == i && forall k :: 0 <= k < i ==> a[k] == Output(k)
    {
      var v := f.Next();
      a := a + [v];
    }
  }

  /** Calls a fresh `fibonacciReal()` generator `n` times; the values are the
      Fibonacci numbers from `Fib(0)`. */
  method RunFibonacciReal(n: nat) returns (a: seq<int>)
    ensures |a| == n && forall k :: 0 <= k < n ==> a[k] == Output(k)
  {
    var f := new FibonacciReal();
    a := [];
    for i := 0 to n
      invariant f.Valid() && f.calls == i
      invariant |a| == i && forall k :: 0 <= k < i ==> a[k] == Output(k)
    {
      var v := f.Next();
      a := a + [v];
    }
  }

  /** Calls a fresh `fibonacciReal2()` generator `n` times; the values are the
      Fibonacci numbers from `Fib(0)`. */
  method RunFibonacciReal2(n: nat) returns (a: seq<int>)
    ensures |a| == n && forall k :: 0 <= k < n ==> a[k] == Output(k)
  {
    var f := new FibonacciReal2();
    a := [];
    for i := 0 to n
      invariant f.Valid() && f.calls == i
      invariant |a| == i && forall k :: 0 <= k < i ==> a[k] == Output(k)
    {
      var v := f.Next();
      a := a + [v];
    }
  }

  /** The three generators return the same values. */
  method VariantsAgree(n: nat) returns (a: seq<int>, b: seq<int>, c: seq<int>)
    ensures a == b == c
    ensures |a| == n && forall k :: 0 <= k < n ==> a[k] == Output(k)
  {
    a := RunFibonacci(n);
    b := RunFibonacciReal(n);
    c := RunFibonacciReal2(n);
  }

  /** An example of separate constructor calls capturing separate state:
      advancing one generator twice leaves another at its start. In general
      this follows from `Next` modifying only its own object and each
      constructor allocating a fresh one. */
  method Independent() returns (first: int, second: int)
    ensures first == 1 && second == 0
  {
    var f := new Fibonacci();
    var g := new Fibonacci();
    var _ := f.Next();
    first := f.Next();
    second := g.Next();
  }

  /** The ten values the program prints. */
  method FirstTen() returns (out: seq<int>)
    ensures out == [0, 1, 1, 2, 3, 5, 8, 13, 21, 34]
  {
    out := RunFibonacci(10);
    assert Output(0) == 0 && Output(1) == 1 && Output(2) == 1 && Output(3) == 2 && Output(4) == 3;
    assert Output(5) == 5 && Output(6) == 8 && Output(7) == 13 && Output(8) == 21 && Output(9) == 34;
  }
}
