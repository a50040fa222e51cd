/**
 * The memoised Fibonacci function of `problems/20190814-fibonacci.js`. The
 * memo is the module-level `results` map; here it is the field of a `Memo`
 * object, and `Fib` reads and extends it as the program does.
 */
module Fibonacci {

  /** The Fibonacci recurrence: 0, 1, then the sum of the two before. */
  function FibNumber(n: nat): nat {
    if n < 2 then n else FibNumber(n - 1) + FibNumber(n - 2)
  }

  /** The value the program prints, `fib(10)`. */
  lemma FibTen()
    ensures FibNumber(10) == 55
  {
  }

  class Memo {
    /** `results`: already computed Fibonacci numbers by index. */
    var results: map<int, int>

    /** Only indices from 2 on are stored, each with its Fibonacci number. */
    ghost predicate Valid()
      reads this
    {
      forall k :: k in results ==> k >= 2 && results[k] == FibNumber(k)
    }

    /** `new Map()`. */
    constructor()
      ensures results == map[]
      ensures Valid()
    {
      results := map[];
    }

    /**
     * `fib(n)`: a stored value is returned as it is; 0 and 1 are returned
     * unstored; any other index is computed from the two before it and
     * stored. A negative index never reaches either base case, so it is
     * excluded.
     */
    method Fib(n: int) returns (r: int)
      requires n >= 0
      requires Valid()
      modifies this
      ensures Valid()
      ensures r == FibNumber(n)
      ensures n in old(results) || n < 2 ==> results == old(results)
      ensures n >= 2 ==> n in results
      ensures forall k :: k in old(results) ==> k in results
      ensures forall k :: k in results ==> k in old(results) || 2 <= k <= n
      decreases n
    {
      if n in results {
        return results[n];
      }
      if n == 0 || n == 1 {
        return n;
      }
      var a := Fib(n - 1);
      var b := Fib(n - 2);
      var fn := a + b;
      results := results[n := fn];
      return fn;
    }
  }
}
