/**
 * The greedy subset-sum check of `problems/20190806-summation.js`: does some
 * part of the candidates add up to the target? The program answers with a
 * chain of early exits, then commits to the first candidate that does not
 * exceed the target and recurses on the candidates after it.
 *
 * `Greedy` is that procedure as a function and `IsSolvable` the program's
 * own method; `Solvable` is an exhaustive reference decision. Every "yes" of
 * the greedy procedure is right (`GreedySound`), but it can say "no" when the
 * answer is yes (`GreedyMissesSolution`).
 */
module Summation {
  import opened Results

  /** The total of the candidates, as `reduce` with `+` computes it. */
  function Sum(c: seq<int>): int {
    if c == [] then 0 else c[0] + Sum(c[1..])
  }

  /** The total of the candidates that `sel` picks. */
  function Picked(c: seq<int>, sel: seq<bool>): int
    requires |sel| == |c|
  {
    if c == [] then 0 else (if sel[0] then c[0] else 0) + Picked(c[1..], sel[1..])
  }

  /** Some part of the candidates (possibly none of them) adds up to `target`. */
  ghost predicate HasSubsetSum(c: seq<int>, target: int) {
    exists sel :: |sel| == |c| && Picked(c, sel) == target
  }

  /** Exhaustive decision: each candidate is either left out or taken. */
  function Solvable(c: seq<int>, target: int): bool {
    if c == [] then target == 0 else Solvable(c[1..], target) || Solvable(c[1..], target - c[0])
  }

  /** The exhaustive decision says yes exactly when some part of the candidates sums to the target. */
  lemma {:induction false} SolvableIff(c: seq<int>, target: int)
    ensures Solvable(c, target) <==> HasSubsetSum(c, target)
  {
    if c == [] {
      if target == 0 {
        assert Picked(c, []) == 0;
      }
    } else {
      SolvableIff(c[1..], target);
      SolvableIff(c[1..], target - c[0]);
      if Solvable(c, target) {
        var t := if Solvable(c[1..], target) then target else target - c[0];
        var sel :| |sel| == |c| - 1 && Picked(c[1..], sel) == t;
        var s := [t != target] + sel;
        assert s[1..] == sel;
        assert Picked(c, s) == target;
      }
      if HasSubsetSum(c, target) {
        var sel :| |sel| == |c| && Picked(c, sel) == target;
        assert Picked(c[1..], sel[1..]) == (if sel[0] then target - c[0] else target);
      }
    }
  }

  /**
   * The first index whose candidate does not exceed `target`, if any: the
   * scan of lines 52-60. Nothing before it qualifies.
   */
  function FirstAtMost(c: seq<int>, target: int): (k: Option<nat>)
    ensures k.Some? ==> k.value < |c| && c[k.value] <= target
    ensures k.Some? ==> forall i :: 0 <= i < k.value ==> c[i] > target
    ensures k.None? ==> forall i :: 0 <= i < |c| ==> c[i] > target
  {
    if c == [] then None
    else if c[0] <= target then Some(0)
    else match FirstAtMost(c[1..], target) {
      case None => None
      case Some(k) => Some(k + 1)
    }
  }

  /** `isSolvable`, as the program decides it. */
  function Greedy(c: seq<int>, target: int): bool
    decreases |c|
  {
    if c == [] then false
    else if Sum(c) < target then false
    else if Sum(c) == target then true
    else match FirstAtMost(c, target) {
      case None => false
      case Some(i) => c[i] == target || Greedy(c[i + 1..], target - c[i])
    }
  }

  /** `isSolvable(candidates, target)`: the early exits, the scan for a candidate, the recursion. */
  method IsSolvable(candidates: seq<int>, target: int) returns (solvable: bool)
    ensures solvable == Greedy(candidates, target)
    ensures solvable ==> HasSubsetSum(candidates, target)
    decreases |candidates|
  {
    GreedySound(candidates, target);
    SolvableIff(candidates, target);
    if |candidates| == 0 {
      return false;
    }
    var allNumberSum := Sum(candidates);
    if allNumberSum < target {
      return false;
    }
    if allNumberSum == target {
      return true;
    }
    var i := 0;
    var candidate: Option<int> := None;
    while i < |candidates|
      invariant 0 <= i <= |candidates|
      invariant forall k :: 0 <= k < i ==> candidates[k] > target
    {
      if candidates[i] <= target {
        candidate := Some(candidates[i]);
        break;
      }
      i := i + 1;
    }
    if candidate.None? {
      assert FirstAtMost(candidates, target).None?;
      return false;
    }
    assert FirstAtMost(candidates, target) == Some(i);
    if candidate.value == target {
      return true;
    }
    var nextTarget := target - candidate.value;
    var nextCandidates := candidates[i + 1..];
    solvable := IsSolvable(nextCandidates, nextTarget);
  }

  /** Every candidate may be left out: the empty part sums to 0. */
  lemma {:induction false} SolvableZero(c: seq<int>)
    ensures Solvable(c, 0)
  {
    if c != [] {
      SolvableZero(c[1..]);
    }
  }

  /** Taking every candidate reaches their total. */
  lemma {:induction false} SolvableAll(c: seq<int>)
    ensures Solvable(c, Sum(c))
  {
    if c != [] {
      SolvableAll(c[1..]);
    }
  }

  /** A part of a suffix is a part of the whole list. */
  lemma {:induction false} SolvableSuffix(c: seq<int>, k: nat, target: int)
    requires k <= |c|
    requires Solvable(c[k..], target)
    ensures Solvable(c, target)
  {
    if k > 0 {
      assert c[1..][k - 1..] == c[k..];
      SolvableSuffix(c[1..], k - 1, target);
    }
  }

  /** Soundness: a "yes" from the greedy procedure is always right. */
  lemma {:induction false} GreedySound(c: seq<int>, target: int)
    ensures Greedy(c, target) ==> Solvable(c, target)
    decreases |c|
  {
    if c != [] && Sum(c) > target {
      match FirstAtMost(c, target) {
        case None =>
        case Some(i) =>
          assert c[i..][1..] == c[i + 1..];
          if c[i] == target {
            SolvableZero(c[i + 1..]);
          } else {
            GreedySound(c[i + 1..], target - c[i]);
          }
          if Greedy(c, target) {
            SolvableSuffix(c, i, target);
          }
      }
    } else if c != [] && Sum(c) == target {
      SolvableAll(c);
    }
  }

  /**
   * Incompleteness: from 3, 2, 2 the procedure commits to 3 and is left
   * with 2, 2 for the target 1, although 2 + 2 makes 4.
   */
  lemma GreedyMissesSolution()
    ensures !Greedy([3, 2, 2], 4)
    ensures HasSubsetSum([3, 2, 2], 4)
  {
    var c := [3, 2, 2];
    assert c[1..] == [2, 2] && c[1..][1..] == [2];
    assert FirstAtMost(c, 4) == Some(0);
    assert FirstAtMost([2, 2], 1) == None;
    assert Picked(c, [false, true, true]) == 4;
  }

  /** The two samples of the program's header, candidates in the descending order its driver uses. */
  lemma DocumentedSamples()
    ensures Greedy([7, 4, 2, 1], 13)
    ensures !Greedy([100, 1], 20)
  {
    var c := [7, 4, 2, 1];
    assert c[1..] == [4, 2, 1] && c[1..][1..] == [2, 1];
    assert FirstAtMost(c, 13) == Some(0);
    assert FirstAtMost([4, 2, 1], 6) == Some(0);
    assert FirstAtMost([2, 1], 2) == Some(0);
    assert Greedy([2, 1], 2);
    assert Greedy([4, 2, 1], 6);
    var d := [100, 1];
    assert d[1..] == [1] && d[2..] == [];
    assert FirstAtMost(d, 20) == Some(1);
  }
}
