/** When the one pass of `init_get_mem_atag` (source/mach/vexpress_a9/init/vexpress_init.c) finds
    the largest run of adjacent memory regions.

    A run is a stretch of the list in which every region starts where the one before it ends. The
    pass follows a run to its end once it holds the run's first region; it takes that region when
    it continues what is held, or when it is larger.
 */
module AtagRuns {
  import opened Bits
  import opened Types
  import opened Atag

  /** Regions a..b-1 lie end to end. */
  ghost predicate IsRun(regs: seq<MmReg>, a: nat, b: nat) {
    && a < b <= |regs|
    && forall i :: a <= i < b - 1 ==> Adjacent(regs, i)
  }

  predicate Adjacent(regs: seq<MmReg>, i: nat)
    requires i + 1 < |regs|
  {
    regs[i].base + regs[i].size == regs[i + 1].base
  }

  function Sum(regs: seq<MmReg>, a: nat, b: nat): nat
    requires a <= b <= |regs|
  {
    if a == b then 0 else Sum(regs, a, b - 1) + regs[b - 1].size
  }

  /** What the pass holds after the first `k` regions. */
  function Held(regs: seq<MmReg>, k: nat): MmReg
    requires 0 < k <= |regs|
  {
    if k == 1 then regs[0] else Pick(Held(regs, k - 1), regs[k - 1])
  }

  lemma {:induction false} HeldIsPickAll(regs: seq<MmReg>, k: nat)
    requires 0 < k <= |regs|
    ensures PickAll(Held(regs, k), regs[k..]) == PickAll(regs[0], regs[1..])
  {
    if k > 1 {
      HeldIsPickAll(regs, k - 1);
      assert regs[k - 1..][1..] == regs[k..];
    }
  }

  /** The region that `init_get_mem_atag` answers. */
  function Chosen(regs: seq<MmReg>): MmReg
    requires regs != []
  {
    Held(regs, |regs|)
  }

  lemma ChosenIsPickAll(regs: seq<MmReg>)
    requires regs != []
    ensures PickAll(regs[0], regs[1..]) == Chosen(regs)
  {
    HeldIsPickAll(regs, |regs|);
    assert regs[|regs|..] == [];
  }

  /** The guard of the branch that drops what is held for region `a`. */
  predicate Replaces(regs: seq<MmReg>, a: nat)
    requires a < |regs|
  {
    a == 0 || Held(regs, a).size < regs[a].size
  }

  /** One of the branches takes region `a`. */
  predicate TakesOver(regs: seq<MmReg>, a: nat)
    requires a < |regs|
  {
    Replaces(regs, a) || Held(regs, a).base + Held(regs, a).size == regs[a].base
  }

  /** One step without wrap-around. */
  lemma PickCases(fnd: MmReg, reg: MmReg)
    requires fnd.base + fnd.size < WORD_LIMIT && reg.base + reg.size < WORD_LIMIT
    ensures fnd.base + fnd.size == reg.base ==> Pick(fnd, reg) == MmReg(fnd.base, fnd.size + reg.size)
    ensures fnd.base + fnd.size != reg.base && fnd.size < reg.size ==> Pick(fnd, reg) == reg
    ensures fnd.base + fnd.size != reg.base && fnd.size >= reg.size ==> Pick(fnd, reg) == fnd
  {
  }

  lemma {:induction false} HeldInRange(regs: seq<MmReg>, k: nat)
    requires NoWrap(regs) && 0 < k <= |regs|
    ensures Held(regs, k).base + Held(regs, k).size < WORD_LIMIT
  {
    assert regs[k - 1] in regs;
    if k > 1 {
      HeldInRange(regs, k - 1);
      PickCases(Held(regs, k - 1), regs[k - 1]);
    }
  }

  /** What region `k` does to what is held. */
  lemma HeldStep(regs: seq<MmReg>, k: nat)
    requires NoWrap(regs) && 0 < k < |regs|
    ensures var fnd, reg, next := Held(regs, k), regs[k], Held(regs, k + 1);
            next == if fnd.base + fnd.size == reg.base then MmReg(fnd.base, fnd.size + reg.size)
                    else if fnd.size < reg.size then reg
                    else fnd
  {
    assert regs[k] in regs;
    HeldInRange(regs, k);
    HeldInRange(regs, k + 1);
    PickCases(Held(regs, k), regs[k]);
  }

  lemma SumOfOne(regs: seq<MmReg>, a: nat)
    requires a < |regs|
    ensures Sum(regs, a, a + 1) == regs[a].size
  {
    assert Sum(regs, a, a + 1) == Sum(regs, a, a) + regs[a].size;
  }

  lemma {:induction false} HeldBelowSum(regs: seq<MmReg>, k: nat)
    requires NoWrap(regs) && 0 < k <= |regs|
    ensures Held(regs, k).size <= Sum(regs, 0, k)
  {
    if k == 1 {
      SumOfOne(regs, 0);
    } else {
      HeldBelowSum(regs, k - 1);
      HeldStep(regs, k - 1);
    }
  }

  lemma {:induction false} HeldGrows(regs: seq<MmReg>, k: nat, n: nat)
    requires NoWrap(regs) && 0 < k <= n <= |regs|
    ensures Held(regs, k).size <= Held(regs, n).size
    decreases n
  {
    if k < n {
      HeldGrows(regs, k, n - 1);
      HeldStep(regs, n - 1);
    }
  }

  lemma FirstTaken(regs: seq<MmReg>, a: nat)
    requires NoWrap(regs) && a < |regs| && TakesOver(regs, a)
    ensures var h := Held(regs, a + 1);
            h.size >= regs[a].size && h.base + h.size == regs[a].base + regs[a].size
  {
    if a > 0 { HeldStep(regs, a); }
  }

  /** A run whose first region is taken is followed to its end. */
  lemma {:induction false} RunIsFollowed(regs: seq<MmReg>, a: nat, b: nat)
    requires NoWrap(regs) && IsRun(regs, a, b) && TakesOver(regs, a)
    ensures Held(regs, b).size >= Sum(regs, a, b)
    ensures Held(regs, b).base + Held(regs, b).size == regs[b - 1].base + regs[b - 1].size
    decreases b
  {
    if b == a + 1 {
      FirstTaken(regs, a);
      SumOfOne(regs, a);
    } else {
      RunIsFollowed(regs, a, b - 1);
      assert Adjacent(regs, b - 2);
      HeldStep(regs, b - 1);
    }
  }

  /** So the answer is at least as large as every run whose first region is taken. */
  lemma TakenRunsReached(regs: seq<MmReg>, a: nat, b: nat)
    requires NoWrap(regs) && IsRun(regs, a, b) && TakesOver(regs, a)
    ensures Chosen(regs).size >= Sum(regs, a, b)
  {
    RunIsFollowed(regs, a, b);
    HeldGrows(regs, b, |regs|);
  }

  /** The answer is at least as large as every run. */
  ghost predicate FindsLargest(regs: seq<MmReg>)
    requires regs != []
  {
    forall a, b :: IsRun(regs, a, b) ==> Chosen(regs).size >= Sum(regs, a, b)
  }

  // ----- a condition on the list alone

  /** A run of several regions begins at `a` and cannot be extended to the left. */
  predicate RunStart(regs: seq<MmReg>, a: nat) {
    && a + 1 < |regs| && Adjacent(regs, a)
    && (a > 0 ==> !Adjacent(regs, a - 1))
  }

  /** Every run of several regions is first in the list or begins with a region larger than all
      the regions before it together. */
  ghost predicate FrontLoaded(regs: seq<MmReg>) {
    forall a :: 0 < a && RunStart(regs, a) ==> regs[a].size > Sum(regs, 0, a)
  }

  lemma {:induction false} RunBegins(regs: seq<MmReg>, a: nat, b: nat) returns (s: nat)
    requires IsRun(regs, a, b)
    ensures s <= a && IsRun(regs, s, b) && (s > 0 ==> !Adjacent(regs, s - 1))
    ensures Sum(regs, s, b) >= Sum(regs, a, b)
  {
    if a > 0 && Adjacent(regs, a - 1) {
      SumLonger(regs, a - 1, b);
      s := RunBegins(regs, a - 1, b);
    } else {
      s := a;
    }
  }

  lemma {:induction false} SumLonger(regs: seq<MmReg>, a: nat, b: nat)
    requires a < b <= |regs|
    ensures Sum(regs, a, b) == regs[a].size + Sum(regs, a + 1, b)
  {
    if b > a + 1 {
      SumLonger(regs, a, b - 1);
    } else {
      SumOfOne(regs, a);
    }
  }

  /** On such a list the pass finds the largest run, in whatever order the regions lie in memory. */
  lemma FrontLoadedFindsLargest(regs: seq<MmReg>)
    requires regs != [] && NoWrap(regs) && FrontLoaded(regs)
    ensures FindsLargest(regs)
  {
    forall a, b | IsRun(regs, a, b) ensures Chosen(regs).size >= Sum(regs, a, b) {
      var s := RunBegins(regs, a, b);
      if b == s + 1 {
        ChosenIsPickAll(regs);
        ChosenRegion(regs);
        SumOfOne(regs, s);
        assert regs[s] in regs;
      } else {
        assert Adjacent(regs, s);
        if s > 0 {
          assert RunStart(regs, s);
          HeldBelowSum(regs, s);
        }
        TakenRunsReached(regs, s, b);
      }
    }
  }

  // ----- exactly when, for lists in address order

  /** In address order, without overlap. */
  predicate Ascending(regs: seq<MmReg>) {
    forall i :: 0 < i < |regs| ==> Before(regs, i)
  }

  predicate Before(regs: seq<MmReg>, i: nat)
    requires 0 < i < |regs|
  {
    regs[i - 1].base + regs[i - 1].size <= regs[i].base
  }

  lemma {:induction false} AscendingEnds(regs: seq<MmReg>, i: nat, j: nat)
    requires Ascending(regs) && i < j < |regs|
    ensures regs[i].base + regs[i].size <= regs[j].base
    decreases j
  {
    assert Before(regs, j);
    if j > i + 1 {
      AscendingEnds(regs, i, j - 1);
    }
  }

  /** After `k` regions the pass holds the run a..b-1. */
  ghost predicate Holds(regs: seq<MmReg>, k: nat, a: nat, b: nat)
    requires 0 < k <= |regs|
  {
    && IsRun(regs, a, b) && b <= k && Replaces(regs, a)
    && Held(regs, k).size == Sum(regs, a, b)
    && Held(regs, k).base + Held(regs, k).size == regs[b - 1].base + regs[b - 1].size
  }

  lemma HoldsNext(regs: seq<MmReg>, k: nat, a: nat, b: nat) returns (a': nat, b': nat)
    requires NoWrap(regs) && Ascending(regs) && 0 < k < |regs| && Holds(regs, k, a, b)
    ensures Holds(regs, k + 1, a', b')
  {
    var held, reg := Held(regs, k), regs[k];
    HeldStep(regs, k);
    a', b' := a, b;
    if held.base + held.size == reg.base {
      RunReaches(regs, a, b, k);
      b' := k + 1;
    } else if held.size < reg.size {
      a', b' := k, k + 1;
      SumOfOne(regs, k);
    }
  }

  /** What is held is always a run, kept since its first region replaced what was held before. */
  lemma {:induction false} HeldIsRun(regs: seq<MmReg>, k: nat) returns (a: nat, b: nat)
    requires NoWrap(regs) && Ascending(regs) && 0 < k <= |regs|
    ensures Holds(regs, k, a, b)
  {
    if k == 1 {
      a, b := 0, 1;
      SumOfOne(regs, 0);
    } else {
      a, b := HeldIsRun(regs, k - 1);
      a, b := HoldsNext(regs, k - 1, a, b);
    }
  }

  /** Between the end of a run and a region that starts there, regions are empty and belong to it. */
  lemma {:induction false} RunReaches(regs: seq<MmReg>, a: nat, b: nat, k: nat)
    requires Ascending(regs) && IsRun(regs, a, b) && b <= k < |regs|
    requires regs[b - 1].base + regs[b - 1].size == regs[k].base
    ensures IsRun(regs, a, k + 1) && Sum(regs, a, k + 1) == Sum(regs, a, b) + regs[k].size
    decreases k
  {
    if b < k {
      AscendingEnds(regs, b - 1, k - 1);
      assert Before(regs, k);
      RunReaches(regs, a, b, k - 1);
    }
  }

  /** Regions a..b-1 are a run that no run exceeds. */
  ghost predicate LargestRun(regs: seq<MmReg>, a: nat, b: nat) {
    IsRun(regs, a, b) && forall c, d :: IsRun(regs, c, d) ==> Sum(regs, c, d) <= Sum(regs, a, b)
  }

  /** On a list in address order the pass finds the largest run exactly when it takes the first
      region of a largest run: that is, when that region is first in the list or larger than what is
      held when the pass gets there. */
  lemma FindsLargestExactly(regs: seq<MmReg>)
    requires regs != [] && NoWrap(regs) && Ascending(regs)
    ensures FindsLargest(regs) <==> exists a, b :: LargestRun(regs, a, b) && Replaces(regs, a)
  {
    if FindsLargest(regs) {
      var a, b := HeldIsRun(regs, |regs|);
      assert LargestRun(regs, a, b);
    }
    if a, b :| LargestRun(regs, a, b) && Replaces(regs, a) {
      TakenRunsReached(regs, a, b);
    }
  }
}
