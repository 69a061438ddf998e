/** The fast estimator's record of when each class switches between empty
    and populated, and the sums over the edge-count history that its post
    pass takes between those switch times. */
module Switches {

  /** mh[lo] + ... + mh[hi - 1]; zero when the range is empty. No summed
      entry exceeds the sum. */
  function SumRange(mh: seq<nat>, lo: nat, hi: nat): (r: nat)
    requires hi <= |mh|
    ensures forall i :: lo <= i < hi ==> mh[i] <= r
    decreases hi
  {
    if hi <= lo then 0 else SumRange(mh, lo, hi - 1) + mh[hi - 1]
  }

  /** Every switch time of `sk` is at most `bound`. */
  predicate Bounded(sk: seq<nat>, bound: nat) {
    forall i :: 0 <= i < |sk| ==> sk[i] <= bound
  }

  /** The switch times of one class after `t` steps: recorded in order, each
      between step 1 and step t. */
  predicate Timeline(sk: seq<nat>, t: nat) {
    (forall i :: 0 <= i < |sk| ==> 1 <= sk[i] <= t)
    && (forall i, j :: 0 <= i < j < |sk| ==> sk[i] <= sk[j])
  }

  /** The closed periods sk[i-1] .. sk[i] (i odd, i < j) summed over `mh`. */
  function Paired(sk: seq<nat>, mh: seq<nat>, j: nat): (r: nat)
    requires j <= |sk| && Bounded(sk, |mh|)
  {
    if j <= 1 then 0
    else Paired(sk, mh, j - 1) + (if (j - 1) % 2 == 1 then SumRange(mh, sk[j - 2], sk[j - 1]) else 0)
  }

  /** The weight the post pass rebuilds from one class's switch times: the
      closed active periods, plus the still-open one when the list has odd
      length. */
  function Reconstruct(sk: seq<nat>, mh: seq<nat>): (r: nat)
    requires Bounded(sk, |mh|)
  {
    Paired(sk, mh, |sk|) + (if |sk| % 2 == 1 then SumRange(mh, sk[|sk| - 1], |mh|) else 0)
  }

  // ---------------------------------------------------------------- lemmas

  /** A later history entry does not change a sum that ends before it. */
  lemma {:induction false} SumRangeExtend(mh: seq<nat>, x: nat, lo: nat, hi: nat)
    requires hi <= |mh|
    ensures SumRange(mh + [x], lo, hi) == SumRange(mh, lo, hi)
    decreases hi
  {
    if hi > lo {
      SumRangeExtend(mh, x, lo, hi - 1);
    }
  }

  lemma {:induction false} PairedExtend(sk: seq<nat>, mh: seq<nat>, x: nat, j: nat)
    requires j <= |sk| && Bounded(sk, |mh|)
    ensures Bounded(sk, |mh + [x]|) && Paired(sk, mh + [x], j) == Paired(sk, mh, j)
  {
    if j > 1 {
      PairedExtend(sk, mh, x, j - 1);
      SumRangeExtend(mh, x, sk[j - 2], sk[j - 1]);
    }
  }

  /** One more step of history: a class whose list has odd length (it is
      populated) gains that step's edge count; any other class gains nothing. */
  lemma ReconstructExtend(sk: seq<nat>, mh: seq<nat>, x: nat)
    requires Bounded(sk, |mh|)
    ensures Bounded(sk, |mh + [x]|)
    ensures Reconstruct(sk, mh + [x]) == Reconstruct(sk, mh) + (if |sk| % 2 == 1 then x else 0)
  {
    PairedExtend(sk, mh, x, |sk|);
    if |sk| % 2 == 1 {
      var last := sk[|sk| - 1];
      SumRangeExtend(mh, x, last, |mh|);
      assert SumRange(mh + [x], last, |mh| + 1) == SumRange(mh + [x], last, |mh|) + x;
    }
  }

  /** Earlier closed periods do not depend on what is appended to the list. */
  lemma {:induction false} PairedPrefix(sk: seq<nat>, v: nat, mh: seq<nat>, j: nat)
    requires j <= |sk| && Bounded(sk, |mh|) && v <= |mh|
    ensures Bounded(sk + [v], |mh|) && Paired(sk + [v], mh, j) == Paired(sk, mh, j)
  {
    assert forall i :: 0 <= i < |sk| ==> (sk + [v])[i] == sk[i];
    if j > 1 {
      PairedPrefix(sk, v, mh, j - 1);
    }
  }

  /** Recording a switch at the current time closes or opens a period of
      length zero, so it does not change the rebuilt weight. */
  lemma ReconstructPush(sk: seq<nat>, mh: seq<nat>)
    requires Bounded(sk, |mh|)
    ensures Bounded(sk + [|mh|], |mh|) && Reconstruct(sk + [|mh|], mh) == Reconstruct(sk, mh)
  {
    var sk' := sk + [|mh|];
    PairedPrefix(sk, |mh|, mh, |sk|);
    if |sk| > 0 {
      assert sk'[|sk| - 1] == sk[|sk| - 1];
    }
  }

  /** The same for any number of switches recorded at the current time. */
  lemma {:induction false} ReconstructPushes(sk: seq<nat>, extra: seq<nat>, mh: seq<nat>)
    requires Bounded(sk, |mh|)
    requires forall i :: 0 <= i < |extra| ==> extra[i] == |mh|
    ensures Bounded(sk + extra, |mh|) && Reconstruct(sk + extra, mh) == Reconstruct(sk, mh)
    decreases |extra|
  {
    if extra != [] {
      var front := extra[..|extra| - 1];
      ReconstructPushes(sk, front, mh);
      ReconstructPush(sk + front, mh);
      assert sk + front + [|mh|] == sk + extra;
    } else {
      assert sk + extra == sk;
    }
  }
}
