/** Counting vocabulary shared by both estimators: how often a node id is
    listed, how many nodes sit in a degree class, and the per-class tally
    `m` that every time step builds. */
module Counting {

  /** No node id is listed twice in one record. */
  predicate Distinct(ns: seq<nat>) {
    forall i, j :: 0 <= i < j < |ns| ==> ns[i] != ns[j]
  }

  /** Every id listed in `ns` indexes the per-node class vector `k`. */
  predicate Covers(k: seq<nat>, ns: seq<nat>) {
    forall j :: 0 <= j < |ns| ==> ns[j] < |k|
  }

  /** Number of times `x` is listed in `ns`. */
  function Occ(ns: seq<nat>, x: nat): (r: nat) {
    if ns == [] then 0 else Occ(ns[..|ns| - 1], x) + (if ns[|ns| - 1] == x then 1 else 0)
  }

  /** Number of times `x` is listed over a history of records: its degree. */
  function Seen(hist: seq<seq<nat>>, x: nat): (r: nat) {
    if hist == [] then 0 else Seen(hist[..|hist| - 1], x) + Occ(hist[|hist| - 1], x)
  }

  /** Number of listed ids over a history of records: the edge count E. */
  function Volume(hist: seq<seq<nat>>): (r: nat) {
    if hist == [] then 0 else Volume(hist[..|hist| - 1]) + |hist[|hist| - 1]|
  }

  function Sum(s: seq<int>): (r: int) {
    if s == [] then 0 else Sum(s[..|s| - 1]) + s[|s| - 1]
  }

  /** Number of node ids whose degree class under `k` is `c`. */
  function Members(k: seq<nat>, c: nat): (r: nat) {
    if k == [] then 0 else Members(k[..|k| - 1], c) + (if k[|k| - 1] == c then 1 else 0)
  }

  /** Number of node ids that have at least one edge (class 1 or above). */
  function Entered(k: seq<nat>): (r: nat) {
    if k == [] then 0 else Entered(k[..|k| - 1]) + (if k[|k| - 1] > 0 then 1 else 0)
  }

  /** Members summed over the classes lo .. hi-1. */
  function Population(k: seq<nat>, lo: nat, hi: nat): (r: nat)
    decreases hi
  {
    if hi <= lo then 0 else Population(k, lo, hi - 1) + Members(k, hi - 1)
  }

  /** The count a class map holds for `c`; absent keys count zero. */
  function Count(m: map<nat, nat>, c: nat): (r: nat) {
    if c in m then m[c] else 0
  }

  /** The per-class selection tally `m` of one record: one increment for
      each listed occurrence, keyed by the listed node's current class. */
  function Tally(k: seq<nat>, ns: seq<nat>): (r: map<nat, nat>)
    requires Covers(k, ns)
  {
    if ns == [] then map[]
    else
      var m := Tally(k, ns[..|ns| - 1]);
      var c := k[ns[|ns| - 1]];
      m[c := Count(m, c) + 1]
  }

  /** `r` is `k` followed by zero entries (a resize with value 0). */
  predicate ZeroExtends(k: seq<nat>, r: seq<nat>) {
    |r| >= |k| && r[..|k|] == k && forall i :: |k| <= i < |r| ==> r[i] == 0
  }

  /** A sequence is its prefix followed by its next element. */
  lemma PrefixStep<T>(s: seq<T>, i: nat)
    requires i < |s|
    ensures s[..i + 1] == s[..i] + [s[i]]
  {
  }

  /** A non-empty sequence is its front followed by its last element. */
  lemma SplitLast<T>(s: seq<T>)
    requires s != []
    ensures s == s[..|s| - 1] + [s[|s| - 1]]
  {
  }

  // ---------------------------------------------------------------- Occ, Seen

  lemma {:induction false} OccAbsent(ns: seq<nat>, x: nat)
    requires forall j :: 0 <= j < |ns| ==> ns[j] != x
    ensures Occ(ns, x) == 0
  {
    if ns != [] {
      OccAbsent(ns[..|ns| - 1], x);
    }
  }

  lemma {:induction false} OccListed(ns: seq<nat>, j: nat)
    requires j < |ns|
    ensures Occ(ns, ns[j]) >= 1
  {
    if j < |ns| - 1 {
      OccListed(ns[..|ns| - 1], j);
    }
  }

  /** In a record without repeated ids, every listed id is listed once. */
  lemma {:induction false} OccDistinct(ns: seq<nat>, j: nat)
    requires Distinct(ns) && j < |ns|
    ensures Occ(ns, ns[j]) == 1
  {
    var p := ns[..|ns| - 1];
    assert Distinct(p);
    if j < |ns| - 1 {
      OccDistinct(p, j);
    } else {
      assert forall i :: 0 <= i < |p| ==> p[i] != ns[j];
      OccAbsent(p, ns[j]);
    }
  }

  /** An id listed by some record has degree at least one. */
  lemma {:induction false} SeenListed(hist: seq<seq<nat>>, r: nat, j: nat)
    requires r < |hist| && j < |hist[r]|
    ensures Seen(hist, hist[r][j]) >= 1
  {
    var p := hist[..|hist| - 1];
    if r < |hist| - 1 {
      SeenListed(p, r, j);
    } else {
      OccListed(hist[r], j);
    }
  }

  /** An id that no record lists has degree zero. */
  lemma {:induction false} SeenAbsent(hist: seq<seq<nat>>, x: nat)
    requires forall r, j :: 0 <= r < |hist| && 0 <= j < |hist[r]| ==> hist[r][j] != x
    ensures Seen(hist, x) == 0
  {
    if hist != [] {
      var last := hist[|hist| - 1];
      assert forall j :: 0 <= j < |last| ==> last[j] != x;
      OccAbsent(last, x);
      SeenAbsent(hist[..|hist| - 1], x);
    }
  }

  // ---------------------------------------------------------------- Members

  /** Moving one node from its class to class `v` changes two populations by one. */
  lemma {:induction false} MembersUpdate(k: seq<nat>, x: nat, v: nat, c: nat)
    requires x < |k|
    ensures Members(k[x := v], c) + (if k[x] == c then 1 else 0)
         == Members(k, c) + (if v == c then 1 else 0)
  {
    var p := k[..|k| - 1];
    var p' := k[x := v][..|k| - 1];
    if x < |k| - 1 {
      assert p' == p[x := v];
      MembersUpdate(p, x, v, c);
    } else {
      assert p' == p;
    }
  }

  /** Resizing with zeros only adds class-0 nodes. */
  lemma {:induction false} MembersZeroExtends(k: seq<nat>, r: seq<nat>, c: nat)
    requires ZeroExtends(k, r)
    ensures Members(r, c) == Members(k, c) + (if c == 0 then |r| - |k| else 0)
    ensures Entered(r) == Entered(k)
    decreases |r|
  {
    if |r| == |k| {
      assert r == k;
    } else {
      var p := r[..|r| - 1];
      assert p[..|k|] == k;
      MembersZeroExtends(k, p, c);
    }
  }

  /** A node is a member of its own class. */
  lemma {:induction false} MembersPositive(k: seq<nat>, x: nat)
    requires x < |k|
    ensures Members(k, k[x]) >= 1
  {
    if x < |k| - 1 {
      MembersPositive(k[..|k| - 1], x);
    }
  }

  /** A class with members has a node in it. */
  lemma {:induction false} MembersWitness(k: seq<nat>, c: nat)
    requires Members(k, c) > 0
    ensures exists x :: 0 <= x < |k| && k[x] == c
  {
    var p := k[..|k| - 1];
    if k[|k| - 1] != c {
      MembersWitness(p, c);
      var x :| 0 <= x < |p| && p[x] == c;
      assert k[x] == c;
    }
  }

  /** No node sits in a positive class at or above a bound of all positive classes. */
  lemma {:induction false} MembersAbove(k: seq<nat>, bound: nat, c: nat)
    requires forall i :: 0 <= i < |k| && k[i] > 0 ==> k[i] < bound
    requires c > 0 && c >= bound
    ensures Members(k, c) == 0
  {
    if k != [] {
      MembersAbove(k[..|k| - 1], bound, c);
    }
  }

  /** Every node is either still in class 0 or has entered the network. */
  lemma {:induction false} EnteredSplit(k: seq<nat>)
    ensures Entered(k) + Members(k, 0) == |k|
  {
    if k != [] {
      EnteredSplit(k[..|k| - 1]);
    }
  }

  lemma {:induction false} PopulationAppend(k: seq<nat>, v: nat, lo: nat, hi: nat)
    ensures Population(k + [v], lo, hi) == Population(k, lo, hi) + (if lo <= v < hi then 1 else 0)
    decreases hi
  {
    assert (k + [v])[..|k|] == k;
    if hi > lo {
      PopulationAppend(k, v, lo, hi - 1);
    }
  }

  /** Conservation: when every class is below `bound`, the populations of
      the classes 1 .. bound-1 add up to the number of nodes that entered. */
  lemma {:induction false} Census(k: seq<nat>, bound: nat)
    requires forall i :: 0 <= i < |k| ==> k[i] < bound
    ensures Population(k, 1, bound) == Entered(k)
  {
    if k == [] {
      PopulationEmpty(1, bound);
    } else {
      var p := k[..|k| - 1];
      Census(p, bound);
      assert p + [k[|k| - 1]] == k;
      PopulationAppend(p, k[|k| - 1], 1, bound);
    }
  }

  lemma {:induction false} PopulationEmpty(lo: nat, hi: nat)
    ensures Population([], lo, hi) == 0
    decreases hi
  {
    if hi > lo {
      PopulationEmpty(lo, hi - 1);
    }
  }

  /** A population vector that agrees with Members on classes 1 .. |n|-1
      sums, over those classes, to their total population. */
  lemma {:induction false} ClassSum(n: seq<int>, k: seq<nat>, hi: nat)
    requires 1 <= hi <= |n|
    requires forall c :: 1 <= c < |n| ==> n[c] == Members(k, c)
    ensures Sum(n[1..hi]) == Population(k, 1, hi)
  {
    if hi > 1 {
      assert n[1..hi][..hi - 2] == n[1..hi - 1];
      ClassSum(n, k, hi - 1);
    }
  }

  // ---------------------------------------------------------------- Volume

  /** The edge count E is the sum of the per-step edge counts `mh`. */
  lemma {:induction false} VolumeSum(hist: seq<seq<nat>>, mh: seq<nat>)
    requires |mh| == |hist| && forall i :: 0 <= i < |hist| ==> mh[i] == |hist[i]|
    ensures Volume(hist) == Sum(mh)
  {
    if hist != [] {
      var p, q := hist[..|hist| - 1], mh[..|mh| - 1];
      assert forall i :: 0 <= i < |p| ==> q[i] == |p[i]|;
      VolumeSum(p, q);
    }
  }

  /** Every step adds at least one edge when no record is empty, so E >= t. */
  lemma {:induction false} VolumeBound(hist: seq<seq<nat>>)
    requires forall r :: 0 <= r < |hist| ==> hist[r] != []
    ensures Volume(hist) >= |hist|
  {
    if hist != [] {
      var p := hist[..|hist| - 1];
      assert forall r :: 0 <= r < |p| ==> p[r] == hist[r];
      VolumeBound(p);
    }
  }

  // ---------------------------------------------------------------- Tally

  /** `m[c]` counts the listed occurrences whose class is `c`; keys are positive. */
  lemma {:induction false} TallyPositive(k: seq<nat>, ns: seq<nat>, c: nat)
    requires Covers(k, ns)
    ensures c in Tally(k, ns) ==> Tally(k, ns)[c] > 0
  {
    if ns != [] {
      TallyPositive(k, ns[..|ns| - 1], c);
    }
  }

  /** The class of every listed node is a key of the tally. */
  lemma {:induction false} TallyListed(k: seq<nat>, ns: seq<nat>, j: nat)
    requires Covers(k, ns) && j < |ns|
    ensures k[ns[j]] in Tally(k, ns)
  {
    if j < |ns| - 1 {
      TallyListed(k, ns[..|ns| - 1], j);
    }
  }

  /** Every key of the tally is the class of some listed node. */
  lemma {:induction false} TallyWitness(k: seq<nat>, ns: seq<nat>, c: nat)
    requires Covers(k, ns) && c in Tally(k, ns)
    ensures exists j :: 0 <= j < |ns| && k[ns[j]] == c
  {
    var p := ns[..|ns| - 1];
    if k[ns[|ns| - 1]] != c {
      TallyWitness(k, p, c);
      var j :| 0 <= j < |p| && k[p[j]] == c;
      assert ns[j] == p[j];
    }
  }

  /** The tally reads `k` only at listed ids. */
  lemma {:induction false} TallyFrame(k: seq<nat>, r: seq<nat>, ns: seq<nat>)
    requires Covers(k, ns) && Covers(r, ns)
    requires forall j :: 0 <= j < |ns| ==> r[ns[j]] == k[ns[j]]
    ensures Tally(r, ns) == Tally(k, ns)
  {
    if ns != [] {
      TallyFrame(k, r, ns[..|ns| - 1]);
    }
  }

  /** With distinct ids, no class is selected more often than it has members. */
  lemma {:induction false} TallyBound(k: seq<nat>, ns: seq<nat>, c: nat)
    requires Covers(k, ns) && Distinct(ns)
    ensures Count(Tally(k, ns), c) <= Members(k, c)
    decreases |ns|
  {
    if ns != [] {
      var p := ns[..|ns| - 1];
      var x := ns[|ns| - 1];
      if k[x] == c {
        // Move x out of class c; the rest of the record does not list it.
        var k' := k[x := c + 1];
        TallyFrame(k, k', p);
        MembersUpdate(k, x, c + 1, c);
        TallyBound(k', p, c);
      } else {
        TallyBound(k, p, c);
      }
    }
  }
}
