/** The per-step update that both estimators share (lines 45-101 of either
    program's `main`): the tally of selected classes, the kernel credit that
    uses the pre-step state, the advance of every listed node by one class,
    and the population migration. Each loop of the source is a method here
    over the values it updates; the vectors it changes come back as results
    that the program's main loop stores back into its variables. */
module Phases {
  import opened Counting

  /** `s` resized to at least `len` entries, new entries `z` (vector::resize). */
  function PadTo<T>(s: seq<T>, len: nat, z: T): (r: seq<T>)
    ensures |r| == if |s| >= len then |s| else len
    ensures r[..|s|] == s
    ensures forall i :: |s| <= i < |r| ==> r[i] == z
  {
    if |s| >= len then s else s + seq(len - |s|, _ => z)
  }

  /** The node-class vector once the preprocessing loop has resized it, with
      class 0, to hold every listed id. */
  function Cover(k: seq<nat>, ns: seq<nat>): (r: seq<nat>)
    ensures ZeroExtends(k, r) && Covers(r, ns)
  {
    if ns == [] then k
    else
      var r0 := Cover(k, ns[..|ns| - 1]);
      assert r0[..|k|] == k;
      var r := PadTo(r0, ns[|ns| - 1] + 1, 0);
      assert r[..|r0|] == r0;
      assert r[..|k|] == r0[..|k|];
      r
  }

  /** Node classes once every listed occurrence has advanced its node by one:
      each node's class grows by the number of times the record lists it. */
  function Advanced(k: seq<nat>, ns: seq<nat>): (r: seq<nat>)
  {
    seq(|k|, x requires 0 <= x < |k| => k[x] + Occ(ns, x))
  }

  /** Size of the class-indexed vectors after the advance loop: whenever an
      advanced class reaches the current size, the vectors grow to class + 2. */
  function Capacity(len: nat, k: seq<nat>, ns: seq<nat>): (r: nat)
    requires Covers(k, ns)
    ensures r >= len
    ensures forall x :: 0 <= x < |k| && Occ(ns, x) > 0 ==> k[x] + Occ(ns, x) < r
  {
    if ns == [] then len
    else
      var r0 := Capacity(len, k, ns[..|ns| - 1]);
      var ki := k[ns[|ns| - 1]] + Occ(ns, ns[|ns| - 1]);
      if ki >= r0 then ki + 2 else r0
  }

  /** The credit one selected node of class c earns: m[c] * N / n[c]. */
  function Share(mc: nat, N: int, nc: int): (r: real)
    requires nc != 0
  {
    (mc as real * N as real) / nc as real
  }

  /** Every selected class above 0 is in range and has a positive population
      (the divisor of the credit is never zero). */
  predicate Creditable(n: seq<int>, m: map<nat, nat>) {
    forall c :: c in m && c > 0 ==> c < |n| && n[c] > 0
  }

  /** Every listed node's class is selected in `m`. */
  predicate Selects(k: seq<nat>, ns: seq<nat>, m: map<nat, nat>)
    requires Covers(k, ns)
  {
    forall j :: 0 <= j < |ns| ==> k[ns[j]] in m
  }

  /** The kernel accumulator once the listed nodes `ns` have been credited in
      order: a node of class c > 0 adds one share m[c] * N / n[c] to A[c]. */
  function Credited(A: seq<real>, n: seq<int>, N: int, m: map<nat, nat>, k: seq<nat>, ns: seq<nat>): (r: seq<real>)
    requires |A| == |n| && Creditable(n, m) && Covers(k, ns) && Selects(k, ns, m)
    ensures |r| == |A|
  {
    if ns == [] then A
    else
      var r0 := Credited(A, n, N, m, k, ns[..|ns| - 1]);
      var c := k[ns[|ns| - 1]];
      if c == 0 then r0 else r0[c := r0[c] + Share(m[c], N, n[c])]
  }

  /** `count` credits of `share` added one after another. */
  function Repeated(count: nat, share: real): (r: real) {
    if count == 0 then 0.0 else Repeated(count - 1, share) + share
  }

  lemma {:induction false} RepeatedIsProduct(count: nat, share: real)
    ensures Repeated(count, share) == count as real * share
  {
    if count > 0 {
      RepeatedIsProduct(count - 1, share);
    }
  }

  /** Class c > 0 gains one share for every listed node of class c; every
      other entry is left alone. */
  lemma {:induction false} CreditedCount(A: seq<real>, n: seq<int>, N: int, m: map<nat, nat>, k: seq<nat>, ns: seq<nat>, c: nat)
    requires |A| == |n| && Creditable(n, m) && Covers(k, ns) && Selects(k, ns, m) && c < |A|
    ensures Credited(A, n, N, m, k, ns)[c]
         == if c > 0 && c in m then A[c] + Repeated(Count(Tally(k, ns), c), Share(m[c], N, n[c])) else A[c]
  {
    if ns != [] {
      CreditedCount(A, n, N, m, k, ns[..|ns| - 1], c);
    }
  }

  /** What a selected class c gains over a whole step: m[c] * m[c] * N / n[c]. */
  function Kernel(mc: nat, N: int, nc: int): (r: real)
    requires nc > 0
  {
    (mc as real * mc as real * N as real) / nc as real
  }

  /** m selections of a class with population n, each credited m * N / n,
      add up to m * m * N / n. */
  lemma SquareShare(mc: nat, N: int, nc: int)
    requires nc > 0
    ensures Repeated(mc, Share(mc, N, nc)) == Kernel(mc, N, nc)
  {
    var x, d := mc as real * N as real, nc as real;
    RepeatedIsProduct(mc, x / d);
    ScaleQuotient(mc as real, x, d);
  }

  lemma ScaleQuotient(a: real, b: real, d: real)
    requires d != 0.0
    ensures a * (b / d) == (a * b) / d
  {
  }

  /** Once the whole record is credited, a selected class c > 0 has gained
      exactly m[c] * m[c] * N / n[c]; class 0 and the unselected classes
      have gained nothing. */
  lemma CreditSquare(A: seq<real>, n: seq<int>, N: int, m: map<nat, nat>, k: seq<nat>, nodes: seq<nat>, c: nat)
    requires Covers(k, nodes) && m == Tally(k, nodes)
    requires |A| == |n| && Creditable(n, m) && Selects(k, nodes, m) && c < |A|
    ensures c > 0 && c in m ==> Credited(A, n, N, m, k, nodes)[c] == A[c] + Kernel(m[c], N, n[c])
    ensures c == 0 || c !in m ==> Credited(A, n, N, m, k, nodes)[c] == A[c]
  {
    CreditedCount(A, n, N, m, k, nodes, c);
    if c > 0 && c in m {
      Gain(A[c], Credited(A, n, N, m, k, nodes)[c], m[c], Count(Tally(k, nodes), c), N, n[c]);
    }
  }

  /** The closed form of a class's gain, away from the tally's definition. */
  lemma Gain(a: real, r: real, mc: nat, count: nat, N: int, nc: int)
    requires nc > 0 && count == mc && r == a + Repeated(count, Share(mc, N, nc))
    ensures r == a + Kernel(mc, N, nc)
  {
    SquareShare(mc, N, nc);
  }

  /** Populations after the migration loop: the m[c] selected nodes of class
      c leave it (class 0 is not tracked) and enter class c + 1. */
  function Shifted(n: seq<int>, m: map<nat, nat>): (r: seq<int>)
    ensures |r| == |n|
  {
    seq(|n|, c requires 0 <= c < |n| =>
      n[c] - (if c > 0 then Count(m, c) else 0) + (if c > 0 then Count(m, c - 1) else 0))
  }

  /** The nodes of class c that a migration loop has moved so far, when the
      classes in `todo` are still to be visited. */
  function Moved(m: map<nat, nat>, todo: set<nat>, c: nat): (r: nat) {
    if c in m && c !in todo then m[c] else 0
  }

  /** Populations part way through a migration loop: every class outside
      `todo` has moved its selected nodes up by one class. */
  predicate Migrating(n0: seq<int>, m: map<nat, nat>, todo: set<nat>, n: seq<int>) {
    |n| == |n0| && (|n| > 0 ==> n[0] == n0[0])
    && forall c :: 1 <= c < |n| ==> n[c] == n0[c] - Moved(m, todo, c) + Moved(m, todo, c - 1)
  }

  /** One visit of a migration loop: `mk` nodes leave class c (unless it is
      class 0) and enter class c + 1. */
  function Visited(n: seq<int>, c: nat, mk: nat): (r: seq<int>)
    requires c + 1 < |n|
    ensures |r| == |n|
  {
    (if c > 0 then n[c := n[c] - mk] else n)[c + 1 := n[c + 1] + mk]
  }

  /** Visiting one more class keeps a migration loop on course. */
  lemma MigratingStep(n0: seq<int>, m: map<nat, nat>, todo: set<nat>, n: seq<int>, c: nat)
    requires Migrating(n0, m, todo, n) && c in todo && c in m && c + 1 < |n|
    ensures Migrating(n0, m, todo - {c}, Visited(n, c, m[c]))
  {
    var rest := todo - {c};
    var n' := Visited(n, c, m[c]);
    forall i | 1 <= i < |n'|
      ensures n'[i] == n0[i] - Moved(m, rest, i) + Moved(m, rest, i - 1)
    {
      assert Moved(m, rest, i) == Moved(m, todo, i) + (if i == c then m[c] else 0);
      assert Moved(m, rest, i - 1) == Moved(m, todo, i - 1) + (if i - 1 == c then m[c] else 0);
    }
  }

  /** Once every class is visited, in whatever order, the populations are
      the shifted ones. */
  lemma MigratingDone(n0: seq<int>, m: map<nat, nat>, n: seq<int>)
    requires Migrating(n0, m, {}, n)
    ensures n == Shifted(n0, m)
  {
    forall c | 0 <= c < |n|
      ensures n[c] == Shifted(n0, m)[c]
    {
      if c > 0 {
        assert n[c] == n0[c] - Moved(m, {}, c) + Moved(m, {}, c - 1);
      }
    }
  }

  // ---------------------------------------------------------------- loops

  /** Lines 53-63: resize `k` for every listed id and tally selected classes. */
  method Preprocess(k0: seq<nat>, nodes: seq<nat>) returns (k: seq<nat>, m: map<nat, nat>)
    ensures k == Cover(k0, nodes)
    ensures m == Tally(k, nodes)
  {
    k, m := k0, map[];
    var j := 0;
    while j < |nodes|
      invariant 0 <= j <= |nodes|
      invariant k == Cover(k0, nodes[..j])
      invariant m == Tally(k, nodes[..j])
    {
      var ni := nodes[j];
      PreprocessStep(k0, nodes, j);
      if |k| <= ni {
        k := PadTo(k, ni + 1, 0);
      }
      var ki := k[ni];
      m := m[ki := Count(m, ki) + 1];
      j := j + 1;
    }
    assert nodes[..j] == nodes;
  }

  /** One iteration of the preprocessing loop: the id is covered by a resize
      and its class is tallied, with the earlier ids' classes unchanged. */
  lemma PreprocessStep(k0: seq<nat>, nodes: seq<nat>, j: nat)
    requires j < |nodes|
    ensures var k := Cover(k0, nodes[..j]); var k' := Cover(k0, nodes[..j + 1]);
      var ni := nodes[j];
      k' == (if |k| <= ni then PadTo(k, ni + 1, 0) else k)
      && ni < |k'|
      && Tally(k', nodes[..j + 1]) == Tally(k, nodes[..j])[k'[ni] := Count(Tally(k, nodes[..j]), k'[ni]) + 1]
  {
    var k := Cover(k0, nodes[..j]);
    var k' := Cover(k0, nodes[..j + 1]);
    assert nodes[..j + 1][..j] == nodes[..j];
    assert k'[..|k|] == k;
    assert forall i :: 0 <= i < |k| ==> k'[i] == k[i];
    TallyFrame(k, k', nodes[..j]);
  }

  /** Lines 65-77: credit the kernel with the pre-step N and populations, and
      count the nodes that enter the network (class 0 before this step). */
  method CreditKernel(A: seq<real>, n: seq<int>, N: int, k: seq<nat>, m: map<nat, nat>, nodes: seq<nat>)
    returns (A': seq<real>, N': int)
    requires Covers(k, nodes) && m == Tally(k, nodes)
    requires |A| == |n| && Creditable(n, m)
    ensures Selects(k, nodes, m) && A' == Credited(A, n, N, m, k, nodes)
    ensures forall c :: 0 < c < |A| && c in m ==> A'[c] == A[c] + Kernel(m[c], N, n[c])
    ensures forall c :: 0 <= c < |A| && (c == 0 || c !in m) ==> A'[c] == A[c]
    ensures N' == N + Count(m, 0)
  {
    SelectsAll(k, nodes);
    A', N' := A, N;
    var j := 0;
    while j < |nodes|
      invariant 0 <= j <= |nodes|
      invariant N' == N + Count(Tally(k, nodes[..j]), 0)
      invariant A' == Credited(A, n, N, m, k, nodes[..j])
    {
      assert nodes[..j + 1][..j] == nodes[..j];
      var ki := k[nodes[j]];
      if ki == 0 {
        N' := N' + 1;
      } else {
        // m[ki] * N / n[ki], with the N of the start of the step
        A' := A'[ki := A'[ki] + Share(m[ki], N, n[ki])];
      }
      j := j + 1;
    }
    assert nodes[..j] == nodes;
    forall c | 0 <= c < |A|
      ensures c > 0 && c in m ==> A'[c] == A[c] + Kernel(m[c], N, n[c])
      ensures c == 0 || c !in m ==> A'[c] == A[c]
    {
      CreditSquare(A, n, N, m, k, nodes, c);
    }
  }

  /** Lines 79-91: advance every listed occurrence by one class and compute
      the size the class-indexed vectors grow to. */
  method AdvanceClasses(k: seq<nat>, len: nat, nodes: seq<nat>) returns (k': seq<nat>, cap: nat)
    requires Covers(k, nodes)
    ensures k' == Advanced(k, nodes)
    ensures cap == Capacity(len, k, nodes)
  {
    k', cap := k, len;
    var j := 0;
    while j < |nodes|
      invariant 0 <= j <= |nodes|
      invariant k' == Advanced(k, nodes[..j])
      invariant cap == Capacity(len, k, nodes[..j])
    {
      var ni := nodes[j];
      AdvanceStep(k, len, nodes, j);
      k' := k'[ni := k'[ni] + 1];
      var ki := k'[ni];
      if ki >= cap {
        cap := ki + 2;
      }
      j := j + 1;
    }
    assert nodes[..j] == nodes;
  }

  /** One iteration of the advance loop: the listed node moves up one class
      and the vectors grow when that class reaches their size. */
  lemma AdvanceStep(k: seq<nat>, len: nat, nodes: seq<nat>, j: nat)
    requires Covers(k, nodes) && j < |nodes|
    ensures var x := nodes[j];
      var before := Advanced(k, nodes[..j]); var after := Advanced(k, nodes[..j + 1]);
      var cap := Capacity(len, k, nodes[..j]);
      after == before[x := before[x] + 1]
      && Capacity(len, k, nodes[..j + 1]) == if after[x] >= cap then after[x] + 2 else cap
  {
    var ns := nodes[..j + 1];
    assert ns[..j] == nodes[..j];
    AdvancedLast(k, ns);
  }

  // ---------------------------------------------------------------- state

  /** What the shared counters mean after the records `hist`: every node's
      class is its degree, n[c] (c >= 1) is the population of class c, n[0]
      is never written, every positive class indexes `n`, and N counts the
      nodes that have entered the network. */
  ghost predicate Tracks(hist: seq<seq<nat>>, k: seq<nat>, n: seq<int>, N: int) {
    (forall r, j :: 0 <= r < |hist| && 0 <= j < |hist[r]| ==> hist[r][j] < |k|)
    && (forall x :: 0 <= x < |k| ==> k[x] == Seen(hist, x))
    && (forall x :: 0 <= x < |k| && k[x] > 0 ==> k[x] < |n|)
    && (|n| > 0 ==> n[0] == 0)
    && (forall c :: 1 <= c < |n| ==> n[c] == Members(k, c))
    && N == Entered(k)
  }

  /** With distinct ids in a record, advancing its nodes moves Count(m, c)
      nodes out of class c and Count(m, c - 1) nodes into it. */
  lemma {:induction false} Shift(K: seq<nat>, ns: seq<nat>, c: nat)
    requires Covers(K, ns) && Distinct(ns)
    ensures Members(Advanced(K, ns), c) + Count(Tally(K, ns), c)
         == Members(K, c) + (if c > 0 then Count(Tally(K, ns), c - 1) else 0)
  {
    if ns == [] {
      assert Advanced(K, ns) == K;
    } else {
      var p := ns[..|ns| - 1];
      var x := ns[|ns| - 1];
      assert Distinct(p);
      Shift(K, p, c);
      assert forall j :: 0 <= j < |p| ==> p[j] != x;
      OccAbsent(p, x);
      AdvancedLast(K, ns);
      MembersUpdate(Advanced(K, p), x, K[x] + 1, c);
    }
  }

  /** The last listed occurrence advances its node by one more class. */
  lemma AdvancedLast(K: seq<nat>, ns: seq<nat>)
    requires Covers(K, ns) && ns != []
    ensures var p := ns[..|ns| - 1]; var x := ns[|ns| - 1];
      Advanced(K, ns) == Advanced(K, p)[x := Advanced(K, p)[x] + 1]
  {
    var p := ns[..|ns| - 1];
    var x := ns[|ns| - 1];
    var before := Advanced(K, p);
    var after := Advanced(K, ns);
    forall i | 0 <= i < |K|
      ensures after[i] == before[x := before[x] + 1][i]
    {
      assert Occ(ns, i) == Occ(p, i) + (if x == i then 1 else 0);
    }
  }

  /** The pre-step state meets what the step's loops demand: no credit
      divides by zero, every n[k + 1] the migration touches is in range, and
      no class loses more nodes than it has. */
  lemma Prepared(hist: seq<seq<nat>>, k: seq<nat>, n: seq<int>, N: int, nodes: seq<nat>)
    requires Tracks(hist, k, n, N) && Distinct(nodes)
    ensures var K := Cover(k, nodes); var m := Tally(K, nodes);
      Creditable(n, m)
      && (forall c :: c in m ==> c + 1 < Capacity(|n|, K, nodes) && m[c] > 0)
      && (forall c :: 0 < c < |n| ==> Count(m, c) <= n[c])
  {
    var K := Cover(k, nodes);
    var m := Tally(K, nodes);
    var cap := Capacity(|n|, K, nodes);
    assert forall x :: 0 <= x < |k| ==> K[x] == k[x] by {
      assert K[..|k|] == k;
    }
    forall c | 0 < c < |n|
      ensures Count(m, c) <= n[c]
    {
      TallyBound(K, nodes, c);
      MembersZeroExtends(k, K, c);
    }
    forall c | c in m
      ensures (c > 0 ==> c < |n| && n[c] > 0) && c + 1 < cap && m[c] > 0
    {
      TallyWitness(K, nodes, c);
      var j :| 0 <= j < |nodes| && K[nodes[j]] == c;
      OccListed(nodes, j);
      TallyPositive(K, nodes, c);
      if c > 0 {
        TallyBound(K, nodes, c);
        MembersZeroExtends(k, K, c);
      }
    }
  }

  /** After a step every node's class is still its degree, and every id of
      the history indexes the class vector. */
  lemma PreservedDegrees(hist: seq<seq<nat>>, k: seq<nat>, n: seq<int>, N: int, nodes: seq<nat>)
    requires Tracks(hist, k, n, N)
    ensures var K' := Advanced(Cover(k, nodes), nodes);
      (forall r, j :: 0 <= r < |hist + [nodes]| && 0 <= j < |(hist + [nodes])[r]| ==> (hist + [nodes])[r][j] < |K'|)
      && (forall x :: 0 <= x < |K'| ==> K'[x] == Seen(hist + [nodes], x))
  {
    var K := Cover(k, nodes);
    var K' := Advanced(K, nodes);
    var hist' := hist + [nodes];
    assert forall x :: 0 <= x < |k| ==> K[x] == k[x] by {
      assert K[..|k|] == k;
    }
    assert hist'[..|hist|] == hist;
    forall x | 0 <= x < |K|
      ensures K'[x] == Seen(hist', x)
    {
      if x >= |k| {
        SeenAbsent(hist, x);
      }
    }
  }

  /** After a step n[c] (c >= 1) is still the population of class c, n[0]
      is still untouched, and every positive class still indexes `n`. */
  lemma PreservedPopulations(hist: seq<seq<nat>>, k: seq<nat>, n: seq<int>, N: int, nodes: seq<nat>)
    requires Tracks(hist, k, n, N) && Distinct(nodes)
    ensures var K := Cover(k, nodes); var m := Tally(K, nodes);
      var cap := Capacity(|n|, K, nodes);
      var K' := Advanced(K, nodes); var n' := Shifted(PadTo(n, cap, 0), m);
      (forall x :: 0 <= x < |K'| && K'[x] > 0 ==> K'[x] < |n'|)
      && (|n'| > 0 ==> n'[0] == 0)
      && (forall c :: 1 <= c < |n'| ==> n'[c] == Members(K', c))
  {
    var K := Cover(k, nodes);
    var cap := Capacity(|n|, K, nodes);
    var P := PadTo(n, cap, 0);
    var K' := Advanced(K, nodes);
    assert forall x :: 0 <= x < |k| ==> K[x] == k[x] by {
      assert K[..|k|] == k;
    }
    assert forall x :: 0 <= x < |K'| && K'[x] > 0 ==> K'[x] < cap;
    forall c | 1 <= c < cap
      ensures Shifted(P, Tally(K, nodes))[c] == Members(K', c)
    {
      PaddedPopulation(k, n, K, cap, c);
      ClassAfter(P, K, nodes, c);
    }
  }

  /** The population vector grown with zeros still counts the members of
      every class c >= 1 once the class vector is grown with class 0. */
  lemma PaddedPopulation(k: seq<nat>, n: seq<int>, K: seq<nat>, cap: nat, c: nat)
    requires forall x :: 0 <= x < |k| && k[x] > 0 ==> k[x] < |n|
    requires forall c :: 1 <= c < |n| ==> n[c] == Members(k, c)
    requires ZeroExtends(k, K) && 1 <= c < cap
    ensures PadTo(n, cap, 0)[c] == Members(K, c)
  {
    MembersZeroExtends(k, K, c);
    if c >= |n| {
      MembersAbove(k, |n|, c);
    }
  }

  /** The migration leaves one class c >= 1 with exactly the nodes that the
      advance put there. */
  lemma ClassAfter(P: seq<int>, K: seq<nat>, nodes: seq<nat>, c: nat)
    requires Covers(K, nodes) && Distinct(nodes)
    requires 1 <= c < |P| && P[c] == Members(K, c)
    ensures Shifted(P, Tally(K, nodes))[c] == Members(Advanced(K, nodes), c)
  {
    Shift(K, nodes, c);
  }

  /** After a step N still counts the nodes that have entered the network. */
  lemma PreservedEntered(hist: seq<seq<nat>>, k: seq<nat>, n: seq<int>, N: int, nodes: seq<nat>)
    requires Tracks(hist, k, n, N) && Distinct(nodes)
    ensures var K := Cover(k, nodes);
      N + Count(Tally(K, nodes), 0) == Entered(Advanced(K, nodes))
  {
    var K := Cover(k, nodes);
    Shift(K, nodes, 0);
    EnteredSplit(K);
    EnteredSplit(Advanced(K, nodes));
    MembersZeroExtends(k, K, 0);
  }

  /** One step keeps the shared counters meaningful: the record is appended
      to the history, classes advance, populations migrate and N grows by
      the number of nodes that entered. */
  lemma Preserved(hist: seq<seq<nat>>, k: seq<nat>, n: seq<int>, N: int, nodes: seq<nat>,
                  k': seq<nat>, n': seq<int>, N': int)
    requires Tracks(hist, k, n, N) && Distinct(nodes)
    requires var K := Cover(k, nodes); var m := Tally(K, nodes);
      k' == Advanced(K, nodes)
      && n' == Shifted(PadTo(n, Capacity(|n|, K, nodes), 0), m)
      && N' == N + Count(m, 0)
    ensures Tracks(hist + [nodes], k', n', N')
  {
    PreservedDegrees(hist, k, n, N, nodes);
    PreservedPopulations(hist, k, n, N, nodes);
    PreservedEntered(hist, k, n, N, nodes);
  }

  /** The counters both programs keep across time steps: the class of every
      node, the population of every class, the number of nodes and the
      attachment kernel accumulator. */
  datatype Counters = Counters(k: seq<nat>, n: seq<int>, N: int, A: seq<real>)

  /** Every record lists each of its ids once. */
  ghost predicate Records(hist: seq<seq<nat>>) {
    forall r :: 0 <= r < |hist| ==> Distinct(hist[r])
  }

  /** Lines 46-102 of either program on the shared counters: tally the
      record, credit the kernel with the pre-step N and populations, advance
      the listed nodes, grow the class-indexed vectors and migrate the
      populations. */
  function Next(c: Counters, nodes: seq<nat>): (r: Counters)
    requires |c.A| == |c.n| && Creditable(c.n, Tally(Cover(c.k, nodes), nodes))
    ensures |r.A| == |r.n| >= |c.n|
  {
    var K := Cover(c.k, nodes);
    var m := Tally(K, nodes);
    var cap := Capacity(|c.n|, K, nodes);
    SelectsAll(K, nodes);
    Counters(Advanced(K, nodes), Shifted(PadTo(c.n, cap, 0), m), c.N + Count(m, 0),
             PadTo(Credited(c.A, c.n, c.N, m, K, nodes), cap, 0.0))
  }

  /** The shared counters after the records `hist`, starting from empty
      vectors and N = 0 (lines 22-29); they keep the meaning Tracks gives
      them. */
  ghost function Replay(hist: seq<seq<nat>>): (r: Counters)
    requires Records(hist)
    ensures Tracks(hist, r.k, r.n, r.N) && |r.A| == |r.n|
  {
    if hist == [] then Counters([], [], 0, [])
    else
      var p := hist[..|hist| - 1];
      var nodes := hist[|hist| - 1];
      RecordsPrefix(hist);
      var c := Replay(p);
      NextTracks(p, c, nodes);
      SplitLast(hist);
      Next(c, nodes)
  }

  lemma RecordsPrefix(hist: seq<seq<nat>>)
    requires Records(hist) && hist != []
    ensures Records(hist[..|hist| - 1]) && Distinct(hist[|hist| - 1])
  {
    var p := hist[..|hist| - 1];
    assert forall r :: 0 <= r < |p| ==> p[r] == hist[r];
  }

  /** One step from counters that track the records `p` is defined and
      tracks `p` followed by the step's record. */
  lemma NextTracks(p: seq<seq<nat>>, c: Counters, nodes: seq<nat>)
    requires Tracks(p, c.k, c.n, c.N) && |c.A| == |c.n| && Distinct(nodes)
    ensures Creditable(c.n, Tally(Cover(c.k, nodes), nodes))
    ensures var r := Next(c, nodes); Tracks(p + [nodes], r.k, r.n, r.N)
  {
    Prepared(p, c.k, c.n, c.N, nodes);
    var r := Next(c, nodes);
    Preserved(p, c.k, c.n, c.N, nodes, r.k, r.n, r.N);
  }

  /** Replaying one more record is one more step. */
  lemma ReplayNext(hist: seq<seq<nat>>, nodes: seq<nat>)
    requires Records(hist) && Distinct(nodes)
    ensures Records(hist + [nodes])
    ensures var c := Replay(hist);
      |c.A| == |c.n| && Creditable(c.n, Tally(Cover(c.k, nodes), nodes))
      && Replay(hist + [nodes]) == Next(c, nodes)
  {
    var c := Replay(hist);
    Prepared(hist, c.k, c.n, c.N, nodes);
    assert (hist + [nodes])[..|hist|] == hist;
  }

  /** Counters only grow: every node advances by the number of times the
      record lists it (a node seen for the first time starts from class 0),
      the vectors never shrink and N never decreases. */
  lemma Grows(hist: seq<seq<nat>>, nodes: seq<nat>)
    requires Records(hist) && Distinct(nodes)
    ensures Records(hist + [nodes])
    ensures var c, c' := Replay(hist), Replay(hist + [nodes]);
      |c'.k| >= |c.k| && |c'.n| >= |c.n| && c'.N >= c.N
      && forall x :: 0 <= x < |c'.k| ==> c'.k[x] == (if x < |c.k| then c.k[x] else 0) + Occ(nodes, x)
  {
    ReplayNext(hist, nodes);
    NextGrows(Replay(hist), nodes);
  }

  /** One step as a function on counters only grows them. */
  lemma NextGrows(c: Counters, nodes: seq<nat>)
    requires |c.A| == |c.n| && Creditable(c.n, Tally(Cover(c.k, nodes), nodes))
    ensures var c' := Next(c, nodes);
      |c'.k| >= |c.k| && |c'.n| >= |c.n| && c'.N >= c.N
      && forall x :: 0 <= x < |c'.k| ==> c'.k[x] == (if x < |c.k| then c.k[x] else 0) + Occ(nodes, x)
  {
    var K := Cover(c.k, nodes);
    assert K[..|c.k|] == c.k;
    assert forall x :: 0 <= x < |c.k| ==> K[x] == c.k[x];
  }

  /** Every listed node's class is selected by the tally. */
  lemma SelectsAll(K: seq<nat>, nodes: seq<nat>)
    requires Covers(K, nodes)
    ensures Selects(K, nodes, Tally(K, nodes))
  {
    forall j | 0 <= j < |nodes|
      ensures K[nodes[j]] in Tally(K, nodes)
    {
      TallyListed(K, nodes, j);
    }
  }

  /** Lines 46-91 of either program: tally the record, credit the kernel,
      advance the listed nodes and grow the kernel vector; the population
      vector and the per-class auxiliary vectors are left to the caller. */
  method Update(k: seq<nat>, n: seq<int>, N: int, A: seq<real>, nodes: seq<nat>)
    returns (k': seq<nat>, N': int, A': seq<real>, m: map<nat, nat>, cap: nat)
    requires |A| == |n| && Creditable(n, Tally(Cover(k, nodes), nodes))
    ensures m == Tally(Cover(k, nodes), nodes) && cap == Capacity(|n|, Cover(k, nodes), nodes)
    ensures var r := Next(Counters(k, n, N, A), nodes); k' == r.k && N' == r.N && A' == r.A
  {
    var K;
    K, m := Preprocess(k, nodes);
    var A1;
    A1, N' := CreditKernel(A, n, N, K, m, nodes);
    k', cap := AdvanceClasses(K, |n|, nodes);
    A' := PadTo(A1, cap, 0.0);
  }

  // ---------------------------------------------------------------- weights

  /** Class c >= 1 holds at least one node once the records `hist` are in. */
  ghost predicate Populated(hist: seq<seq<nat>>, c: nat) {
    c > 0 && exists x :: Seen(hist, x) == c
  }

  /** The normalisation factor of class c: the edges added over all steps at
      whose start class c held at least one node. */
  ghost function Exposure(hist: seq<seq<nat>>, c: nat): (r: nat) {
    if hist == [] then 0
    else
      var p := hist[..|hist| - 1];
      Exposure(p, c) + (if Populated(p, c) then |hist[|hist| - 1]| else 0)
  }

  /** `w` holds the normalisation factor of every class it indexes, and no
      class beyond it has ever been populated. */
  ghost predicate Weighs(hist: seq<seq<nat>>, w: seq<int>) {
    (forall c :: 0 <= c < |w| ==> w[c] == Exposure(hist, c))
    && (forall c :: |w| <= c ==> Exposure(hist, c) == 0)
  }

  /** Class 0 is never populated, so its normalisation factor stays 0. */
  lemma {:induction false} ExposureZero(hist: seq<seq<nat>>)
    ensures Exposure(hist, 0) == 0
  {
    if hist != [] {
      ExposureZero(hist[..|hist| - 1]);
    }
  }

  /** Normalisation factors only grow as records come in. */
  lemma {:induction false} ExposureMonotone(hist: seq<seq<nat>>, i: nat, c: nat)
    requires i <= |hist|
    ensures Exposure(hist[..i], c) <= Exposure(hist, c)
    decreases |hist|
  {
    if i < |hist| {
      var p := hist[..|hist| - 1];
      ExposureMonotone(p, i, c);
      assert p[..i] == hist[..i];
    } else {
      assert hist[..i] == hist;
    }
  }

  /** One more step adds its edge count to every class populated at its start. */
  lemma ExposureNext(hist: seq<seq<nat>>, nodes: seq<nat>, c: nat)
    ensures Exposure(hist + [nodes], c) == Exposure(hist, c) + (if Populated(hist, c) then |nodes| else 0)
  {
    assert (hist + [nodes])[..|hist|] == hist;
  }

  /** The population vector tells which classes are populated: c >= 1 is
      populated exactly when it indexes `n` and n[c] > 0. */
  lemma PopulatedIff(hist: seq<seq<nat>>, k: seq<nat>, n: seq<int>, N: int, c: nat)
    requires Tracks(hist, k, n, N)
    ensures Populated(hist, c) <==> 0 < c < |n| && n[c] > 0
  {
    if 0 < c < |n| && n[c] > 0 {
      MembersWitness(k, c);
      var x :| 0 <= x < |k| && k[x] == c;
      assert Seen(hist, x) == c;
    }
    if Populated(hist, c) {
      var x: nat :| Seen(hist, x) == c;
      if x >= |k| {
        SeenAbsent(hist, x);
      }
      MembersPositive(k, x);
    }
  }

  /** Conservation: N is the total population of the classes 1 .. |n|-1. */
  lemma Conservation(hist: seq<seq<nat>>, k: seq<nat>, n: seq<int>, N: int)
    requires Tracks(hist, k, n, N)
    ensures N == if |n| == 0 then 0 else Sum(n[1..])
  {
    if |n| == 0 {
      Census(k, 1);
    } else {
      Census(k, |n|);
      ClassSum(n, k, |n|);
      assert n[1..|n|] == n[1..];
    }
  }
}
