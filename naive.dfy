/** The naive estimator (count_attachment_kernel.cpp): the shared per-step
    update, plus the normalisation factor w, which gains the step's edge
    count for every class that holds a node at the start of the step. */
module Naive {
  import opened Counting
  import opened Phases

  /** Lines 93-95 as a value: every class with a positive population gains
      mt; an entry only ever grows, by at most mt, and only where its class
      is populated. */
  function Exposed(w: seq<int>, n: seq<int>, mt: nat): (r: seq<int>)
    requires |w| == |n|
    ensures |r| == |w|
    ensures forall c :: 0 <= c < |w| ==> w[c] <= r[c] <= w[c] + mt && (r[c] != w[c] ==> n[c] > 0)
  {
    seq(|w|, c requires 0 <= c < |w| => if n[c] > 0 then w[c] + mt else w[c])
  }

  /** Exposing the pre-migration populations keeps `w` equal to the
      normalisation factor of every class, and class 0 gains nothing. */
  lemma WeighsStep(hist: seq<seq<nat>>, k: seq<nat>, n: seq<int>, N: int, w: seq<int>, nodes: seq<nat>, cap: nat, w': seq<int>)
    requires Tracks(hist, k, n, N) && Weighs(hist, w) && |w| == |n| && cap >= |n|
    requires w' == Exposed(PadTo(w, cap, 0), PadTo(n, cap, 0), |nodes|)
    ensures Weighs(hist + [nodes], w')
  {
    var P := PadTo(n, cap, 0);
    var W := PadTo(w, cap, 0);
    forall c | 0 <= c < cap
      ensures w'[c] == Exposure(hist + [nodes], c)
    {
      ExposureNext(hist, nodes, c);
      PopulatedIff(hist, k, n, N, c);
      if c < |n| {
        assert P[c] == n[c] && W[c] == w[c];
      }
    }
    forall c | cap <= c
      ensures Exposure(hist + [nodes], c) == 0
    {
      ExposureNext(hist, nodes, c);
      PopulatedIff(hist, k, n, N, c);
    }
  }

  /** Lines 93-95: add mt to w[c] for every class with a positive population. */
  method Expose(w0: seq<int>, n: seq<int>, mt: nat) returns (w: seq<int>)
    requires |w0| == |n|
    ensures w == Exposed(w0, n, mt)
  {
    w := w0;
    var c := 0;
    while c < |w|
      invariant |w| == |w0| && 0 <= c <= |w|
      invariant forall i :: 0 <= i < c ==> w[i] == if n[i] > 0 then w0[i] + mt else w0[i]
      invariant forall i :: c <= i < |w| ==> w[i] == w0[i]
    {
      if n[c] > 0 {
        w := w[c := w[c] + mt];
      }
      c := c + 1;
    }
  }

  /** Lines 98-101: for each selected class, in the map's arbitrary order,
      its selected nodes leave it (unless it is class 0) and enter the next. */
  method Migrate(n0: seq<int>, m: map<nat, nat>) returns (n: seq<int>)
    requires forall c :: c in m ==> c + 1 < |n0|
    ensures n == Shifted(n0, m)
  {
    n := n0;
    var todo := m.Keys;
    while todo != {}
      invariant todo <= m.Keys && Migrating(n0, m, todo, n)
      decreases todo
    {
      var c :| c in todo;
      MigratingStep(n0, m, todo, n, c);
      if c > 0 {
        n := n[c := n[c] - m[c]];
      }
      n := n[c + 1 := n[c + 1] + m[c]];
      todo := todo - {c};
    }
    MigratingDone(n0, m, n);
  }

  /** What the naive program's variables mean after the records `hist`:
      the shared counters are those the records produce, t counts the steps,
      E the edges, and w holds every class's normalisation factor. */
  ghost predicate Consistent(hist: seq<seq<nat>>, t: nat, E: int, k: seq<nat>, n: seq<int>, N: int, A: seq<real>, w: seq<int>) {
    Records(hist) && Counters(k, n, N, A) == Replay(hist)
    && t == |hist| && E == Volume(hist) && |w| == |n| && Weighs(hist, w)
  }

  /** Lines 36-101: one time step whose record lists `nodes`. */
  method Step(ghost hist: seq<seq<nat>>, t: nat, E: int, k: seq<nat>, n: seq<int>, N: int, A: seq<real>, w: seq<int>, nodes: seq<nat>)
    returns (t': nat, E': int, k': seq<nat>, n': seq<int>, N': int, A': seq<real>, w': seq<int>)
    requires Consistent(hist, t, E, k, n, N, A, w) && Distinct(nodes)
    ensures Consistent(hist + [nodes], t', E', k', n', N', A', w')
    ensures t' == t + 1 && E' == E + |nodes|
  {
    ReplayNext(hist, nodes);
    Prepared(hist, k, n, N, nodes);
    t', E' := t + 1, E + |nodes|;
    var m, cap;
    k', N', A', m, cap := Update(k, n, N, A, nodes);
    var n1 := PadTo(n, cap, 0);
    w' := Expose(PadTo(w, cap, 0), n1, |nodes|);
    n' := Migrate(n1, m);
    WeighsStep(hist, k, n, N, w, nodes, cap, w');
  }

  /** Lines 22-103: read the records one time step at a time. Afterwards
      the counters are those the records produce and w[c] is the
      normalisation factor of class c. */
  method Run(stream: seq<seq<nat>>) returns (t: nat, E: int, k: seq<nat>, n: seq<int>, N: int, A: seq<real>, w: seq<int>)
    requires forall r :: 0 <= r < |stream| ==> stream[r] != [] && Distinct(stream[r])
    ensures Counters(k, n, N, A) == Replay(stream)
    ensures t == |stream| && E == Volume(stream)
    ensures |w| == |A| && Weighs(stream, w)
  {
    t, E, k, n, N, A, w := 0, 0, [], [], 0, [], [];
    var i := 0;
    while i < |stream|
      invariant 0 <= i <= |stream|
      invariant Consistent(stream[..i], t, E, k, n, N, A, w)
    {
      PrefixStep(stream, i);
      t, E, k, n, N, A, w := Step(stream[..i], t, E, k, n, N, A, w, stream[i]);
      i := i + 1;
    }
    assert stream[..i] == stream;
  }
}
