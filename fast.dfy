/** The fast estimator (count_attachment_kernel_fast.cpp): the shared
    per-step update, plus the history of edge counts and, per class, the
    times at which the class switches between empty and populated. The
    normalisation factor is rebuilt from those once, after the last step. */
module Fast {
  import opened Counting
  import opened Phases
  import opened Switches

  /** `sk'` is `sk` followed by switch times that all equal `t`. */
  predicate Appended(sk: seq<nat>, sk': seq<nat>, t: nat) {
    |sk'| >= |sk| && sk'[..|sk|] == sk && forall i :: |sk| <= i < |sk'| ==> sk'[i] == t
  }

  lemma AppendedTrans(a: seq<nat>, b: seq<nat>, c: seq<nat>, t: nat)
    requires Appended(a, b, t) && Appended(b, c, t)
    ensures Appended(a, c, t)
  {
    assert c[..|a|] == c[..|b|][..|a|];
  }

  /** Number of visits so far (0, 1 or 2) of a migration loop that may
      write the switch list of class c: the visit of c and that of c - 1. */
  function Touched(m: map<nat, nat>, todo: set<nat>, c: nat): (r: nat) {
    (if c in m && c !in todo then 1 else 0) + (if c > 0 && c - 1 in m && c - 1 !in todo then 1 else 0)
  }

  /** Lines 96-101: one visit of the migration loop. The `mk` selected nodes
      leave class c (unless it is class 0) and enter class c + 1; a class
      that becomes empty, and a class that stops being empty, gets the time
      t appended to its switch list. */
  method Visit(n: seq<int>, s: seq<seq<nat>>, c: nat, mk: nat, t: nat) returns (n': seq<int>, s': seq<seq<nat>>)
    requires |s| == |n| && c + 1 < |n| && mk > 0
    requires c > 0 ==> n[c] >= mk && |s[c]| % 2 == 1
    requires n[c + 1] >= 0 && (|s[c + 1]| % 2 == 1 <==> n[c + 1] > 0)
    ensures n' == Visited(n, c, mk) && |s'| == |s|
    ensures forall i :: 0 <= i < |s| && i != c + 1 && (i != c || c == 0) ==> s'[i] == s[i]
    ensures c > 0 ==> Appended(s[c], s'[c], t) && |s'[c]| <= |s[c]| + 1 && (|s'[c]| % 2 == 1 <==> n'[c] > 0)
    ensures Appended(s[c + 1], s'[c + 1], t) && |s'[c + 1]| <= |s[c + 1]| + 1 && |s'[c + 1]| % 2 == 1
  {
    n', s' := n, s;
    if c > 0 {
      n' := n'[c := n'[c] - mk];
      if n'[c] == 0 {
        // an inactive period of class c starts
        s' := s'[c := s'[c] + [t]];
      }
    }
    if n'[c + 1] == 0 {
      // an active period of class c + 1 starts
      s' := s'[c + 1 := s'[c + 1] + [t]];
    }
    n' := n'[c + 1 := n'[c + 1] + mk];
  }

  /** Lines 95-102: the migration of the naive program, which in addition
      records the time t whenever a class becomes empty or stops being
      empty. The parity of every switch list keeps telling whether its class
      is populated, class 0's list is never written, each list gains at most
      two entries, and a class that no visit touches keeps its list. */
  method MigrateRecording(n0: seq<int>, s0: seq<seq<nat>>, m: map<nat, nat>, t: nat)
    returns (n: seq<int>, s: seq<seq<nat>>)
    requires |s0| == |n0|
    requires forall c :: c in m ==> c + 1 < |n0| && m[c] > 0
    requires forall c :: 0 < c < |n0| ==> Count(m, c) <= n0[c]
    requires forall c :: 1 <= c < |n0| ==> (|s0[c]| % 2 == 1 <==> n0[c] > 0)
    ensures n == Shifted(n0, m)
    ensures |s| == |s0| && (|s| > 0 ==> s[0] == s0[0])
    ensures forall c :: 1 <= c < |s| ==> Appended(s0[c], s[c], t) && |s[c]| <= |s0[c]| + 2
    ensures forall c :: 1 <= c < |s| ==> (|s[c]| % 2 == 1 <==> n[c] > 0)
    ensures forall c :: 1 <= c < |s| && c !in m && c - 1 !in m ==> s[c] == s0[c]
  {
    n, s := n0, s0;
    var todo := m.Keys;
    while todo != {}
      invariant todo <= m.Keys && Migrating(n0, m, todo, n) && |s| == |s0|
      invariant |s| > 0 ==> s[0] == s0[0]
      invariant forall c :: 1 <= c < |s| ==> Appended(s0[c], s[c], t) && |s[c]| <= |s0[c]| + Touched(m, todo, c)
      invariant forall c :: 1 <= c < |s| ==> (|s[c]| % 2 == 1 <==> n[c] > 0)
      decreases todo
    {
      var c :| c in todo;
      var rest := todo - {c};
      MigratingStep(n0, m, todo, n, c);
      assert n[c + 1] == n0[c + 1] - Moved(m, todo, c + 1) + Moved(m, todo, c);
      if c > 0 {
        assert n[c] == n0[c] - Moved(m, todo, c) + Moved(m, todo, c - 1);
      }
      ghost var s1 := s;
      n, s := Visit(n, s, c, m[c], t);
      forall i | 1 <= i < |s|
        ensures Appended(s0[i], s[i], t) && |s[i]| <= |s0[i]| + Touched(m, rest, i)
      {
        assert Touched(m, rest, i) == Touched(m, todo, i) + (if i == c then 1 else 0) + (if i == c + 1 then 1 else 0);
        if i == c || i == c + 1 {
          AppendedTrans(s0[i], s1[i], s[i], t);
        }
      }
      todo := rest;
    }
    MigratingDone(n0, m, n);
    forall c | 1 <= c < |s| && c !in m && c - 1 !in m
      ensures s[c] == s0[c]
    {
      assert Touched(m, todo, c) == 0;
      assert s[c] == s[c][..|s0[c]|];
    }
  }

  // ---------------------------------------------------------------- state

  /** What one class's switch list means after the records `hist`, with
      `mh` their edge counts: its times are recorded in order, its length is
      odd exactly when the class is populated, and the periods it delimits
      add up to the class's normalisation factor. */
  ghost predicate Logged(hist: seq<seq<nat>>, mh: seq<nat>, sk: seq<nat>, populated: bool, c: nat) {
    Timeline(sk, |mh|) && (|sk| % 2 == 1 <==> populated) && Reconstruct(sk, mh) == Exposure(hist, c)
  }

  /** What the fast program's variables mean after the records `hist`: the
      shared counters are those the records produce, t counts the steps, E
      the edges, m_history holds every step's edge count, s[0] is never
      written and every other switch list is logged; no class beyond the
      lists has ever been populated. */
  ghost predicate Consistent(hist: seq<seq<nat>>, t: nat, E: int, k: seq<nat>, n: seq<int>, N: int, A: seq<real>,
                             s: seq<seq<nat>>, mh: seq<nat>) {
    Records(hist) && Counters(k, n, N, A) == Replay(hist)
    && t == |hist| && E == Volume(hist)
    && |mh| == t && (forall i :: 0 <= i < t ==> mh[i] == |hist[i]|)
    && |s| == |n| && (|s| > 0 ==> s[0] == [])
    && (forall c :: 1 <= c < |s| ==> Logged(hist, mh, s[c], n[c] > 0, c))
    && (forall c :: |s| <= c ==> Exposure(hist, c) == 0)
  }

  /** A logged list extended by switches at the next step's time stays
      logged once that step's edge count is in the history. */
  lemma LoggedStep(hist: seq<seq<nat>>, mh: seq<nat>, sk: seq<nat>, sk': seq<nat>, c: nat, nodes: seq<nat>, populated': bool)
    requires |mh| == |hist| && Logged(hist, mh, sk, Populated(hist, c), c)
    requires Appended(sk, sk', |mh| + 1) && (|sk'| % 2 == 1 <==> populated')
    ensures Logged(hist + [nodes], mh + [|nodes|], sk', populated', c)
  {
    var mh' := mh + [|nodes|];
    ReconstructExtend(sk, mh, |nodes|);
    ExposureNext(hist, nodes, c);
    var extra := sk'[|sk|..];
    assert sk + extra == sk';
    ReconstructPushes(sk, extra, mh');
  }

  /** The switch lists after a step's migration are logged for the longer
      history, including the classes the step added. */
  lemma LogStep(hist: seq<seq<nat>>, k: seq<nat>, n: seq<int>, N: int, s: seq<seq<nat>>, mh: seq<nat>,
                nodes: seq<nat>, n': seq<int>, s': seq<seq<nat>>)
    requires Tracks(hist, k, n, N) && |mh| == |hist| && |s| == |n|
    requires forall c :: 1 <= c < |s| ==> Logged(hist, mh, s[c], n[c] > 0, c)
    requires forall c :: |s| <= c ==> Exposure(hist, c) == 0
    requires |s'| == |n'| >= |s|
    requires forall c :: 1 <= c < |s'| ==> Appended(PadTo(s, |s'|, [])[c], s'[c], |mh| + 1)
    requires forall c :: 1 <= c < |s'| ==> (|s'[c]| % 2 == 1 <==> n'[c] > 0)
    ensures forall c :: 1 <= c < |s'| ==> Logged(hist + [nodes], mh + [|nodes|], s'[c], n'[c] > 0, c)
    ensures forall c :: |s'| <= c ==> Exposure(hist + [nodes], c) == 0
  {
    var S := PadTo(s, |s'|, []);
    forall c | 1 <= c < |s'|
      ensures Logged(hist + [nodes], mh + [|nodes|], s'[c], n'[c] > 0, c)
    {
      PaddedLogged(hist, k, n, N, s, mh, |s'|, c);
      LoggedStep(hist, mh, S[c], s'[c], c, nodes, n'[c] > 0);
    }
    forall c | |s'| <= c
      ensures Exposure(hist + [nodes], c) == 0
    {
      ExposureNext(hist, nodes, c);
      PopulatedIff(hist, k, n, N, c);
    }
  }

  /** A class's list in the grown vector of lists is logged for the same
      history: a class beyond the old lists starts with an empty list and
      has never been populated. */
  lemma PaddedLogged(hist: seq<seq<nat>>, k: seq<nat>, n: seq<int>, N: int, s: seq<seq<nat>>, mh: seq<nat>, cap: nat, c: nat)
    requires Tracks(hist, k, n, N) && |mh| == |hist| && |s| == |n| <= cap && 1 <= c < cap
    requires c < |s| ==> Logged(hist, mh, s[c], n[c] > 0, c)
    requires |s| <= c ==> Exposure(hist, c) == 0
    ensures Logged(hist, mh, PadTo(s, cap, [])[c], Populated(hist, c), c)
  {
    PopulatedIff(hist, k, n, N, c);
    var S := PadTo(s, cap, []);
    if c >= |s| {
      assert S[c] == [];
      assert Reconstruct(S[c], mh) == 0;
    } else {
      assert S[c] == s[c];
    }
  }

  /** Lines 36 and 48-49: t is the length of m_history and E its sum. */
  lemma EdgeHistory(hist: seq<seq<nat>>, t: nat, E: int, k: seq<nat>, n: seq<int>, N: int, A: seq<real>,
                    s: seq<seq<nat>>, mh: seq<nat>)
    requires Consistent(hist, t, E, k, n, N, A, s, mh)
    ensures t == |mh| && E == Sum(mh)
  {
    VolumeSum(hist, mh);
  }

  /** Lines 36-102: one time step whose record lists `nodes`. The switch
      lists are only appended to, each by at most two copies of the new time. */
  method Step(ghost hist: seq<seq<nat>>, t: nat, E: int, k: seq<nat>, n: seq<int>, N: int, A: seq<real>,
              s: seq<seq<nat>>, mh: seq<nat>, nodes: seq<nat>)
    returns (t': nat, E': int, k': seq<nat>, n': seq<int>, N': int, A': seq<real>, s': seq<seq<nat>>, mh': seq<nat>)
    requires Consistent(hist, t, E, k, n, N, A, s, mh) && Distinct(nodes)
    ensures Consistent(hist + [nodes], t', E', k', n', N', A', s', mh')
    ensures t' == t + 1 && E' == E + |nodes| && mh' == mh + [|nodes|]
    ensures |s'| >= |s| && forall c :: 1 <= c < |s'| ==>
      Appended(PadTo(s, |s'|, [])[c], s'[c], t') && |s'[c]| <= |PadTo(s, |s'|, [])[c]| + 2
  {
    ReplayNext(hist, nodes);
    Prepared(hist, k, n, N, nodes);
    t' := t + 1;
    var mt: nat := |nodes|;
    mh' := mh + [mt];
    E' := E + mh'[|mh'| - 1];
    var m, cap;
    k', N', A', m, cap := Update(k, n, N, A, nodes);
    n', s' := Record(n, s, m, cap, t');
    StepLogged(hist, t, E, k, n, N, A, s, mh, nodes, k', n', N', A', s');
  }

  /** Lines 87, 89 and 95-102: grow the populations and the switch lists to
      `cap`, then migrate with recording. The lists the step started with
      are only appended to, class 0's stays empty, and parity keeps telling
      whether each class is populated. */
  method Record(n: seq<int>, s: seq<seq<nat>>, m: map<nat, nat>, cap: nat, t: nat) returns (n': seq<int>, s': seq<seq<nat>>)
    requires |s| == |n| <= cap && (|s| > 0 ==> s[0] == [])
    requires forall c :: 1 <= c < |n| ==> (|s[c]| % 2 == 1 <==> n[c] > 0)
    requires forall c :: 0 < c < |n| ==> Count(m, c) <= n[c]
    requires Creditable(n, m) && forall c :: c in m ==> c + 1 < cap && m[c] > 0
    ensures n' == Shifted(PadTo(n, cap, 0), m)
    ensures |s'| == cap && (|s'| > 0 ==> s'[0] == [])
    ensures forall c :: 1 <= c < |s'| ==>
      Appended(PadTo(s, |s'|, [])[c], s'[c], t) && |s'[c]| <= |PadTo(s, |s'|, [])[c]| + 2
    ensures forall c :: 1 <= c < |s'| ==> (|s'[c]| % 2 == 1 <==> n'[c] > 0)
  {
    var n0, s0 := PadTo(n, cap, 0), PadTo(s, cap, []);
    Recordable(n, s, m, cap);
    n', s' := MigrateRecording(n0, s0, m, t);
    assert |s'| > 0 ==> s'[0] == s0[0] == [];
  }

  /** The state after a step is consistent with the longer history, given
      what the step's loops computed. */
  lemma StepLogged(hist: seq<seq<nat>>, t: nat, E: int, k: seq<nat>, n: seq<int>, N: int, A: seq<real>,
                   s: seq<seq<nat>>, mh: seq<nat>, nodes: seq<nat>,
                   k': seq<nat>, n': seq<int>, N': int, A': seq<real>, s': seq<seq<nat>>)
    requires Consistent(hist, t, E, k, n, N, A, s, mh) && Distinct(nodes)
    requires Records(hist + [nodes]) && Counters(k', n', N', A') == Replay(hist + [nodes])
    requires |s'| == |n'| >= |s| && (|s'| > 0 ==> s'[0] == [])
    requires forall c :: 1 <= c < |s'| ==> Appended(PadTo(s, |s'|, [])[c], s'[c], t + 1)
    requires forall c :: 1 <= c < |s'| ==> (|s'[c]| % 2 == 1 <==> n'[c] > 0)
    ensures Consistent(hist + [nodes], t + 1, E + |nodes|, k', n', N', A', s', mh + [|nodes|])
  {
    LogStep(hist, k, n, N, s, mh, nodes, n', s');
    HistoryStep(hist, mh, nodes);
    assert (hist + [nodes])[..|hist|] == hist;
  }

  /** The edge-count history grows with the record history. */
  lemma HistoryStep(hist: seq<seq<nat>>, mh: seq<nat>, nodes: seq<nat>)
    requires |mh| == |hist| && forall i :: 0 <= i < |hist| ==> mh[i] == |hist[i]|
    ensures var h', mh' := hist + [nodes], mh + [|nodes|];
      |mh'| == |h'| && forall i :: 0 <= i < |h'| ==> mh'[i] == |h'[i]|
  {
  }

  /** The grown vectors meet what the recording migration demands. */
  lemma Recordable(n: seq<int>, s: seq<seq<nat>>, m: map<nat, nat>, cap: nat)
    requires |s| == |n| <= cap
    requires forall c :: 1 <= c < |n| ==> (|s[c]| % 2 == 1 <==> n[c] > 0)
    requires forall c :: 0 < c < |n| ==> Count(m, c) <= n[c]
    requires forall c :: c in m && c > 0 ==> c < |n|
    ensures var n0, s0 := PadTo(n, cap, 0), PadTo(s, cap, []);
      (forall c :: 0 < c < |n0| ==> Count(m, c) <= n0[c])
      && (forall c :: 1 <= c < |n0| ==> (|s0[c]| % 2 == 1 <==> n0[c] > 0))
  {
    var n0, s0 := PadTo(n, cap, 0), PadTo(s, cap, []);
    forall c | 1 <= c < cap
      ensures Count(m, c) <= n0[c] && (|s0[c]| % 2 == 1 <==> n0[c] > 0)
    {
      if c < |n| {
        assert n0[c] == n[c] && s0[c] == s[c];
      }
    }
  }

  // ---------------------------------------------------------------- post pass

  /** Lines 114-116 and 126-128: add mh[lo] + ... + mh[hi - 1] to w[c]. */
  method AddRange(w: seq<int>, c: nat, mh: seq<nat>, lo: nat, hi: nat) returns (w': seq<int>)
    requires c < |w| && hi <= |mh|
    ensures w' == w[c := w[c] + SumRange(mh, lo, hi)]
  {
    w' := w;
    var tt := lo;
    while tt < hi
      invariant lo <= tt && (tt <= hi || tt == lo)
      invariant w' == w[c := w[c] + SumRange(mh, lo, if tt < hi then tt else hi)]
    {
      w' := w'[c := w'[c] + mh[tt]];
      tt := tt + 1;
    }
  }

  /** Lines 110-131: add to w[c] the edges of every active period that the
      switch list `sk` delimits, the still-open one included. */
  method Rebuild(w: seq<int>, c: nat, sk: seq<nat>, mh: seq<nat>) returns (w': seq<int>)
    requires c < |w| && Bounded(sk, |mh|)
    ensures w' == w[c := w[c] + Reconstruct(sk, mh)]
  {
    w' := w;
    var i := 1;
    while i < |sk|
      invariant 1 <= i && (i <= |sk| || i == 1)
      invariant w' == w[c := w[c] + Paired(sk, mh, if i <= |sk| then i else |sk|)]
    {
      if i % 2 == 1 {
        w' := AddRange(w', c, mh, sk[i - 1], sk[i]);
      }
      i := i + 1;
    }
    if |sk| % 2 == 1 {
      w' := AddRange(w', c, mh, sk[|sk| - 1], |mh|);
    }
  }

  /** Lines 105-132: the normalisation factor of every class below `size`,
      rebuilt from the switch lists; class 0 keeps 0. */
  method PostPass(size: nat, s: seq<seq<nat>>, mh: seq<nat>) returns (w: seq<int>)
    requires size <= |s| && forall c :: 1 <= c < size ==> Bounded(s[c], |mh|)
    ensures |w| == size && (size > 0 ==> w[0] == 0)
    ensures forall c :: 1 <= c < size ==> w[c] == Reconstruct(s[c], mh)
  {
    w := seq(size, _ => 0);
    var c := 1;
    while c < size
      invariant 1 <= c && (c <= size || c == 1) && |w| == size
      invariant size > 0 ==> w[0] == 0
      invariant forall i :: 1 <= i < c && i < size ==> w[i] == Reconstruct(s[i], mh)
      invariant forall i :: c <= i < size ==> w[i] == 0
    {
      w := Rebuild(w, c, s[c], mh);
      c := c + 1;
    }
  }

  /** Lines 22-132: read the records one time step at a time, then rebuild
      the normalisation factors. Afterwards the counters are those the
      records produce and w[c] is the normalisation factor of class c. */
  method Run(stream: seq<seq<nat>>) returns (t: nat, E: int, k: seq<nat>, n: seq<int>, N: int, A: seq<real>, w: seq<int>)
    requires forall r :: 0 <= r < |stream| ==> stream[r] != [] && Distinct(stream[r])
    ensures Counters(k, n, N, A) == Replay(stream)
    ensures t == |stream| && E == Volume(stream)
    ensures |w| == |A| && Weighs(stream, w)
  {
    var s: seq<seq<nat>>, mh: seq<nat>;
    t, E, k, n, N, A, s, mh := 0, 0, [], [], 0, [], [], [];
    var i := 0;
    while i < |stream|
      invariant 0 <= i <= |stream|
      invariant Consistent(stream[..i], t, E, k, n, N, A, s, mh)
    {
      PrefixStep(stream, i);
      t, E, k, n, N, A, s, mh := Step(stream[..i], t, E, k, n, N, A, s, mh, stream[i]);
      i := i + 1;
    }
    assert stream[..i] == stream;
    w := PostPass(|A|, s, mh);
    Rebuilt(stream, t, E, k, n, N, A, s, mh, w);
  }

  /** The rebuilt factors are the normalisation factors. */
  lemma Rebuilt(hist: seq<seq<nat>>, t: nat, E: int, k: seq<nat>, n: seq<int>, N: int, A: seq<real>,
                s: seq<seq<nat>>, mh: seq<nat>, w: seq<int>)
    requires Consistent(hist, t, E, k, n, N, A, s, mh)
    requires |w| == |A| && (|w| > 0 ==> w[0] == 0)
    requires forall c :: 1 <= c < |w| ==> w[c] == Reconstruct(s[c], mh)
    ensures Weighs(hist, w)
  {
    ExposureZero(hist);
  }
}
