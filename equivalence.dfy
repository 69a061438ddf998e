/** The two programs side by side: fed the same records they end with the
    same counters and, although the fast one never keeps w during the
    steps, the same normalisation factors, so they print the same table. */
module Equivalence {
  import opened Counting
  import opened Phases
  import Naive
  import Fast

  /** Both programs on the same records: equal step counts, edge counts,
      node counts, kernels and normalisation factors, the factor of class c
      being the edges added at steps that began with class c populated.
      Every record adds an edge, so E >= t. After two records class 1
      exists and has a positive factor. */
  method Agree(stream: seq<seq<nat>>)
    returns (t: nat, E: int, N: int, A: seq<real>, w: seq<int>, t': nat, E': int, N': int, A': seq<real>, w': seq<int>)
    requires forall r :: 0 <= r < |stream| ==> stream[r] != [] && Distinct(stream[r])
    ensures t == t' && E == E' && N == N' && A == A' && w == w'
    ensures |w| == |A| && forall c :: 0 <= c < |w| ==> w[c] == Exposure(stream, c)
    ensures E >= t
    ensures |stream| >= 2 ==> |A| >= 2 && w[1] > 0
  {
    var k, n, k', n';
    t, E, k, n, N, A, w := Naive.Run(stream);
    t', E', k', n', N', A', w' := Fast.Run(stream);
    forall c | 0 <= c < |w|
      ensures w[c] == w'[c]
    {
    }
    VolumeBound(stream);
    if |stream| >= 2 {
      ClassOneWeighed(stream);
    }
  }

  /** Once two non-empty records are in, class 1 indexes the vectors and
      its normalisation factor is positive: the first record brings nodes
      into class 1 and the second adds its edges to that class. */
  lemma ClassOneWeighed(hist: seq<seq<nat>>)
    requires forall r :: 0 <= r < |hist| ==> hist[r] != [] && Distinct(hist[r])
    requires |hist| >= 2
    ensures Records(hist) && |Replay(hist).A| >= 2 && Exposure(hist, 1) > 0
  {
    var c := Replay(hist);
    var x := hist[0][0];
    SeenListed(hist, 0, 0);
    assert c.k[x] == Seen(hist, x);
    var first := hist[..1];
    assert first == [hist[0]] && first[..0] == [];
    OccDistinct(hist[0], 0);
    assert Seen(first, x) == 1;
    assert Populated(first, 1);
    assert hist[..2][..1] == first;
    assert Exposure(hist[..2], 1) >= |hist[1]|;
    ExposureMonotone(hist, 2, 1);
  }
}
