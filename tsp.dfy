/** The curve orderer of utils.py (`tsp_path`, `tsp_order`): a greedy
    nearest-neighbour walk from every start over a distance matrix whose
    diagonal and already-left columns hold +inf, keeping the walk of least
    total length. preprocessing/process_VG_data.py and old/order_all_breaks.py
    carry line-for-line copies of the same two routines. */
module Tsp {
  import opened Wrappers
  import opened Seqs

  /** A matrix entry: a finite distance or numpy's `np.inf`. */
  datatype Dist = Fin(value: real) | Inf

  /** Python's `<` on floats, where nothing is below +inf's complement and
      every finite value is below +inf. */
  predicate Below(a: Dist, b: Dist) {
    match a
    case Inf => false
    case Fin(x) => b.Inf? || x < b.value
  }

  /** Float addition where +inf absorbs. */
  function Plus(a: Dist, b: Dist): Dist {
    if a.Inf? || b.Inf? then Inf else Fin(a.value + b.value)
  }

  /** `np.sum` of a vector of distances; the empty sum is 0. */
  function Sum(s: seq<Dist>): Dist {
    if s == [] then Fin(0.0) else Plus(Sum(s[..|s| - 1]), s[|s| - 1])
  }

  type Matrix = seq<seq<Dist>>

  predicate IsSquare(M: Matrix) {
    forall r :: 0 <= r < |M| ==> |M[r]| == |M|
  }

  /** What `tsp_order` hands to `tsp_path`: +inf exactly on the diagonal. */
  predicate IsClosedDistance(M: Matrix) {
    IsSquare(M) && forall r, c :: 0 <= r < |M| && 0 <= c < |M| ==> (M[r][c].Inf? <==> r == c)
  }

  /** `np.argmin`: the first position holding a least value. */
  function ArgMin(row: seq<Dist>): (k: nat)
    requires |row| > 0
    ensures k < |row|
    ensures forall c :: 0 <= c < |row| ==> !Below(row[c], row[k])
    ensures forall c :: 0 <= c < k ==> Below(row[k], row[c])
  {
    if |row| == 1 then 0
    else
      var k := ArgMin(row[..|row| - 1]);
      assert forall c :: 0 <= c < |row| - 1 ==> row[..|row| - 1][c] == row[c];
      if Below(row[|row| - 1], row[k]) then |row| - 1 else k
  }

  /** Entry (r, c) of the walk's working copy once the columns of `left` were set to +inf. */
  function Masked(M: Matrix, left: seq<nat>, r: nat, c: nat): Dist
    requires IsSquare(M) && r < |M| && c < |M|
  {
    if c in left then Inf else M[r][c]
  }

  /** Row r of the working copy once the columns of `left` were set to +inf. */
  function MaskedRow(M: Matrix, left: seq<nat>, r: nat): (row: seq<Dist>)
    requires IsSquare(M) && r < |M|
    ensures |row| == |M|
    ensures forall c :: 0 <= c < |M| ==> row[c] == Masked(M, left, r, c)
  {
    seq(|M|, c requires 0 <= c < |M| => Masked(M, left, r, c))
  }

  /** The first `len` points of the walk `tsp_path(D, i)`: each step goes to the
      arg-min of the current row, with the columns of every earlier point blanked. */
  function Walk(M: Matrix, i: nat, len: nat): (path: seq<nat>)
    requires IsSquare(M) && i < |M| && 1 <= len
    ensures |path| == len && path[0] == i
    ensures forall k :: 0 <= k < len ==> path[k] < |M|
    decreases len
  {
    if len == 1 then [i]
    else
      var p := Walk(M, i, len - 1);
      p + [ArgMin(MaskedRow(M, p[..len - 2], p[len - 2]))]
  }

  /** The `length` vector of `tsp_path`: step k reads the working copy, in which
      the columns of path[..k] are blanked. */
  function StepLengths(M: Matrix, path: seq<nat>): (length: seq<Dist>)
    requires IsSquare(M) && |path| >= 1
    requires forall k :: 0 <= k < |path| ==> path[k] < |M|
    ensures |length| == |path| - 1
  {
    seq(|path| - 1, k requires 0 <= k < |path| - 1 => Masked(M, path[..k], path[k], path[k + 1]))
  }

  /** `np.sum(length)` for the walk from start s. */
  function Total(M: Matrix, s: nat): Dist
    requires IsSquare(M) && s < |M|
  {
    Sum(StepLengths(M, Walk(M, s, |M|)))
  }

  /** The totals of the walks from every start, in start order. */
  function Totals(M: Matrix): (t: seq<Dist>)
    requires IsSquare(M)
    ensures |t| == |M| && forall s :: 0 <= s < |M| ==> t[s] == Total(M, s)
  {
    seq(|M|, s requires 0 <= s < |M| => Total(M, s))
  }

  /** The start whose walk `tsp_order` keeps: no walk is shorter, and, because
      the comparison is a strict `<`, every earlier start is strictly longer. */
  function BestStart(M: Matrix): (b: nat)
    requires IsSquare(M) && |M| >= 1
    ensures b < |M|
    ensures forall s :: 0 <= s < |M| ==> !Below(Total(M, s), Total(M, b))
    ensures forall s :: 0 <= s < b ==> Below(Total(M, b), Total(M, s))
  {
    ArgMin(Totals(M))
  }

  /** The ordering `tsp_order` returns for a closed distance matrix. */
  function GreedyOrder(M: Matrix): seq<nat>
    requires IsSquare(M) && |M| >= 1
  {
    Walk(M, BestStart(M), |M|)
  }

  // ---------------------------------------------------------------------------
  // Properties of the greedy walk

  /** A shorter walk is a prefix of a longer one from the same start. */
  lemma {:induction false} WalkPrefix(M: Matrix, i: nat, a: nat, b: nat)
    requires IsSquare(M) && i < |M| && 1 <= a <= b
    ensures Walk(M, i, b)[..a] == Walk(M, i, a)
    decreases b
  {
    if a < b {
      WalkPrefix(M, i, a, b - 1);
      assert Walk(M, i, b)[..b - 1] == Walk(M, i, b - 1);
      assert Walk(M, i, b)[..a] == Walk(M, i, b)[..b - 1][..a];
    }
  }

  /** Step k of the full walk is the arg-min of row W[k] with the columns of W[..k] blanked. */
  lemma WalkStep(M: Matrix, i: nat, k: nat)
    requires IsSquare(M) && i < |M| && k + 1 < |M|
    ensures Walk(M, i, |M|)[k + 1]
         == ArgMin(MaskedRow(M, Walk(M, i, |M|)[..k], Walk(M, i, |M|)[k]))
  {
    var W := Walk(M, i, |M|);
    var q := Walk(M, i, k + 1);
    WalkPrefix(M, i, k + 2, |M|);
    WalkPrefix(M, i, k + 1, |M|);
    assert W[k + 1] == W[..k + 2][k + 1];
    assert W[k] == W[..k + 1][k] == q[k];
    assert W[..k] == W[..k + 1][..k] == q[..k];
  }

  /** On a closed distance matrix the walk never revisits a point. */
  lemma {:induction false} WalkDistinct(M: Matrix, i: nat, len: nat)
    requires IsClosedDistance(M) && i < |M| && 1 <= len <= |M|
    ensures Distinct(Walk(M, i, len))
    decreases len
  {
    if len > 1 {
      WalkDistinct(M, i, len - 1);
      var p := Walk(M, i, len - 1);
      var cur := p[len - 2];
      var left := p[..len - 2];
      assert p == left + [cur];
      Pigeonhole(p, |M|);
      var c :| 0 <= c < |M| && c !in p;
      var row := MaskedRow(M, left, cur);
      var k := ArgMin(row);
      assert row[c] == M[cur][c] && row[c].Fin?;
      assert row[k].Fin?;
      assert k !in p;
      assert Walk(M, i, len) == p + [k];
    }
  }

  /** `tsp_path` on a closed distance matrix returns a permutation of 0 .. n-1. */
  lemma WalkIsPermutation(M: Matrix, i: nat)
    requires IsClosedDistance(M) && i < |M|
    ensures IsPermutation(Walk(M, i, |M|), |M|)
  {
    WalkDistinct(M, i, |M|);
  }

  /** Each step of the walk moves to the lowest-indexed not-yet-visited point at
      least distance from the current one, and `length` records that original distance. */
  lemma WalkIsNearestNeighbour(M: Matrix, i: nat, k: nat)
    requires IsClosedDistance(M) && i < |M| && k + 1 < |M|
    ensures var W := Walk(M, i, |M|);
      && W[k + 1] !in W[..k + 1]
      && StepLengths(M, W)[k] == M[W[k]][W[k + 1]]
      && M[W[k]][W[k + 1]].Fin?
      && (forall c :: 0 <= c < |M| && c !in W[..k + 1] ==> !Below(M[W[k]][c], M[W[k]][W[k + 1]]))
      && (forall c :: 0 <= c < W[k + 1] && c !in W[..k + 1] ==> Below(M[W[k]][W[k + 1]], M[W[k]][c]))
  {
    var W := Walk(M, i, |M|);
    WalkDistinct(M, i, |M|);
    WalkStep(M, i, k);
    assert W[..k + 1] == W[..k] + [W[k]];
    var row := MaskedRow(M, W[..k], W[k]);
    assert W[k + 1] !in W[..k + 1];
    forall c | 0 <= c < |M| && c !in W[..k + 1] ensures row[c] == M[W[k]][c] {
    }
  }

  /** Every recorded step length of a walk over a closed matrix is finite. */
  lemma StepLengthsFinite(M: Matrix, i: nat)
    requires IsClosedDistance(M) && i < |M|
    ensures forall k :: 0 <= k < |M| - 1 ==> StepLengths(M, Walk(M, i, |M|))[k].Fin?
  {
    forall k | 0 <= k < |M| - 1 ensures StepLengths(M, Walk(M, i, |M|))[k].Fin? {
      WalkIsNearestNeighbour(M, i, k);
    }
  }

  /** A sum of finite distances is finite. */
  lemma {:induction false} SumFinite(s: seq<Dist>)
    requires forall k :: 0 <= k < |s| ==> s[k].Fin?
    ensures Sum(s).Fin?
  {
    if s != [] {
      SumFinite(s[..|s| - 1]);
    }
  }

  /** A sum of one or more +inf is +inf. */
  lemma {:induction false} SumInfinite(s: seq<Dist>)
    requires |s| >= 1 && forall k :: 0 <= k < |s| ==> s[k].Inf?
    ensures Sum(s).Inf?
  {
    if |s| > 1 {
      SumInfinite(s[..|s| - 1]);
    }
  }

  /** On a closed distance matrix every start yields a walk of finite total. */
  lemma TotalFinite(M: Matrix, s: nat)
    requires IsClosedDistance(M) && s < |M|
    ensures Total(M, s).Fin?
  {
    StepLengthsFinite(M, s);
    SumFinite(StepLengths(M, Walk(M, s, |M|)));
  }

  // ---------------------------------------------------------------------------
  // The in-place routines

  /** The matrix held by a 2-D array. */
  ghost function Grid(D: array2<Dist>): (M: Matrix)
    reads D
    ensures |M| == D.Length0 && forall r :: 0 <= r < |M| ==> |M[r]| == D.Length1
    ensures forall r, c :: 0 <= r < D.Length0 && 0 <= c < D.Length1 ==> M[r][c] == D[r, c]
  {
    seq(D.Length0, r requires 0 <= r < D.Length0 reads D =>
      seq(D.Length1, c requires 0 <= c < D.Length1 reads D => D[r, c]))
  }

  /** `D[r, :]`. */
  function RowOf(D: array2<Dist>, r: nat): (row: seq<Dist>)
    requires r < D.Length0
    reads D
    ensures |row| == D.Length1 && forall c :: 0 <= c < D.Length1 ==> row[c] == D[r, c]
  {
    seq(D.Length1, c requires 0 <= c < D.Length1 reads D => D[r, c])
  }

  /** Appending one point to a walk appends one step length. */
  lemma StepLengthsExtend(M: Matrix, path: seq<nat>, next: nat)
    requires IsSquare(M) && |path| >= 1 && next < |M|
    requires forall k :: 0 <= k < |path| ==> path[k] < |M|
    ensures StepLengths(M, path + [next])
         == StepLengths(M, path) + [Masked(M, path[..|path| - 1], path[|path| - 1], next)]
  {
    var p := path + [next];
    assert forall k :: 0 <= k < |path| ==> p[..k] == path[..k];
  }

  /** The leftmost first-minimum of a longer prefix, from that of the shorter one. */
  lemma ArgMinExtend(t: seq<Dist>, i: nat)
    requires 1 <= i < |t|
    ensures ArgMin(t[..i + 1]) == if Below(t[i], t[ArgMin(t[..i])]) then i else ArgMin(t[..i])
  {
    assert t[..i + 1][..i] == t[..i];
  }

  /** `D[:, c] = np.inf`. */
  method BlankColumn(D: array2<Dist>, c: nat)
    requires c < D.Length1
    modifies D
    ensures forall r, c' :: 0 <= r < D.Length0 && 0 <= c' < D.Length1 ==>
              D[r, c'] == if c' == c then Inf else old(D[r, c'])
  {
    forall r | 0 <= r < D.Length0 {
      D[r, c] := Inf;
    }
  }

  /** `D.copy()`. */
  method CopyMatrix(D: array2<Dist>) returns (E: array2<Dist>)
    ensures fresh(E) && E.Length0 == D.Length0 && E.Length1 == D.Length1
    ensures Grid(E) == Grid(D)
  {
    E := new Dist[D.Length0, D.Length1]((r, c) requires 0 <= r < D.Length0 && 0 <= c < D.Length1 reads D => D[r, c]);
    assert forall r :: 0 <= r < D.Length0 ==> Grid(E)[r] == Grid(D)[r];
  }

  /** `tsp_path(D, i)`: walks from i, blanking in D the column of every point it leaves. */
  method TspPath(D: array2<Dist>, i: nat) returns (path: seq<nat>, length: seq<Dist>)
    requires D.Length0 == D.Length1 && i < D.Length0
    modifies D
    ensures path == Walk(old(Grid(D)), i, D.Length0)
    ensures length == StepLengths(old(Grid(D)), path)
    ensures forall r, c :: 0 <= r < D.Length0 && 0 <= c < D.Length1 ==>
              D[r, c] == Masked(old(Grid(D)), path[..|path| - 1], r, c)
  {
    ghost var M := Grid(D);
    var n := D.Length0;
    path := [i];
    length := [];
    var j := 0;
    while j < n - 1
      invariant 0 <= j <= n - 1
      invariant path == Walk(M, i, j + 1)
      invariant length == StepLengths(M, path)
      invariant forall r, c :: 0 <= r < n && 0 <= c < n ==> D[r, c] == Masked(M, path[..j], r, c)
    {
      var cur := path[j];
      ghost var left := path[..j];
      var row := RowOf(D, cur);
      assert row == MaskedRow(M, left, cur);
      var next := ArgMin(row);
      StepLengthsExtend(M, path, next);
      length := length + [D[cur, next]];
      path := path + [next];
      assert path[..j + 1] == left + [cur];
      BlankColumn(D, cur);
      j := j + 1;
    }
  }

  datatype Point = Point(x: real, y: real, z: real)

  /** `np.stack((x, y, z)).T`. */
  function Points(x: seq<real>, y: seq<real>, z: seq<real>): (pts: seq<Point>)
    requires |y| == |x| && |z| == |x|
    ensures |pts| == |x|
  {
    seq(|x|, k requires 0 <= k < |x| => Point(x[k], y[k], z[k]))
  }

  /** `spatial.distance_matrix(X, X)` under the given metric, with the diagonal set to +inf. */
  function DistanceMatrix(pts: seq<Point>, metric: (Point, Point) -> real): (M: Matrix)
    ensures IsClosedDistance(M) && |M| == |pts|
  {
    seq(|pts|, r requires 0 <= r < |pts| =>
      seq(|pts|, c requires 0 <= c < |pts| => if r == c then Inf else Fin(metric(pts[r], pts[c]))))
  }

  datatype TspError = ShapeMismatch | NoPoints

  /** `tsp_order(x, y, z)`: the greedy walk of least total over all starts. */
  method TspOrder(x: seq<real>, y: seq<real>, z: seq<real>, metric: (Point, Point) -> real)
    returns (r: Result<seq<nat>, TspError>)
    ensures (|y| != |x| || |z| != |x|) <==> r == Failure(ShapeMismatch)
    ensures (|y| == |x| && |z| == |x| && |x| == 0) <==> r == Failure(NoPoints)
    ensures r.Success? <==> (|y| == |x| && |z| == |x| && |x| > 0)
    ensures r.Success? ==> IsPermutation(r.value, |x|)
    ensures r.Success? ==> r.value == GreedyOrder(DistanceMatrix(Points(x, y, z), metric))
  {
    if |y| != |x| || |z| != |x| {
      return Failure(ShapeMismatch);
    }
    var n := |x|;
    var pts := Points(x, y, z);
    var D := new Dist[n, n]((r, c) requires 0 <= r < n && 0 <= c < n =>
      if r == c then Inf else Fin(metric(pts[r], pts[c])));
    assert Grid(D) == DistanceMatrix(pts, metric) by {
      assert forall r :: 0 <= r < n ==> Grid(D)[r] == DistanceMatrix(pts, metric)[r];
    }
    if n == 0 {
      return Failure(NoPoints);
    }
    var path := ShortestWalk(D);
    WalkIsPermutation(Grid(D), BestStart(Grid(D)));
    return Success(path);
  }

  /** `tsp_path(np.copy(D), i)`: the walk from `i` on a copy, leaving D unchanged. */
  method WalkOnCopy(D: array2<Dist>, i: nat) returns (path: seq<nat>, length: seq<Dist>)
    requires D.Length0 == D.Length1 && i < D.Length0
    ensures path == Walk(Grid(D), i, D.Length0)
    ensures Sum(length) == Total(Grid(D), i)
  {
    var E := CopyMatrix(D);
    path, length := TspPath(E, i);
  }

  /** What the search loop knows before trying start `i`: the shortest walk
      among starts 0 .. i-1, or the initial values when `i` is 0. */
  ghost predicate SearchState(M: Matrix, t: seq<Dist>, i: nat, best: nat, minLength: seq<Dist>, minPath: seq<nat>)
    requires IsSquare(M) && |M| >= 1 && t == Totals(M) && i <= |M|
  {
    var n := |M|;
    && (i == 0 ==> minPath == Range(n) && Sum(minLength) == if n == 1 then Fin(0.0) else Inf)
    && (i > 0 ==> best < i && best == ArgMin(t[..i]) && minPath == Walk(M, best, n) && Sum(minLength) == t[best])
  }

  /** One iteration of the search loop: try start `i`, keep it when its walk is
      strictly shorter. */
  method TryStart(D: array2<Dist>, i: nat, minLength: seq<Dist>, minPath: seq<nat>, ghost best: nat)
    returns (minLength': seq<Dist>, minPath': seq<nat>, ghost best': nat)
    requires D.Length0 == D.Length1 >= 1 && IsClosedDistance(Grid(D)) && i < D.Length0
    requires SearchState(Grid(D), Totals(Grid(D)), i, best, minLength, minPath)
    ensures SearchState(Grid(D), Totals(Grid(D)), i + 1, best', minLength', minPath')
  {
    ghost var M := Grid(D);
    ghost var t := Totals(M);
    var n := D.Length0;
    var path, length := WalkOnCopy(D, i);
    if i == 0 && n > 1 {
      TotalFinite(M, 0);
    }
    if i > 0 {
      ArgMinExtend(t, i);
    } else {
      assert ArgMin(t[..1]) == 0;
    }
    minLength', minPath', best' := minLength, minPath, best;
    if Below(Sum(length), Sum(minLength)) {
      minLength', minPath', best' := length, path, i;
    } else if i == 0 {
      assert n == 1 && path == Walk(M, 0, n) == Range(n);
      best' := 0;
    }
  }

  /** The search loop of `tsp_order` over a closed matrix D, which it leaves unchanged. */
  method ShortestWalk(D: array2<Dist>) returns (minPath: seq<nat>)
    requires D.Length0 == D.Length1 >= 1 && IsClosedDistance(Grid(D))
    ensures minPath == GreedyOrder(Grid(D))
  {
    var n := D.Length0;
    ghost var M := Grid(D);
    var minLength := seq(n - 1, _ => Inf);
    assert Sum(minLength) == if n == 1 then Fin(0.0) else Inf by {
      if n > 1 { SumInfinite(minLength); }
    }
    minPath := Range(n);
    ghost var best: nat := 0;
    ghost var t := Totals(M);
    for i := 0 to n
      invariant Grid(D) == M
      invariant SearchState(M, t, i, best, minLength, minPath)
    {
      minLength, minPath, best := TryStart(D, i, minLength, minPath, best);
    }
    assert t[..n] == t;
    assert best == BestStart(M);
  }
}
