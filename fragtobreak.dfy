/** Fragment-level data expanded to break level for the randomized experiments
    (`frag_to_break` in src/randomized_experiment.py, randomized_experiment.py
    and frag_level_experimenet.py), and the result lists the experiments grow
    (`append` in src/randomized_experiment.py). */
module FragToBreak {
  import opened Wrappers
  import opened Seqs

  /** A numeric table, row by row. */
  type Matrix = seq<seq<real>>

  /** Every row has `cols` entries. */
  predicate HasColumns(m: Matrix, cols: nat) {
    forall i :: 0 <= i < |m| ==> |m[i]| == cols
  }

  /** Each element repeated `copies` times in place: `np.ones((F, B)) * a[:, None]`
      followed by a row-major reshape to `F * B` entries. */
  function Expand<T>(xs: seq<T>, copies: nat): (e: seq<T>)
    ensures |e| == |xs| * copies
    ensures forall k :: 0 <= k < |e| ==> e[k] in xs
    decreases |xs|
  {
    if xs == [] then []
    else
      var init := Expand(xs[..|xs| - 1], copies);
      assert |init| + copies == |xs| * copies;
      init + seq(copies, _ => xs[|xs| - 1])
  }

  /** One more factor adds one more copy. */
  lemma MulSucc(c: nat, a: nat) ensures c * (a + 1) == c * a + c {}

  /** Multiplication by a natural number is monotone. */
  lemma MulLe(a: nat, b: nat, c: nat)
    requires a <= b
    ensures a * c <= b * c
  {}

  /** Entry `i * copies + j` of the expansion is element `i`. */
  lemma {:induction false} ExpandAt<T>(xs: seq<T>, copies: nat, i: nat, j: nat)
    requires i < |xs| && j < copies
    ensures i * copies + j < |xs| * copies
    ensures Expand(xs, copies)[i * copies + j] == xs[i]
  {
    var n := |xs| - 1;
    var init := Expand(xs[..n], copies);
    assert |init| == n * copies;
    assert |xs| * copies == n * copies + copies;
    assert (i + 1) * copies == i * copies + copies;
    if i < n {
      MulLe(i + 1, n, copies);
      ExpandAt(xs[..n], copies, i, j);
      assert xs[..n][i] == xs[i];
    } else {
      assert i * copies == n * copies;
    }
  }

  /** Occurrences in a concatenation add up. */
  lemma {:induction false} CountAppend<T>(a: seq<T>, b: seq<T>, v: T)
    ensures Count(a + b, v) == Count(a, v) + Count(b, v)
    decreases |b|
  {
    if b != [] {
      assert (a + b)[..|a + b| - 1] == a + b[..|b| - 1];
      CountAppend(a, b[..|b| - 1], v);
    } else {
      assert a + b == a;
    }
  }

  /** A block of `copies` equal elements counts `copies` or nothing. */
  lemma {:induction false} CountBlock<T>(x: T, copies: nat, v: T)
    ensures Count(seq(copies, _ => x), v) == if x == v then copies else 0
  {
    if copies > 0 {
      assert seq(copies, _ => x)[..copies - 1] == seq(copies - 1, _ => x);
      CountBlock(x, copies - 1, v);
    }
  }

  /** Expansion multiplies every element's count by the number of copies. */
  lemma {:induction false} ExpandCount<T>(xs: seq<T>, copies: nat, v: T)
    ensures Count(Expand(xs, copies), v) == copies * Count(xs, v)
    decreases |xs|
  {
    if xs != [] {
      var n := |xs| - 1;
      ExpandCount(xs[..n], copies, v);
      CountAppend(Expand(xs[..n], copies), seq(copies, _ => xs[n]), v);
      CountBlock(xs[n], copies, v);
      var before := Count(xs[..n], v);
      if xs[n] == v {
        assert Count(xs, v) == before + 1;
        MulSucc(copies, before);
      } else {
        assert Count(xs, v) == before;
      }
    }
  }

  /** The labels as the floats `np.ones(...) * y_frag` produces. */
  function Labels(yFrag: seq<int>): (ys: seq<real>)
    ensures |ys| == |yFrag| && forall i :: 0 <= i < |yFrag| ==> ys[i] == yFrag[i] as real
  {
    seq(|yFrag|, i requires 0 <= i < |yFrag| => yFrag[i] as real)
  }

  /** Turning labels into floats keeps every label's count. */
  lemma {:induction false} LabelsCount(yFrag: seq<int>, v: int)
    ensures Count(Labels(yFrag), v as real) == Count(yFrag, v)
  {
    if yFrag != [] {
      var n := |yFrag| - 1;
      assert Labels(yFrag)[..n] == Labels(yFrag[..n]);
      LabelsCount(yFrag[..n], v);
    }
  }

  /** Break-level features and labels. */
  datatype BreakData = BreakData(x: Matrix, y: seq<real>)

  /** `np.ones` refuses a negative number of breaks per fragment. */
  datatype ExpandError = NegativeDimension

  /** `frag_to_break(x_frag, y_frag, B, num_break_features)`: every fragment row
      and label repeated `B` times; when `num_break_features > 0` the random
      columns `noise` (`np.random.rand(n, num_break_features)`) are appended to
      each row. `numFeatures` is `x_frag.shape[1]`. */
  function FragToBreak(xFrag: Matrix, yFrag: seq<int>, numFeatures: nat, breaksPerFrag: int,
                       numBreakFeatures: int, noise: Matrix): (r: Result<BreakData, ExpandError>)
    requires HasColumns(xFrag, numFeatures) && |yFrag| == |xFrag|
    requires numBreakFeatures > 0 && breaksPerFrag >= 0 ==>
               |noise| == |xFrag| * breaksPerFrag && HasColumns(noise, numBreakFeatures)
    ensures r.Failure? <==> breaksPerFrag < 0
    ensures r.Success? ==> |r.value.x| == |r.value.y| == |xFrag| * breaksPerFrag
    ensures r.Success? ==> HasColumns(r.value.x, numFeatures + if numBreakFeatures > 0 then numBreakFeatures else 0)
  {
    if breaksPerFrag < 0 then Failure(NegativeDimension)
    else
      var n := |xFrag| * breaksPerFrag;
      var x := Expand(xFrag, breaksPerFrag);
      var y := Expand(Labels(yFrag), breaksPerFrag);
      if numBreakFeatures > 0 then Success(BreakData(seq(n, k requires 0 <= k < n => x[k] + noise[k]), y))
      else Success(BreakData(x, y))
  }

  /** Break `j` of fragment `i` is row `i * B + j`: its first `numFeatures`
      columns are the fragment's row, the rest its random columns, and its
      label the fragment's label. */
  lemma FragToBreakRows(xFrag: Matrix, yFrag: seq<int>, numFeatures: nat, breaksPerFrag: int,
                        numBreakFeatures: int, noise: Matrix, i: nat, j: nat)
    requires HasColumns(xFrag, numFeatures) && |yFrag| == |xFrag|
    requires numBreakFeatures > 0 && breaksPerFrag >= 0 ==>
               |noise| == |xFrag| * breaksPerFrag && HasColumns(noise, numBreakFeatures)
    requires i < |xFrag| && 0 <= j < breaksPerFrag
    ensures var d := FragToBreak(xFrag, yFrag, numFeatures, breaksPerFrag, numBreakFeatures, noise).value;
            var k := i * breaksPerFrag + j;
            && k < |d.x|
            && d.x[k][..numFeatures] == xFrag[i]
            && d.x[k][numFeatures..] == (if numBreakFeatures > 0 then noise[k] else [])
            && d.y[k] == yFrag[i] as real
  {
    ExpandAt(xFrag, breaksPerFrag, i, j);
    ExpandAt(Labels(yFrag), breaksPerFrag, i, j);
    var k := i * breaksPerFrag + j;
    var d := FragToBreak(xFrag, yFrag, numFeatures, breaksPerFrag, numBreakFeatures, noise).value;
    if numBreakFeatures > 0 {
      assert d.x[k] == xFrag[i] + noise[k];
    }
  }

  /** Each label occurs `B` times as often at break level as at fragment level. */
  lemma FragToBreakLabels(xFrag: Matrix, yFrag: seq<int>, numFeatures: nat, breaksPerFrag: int,
                          numBreakFeatures: int, noise: Matrix, v: int)
    requires HasColumns(xFrag, numFeatures) && |yFrag| == |xFrag|
    requires numBreakFeatures > 0 && breaksPerFrag >= 0 ==>
               |noise| == |xFrag| * breaksPerFrag && HasColumns(noise, numBreakFeatures)
    requires breaksPerFrag >= 0
    ensures Count(FragToBreak(xFrag, yFrag, numFeatures, breaksPerFrag, numBreakFeatures, noise).value.y, v as real)
            == breaksPerFrag * Count(yFrag, v)
  {
    ExpandCount(Labels(yFrag), breaksPerFrag, v as real);
    LabelsCount(yFrag, v);
  }

  /** The single-feature `frag_to_break(x_frag, y_frag, B)` of
      frag_level_experimenet.py, for column vectors `x_frag` and `y_frag`:
      `np.ones((F, B)) * x_frag` broadcasts each fragment's value across its
      breaks, and the reshape gives one single-column row per break. */
  function SingleFeatureFragToBreak(xFrag: seq<real>, yFrag: seq<int>, breaksPerFrag: int)
    : (r: Result<BreakData, ExpandError>)
    requires |yFrag| == |xFrag|
    ensures r.Failure? <==> breaksPerFrag < 0
    ensures r.Success? ==> |r.value.x| == |r.value.y| == |xFrag| * breaksPerFrag && HasColumns(r.value.x, 1)
  {
    if breaksPerFrag < 0 then Failure(NegativeDimension)
    else
      var column := seq(|xFrag|, i requires 0 <= i < |xFrag| => [xFrag[i]]);
      Success(BreakData(Expand(column, breaksPerFrag), Expand(Labels(yFrag), breaksPerFrag)))
  }

  /** Break `j` of fragment `i` holds the fragment's value and label. */
  lemma SingleFeatureRows(xFrag: seq<real>, yFrag: seq<int>, breaksPerFrag: int, i: nat, j: nat)
    requires |yFrag| == |xFrag|
    requires i < |xFrag| && 0 <= j < breaksPerFrag
    ensures var d := SingleFeatureFragToBreak(xFrag, yFrag, breaksPerFrag).value;
            var k := i * breaksPerFrag + j;
            && k < |d.x| && d.x[k] == [xFrag[i]] && d.y[k] == yFrag[i] as real
  {
    var column := seq(|xFrag|, i requires 0 <= i < |xFrag| => [xFrag[i]]);
    ExpandAt(column, breaksPerFrag, i, j);
    ExpandAt(Labels(yFrag), breaksPerFrag, i, j);
  }

  /** One step of building an accuracy dictionary: name `i` gets an empty list,
      and joins the keys when it is new. */
  method AddName(names: seq<string>, i: nat, ks: seq<string>, ls: map<string, seq<real>>)
    returns (ks': seq<string>, ls': map<string, seq<real>>)
    requires i < |names| && ks == Dedup(names[..i])
    requires forall k :: k in ls <==> k in ks
    requires forall k :: k in ls ==> ls[k] == []
    ensures ks' == Dedup(names[..i + 1])
    ensures forall k :: k in ls' <==> k in ks'
    ensures forall k :: k in ls' ==> ls'[k] == []
  {
    TakeSnoc(names, i);
    DedupSnoc(names[..i], names[i]);
    ks' := if names[i] in ls then ks else ks + [names[i]];
    ls' := ls[names[i] := []];
  }

  /** A dictionary of result lists (`break_acc`, `frag_acc`, `boot_acc`), keyed
      by model name, with its keys in insertion order. */
  class AccuracyLog {
    var keys: seq<string>
    var lists: map<string, seq<real>>

    /** The keys are the dictionary's, each once. */
    ghost predicate Valid()
      reads this
    {
      Distinct(keys) && forall k :: k in lists <==> k in keys
    }

    /** `d[str(model)] = []` for each model in turn: one empty list per
        distinct name, in first-seen order. */
    constructor (names: seq<string>)
      ensures Valid() && keys == Dedup(names)
      ensures forall k :: k in lists ==> lists[k] == []
    {
      var ks: seq<string> := [];
      var ls: map<string, seq<real>> := map[];
      for i := 0 to |names|
        invariant ks == Dedup(names[..i])
        invariant forall k :: k in ls <==> k in ks
        invariant forall k :: k in ls ==> ls[k] == []
      {
        ks, ls := AddName(names, i, ks, ls);
      }
      assert names[..|names|] == names;
      keys := ks;
      lists := ls;
    }

    /** `append(d, r)`: for each key of `d` in order, `r[key]` is appended to
        its list. A key missing from `r` raises there, after the earlier keys'
        lists have grown; it is returned, and the later lists are untouched. */
    method Append(r: map<string, real>) returns (missing: Option<string>)
      requires Valid()
      modifies this
      ensures Valid() && keys == old(keys)
      ensures missing.None? <==> forall k :: k in keys ==> k in r
      ensures missing.None? ==> forall k :: k in lists ==> lists[k] == old(lists)[k] + [r[k]]
      ensures missing.Some? ==>
                exists i :: 0 <= i < |keys| && keys[i] == missing.value && keys[i] !in r
                  && (forall j :: 0 <= j < i ==> keys[j] in r && lists[keys[j]] == old(lists)[keys[j]] + [r[keys[j]]])
                  && (forall j :: i <= j < |keys| ==> lists[keys[j]] == old(lists)[keys[j]])
    {
      for i := 0 to |keys|
        invariant Valid() && keys == old(keys)
        invariant forall j :: 0 <= j < i ==> keys[j] in r && lists[keys[j]] == old(lists)[keys[j]] + [r[keys[j]]]
        invariant forall j :: i <= j < |keys| ==> lists[keys[j]] == old(lists)[keys[j]]
      {
        var key := keys[i];
        if key !in r {
          return Some(key);
        }
        lists := lists[key := lists[key] + [r[key]]];
      }
      return None;
    }
  }
}
