/** `train_test_split` of src/utils.py: a specimen-level hold-out. The random
    draw `np.random.choice(fragments, size=test_size, replace=False)` is an
    input, `drawn`. */
module SpecimenSplit {
  import opened Wrappers
  import opened Seqs

  /** Python 3's `round` on a float: the nearest integer, a tie going to the even one. */
  function RoundHalfEven(x: real): (n: int)
    ensures x - 0.5 <= n as real <= x + 0.5
    ensures (n as real == x + 0.5 || n as real == x - 0.5) ==> n % 2 == 0
  {
    var f := x.Floor;
    var d := x - f as real;
    if d < 0.5 then f else if d > 0.5 then f + 1 else if f % 2 == 0 then f else f + 1
  }

  /** `max(1, round(fragments.size * percent_test))`. The product is a double,
      so it is taken as the input `share`: the value the multiplication yields,
      already rounded to a double (31.499999999999996 for 45 specimens at 0.7). */
  function TestSize(share: real): (size: int)
    ensures size >= 1
    ensures size >= RoundHalfEven(share)
    ensures size == 1 || size == RoundHalfEven(share)
  {
    var k := RoundHalfEven(share);
    if k > 1 then k else 1
  }

  /** `np.unique(specimens)`, as a set. */
  function Fragments(specimens: seq<string>): set<string> {
    set s | s in specimens
  }

  /** What `np.random.choice(..., replace=False)` guarantees about its draw
      whenever it does not raise. */
  predicate ValidDraw(specimens: seq<string>, share: real, drawn: set<string>) {
    TestSize(share) <= |Fragments(specimens)| ==>
      drawn <= Fragments(specimens) && |drawn| == TestSize(share)
  }

  /** The row indices, in increasing order, whose specimen is (`inTest`) or is not drawn. */
  function Positions(specimens: seq<string>, drawn: set<string>, inTest: bool): (pos: seq<nat>)
    ensures forall k :: 0 <= k < |pos| ==> pos[k] < |specimens| && (specimens[pos[k]] in drawn) == inTest
    ensures forall k, l :: 0 <= k < l < |pos| ==> pos[k] < pos[l]
  {
    if specimens == [] then []
    else
      var last := |specimens| - 1;
      var p := Positions(specimens[..last], drawn, inTest);
      if (specimens[last] in drawn) == inTest then p + [last] else p
  }

  /** Every row whose specimen is on a side is listed among that side's positions. */
  lemma {:induction false} PositionsComplete(specimens: seq<string>, drawn: set<string>, inTest: bool)
    ensures forall i :: 0 <= i < |specimens| && (specimens[i] in drawn) == inTest ==>
              i in Positions(specimens, drawn, inTest)
  {
    if specimens != [] {
      var last := |specimens| - 1;
      PositionsComplete(specimens[..last], drawn, inTest);
      assert forall i :: 0 <= i < last ==> specimens[..last][i] == specimens[i];
    }
  }

  /** Every row goes to exactly one side. */
  lemma {:induction false} PositionsPartition(specimens: seq<string>, drawn: set<string>)
    ensures |Positions(specimens, drawn, true)| + |Positions(specimens, drawn, false)| == |specimens|
  {
    if specimens != [] {
      PositionsPartition(specimens[..|specimens| - 1], drawn);
    }
  }

  /** One more row extends exactly one side by its index. */
  lemma PositionsStep(specimens: seq<string>, drawn: set<string>, inTest: bool, i: nat)
    requires i < |specimens|
    ensures Positions(specimens[..i + 1], drawn, inTest)
         == Positions(specimens[..i], drawn, inTest) + (if (specimens[i] in drawn) == inTest then [i] else [])
  {
    assert specimens[..i + 1][..i] == specimens[..i];
  }

  /** Gathering one more index appends one element. */
  lemma GatherAppend<T>(x: seq<T>, p: seq<nat>, extra: seq<nat>)
    requires forall k :: 0 <= k < |p| ==> p[k] < |x|
    requires forall k :: 0 <= k < |extra| ==> extra[k] < |x|
    ensures Gather(x, p + extra) == Gather(x, p) + Gather(x, extra)
  {
  }

  datatype Split<T> = Split(
    dataTrain: seq<T>, targetTrain: seq<int>,
    dataTest: seq<T>, targetTest: seq<int>, fragTest: seq<string>)

  datatype SplitError = SampleLargerThanPopulation

  /** `train_test_split(data, target, specimens, percent_test)`, where `share`
      is the double `fragments.size * percent_test`. */
  method TrainTestSplit<T>(data: seq<T>, target: seq<int>, specimens: seq<string>,
                           share: real, drawn: set<string>)
    returns (r: Result<Split<T>, SplitError>)
    requires |data| == |specimens| && |target| == |specimens|
    requires ValidDraw(specimens, share, drawn)
    ensures r.Failure? <==> TestSize(share) > |Fragments(specimens)|
    ensures r.Success? ==> r.value == Routed(data, target, specimens, drawn)
    ensures r.Success? ==> |r.value.dataTrain| + |r.value.dataTest| == |data|
    ensures r.Success? ==> forall k :: 0 <= k < |r.value.fragTest| ==> r.value.fragTest[k] in drawn
  {
    var testSize := TestSize(share);
    if testSize > |Fragments(specimens)| {
      return Failure(SampleLargerThanPopulation);
    }
    var split := Route(data, target, specimens, drawn);
    PositionsPartition(specimens, drawn);
    assert specimens[..|specimens|] == specimens;
    return Success(split);
  }

  /** The split as a value: every output gathers its input at the test or train positions. */
  function Routed<T>(data: seq<T>, target: seq<int>, specimens: seq<string>, drawn: set<string>): Split<T>
    requires |data| == |specimens| && |target| == |specimens|
  {
    RoutedUpTo(data, target, specimens, drawn, |specimens|)
  }

  /** The split of the first `i` rows. */
  function RoutedUpTo<T>(data: seq<T>, target: seq<int>, specimens: seq<string>, drawn: set<string>, i: nat): Split<T>
    requires |data| == |specimens| && |target| == |specimens| && i <= |specimens|
  {
    var test := Positions(specimens[..i], drawn, true);
    var train := Positions(specimens[..i], drawn, false);
    Split(Gather(data, train), Gather(target, train),
          Gather(data, test), Gather(target, test), Gather(specimens, test))
  }

  /** One more row extends the test lists when its specimen was drawn and the
      training lists otherwise, leaving the other side as it was. */
  lemma RoutedStep<T>(data: seq<T>, target: seq<int>, specimens: seq<string>, drawn: set<string>, i: nat)
    requires |data| == |specimens| && |target| == |specimens| && i < |specimens|
    ensures var s := RoutedUpTo(data, target, specimens, drawn, i);
            RoutedUpTo(data, target, specimens, drawn, i + 1)
            == if specimens[i] in drawn
               then s.(dataTest := s.dataTest + [data[i]], targetTest := s.targetTest + [target[i]],
                       fragTest := s.fragTest + [specimens[i]])
               else s.(dataTrain := s.dataTrain + [data[i]], targetTrain := s.targetTrain + [target[i]])
  {
    var test := Positions(specimens[..i], drawn, true);
    var train := Positions(specimens[..i], drawn, false);
    PositionsStep(specimens, drawn, true, i);
    PositionsStep(specimens, drawn, false, i);
    if specimens[i] in drawn {
      assert Positions(specimens[..i + 1], drawn, false) == train;
      GatherAppend(data, test, [i]);
      GatherAppend(target, test, [i]);
      GatherAppend(specimens, test, [i]);
    } else {
      assert Positions(specimens[..i + 1], drawn, true) == test;
      GatherAppend(data, train, [i]);
      GatherAppend(target, train, [i]);
    }
  }

  /** One pass of the routing loop: row `i` is appended to the test lists when
      its specimen was drawn and to the training lists otherwise. */
  method RouteRow<T>(data: seq<T>, target: seq<int>, specimens: seq<string>, drawn: set<string>,
                     i: nat, split: Split<T>)
    returns (next: Split<T>)
    requires |data| == |specimens| && |target| == |specimens| && i < |specimens|
    requires split == RoutedUpTo(data, target, specimens, drawn, i)
    ensures next == RoutedUpTo(data, target, specimens, drawn, i + 1)
  {
    RoutedStep(data, target, specimens, drawn, i);
    if specimens[i] in drawn {
      next := split.(dataTest := split.dataTest + [data[i]],
                     targetTest := split.targetTest + [target[i]],
                     fragTest := split.fragTest + [specimens[i]]);
    } else {
      next := split.(dataTrain := split.dataTrain + [data[i]],
                     targetTrain := split.targetTrain + [target[i]]);
    }
  }

  /** The routing loop of `train_test_split` (lines 450-457). */
  method Route<T>(data: seq<T>, target: seq<int>, specimens: seq<string>, drawn: set<string>)
    returns (split: Split<T>)
    requires |data| == |specimens| && |target| == |specimens|
    ensures split == Routed(data, target, specimens, drawn)
  {
    split := Split([], [], [], [], []);
    assert split == RoutedUpTo(data, target, specimens, drawn, 0);
    for i := 0 to |specimens|
      invariant split == RoutedUpTo(data, target, specimens, drawn, i)
    {
      split := RouteRow(data, target, specimens, drawn, i, split);
    }
  }

  /** No specimen has rows on both sides, and a row is held out exactly when its specimen was drawn. */
  lemma SpecimenIntegrity(specimens: seq<string>, drawn: set<string>)
    ensures var test := Positions(specimens, drawn, true);
      var train := Positions(specimens, drawn, false);
      && (forall k, l :: 0 <= k < |test| && 0 <= l < |train| ==> specimens[test[k]] != specimens[train[l]])
      && (forall i :: 0 <= i < |specimens| ==> (i in test <==> specimens[i] in drawn))
      && (forall i :: 0 <= i < |specimens| ==> (i in train <==> specimens[i] !in drawn))
  {
    PositionsComplete(specimens, drawn, true);
    PositionsComplete(specimens, drawn, false);
  }

  /** With one or more specimens and a fraction in (0, 1], the draw always fits,
      and at least one specimen is held out. The double product of n specimens
      and a fraction in (0, 1] lies in (0, n], because rounding to a double is
      monotone and n itself is a double. */
  lemma TestSizeFits(numFragments: nat, share: real)
    requires numFragments >= 1 && 0.0 < share <= numFragments as real
    ensures 1 <= TestSize(share) <= numFragments
  {
    var k := RoundHalfEven(share);
    assert k as real <= numFragments as real + 0.5;
  }

  /** A share below one and a half holds out exactly one specimen, so ten
      specimens at 1% (a share of 0.1) still hold out one. */
  lemma SmallShareHoldsOutOne(share: real)
    requires share < 1.5
    ensures TestSize(share) == 1
  {
    assert RoundHalfEven(share) as real <= share + 0.5;
  }

  /** Empty input always fails: `0 * percent_test` is 0.0, and one specimen
      must be drawn from none. */
  lemma EmptyInputFails()
    ensures TestSize(0.0) > |Fragments([])|
  {
    assert Fragments([]) == {};
    SmallShareHoldsOutOne(0.0);
  }
}
