/** `specimen_voting` of src/utils.py: one record per test specimen holding its
    truth, its votes and the voted guess, and the share of specimens guessed right. */
module Voting {
  import opened Wrappers
  import opened Seqs

  /** The largest label among the votes. */
  function MaxLabel(votes: seq<nat>): (m: nat)
    requires |votes| > 0
    ensures m in votes
    ensures forall k :: 0 <= k < |votes| ==> votes[k] <= m
  {
    if |votes| == 1 then votes[0]
    else
      var m := MaxLabel(votes[..|votes| - 1]);
      assert forall k :: 0 <= k < |votes| - 1 ==> votes[..|votes| - 1][k] == votes[k];
      if votes[|votes| - 1] > m then votes[|votes| - 1] else m
  }

  /** `np.bincount(votes)`: position v holds the number of votes for label v. */
  function Bincount(votes: seq<nat>): (counts: seq<nat>)
    requires |votes| > 0
    ensures |counts| == MaxLabel(votes) + 1
    ensures forall v: nat :: v < |counts| ==> counts[v] == Count(votes, v)
  {
    seq(MaxLabel(votes) + 1, v requires 0 <= v => Count<nat>(votes, v as nat))
  }

  /** `np.argmax`: the first position holding a greatest value. */
  function ArgMax(xs: seq<real>): (k: nat)
    requires |xs| > 0
    ensures k < |xs|
    ensures forall c :: 0 <= c < |xs| ==> xs[c] <= xs[k]
    ensures forall c :: 0 <= c < k ==> xs[c] < xs[k]
  {
    if |xs| == 1 then 0
    else
      var k := ArgMax(xs[..|xs| - 1]);
      assert forall c :: 0 <= c < |xs| - 1 ==> xs[..|xs| - 1][c] == xs[c];
      if xs[|xs| - 1] > xs[k] then |xs| - 1 else k
  }

  /** `np.bincount(votes) + 1e-6*np.random.rand(1,1)`: the same draw added to every count. */
  function Jittered(counts: seq<nat>, jitter: real): (xs: seq<real>)
    ensures |xs| == |counts|
  {
    seq(|counts|, v requires 0 <= v < |counts| => counts[v] as real + jitter)
  }

  /** The guess `np.argmax(np.bincount(votes) + jitter)`. */
  function Guess(votes: seq<nat>, jitter: real): nat
    requires |votes| > 0
  {
    ArgMax(Jittered(Bincount(votes), jitter))
  }

  /** A label that is counted occurs among the votes. */
  lemma CountPresent(votes: seq<nat>, v: nat)
    requires Count(votes, v) > 0
    ensures v in votes
  {
    if v !in votes {
      CountAbsent(votes, v);
    }
  }

  /** Position v of the jittered counts is v's vote count plus the jitter. */
  lemma JitteredAt(votes: seq<nat>, jitter: real, v: nat)
    requires |votes| > 0 && v < |Bincount(votes)|
    ensures Jittered(Bincount(votes), jitter)[v] == Count(votes, v) as real + jitter
  {
    var counts := Bincount(votes);
    assert counts[v] == Count(votes, v);
    assert Jittered(counts, jitter)[v] == counts[v] as real + jitter;
  }

  /** `g` has the most votes, and every smaller label has strictly fewer. */
  ghost predicate IsSmallestMode(votes: seq<nat>, g: nat) {
    (forall v: nat :: Count(votes, v) <= Count(votes, g))
    && (forall v: nat :: v < g ==> Count(votes, v) < Count(votes, g))
  }

  /** The guess is a most-voted label, one of the votes, and the smallest of the
      most-voted labels: a scalar jitter cannot break a tie any other way. */
  lemma GuessIsSmallestMode(votes: seq<nat>, jitter: real)
    requires |votes| > 0
    ensures Guess(votes, jitter) in votes
    ensures IsSmallestMode(votes, Guess(votes, jitter))
  {
    var counts := Bincount(votes);
    var xs := Jittered(counts, jitter);
    var g := ArgMax(xs);
    assert g == Guess(votes, jitter);
    JitteredAt(votes, jitter, g);
    forall v: nat ensures Count(votes, v) <= Count(votes, g) {
      if v < |counts| {
        JitteredAt(votes, jitter, v);
      } else {
        assert v !in votes;
        CountAbsent(votes, v);
      }
    }
    forall v: nat | v < g ensures Count(votes, v) < Count(votes, g) {
      JitteredAt(votes, jitter, v);
    }
    CountOccurs(votes, votes[0]);
    CountPresent(votes, g);
  }

  /** At most one label is the smallest mode. */
  lemma SmallestModeUnique(votes: seq<nat>, a: nat, b: nat)
    requires IsSmallestMode(votes, a) && IsSmallestMode(votes, b)
    ensures a == b
  {
    assert Count(votes, a) <= Count(votes, b) && Count(votes, b) <= Count(votes, a);
  }

  /** The jitter never changes the guess. */
  lemma GuessIgnoresJitter(votes: seq<nat>, j1: real, j2: real)
    requires |votes| > 0
    ensures Guess(votes, j1) == Guess(votes, j2)
  {
    GuessIsSmallestMode(votes, j1);
    GuessIsSmallestMode(votes, j2);
    SmallestModeUnique(votes, Guess(votes, j1), Guess(votes, j2));
  }

  /** The predictions at the rows of specimen s, in row order. */
  function VotesOf(fragTest: seq<string>, targetOutput: seq<nat>, s: string): (votes: seq<nat>)
    requires |targetOutput| == |fragTest|
    ensures |votes| == Count(fragTest, s)
  {
    if fragTest == [] then []
    else
      var last := |fragTest| - 1;
      var prior := VotesOf(fragTest[..last], targetOutput[..last], s);
      if fragTest[last] == s then prior + [targetOutput[last]] else prior
  }

  /** The last row of specimen s. */
  function LastRow(fragTest: seq<string>, s: string): (i: nat)
    requires s in fragTest
    ensures i < |fragTest| && fragTest[i] == s
    ensures forall j :: i < j < |fragTest| ==> fragTest[j] != s
  {
    var last := |fragTest| - 1;
    if fragTest[last] == s then last
    else
      assert s in fragTest[..last];
      var i := LastRow(fragTest[..last], s);
      assert fragTest[..last][i] == fragTest[i];
      i
  }

  /** The truth label of the last row of specimen s: the record is recreated at every row. */
  function LastTruth(fragTest: seq<string>, targetTest: seq<nat>, s: string): (t: nat)
    requires |targetTest| == |fragTest| && s in fragTest
    ensures exists i :: (0 <= i < |fragTest| && fragTest[i] == s && targetTest[i] == t
                         && forall j :: i < j < |fragTest| ==> fragTest[j] != s)
  {
    var i := LastRow(fragTest, s);
    targetTest[i]
  }

  datatype VoteRecord = VoteRecord(truth: nat, votes: seq<nat>, guess: Option<nat>)

  datatype VoteReport = VoteReport(frags: seq<string>, records: map<string, VoteRecord>, meanAccuracy: real)

  datatype VoteError = NoSpecimens

  /** The finished record of specimen s. */
  function RecordOf(fragTest: seq<string>, targetTest: seq<nat>, targetOutput: seq<nat>,
                    jitter: real, s: string): VoteRecord
    requires |targetTest| == |fragTest| && |targetOutput| == |fragTest| && s in fragTest
  {
    var votes := VotesOf(fragTest, targetOutput, s);
    assert |votes| > 0 by {
      CountOccurs(fragTest, s);
    }
    VoteRecord(LastTruth(fragTest, targetTest, s), votes, Some(Guess(votes, jitter)))
  }

  /** How many of the specimens `frags` are guessed right. */
  function Correct(fragTest: seq<string>, targetTest: seq<nat>, targetOutput: seq<nat>,
                   jitter: real, frags: seq<string>): (n: nat)
    requires |targetTest| == |fragTest| && |targetOutput| == |fragTest|
    requires forall k :: 0 <= k < |frags| ==> frags[k] in fragTest
    ensures n <= |frags|
  {
    if frags == [] then 0
    else
      var last := |frags| - 1;
      var r := RecordOf(fragTest, targetTest, targetOutput, jitter, frags[last]);
      Correct(fragTest, targetTest, targetOutput, jitter, frags[..last])
        + (if r.guess == Some(r.truth) then 1 else 0)
  }

  /** A count out of a positive total is a share between 0 and 1. */
  lemma RatioBounds(part: nat, whole: nat)
    requires 0 < whole && part <= whole
    ensures 0.0 <= part as real / whole as real <= 1.0
  {
    assert part as real / whole as real * whole as real == part as real;
  }

  /** One more row makes its own truth the last one of its specimen and leaves
      every other specimen's last truth as it was. */
  lemma LastTruthStep(fragTest: seq<string>, targetTest: seq<nat>, i: nat, s: string)
    requires |targetTest| == |fragTest| && i < |fragTest| && s in fragTest[..i + 1]
    ensures LastTruth(fragTest[..i + 1], targetTest[..i + 1], s)
         == if s == fragTest[i] then targetTest[i] else LastTruth(fragTest[..i], targetTest[..i], s)
  {
    var f := fragTest[..i + 1];
    assert f[..i] == fragTest[..i] && f[i] == fragTest[i];
    assert targetTest[..i + 1][..i] == targetTest[..i];
  }

  /** The first pass: a record with the row's truth and no votes for every row,
      the later rows of a specimen replacing its record, and the specimens in
      first-seen order. */
  method OpenRecords(targetTest: seq<nat>, fragTest: seq<string>)
    returns (order: seq<string>, records: map<string, VoteRecord>)
    requires |targetTest| == |fragTest|
    ensures order == Dedup(fragTest)
    ensures forall s :: s in records <==> s in fragTest
    ensures forall s :: s in records ==> records[s] == VoteRecord(LastTruth(fragTest, targetTest, s), [], None)
  {
    order := [];
    records := map[];
    for i := 0 to |fragTest|
      invariant order == Dedup(fragTest[..i])
      invariant forall s :: s in records <==> s in fragTest[..i]
      invariant forall s :: s in records ==>
                  records[s] == VoteRecord(LastTruth(fragTest[..i], targetTest[..i], s), [], None)
    {
      order, records := OpenRow(targetTest, fragTest, i, order, records);
    }
    assert fragTest[..|fragTest|] == fragTest;
    assert targetTest[..|fragTest|] == targetTest;
  }

  /** One row of the first pass: its specimen joins the order when first seen,
      and its record is replaced by one with this row's truth. */
  method OpenRow(targetTest: seq<nat>, fragTest: seq<string>, i: nat,
                 order: seq<string>, records: map<string, VoteRecord>)
    returns (order': seq<string>, records': map<string, VoteRecord>)
    requires |targetTest| == |fragTest| && i < |fragTest|
    requires order == Dedup(fragTest[..i])
    requires forall s :: s in records <==> s in fragTest[..i]
    requires forall s :: s in records ==>
               records[s] == VoteRecord(LastTruth(fragTest[..i], targetTest[..i], s), [], None)
    ensures order' == Dedup(fragTest[..i + 1])
    ensures forall s :: s in records' <==> s in fragTest[..i + 1]
    ensures forall s :: s in records' ==>
              records'[s] == VoteRecord(LastTruth(fragTest[..i + 1], targetTest[..i + 1], s), [], None)
  {
    TakeSnoc(fragTest, i);
    DedupSnoc(fragTest[..i], fragTest[i]);
    order' := if fragTest[i] in records then order else order + [fragTest[i]];
    records' := records[fragTest[i] := VoteRecord(targetTest[i], [], None)];
    forall s | s in records'
      ensures records'[s] == VoteRecord(LastTruth(fragTest[..i + 1], targetTest[..i + 1], s), [], None)
    {
      LastTruthStep(fragTest, targetTest, i, s);
    }
  }

  /** The second pass: each row's prediction is appended to its specimen's votes. */
  method CastVotes(targetOutput: seq<nat>, fragTest: seq<string>, blank: map<string, VoteRecord>)
    returns (records: map<string, VoteRecord>)
    requires |targetOutput| == |fragTest|
    requires forall s :: s in blank <==> s in fragTest
    requires forall s :: s in blank ==> blank[s].votes == []
    ensures forall s :: s in records <==> s in fragTest
    ensures forall s :: s in records ==>
              records[s] == blank[s].(votes := VotesOf(fragTest, targetOutput, s))
  {
    records := blank;
    for i := 0 to |fragTest|
      invariant forall s :: s in records <==> s in fragTest
      invariant forall s :: s in records ==>
                  records[s] == blank[s].(votes := VotesOf(fragTest[..i], targetOutput[..i], s))
    {
      assert fragTest[..i + 1][..i] == fragTest[..i];
      assert targetOutput[..i + 1][..i] == targetOutput[..i];
      var rec := records[fragTest[i]];
      records := records[fragTest[i] := rec.(votes := rec.votes + [targetOutput[i]])];
    }
    assert fragTest[..|fragTest|] == fragTest;
    assert targetOutput[..|fragTest|] == targetOutput;
  }

  /** Counting one more specimen adds one exactly when its guess is right. */
  lemma CorrectStep(fragTest: seq<string>, targetTest: seq<nat>, targetOutput: seq<nat>,
                    jitter: real, order: seq<string>, k: nat)
    requires |targetTest| == |fragTest| && |targetOutput| == |fragTest|
    requires k < |order| && forall j :: 0 <= j < |order| ==> order[j] in fragTest
    ensures var r := RecordOf(fragTest, targetTest, targetOutput, jitter, order[k]);
            Correct(fragTest, targetTest, targetOutput, jitter, order[..k + 1])
            == Correct(fragTest, targetTest, targetOutput, jitter, order[..k]) + (if r.guess == Some(r.truth) then 1 else 0)
  {
    assert order[..k + 1][..k] == order[..k];
  }

  /** The records once the third pass settled the specimens `done`, in order. */
  function Settled(fragTest: seq<string>, targetTest: seq<nat>, targetOutput: seq<nat>, jitter: real,
                   voted: map<string, VoteRecord>, done: seq<string>): map<string, VoteRecord>
    requires |targetTest| == |fragTest| && |targetOutput| == |fragTest|
    requires forall j :: 0 <= j < |done| ==> done[j] in fragTest
    decreases |done|
  {
    if done == [] then voted
    else
      var last := |done| - 1;
      Settled(fragTest, targetTest, targetOutput, jitter, voted, done[..last])
        [done[last] := RecordOf(fragTest, targetTest, targetOutput, jitter, done[last])]
  }

  /** A settled specimen holds its finished record; every other keeps its voted one. */
  lemma {:induction false} SettledAt(fragTest: seq<string>, targetTest: seq<nat>, targetOutput: seq<nat>, jitter: real,
                                     voted: map<string, VoteRecord>, done: seq<string>, s: string)
    requires |targetTest| == |fragTest| && |targetOutput| == |fragTest|
    requires forall j :: 0 <= j < |done| ==> done[j] in fragTest
    ensures var m := Settled(fragTest, targetTest, targetOutput, jitter, voted, done);
            (s in m <==> s in voted || s in done)
            && (s in m ==> m[s] == if s in done then RecordOf(fragTest, targetTest, targetOutput, jitter, s) else voted[s])
    decreases |done|
  {
    if done != [] {
      var last := |done| - 1;
      SettledAt(fragTest, targetTest, targetOutput, jitter, voted, done[..last], s);
      assert done == done[..last] + [done[last]];
    }
  }

  /** One step of the third pass: the specimen's guess from its votes, and
      whether it equals the truth. */
  method Settle(targetOutput: seq<nat>, targetTest: seq<nat>, fragTest: seq<string>, jitter: real,
                s: string, rec: VoteRecord)
    returns (settled: VoteRecord, right: bool)
    requires |targetOutput| == |fragTest| && |targetTest| == |fragTest| && s in fragTest
    requires rec.truth == LastTruth(fragTest, targetTest, s) && rec.votes == VotesOf(fragTest, targetOutput, s)
    ensures settled == RecordOf(fragTest, targetTest, targetOutput, jitter, s)
    ensures right <==> settled.guess == Some(settled.truth)
  {
    assert |rec.votes| > 0 by {
      CountOccurs(fragTest, s);
    }
    var g := Guess(rec.votes, jitter);
    settled := rec.(guess := Some(g));
    right := g == rec.truth;
  }

  /** The third pass, over the specimens in first-seen order: each gets its
      guess, and the specimens guessed right are counted. */
  method Tally(targetOutput: seq<nat>, targetTest: seq<nat>, fragTest: seq<string>, jitter: real,
               order: seq<string>, voted: map<string, VoteRecord>)
    returns (records: map<string, VoteRecord>, correct: nat)
    requires |targetOutput| == |fragTest| && |targetTest| == |fragTest|
    requires forall k :: 0 <= k < |order| ==> order[k] in fragTest
    requires forall s :: s in voted <==> s in fragTest
    requires forall s :: s in voted ==>
               voted[s] == VoteRecord(LastTruth(fragTest, targetTest, s), VotesOf(fragTest, targetOutput, s), None)
    ensures forall s :: s in records <==> s in fragTest
    ensures forall s :: s in records ==>
              records[s] == (if s in order then RecordOf(fragTest, targetTest, targetOutput, jitter, s) else voted[s])
    ensures correct == Correct(fragTest, targetTest, targetOutput, jitter, order)
  {
    records := voted;
    correct := 0;
    for k := 0 to |order|
      invariant records == Settled(fragTest, targetTest, targetOutput, jitter, voted, order[..k])
      invariant correct == Correct(fragTest, targetTest, targetOutput, jitter, order[..k])
    {
      var s := order[k];
      assert order[..k + 1][..k] == order[..k];
      assert Settled(fragTest, targetTest, targetOutput, jitter, voted, order[..k + 1])
          == Settled(fragTest, targetTest, targetOutput, jitter, voted, order[..k])
             [s := RecordOf(fragTest, targetTest, targetOutput, jitter, s)];
      CorrectStep(fragTest, targetTest, targetOutput, jitter, order, k);
      SettledAt(fragTest, targetTest, targetOutput, jitter, voted, order[..k], s);
      var rec, right := Settle(targetOutput, targetTest, fragTest, jitter, s, records[s]);
      records := records[s := rec];
      correct := correct + if right then 1 else 0;
    }
    assert order[..|order|] == order;
    forall s ensures s in records <==> s in fragTest {
      SettledAt(fragTest, targetTest, targetOutput, jitter, voted, order, s);
    }
    forall s | s in records
      ensures records[s] == (if s in order then RecordOf(fragTest, targetTest, targetOutput, jitter, s) else voted[s])
    {
      SettledAt(fragTest, targetTest, targetOutput, jitter, voted, order, s);
    }
  }

  /** `specimen_voting`: a record per test specimen, in first-seen order, and the
      share of specimens whose guess equals their truth. `jitter` stands for the
      one draw `1e-6*np.random.rand(1,1)`. With no test rows the share divides by
      zero, which is the failure. */
  method SpecimenVoting(targetOutput: seq<nat>, targetTest: seq<nat>, fragTest: seq<string>, jitter: real)
    returns (r: Result<VoteReport, VoteError>)
    requires |targetOutput| == |fragTest| && |targetTest| == |fragTest|
    ensures r.Failure? <==> fragTest == []
    ensures r.Success? ==> r.value.frags == Dedup(fragTest)
    ensures r.Success? ==> forall s :: s in r.value.records <==> s in fragTest
    ensures r.Success? ==> forall s :: s in r.value.records ==>
              r.value.records[s] == RecordOf(fragTest, targetTest, targetOutput, jitter, s)
    ensures r.Success? ==> (r.value.meanAccuracy ==
              Correct(fragTest, targetTest, targetOutput, jitter, r.value.frags) as real / |r.value.frags| as real)
    ensures r.Success? ==> 0.0 <= r.value.meanAccuracy <= 1.0
  {
    var order, blank := OpenRecords(targetTest, fragTest);
    DedupMembers(fragTest);
    var voted := CastVotes(targetOutput, fragTest, blank);
    if order == [] {
      return Failure(NoSpecimens);
    }
    var records, correct := Tally(targetOutput, targetTest, fragTest, jitter, order, voted);
    assert forall s :: s in records ==> s in order;
    var accuracy := correct as real / |order| as real;
    RatioBounds(correct, |order|);
    r := Success(VoteReport(order, records, accuracy));
  }

  /** Specimen voting on a specimen whose rows all carry one label, predicted
      correctly at every row, guesses that label. */
  lemma UnanimousVotes(votes: seq<nat>, t: nat, jitter: real)
    requires |votes| > 0
    requires forall k :: 0 <= k < |votes| ==> votes[k] == t
    ensures Guess(votes, jitter) == t
  {
    GuessIsSmallestMode(votes, jitter);
    var g := Guess(votes, jitter);
    var k :| 0 <= k < |votes| && votes[k] == g;
  }

  /** All rows of a specimen carry the same truth label. */
  predicate ConsistentLabels(fragTest: seq<string>, targetTest: seq<nat>)
    requires |targetTest| == |fragTest|
  {
    forall i, j :: 0 <= i < |fragTest| && 0 <= j < |fragTest| && fragTest[i] == fragTest[j] ==>
      targetTest[i] == targetTest[j]
  }

  /** The votes of s are the predictions at rows named s. */
  lemma {:induction false} VotesAreRowPredictions(fragTest: seq<string>, targetOutput: seq<nat>, s: string, k: nat)
    requires |targetOutput| == |fragTest|
    requires k < |VotesOf(fragTest, targetOutput, s)|
    ensures exists i :: 0 <= i < |fragTest| && fragTest[i] == s && targetOutput[i] == VotesOf(fragTest, targetOutput, s)[k]
  {
    var last := |fragTest| - 1;
    var prior := VotesOf(fragTest[..last], targetOutput[..last], s);
    if k < |prior| {
      VotesAreRowPredictions(fragTest[..last], targetOutput[..last], s, k);
      var i :| 0 <= i < last && fragTest[..last][i] == s && targetOutput[..last][i] == prior[k];
      assert fragTest[i] == s && targetOutput[i] == prior[k];
    } else {
      assert fragTest[last] == s;
    }
  }

  /** Perfect predictions on specimens with consistent labels give accuracy 1. */
  lemma {:induction false} PerfectPredictionsScoreOne(fragTest: seq<string>, targetTest: seq<nat>, jitter: real, frags: seq<string>)
    requires |targetTest| == |fragTest| && ConsistentLabels(fragTest, targetTest)
    requires forall k :: 0 <= k < |frags| ==> frags[k] in fragTest
    ensures Correct(fragTest, targetTest, targetTest, jitter, frags) == |frags|
  {
    if frags != [] {
      var last := |frags| - 1;
      PerfectPredictionsScoreOne(fragTest, targetTest, jitter, frags[..last]);
      var s := frags[last];
      var votes := VotesOf(fragTest, targetTest, s);
      var t := LastTruth(fragTest, targetTest, s);
      var i :| 0 <= i < |fragTest| && fragTest[i] == s && targetTest[i] == t
        && forall j :: i < j < |fragTest| ==> fragTest[j] != s;
      forall k | 0 <= k < |votes| ensures votes[k] == t {
        VotesAreRowPredictions(fragTest, targetTest, s, k);
      }
      assert |votes| > 0 by {
        CountOccurs(fragTest, s);
      }
      UnanimousVotes(votes, t, jitter);
    }
  }
}
