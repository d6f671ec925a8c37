/** The weighted power iteration over the citation graph: the precomputed
    successor-weight sums and regularisation vector, one step that routes
    dangling mass and splits every other paper's score over its
    successors in proportion to their weights, and the driver that
    repeats the step until the L1 difference falls below the threshold. */
module PowerIteration {
  import opened Vectors
  import opened Papers
  import opened Synthesis

  // ---------------------------------------------------------------------
  // Precomputation

  /** For every paper, the total weight of the papers it cites, a repeated
      successor counted once per listing. With strictly positive weights
      the total is zero exactly when the paper cites nothing. */
  function SuccessorWeightSums(g: Graph, w: seq<real>): (S: seq<real>)
    requires ValidGraph(g) && |w| == |g|
    ensures |S| == |g|
    ensures forall p :: 0 <= p < |g| ==> S[p] == SumAt(w, g[p].successors)
    ensures NonNegative(w) ==> NonNegative(S)
    ensures Positive(w) ==> forall p :: 0 <= p < |g| ==> (S[p] == 0.0 <==> |g[p].successors| == 0)
  {
    var S := seq(|g|, p requires 0 <= p < |g| => SumAt(w, g[p].successors));
    forall p | 0 <= p < |g|
      ensures NonNegative(w) ==> 0.0 <= S[p]
      ensures Positive(w) ==> (S[p] == 0.0 <==> |g[p].successors| == 0)
    {
      if NonNegative(w) {
        SumAtNonNegative(w, g[p].successors);
      }
      if Positive(w) && 0 < |g[p].successors| {
        SumAtPositive(w, g[p].successors);
      }
    }
    S
  }

  /** The weights scaled to sum to 1 when their total is positive, and
      left as they are otherwise. */
  function Regularization(w: seq<real>): (r: seq<real>)
    ensures |r| == |w|
    ensures 0.0 < Sum(w) ==> Sum(r) == 1.0
    ensures 0.0 < Sum(w) ==> forall p :: 0 <= p < |w| ==> r[p] * Sum(w) == w[p]
    ensures Sum(w) <= 0.0 ==> r == w
  {
    var total := Sum(w);
    if 0.0 < total then
      var r := seq(|w|, p requires 0 <= p < |w| => w[p] / total);
      ScaledSum(r, w, total);
      r
    else w
  }

  /** Dividing every entry by the positive total of the entries gives a
      vector that sums to 1. */
  lemma ScaledSum(r: seq<real>, w: seq<real>, total: real)
    requires 0.0 < total && total == Sum(w) && |r| == |w|
    requires forall p :: 0 <= p < |w| ==> r[p] == w[p] / total
    ensures Sum(r) == 1.0
    ensures forall p :: 0 <= p < |w| ==> r[p] * total == w[p]
  {
    var x := 1.0 / total;
    forall i | 0 <= i < |r|
      ensures r[i] == x * w[i] + 0.0 * w[i]
    {
      assert w[i] / total == x * w[i];
    }
    SumToLinear(r, w, w, x, 0.0, |r|);
    assert x * total == 1.0;
  }

  /** What the driver computes once before iterating. */
  datatype Setup = Setup(weights: seq<real>, successorSums: seq<real>, regularization: seq<real>)

  predicate Fits(g: Graph, s: Setup) {
    && ValidGraph(g)
    && |s.weights| == |g|
    && |s.successorSums| == |g|
    && |s.regularization| == |g|
  }

  /** The composite weights, each paper's successor-weight sum and the
      regularisation vector. The weights are positive, so a paper is
      dangling exactly when it cites nothing, and on a non-empty graph the
      regularisation vector sums to 1. */
  function Prepare(g: Graph): (s: Setup)
    requires ValidGraph(g)
    ensures Fits(g, s)
    ensures Positive(s.weights)
    ensures s.successorSums == SuccessorWeightSums(g, s.weights)
    ensures forall p :: 0 <= p < |g| ==> (Dangling(g, s.successorSums, p) <==> |g[p].successors| == 0)
    ensures 0 < |g| ==> Sum(s.regularization) == 1.0
  {
    var w := PaperWeights(g);
    assert 0 < |g| ==> 0.0 < Sum(w) by {
      if 0 < |g| {
        SumToPositive(w, |g|);
      }
    }
    Setup(w, SuccessorWeightSums(g, w), Regularization(w))
  }

  // ---------------------------------------------------------------------
  // Votes

  /** A paper is dangling when it cites nothing or when the papers it
      cites weigh nothing in total; its score is then spread over all
      papers through the regularisation vector instead of its links. */
  predicate Dangling(g: Graph, S: seq<real>, p: int)
    requires 0 <= p < |g| && |S| == |g|
  {
    |g[p].successors| == 0 || S[p] == 0.0
  }

  predicate Sized(g: Graph, w: seq<real>, S: seq<real>, last: seq<real>) {
    && ValidGraph(g)
    && |w| == |g|
    && |S| == |g|
    && |last| == |g|
  }

  /** Every weight multiplied by `share`: the vote each paper would get
      from one citation by a paper with that share. */
  function Scale(share: real, w: seq<real>): (v: seq<real>)
    ensures |v| == |w|
  {
    seq(|w|, i requires 0 <= i < |w| => share * w[i])
  }

  /** Each listed target receives its vote, once per listing, in list
      order. */
  function Scatter(acc: seq<real>, targets: seq<int>, votes: seq<real>): (r: seq<real>)
    requires |votes| == |acc| && InRange(targets, |acc|)
    ensures |r| == |acc|
    decreases |targets|
  {
    if |targets| == 0 then acc
    else
      var t := targets[0];
      Scatter(acc[t := acc[t] + votes[t]], targets[1..], votes)
  }

  /** After a scatter every paper holds what it held before plus its vote
      for each time it is listed. */
  lemma {:induction false} ScatterReceives(acc: seq<real>, targets: seq<int>, votes: seq<real>)
    requires |votes| == |acc| && InRange(targets, |acc|)
    ensures forall q :: 0 <= q < |acc| ==>
      Scatter(acc, targets, votes)[q] == acc[q] + Repeated(targets, q, votes[q])
    decreases |targets|
  {
    if |targets| > 0 {
      var t := targets[0];
      ScatterReceives(acc[t := acc[t] + votes[t]], targets[1..], votes);
    }
  }

  /** The votes a scatter hands out add up to the votes of its targets,
      counted once per listing. */
  lemma {:induction false} ScatterTotal(acc: seq<real>, targets: seq<int>, votes: seq<real>)
    requires |votes| == |acc| && InRange(targets, |acc|)
    ensures Sum(Scatter(acc, targets, votes)) == Sum(acc) + SumAt(votes, targets)
    decreases |targets|
  {
    if |targets| > 0 {
      var t := targets[0];
      SumUpdate(acc, t, acc[t] + votes[t]);
      ScatterTotal(acc[t := acc[t] + votes[t]], targets[1..], votes);
    }
  }

  /** Scaling every weight scales any indexed total of them. */
  lemma {:induction false} SumAtScale(share: real, w: seq<real>, targets: seq<int>)
    requires InRange(targets, |w|)
    ensures SumAt(Scale(share, w), targets) == share * SumAt(w, targets)
  {
    if |targets| > 0 {
      SumAtScale(share, w, targets[1..]);
      assert share * w[targets[0]] + share * SumAt(w, targets[1..])
          == share * (w[targets[0]] + SumAt(w, targets[1..]));
    }
  }

  /** A non-dangling paper's score divided by its successor-weight sum. */
  function Share(g: Graph, S: seq<real>, last: seq<real>, p: int): real
    requires 0 <= p < |g| && |S| == |g| && |last| == |g|
    requires !Dangling(g, S, p)
  {
    last[p] / S[p]
  }

  /** The votes after the papers `0 .. k-1` have been visited: every
      non-dangling paper scatters its share over its successors. */
  function Votes(g: Graph, w: seq<real>, S: seq<real>, last: seq<real>, k: nat): (v: seq<real>)
    requires Sized(g, w, S, last) && k <= |g|
    ensures |v| == |g|
  {
    if k == 0 then Zeros(|g|)
    else
      var v := Votes(g, w, S, last, k - 1);
      if Dangling(g, S, k - 1) then v
      else Scatter(v, g[k - 1].successors, Scale(Share(g, S, last, k - 1), w))
  }

  /** The scores of the dangling papers among `0 .. k-1`. */
  function DanglingMass(g: Graph, S: seq<real>, last: seq<real>, k: nat): real
    requires |S| == |g| && |last| == |g| && k <= |g|
  {
    if k == 0 then 0.0
    else DanglingMass(g, S, last, k - 1) + (if Dangling(g, S, k - 1) then last[k - 1] else 0.0)
  }

  /** With non-negative scores the dangling mass of the papers `0 .. k-1`
      is non-negative and at most their total score. */
  lemma {:induction false} DanglingMassBounds(g: Graph, S: seq<real>, last: seq<real>, k: nat)
    requires |S| == |g| && |last| == |g| && k <= |g| && NonNegative(last)
    ensures 0.0 <= DanglingMass(g, S, last, k) <= SumTo(last, k)
  {
    if k > 0 {
      DanglingMassBounds(g, S, last, k - 1);
    }
  }

  /** What paper `q` is owed by the papers `0 .. k-1`, seen from the
      receiving side: from every non-dangling paper that cites it, that
      paper's share times `q`'s own weight, once per citation. */
  function Received(g: Graph, w: seq<real>, S: seq<real>, last: seq<real>, q: int, k: nat): real
    requires Sized(g, w, S, last) && 0 <= q < |g| && k <= |g|
  {
    if k == 0 then 0.0
    else
      Received(g, w, S, last, q, k - 1) +
      (if Dangling(g, S, k - 1) then 0.0
       else Repeated(g[k - 1].successors, q, Scale(Share(g, S, last, k - 1), w)[q]))
  }

  /** The scattered votes agree with the receiving-side account. */
  lemma {:induction false} VotesAreReceived(g: Graph, w: seq<real>, S: seq<real>, last: seq<real>, k: nat)
    requires Sized(g, w, S, last) && k <= |g|
    ensures forall q :: 0 <= q < |g| ==> Votes(g, w, S, last, k)[q] == Received(g, w, S, last, q, k)
  {
    if k > 0 {
      VotesAreReceived(g, w, S, last, k - 1);
      if !Dangling(g, S, k - 1) {
        var share := Share(g, S, last, k - 1);
        var before := Votes(g, w, S, last, k - 1);
        var after := Scatter(before, g[k - 1].successors, Scale(share, w));
        assert Votes(g, w, S, last, k) == after;
        ScatterReceives(before, g[k - 1].successors, Scale(share, w));
        forall q | 0 <= q < |g|
          ensures after[q] == Received(g, w, S, last, q, k)
        {
          assert after[q] == before[q] + Repeated(g[k - 1].successors, q, Scale(share, w)[q]);
        }
      }
    }
  }

  /** A non-dangling paper's outgoing votes add up to exactly its last
      score, because its successor-weight sum counts each successor as
      often as the scatter does. */
  lemma OutgoingVotesAddUp(g: Graph, w: seq<real>, S: seq<real>, last: seq<real>, acc: seq<real>, p: int)
    requires Sized(g, w, S, last) && |acc| == |g| && 0 <= p < |g|
    requires S == SuccessorWeightSums(g, w)
    requires !Dangling(g, S, p)
    ensures Sum(Scatter(acc, g[p].successors, Scale(Share(g, S, last, p), w))) == Sum(acc) + last[p]
  {
    assert ValidPaper(g[p], |g|);
    ScatterShareTotal(acc, g[p].successors, w, last[p], S[p]);
  }

  /** Scattering `x / total` times each target's weight, where `total` is
      the targets' summed weight, hands out exactly `x`. */
  lemma ScatterShareTotal(acc: seq<real>, targets: seq<int>, w: seq<real>, x: real, total: real)
    requires |w| == |acc| && InRange(targets, |acc|)
    requires total == SumAt(w, targets) && total != 0.0
    ensures Sum(Scatter(acc, targets, Scale(x / total, w))) == Sum(acc) + x
  {
    var share := x / total;
    ScatterTotal(acc, targets, Scale(share, w));
    SumAtScale(share, w, targets);
    assert share * total == x;
  }

  /** Every visited paper's last score ends up either in the votes or in
      the dangling mass: nothing is lost and nothing is created. */
  lemma {:induction false} VotesConserve(g: Graph, w: seq<real>, S: seq<real>, last: seq<real>, k: nat)
    requires Sized(g, w, S, last) && k <= |g|
    requires S == SuccessorWeightSums(g, w)
    ensures Sum(Votes(g, w, S, last, k)) + DanglingMass(g, S, last, k) == SumTo(last, k)
  {
    if k == 0 {
      SumToConstant(Zeros(|g|), 0.0, |g|);
    } else {
      VotesConserve(g, w, S, last, k - 1);
      if !Dangling(g, S, k - 1) {
        OutgoingVotesAddUp(g, w, S, last, Votes(g, w, S, last, k - 1), k - 1);
      }
    }
  }

  // ---------------------------------------------------------------------
  // One step

  /** The L1 distance between two score vectors. */
  function Distance(a: seq<real>, b: seq<real>): (dist: real)
    requires |a| == |b|
    ensures 0.0 <= dist
    ensures dist == 0.0 <==> a == b
  {
    var gaps := seq(|a|, p requires 0 <= p < |a| => Abs(a[p] - b[p]));
    SumToNonNegative(gaps, |gaps|);
    SumToZero(gaps, |gaps|);
    assert (forall p :: 0 <= p < |a| ==> gaps[p] == 0.0) ==> a == b by {
      if forall p :: 0 <= p < |a| ==> gaps[p] == 0.0 {
        forall p | 0 <= p < |a|
          ensures a[p] == b[p]
        {
          assert gaps[p] == 0.0;
        }
      }
    }
    Sum(gaps)
  }

  /** A paper's new score: its teleport share `1 - d` of the
      regularisation entry, plus `d` times what reaches it, namely its
      part of the dangling mass and the votes it received. */
  function NewScore(d: real, regularized: real, danglingMass: real, votes: real): real {
    (1.0 - d) * regularized + d * (danglingMass * regularized + votes)
  }

  /** Every paper's new score from the regularisation vector, the
      dangling mass and the votes it received. */
  function NewScores(g: Graph, w: seq<real>, S: seq<real>, reg: seq<real>, last: seq<real>, d: real): (scores: seq<real>)
    requires Sized(g, w, S, last) && |reg| == |g|
    ensures |scores| == |g|
  {
    var votes := Votes(g, w, S, last, |g|);
    var danglingMass := DanglingMass(g, S, last, |g|);
    seq(|g|, p requires 0 <= p < |g| => NewScore(d, reg[p], danglingMass, votes[p]))
  }

  /** Seen from the receiving side, each new score combines the paper's
      regularisation entry, the dangling mass and what its citing papers
      owe it. */
  lemma NewScoresFromReceived(g: Graph, w: seq<real>, S: seq<real>, reg: seq<real>, last: seq<real>, d: real)
    requires Sized(g, w, S, last) && |reg| == |g|
    ensures forall p :: 0 <= p < |g| ==>
      NewScores(g, w, S, reg, last, d)[p]
      == NewScore(d, reg[p], DanglingMass(g, S, last, |g|), Received(g, w, S, last, p, |g|))
  {
    VotesAreReceived(g, w, S, last, |g|);
  }

  datatype StepResult = StepResult(scores: seq<real>, difference: real)

  /** One iteration: the new scores and their L1 distance from the
      previous ones, which is zero exactly at a fixed point. */
  function Step(g: Graph, w: seq<real>, S: seq<real>, reg: seq<real>, last: seq<real>, d: real): (r: StepResult)
    requires Sized(g, w, S, last) && |reg| == |g|
    ensures |r.scores| == |g|
    ensures 0.0 <= r.difference
    ensures r.difference == 0.0 <==> r.scores == last
    ensures r.scores == NewScores(g, w, S, reg, last, d)
  {
    var scores := NewScores(g, w, S, reg, last, d);
    StepResult(scores, Distance(last, scores))
  }

  /** Scores computed by `NewScore` from a common dangling mass are, entry
      by entry, a fixed combination of the regularisation entry and the
      votes. */
  lemma ScoresAreLinear(scores: seq<real>, reg: seq<real>, votes: seq<real>, d: real, danglingMass: real, x: real)
    requires |scores| == |reg| == |votes|
    requires x == (1.0 - d) + d * danglingMass
    requires forall p :: 0 <= p < |scores| ==> scores[p] == NewScore(d, reg[p], danglingMass, votes[p])
    ensures forall p :: 0 <= p < |scores| ==> scores[p] == x * reg[p] + d * votes[p]
  {
    forall p | 0 <= p < |scores|
      ensures scores[p] == x * reg[p] + d * votes[p]
    {
      assert NewScore(d, reg[p], danglingMass, votes[p])
          == ((1.0 - d) + d * danglingMass) * reg[p] + d * votes[p];
    }
  }

  /** The algebra of mass conservation, kept apart from the step's
      definitions so that the solver sees only the reals involved. */
  lemma Regroup(d: real, x: real, danglingMass: real, votes: real, total: real, regularizationTotal: real)
    requires x == (1.0 - d) + d * danglingMass
    requires danglingMass + votes == total && regularizationTotal == 1.0
    ensures x * regularizationTotal + d * votes == (1.0 - d) + d * total
  {
  }

  /** Scores computed by `NewScore` from a regularisation vector summing
      to 1, with a dangling mass and votes that together make up `total`,
      sum to `1 - d` plus `d` times `total`. */
  lemma ScoresTotal(scores: seq<real>, reg: seq<real>, votes: seq<real>, d: real, danglingMass: real, total: real)
    requires |scores| == |reg| == |votes|
    requires forall p :: 0 <= p < |scores| ==> scores[p] == NewScore(d, reg[p], danglingMass, votes[p])
    requires Sum(reg) == 1.0 && danglingMass + Sum(votes) == total
    ensures Sum(scores) == (1.0 - d) + d * total
  {
    var x := (1.0 - d) + d * danglingMass;
    ScoresAreLinear(scores, reg, votes, d, danglingMass, x);
    SumToLinear(scores, reg, votes, x, d, |scores|);
    Regroup(d, x, danglingMass, Sum(votes), total, Sum(reg));
  }

  /** With a regularisation vector summing to 1 a step keeps `1 - d` of
      the unit mass for teleportation and passes on `d` times the previous
      total, so a score vector summing to 1 stays one that sums to 1. */
  lemma StepConservesMass(g: Graph, w: seq<real>, S: seq<real>, reg: seq<real>, last: seq<real>, d: real)
    requires Sized(g, w, S, last) && |reg| == |g|
    requires S == SuccessorWeightSums(g, w)
    requires Sum(reg) == 1.0
    ensures Sum(NewScores(g, w, S, reg, last, d)) == (1.0 - d) + d * Sum(last)
  {
    NewScoresPointwise(g, w, S, reg, last, d);
    VotesConserve(g, w, S, last, |g|);
    ScoresTotal(NewScores(g, w, S, reg, last, d), reg, Votes(g, w, S, last, |g|), d,
      DanglingMass(g, S, last, |g|), Sum(last));
  }

  /** Each new score is `NewScore` of the paper's regularisation entry, the
      common dangling mass and the votes it received. */
  lemma NewScoresPointwise(g: Graph, w: seq<real>, S: seq<real>, reg: seq<real>, last: seq<real>, d: real)
    requires Sized(g, w, S, last) && |reg| == |g|
    ensures forall p :: 0 <= p < |g| ==>
      NewScores(g, w, S, reg, last, d)[p]
      == NewScore(d, reg[p], DanglingMass(g, S, last, |g|), Votes(g, w, S, last, |g|)[p])
  {
  }

  /** When every paper is dangling, all of the previous unit mass is spread
      through the regularisation vector, and a step returns it. */
  lemma AllDanglingGivesRegularization(g: Graph, w: seq<real>, S: seq<real>, reg: seq<real>, last: seq<real>, d: real)
    requires Sized(g, w, S, last) && |reg| == |g|
    requires S == SuccessorWeightSums(g, w)
    requires forall p :: 0 <= p < |g| ==> Dangling(g, S, p)
    requires Sum(last) == 1.0
    ensures Step(g, w, S, reg, last, d).scores == reg
  {
    var scores := NewScores(g, w, S, reg, last, d);
    var votes := Votes(g, w, S, last, |g|);
    AllDanglingNoVotes(g, w, S, last, |g|);
    VotesConserve(g, w, S, last, |g|);
    SumToConstant(Zeros(|g|), 0.0, |g|);
    var danglingMass := DanglingMass(g, S, last, |g|);
    assert danglingMass == 1.0;
    forall p | 0 <= p < |g|
      ensures scores[p] == reg[p]
    {
      assert votes[p] == 0.0;
      assert NewScore(d, reg[p], 1.0, 0.0) == reg[p];
    }
  }

  lemma {:induction false} AllDanglingNoVotes(g: Graph, w: seq<real>, S: seq<real>, last: seq<real>, k: nat)
    requires Sized(g, w, S, last) && k <= |g|
    requires forall p :: 0 <= p < |g| ==> Dangling(g, S, p)
    ensures Votes(g, w, S, last, k) == Zeros(|g|)
  {
    if k > 0 {
      AllDanglingNoVotes(g, w, S, last, k - 1);
    }
  }
  /** With a damping factor in [0, 1] and non-negative inputs a new score
      is non-negative. */
  lemma NewScoreNonNegative(d: real, regularized: real, danglingMass: real, votes: real)
    requires 0.0 <= d <= 1.0 && 0.0 <= regularized && 0.0 <= danglingMass && 0.0 <= votes
    ensures 0.0 <= NewScore(d, regularized, danglingMass, votes)
  {
    assert 0.0 <= danglingMass * regularized;
    assert 0.0 <= (1.0 - d) * regularized;
    assert 0.0 <= d * (danglingMass * regularized + votes);
  }

  lemma {:induction false} ScatterNonNegative(acc: seq<real>, targets: seq<int>, votes: seq<real>)
    requires |votes| == |acc| && InRange(targets, |acc|)
    requires NonNegative(acc) && NonNegative(votes)
    ensures NonNegative(Scatter(acc, targets, votes))
    decreases |targets|
  {
    if |targets| > 0 {
      var t := targets[0];
      assert InRange(targets[1..], |acc|);
      ScatterNonNegative(acc[t := acc[t] + votes[t]], targets[1..], votes);
    }
  }

  lemma {:induction false} VotesNonNegative(g: Graph, w: seq<real>, S: seq<real>, last: seq<real>, k: nat)
    requires Sized(g, w, S, last) && k <= |g|
    requires NonNegative(w) && NonNegative(S) && NonNegative(last)
    ensures NonNegative(Votes(g, w, S, last, k))
  {
    if k > 0 {
      VotesNonNegative(g, w, S, last, k - 1);
      if !Dangling(g, S, k - 1) {
        var share := Share(g, S, last, k - 1);
        assert 0.0 <= share;
        assert ValidPaper(g[k - 1], |g|);
        ScatterNonNegative(Votes(g, w, S, last, k - 1), g[k - 1].successors, Scale(share, w));
      }
    }
  }

  /** A step keeps scores non-negative: with a damping factor in [0, 1]
      and non-negative weights, regularisation vector and last scores,
      every new score is non-negative. */
  lemma StepKeepsNonNegative(g: Graph, w: seq<real>, S: seq<real>, reg: seq<real>, last: seq<real>, d: real)
    requires Sized(g, w, S, last) && |reg| == |g|
    requires S == SuccessorWeightSums(g, w)
    requires 0.0 <= d <= 1.0 && NonNegative(w) && NonNegative(reg) && NonNegative(last)
    ensures NonNegative(NewScores(g, w, S, reg, last, d))
  {
    var votes := Votes(g, w, S, last, |g|);
    var danglingMass := DanglingMass(g, S, last, |g|);
    var scores := NewScores(g, w, S, reg, last, d);
    VotesNonNegative(g, w, S, last, |g|);
    DanglingMassBounds(g, S, last, |g|);
    forall p | 0 <= p < |g|
      ensures 0.0 <= scores[p]
    {
      NewScoreNonNegative(d, reg[p], danglingMass, votes[p]);
    }
  }

  // ---------------------------------------------------------------------
  // The driver

  /** The starting scores: 1/n for each of the n papers. */
  function Uniform(n: nat): (u: seq<real>)
    ensures |u| == n
    ensures 0 < n ==> Sum(u) == 1.0
  {
    var u := seq(n, p requires 0 <= p < n => 1.0 / n as real);
    assert 0 < n ==> Sum(u) == 1.0 by {
      if 0 < n {
        SumToConstant(u, 1.0 / n as real, n);
      }
    }
    u
  }

  /** The step with the precomputed values fixed, as a function of the
      previous scores alone. A vector of the wrong length, which the
      driver never passes, is returned unchanged. */
  function StepWith(g: Graph, s: Setup, d: real): seq<real> -> StepResult {
    last =>
      if Fits(g, s) && |last| == |g| then Step(g, s.weights, s.successorSums, s.regularization, last, d)
      else StepResult(last, 0.0)
  }

  /** The previous scores after `k` steps from `start`. */
  function Iterate(step: seq<real> -> StepResult, start: seq<real>, k: nat): seq<real> {
    if k == 0 then start else step(Iterate(step, start, k - 1)).scores
  }

  /** None of the first `n` steps from `start` brought the difference
      below `threshold`. */
  predicate NotConvergedWithin(step: seq<real> -> StepResult, start: seq<real>, threshold: real, n: nat) {
    n == 0 ||
    (NotConvergedWithin(step, start, threshold, n - 1) &&
     threshold <= step(Iterate(step, start, n - 1)).difference)
  }

  /** Stated step by step: each of the first `n` steps had a difference of
      at least `threshold`. */
  lemma {:induction false} NotConvergedWithinEachStep(step: seq<real> -> StepResult, start: seq<real>, threshold: real, n: nat)
    ensures NotConvergedWithin(step, start, threshold, n) ==>
      forall k :: 0 <= k < n ==> threshold <= step(Iterate(step, start, k)).difference
    ensures (forall k :: 0 <= k < n ==> threshold <= step(Iterate(step, start, k)).difference) ==>
      NotConvergedWithin(step, start, threshold, n)
  {
    if n > 0 {
      NotConvergedWithinEachStep(step, start, threshold, n - 1);
      if NotConvergedWithin(step, start, threshold, n) {
        forall k | 0 <= k < n
          ensures threshold <= step(Iterate(step, start, k)).difference
        {
          if k < n - 1 {
            assert NotConvergedWithin(step, start, threshold, n - 1);
          }
        }
      }
      if forall k :: 0 <= k < n ==> threshold <= step(Iterate(step, start, k)).difference {
        assert threshold <= step(Iterate(step, start, n - 1)).difference;
        assert NotConvergedWithin(step, start, threshold, n - 1);
      }
    }
  }

  /** Repeats `step` from `start` until the difference is below
      `threshold`, or until `maxIterations` steps have run. The result is
      the last step's; unless the cap was reached its difference is below
      the threshold, and no earlier step's was. */
  method RunSteps(step: seq<real> -> StepResult, start: seq<real>, threshold: real, maxIterations: nat)
    returns (r: StepResult, iterations: nat)
    requires 0 < maxIterations
    ensures 1 <= iterations <= maxIterations
    ensures r == step(Iterate(step, start, iterations - 1))
    ensures r.difference < threshold || iterations == maxIterations
    ensures NotConvergedWithin(step, start, threshold, iterations - 1)
  {
    var last := start;
    r := step(last);
    iterations := 1;
    while !(r.difference < threshold) && iterations < maxIterations
      invariant 1 <= iterations <= maxIterations
      invariant last == Iterate(step, start, iterations - 1)
      invariant r == step(last)
      invariant NotConvergedWithin(step, start, threshold, iterations - 1)
      decreases maxIterations - iterations
    {
      last := r.scores;
      iterations := iterations + 1;
      r := step(last);
    }
  }

  /** The precomputed values that make a step conserve unit mass. */
  predicate Balanced(g: Graph, s: Setup) {
    && Fits(g, s)
    && s.successorSums == SuccessorWeightSums(g, s.weights)
    && Sum(s.regularization) == 1.0
  }

  /** A step from scores summing to 1 gives scores summing to 1. */
  lemma StepKeepsUnitMass(g: Graph, s: Setup, last: seq<real>, d: real)
    requires Balanced(g, s) && |last| == |g| && Sum(last) == 1.0
    ensures |StepWith(g, s, d)(last).scores| == |g|
    ensures Sum(StepWith(g, s, d)(last).scores) == 1.0
  {
    var scores := NewScores(g, s.weights, s.successorSums, s.regularization, last, d);
    assert StepWith(g, s, d)(last).scores == scores;
    StepConservesMass(g, s.weights, s.successorSums, s.regularization, last, d);
  }

  /** Every iterate from a start summing to 1 sums to 1. */
  lemma {:induction false} IteratesSumToOne(g: Graph, s: Setup, d: real, start: seq<real>, k: nat)
    requires Balanced(g, s) && |start| == |g| && Sum(start) == 1.0
    ensures |Iterate(StepWith(g, s, d), start, k)| == |g|
    ensures Sum(Iterate(StepWith(g, s, d), start, k)) == 1.0
  {
    if k > 0 {
      IteratesSumToOne(g, s, d, start, k - 1);
      StepKeepsUnitMass(g, s, Iterate(StepWith(g, s, d), start, k - 1), d);
    }
  }

  /** Every step the driver takes on a non-empty graph, from the uniform
      start, yields scores summing to 1 and a non-negative difference. */
  lemma DriverStepsKeepUnitMass(g: Graph, d: real)
    requires ValidGraph(g) && 0 < |g|
    ensures forall k: nat ::
      var r := StepWith(g, Prepare(g), d)(Iterate(StepWith(g, Prepare(g), d), Uniform(|g|), k));
      0.0 <= r.difference && |r.scores| == |g| && Sum(r.scores) == 1.0
  {
    var setup := Prepare(g);
    var start := Uniform(|g|);
    forall k: nat
      ensures var r := StepWith(g, setup, d)(Iterate(StepWith(g, setup, d), start, k));
        0.0 <= r.difference && |r.scores| == |g| && Sum(r.scores) == 1.0
    {
      IteratesSumToOne(g, setup, d, start, k);
      StepKeepsUnitMass(g, setup, Iterate(StepWith(g, setup, d), start, k), d);
    }
  }

  /** In a graph where no paper cites another, a step from scores summing
      to 1 returns the regularisation vector: all of the mass is dangling
      and is handed back through that vector. */
  lemma NoCitationsStep(g: Graph, s: Setup, d: real, last: seq<real>)
    requires Balanced(g, s) && |last| == |g| && Sum(last) == 1.0
    requires forall p :: 0 <= p < |g| ==> |g[p].successors| == 0
    ensures StepWith(g, s, d)(last).scores == s.regularization
  {
    assert StepWith(g, s, d)(last) == Step(g, s.weights, s.successorSums, s.regularization, last, d);
    AllDanglingGivesRegularization(g, s.weights, s.successorSums, s.regularization, last, d);
  }

  /** A lone paper citing nothing keeps the whole unit mass: the first
      step returns the score 1 with a zero difference, so any positive
      threshold stops the driver after one iteration. `Prepare` yields a
      balanced setup for every non-empty valid graph. */
  lemma IsolatedPaperConvergesAtOnce(g: Graph, s: Setup, d: real)
    requires Balanced(g, s) && |g| == 1 && |g[0].successors| == 0
    ensures StepWith(g, s, d)(Uniform(1)) == StepResult([1.0], 0.0)
  {
    var start := Uniform(1);
    forall p | 0 <= p < |g|
      ensures |g[p].successors| == 0
    {
      assert p == 0;
    }
    NoCitationsStep(g, s, d, start);
    SingleEntrySum(s.regularization);
    assert s.regularization == [1.0];
    assert start == [1.0];
  }

  /** The driver: prepares the weights, starts from the uniform scores and
      runs steps until convergence or the iteration cap. On a non-empty
      graph the resulting scores sum to 1. */
  method RunPaperPageRank(g: Graph, d: real, threshold: real, maxIterations: nat)
    returns (r: StepResult, iterations: nat)
    requires ValidGraph(g) && 0 < maxIterations
    ensures 1 <= iterations <= maxIterations
    ensures r == StepWith(g, Prepare(g), d)(Iterate(StepWith(g, Prepare(g), d), Uniform(|g|), iterations - 1))
    ensures r.difference < threshold || iterations == maxIterations
    ensures NotConvergedWithin(StepWith(g, Prepare(g), d), Uniform(|g|), threshold, iterations - 1)
    ensures 0 < |g| ==> 0.0 <= r.difference && |r.scores| == |g| && Sum(r.scores) == 1.0
  {
    if 0 < |g| {
      DriverStepsKeepUnitMass(g, d);
    }
    r, iterations := RunSteps(StepWith(g, Prepare(g), d), Uniform(|g|), threshold, maxIterations);
  }
}
