/** Per-category aggregation of a per-paper weight vector, in the two
    modes the engine uses: single-valued (each paper in at most one
    conference, or one journal) and split vote (each paper shares its
    weight equally among its authors, or among its affiliations). Both
    return a per-category average and the mean of the averages over the
    categories that have at least one member; that mean is what a paper
    lacking the attribute receives. */
module Aggregation {
  import opened Vectors
  import opened Papers
  import opened CategoryCount

  /** A category vector and its fallback mean. */
  datatype CategoryScores = CategoryScores(scores: seq<real>, mean: real)

  /** The per-category accumulators after the first pass over the papers:
      summed weight (or votes) and number of papers. */
  datatype Tally = Tally(sums: seq<real>, counts: seq<int>)

  function EmptyTally(n: nat): Tally {
    Tally(Zeros(n), seq(n, _ => 0))
  }

  /** Average of `total` over `count` members, 0 for a category nobody uses. */
  function Average(total: real, count: int): real {
    if 0 < count then total / count as real else 0.0
  }

  predicate NonNegativeScores(agg: CategoryScores) {
    NonNegative(agg.scores) && 0.0 <= agg.mean
  }

  // ---------------------------------------------------------------------
  // Mean over the non-empty categories

  /** Sum of the scores of the categories below `k` that have members. */
  function NonEmptyTotal(scores: seq<real>, counts: seq<int>, k: nat): real
    requires k <= |scores| && k <= |counts|
  {
    if k == 0 then 0.0
    else NonEmptyTotal(scores, counts, k - 1) + (if 0 < counts[k - 1] then scores[k - 1] else 0.0)
  }

  /** Number of categories below `k` that have members. */
  function NonEmptyCount(counts: seq<int>, k: nat): nat
    requires k <= |counts|
  {
    if k == 0 then 0
    else NonEmptyCount(counts, k - 1) + (if 0 < counts[k - 1] then 1 else 0)
  }

  /** `mean` is the arithmetic mean of the scores of the categories that
      have members, or 0 when no category has one. */
  predicate IsNonEmptyMean(mean: real, scores: seq<real>, counts: seq<int>)
    requires |scores| == |counts|
  {
    var effective := NonEmptyCount(counts, |counts|);
    if effective == 0 then mean == 0.0
    else mean == NonEmptyTotal(scores, counts, |counts|) / effective as real
  }

  /** The second pass: turn sums into averages where a category has
      members, and average those averages. A category without members
      keeps its (zero) sum and is left out of the mean. */
  function Finalize(t: Tally): (r: CategoryScores)
    requires |t.sums| == |t.counts|
    ensures |r.scores| == |t.sums|
    ensures forall c :: 0 <= c < |t.sums| && 0 < t.counts[c] ==> r.scores[c] * t.counts[c] as real == t.sums[c]
    ensures forall c :: 0 <= c < |t.sums| && t.counts[c] <= 0 ==> r.scores[c] == t.sums[c]
    ensures IsNonEmptyMean(r.mean, r.scores, t.counts)
  {
    var n := |t.sums|;
    var scores := seq(n, c requires 0 <= c < n =>
      if 0 < t.counts[c] then t.sums[c] / t.counts[c] as real else t.sums[c]);
    var effective := NonEmptyCount(t.counts, n);
    var mean := if 0 < effective then NonEmptyTotal(scores, t.counts, n) / effective as real else 0.0;
    CategoryScores(scores, mean)
  }

  lemma {:induction false} NonEmptyBounds(scores: seq<real>, counts: seq<int>, lo: real, hi: real, k: nat)
    requires k <= |scores| && k <= |counts|
    requires forall c :: 0 <= c < k && 0 < counts[c] ==> lo <= scores[c] <= hi
    ensures Copies(lo, NonEmptyCount(counts, k)) <= NonEmptyTotal(scores, counts, k)
    ensures NonEmptyTotal(scores, counts, k) <= Copies(hi, NonEmptyCount(counts, k))
  {
    if k > 0 {
      NonEmptyBounds(scores, counts, lo, hi, k - 1);
    }
  }

  /** The fallback mean is a true average: it lies between the smallest
      and the largest average of a non-empty category. */
  lemma MeanWithinBounds(mean: real, scores: seq<real>, counts: seq<int>, lo: real, hi: real)
    requires |scores| == |counts|
    requires IsNonEmptyMean(mean, scores, counts)
    requires 0 < NonEmptyCount(counts, |counts|)
    requires forall c :: 0 <= c < |counts| && 0 < counts[c] ==> lo <= scores[c] <= hi
    ensures lo <= mean <= hi
  {
    var total := NonEmptyTotal(scores, counts, |counts|);
    var e := NonEmptyCount(counts, |counts|);
    assert mean == total / e as real;
    NonEmptyBounds(scores, counts, lo, hi, |counts|);
    AverageOfBounded(total, e, lo, hi);
  }

  // ---------------------------------------------------------------------
  // Single-valued categories (conference, journal)

  /** The weight paper `p` brings to category `c`: its own weight if it
      belongs to `c`, else nothing. */
  function MemberWeights(ids: seq<int>, w: seq<real>, c: int): seq<real>
    requires |ids| == |w|
  {
    seq(|w|, p requires 0 <= p < |w| => if ids[p] == c then w[p] else 0.0)
  }

  /** The papers below `k` that belong to category `c`. */
  function MembersBefore(ids: seq<int>, c: int, k: nat): set<int>
    requires k <= |ids|
  {
    set p | 0 <= p < k && ids[p] == c
  }

  function MemberCounts(ids: seq<int>, n: nat): seq<int> {
    seq(n, c => |MembersBefore(ids, c, |ids|)|)
  }

  lemma MembersStep(ids: seq<int>, k: nat)
    requires 0 < k <= |ids|
    ensures forall c :: (|MembersBefore(ids, c, k)| ==
      |MembersBefore(ids, c, k - 1)| + (if ids[k - 1] == c then 1 else 0))
  {
    forall c
      ensures |MembersBefore(ids, c, k)| == |MembersBefore(ids, c, k - 1)| + (if ids[k - 1] == c then 1 else 0)
    {
      if ids[k - 1] == c {
        assert MembersBefore(ids, c, k) == MembersBefore(ids, c, k - 1) + {k - 1};
      } else {
        assert MembersBefore(ids, c, k) == MembersBefore(ids, c, k - 1);
      }
    }
  }

  /** The accumulation pass over papers `0 .. k-1`: each paper with a
      category adds its weight to that category's sum and one to its
      count; a paper without one (negative id) is passed over. */
  function SingleTally(ids: seq<int>, w: seq<real>, n: nat, k: nat): (t: Tally)
    requires |ids| == |w| && k <= |ids|
    requires forall p :: 0 <= p < |ids| ==> ids[p] < n
    ensures |t.sums| == n && |t.counts| == n
    ensures forall c :: 0 <= c < n ==>
      t.sums[c] == SumTo(MemberWeights(ids, w, c), k) && t.counts[c] == |MembersBefore(ids, c, k)|
  {
    if k == 0 then EmptyTally(n)
    else
      var t := SingleTally(ids, w, n, k - 1);
      var c := ids[k - 1];
      MembersStep(ids, k);
      if c < 0 then t
      else Tally(t.sums[c := t.sums[c] + w[k - 1]], t.counts[c := t.counts[c] + 1])
  }

  lemma {:induction false} NoMembersNoWeight(ids: seq<int>, w: seq<real>, c: int, k: nat)
    requires |ids| == |w| && k <= |ids|
    requires |MembersBefore(ids, c, k)| == 0
    ensures SumTo(MemberWeights(ids, w, c), k) == 0.0
  {
    if k > 0 {
      MembersStep(ids, k);
      NoMembersNoWeight(ids, w, c, k - 1);
    }
  }

  /** Conference or journal scores: each category's average member
      weight (0 for a category no paper uses) and the mean of those
      averages over the categories with members. */
  function SingleValuedWeights(ids: seq<int>, w: seq<real>): (r: CategoryScores)
    requires |ids| == |w|
    ensures |r.scores| == SingleValuedCount(ids)
    ensures forall p :: 0 <= p < |ids| && 0 <= ids[p] ==> ids[p] < |r.scores|
    ensures forall c :: 0 <= c < |r.scores| ==>
      r.scores[c] == Average(Sum(MemberWeights(ids, w, c)), |MembersBefore(ids, c, |ids|)|)
    ensures IsNonEmptyMean(r.mean, r.scores, MemberCounts(ids, |r.scores|))
  {
    var n := SingleValuedCount(ids);
    var t := SingleTally(ids, w, n, |ids|);
    assert t.counts == MemberCounts(ids, n);
    forall c | 0 <= c < n && |MembersBefore(ids, c, |ids|)| == 0 {
      NoMembersNoWeight(ids, w, c, |ids|);
    }
    Finalize(t)
  }

  lemma {:induction false} MemberWeightNonNegative(ids: seq<int>, w: seq<real>, c: int, k: nat)
    requires |ids| == |w| && k <= |ids| && NonNegative(w)
    ensures 0.0 <= SumTo(MemberWeights(ids, w, c), k)
  {
    if k > 0 {
      MemberWeightNonNegative(ids, w, c, k - 1);
    }
  }

  lemma {:induction false} NonEmptyTotalNonNegative(scores: seq<real>, counts: seq<int>, k: nat)
    requires k <= |scores| && k <= |counts| && NonNegative(scores)
    ensures 0.0 <= NonEmptyTotal(scores, counts, k)
  {
    if k > 0 {
      NonEmptyTotalNonNegative(scores, counts, k - 1);
    }
  }

  lemma MeanNonNegative(mean: real, scores: seq<real>, counts: seq<int>)
    requires |scores| == |counts| && NonNegative(scores)
    requires IsNonEmptyMean(mean, scores, counts)
    ensures 0.0 <= mean
  {
    NonEmptyTotalNonNegative(scores, counts, |counts|);
    var e := NonEmptyCount(counts, |counts|);
    if 0 < e {
      assert 0.0 <= NonEmptyTotal(scores, counts, |counts|) / e as real;
    }
  }

  lemma CategoryAverageNonNegative(ids: seq<int>, w: seq<real>, c: int)
    requires |ids| == |w| && NonNegative(w)
    ensures 0.0 <= Average(Sum(MemberWeights(ids, w, c)), |MembersBefore(ids, c, |ids|)|)
  {
    MemberWeightNonNegative(ids, w, c, |ids|);
  }

  /** Non-negative paper weights give non-negative category averages and
      a non-negative mean. */
  lemma SingleValuedWeightsNonNegative(ids: seq<int>, w: seq<real>)
    requires |ids| == |w| && NonNegative(w)
    ensures NonNegativeScores(SingleValuedWeights(ids, w))
  {
    var r := SingleValuedWeights(ids, w);
    forall c | 0 <= c < |r.scores|
      ensures 0.0 <= r.scores[c]
    {
      CategoryAverageNonNegative(ids, w, c);
    }
    var counts := MemberCounts(ids, |r.scores|);
    MeanNonNegative(r.mean, r.scores, counts);
  }

  // ---------------------------------------------------------------------
  // Multi-valued categories with split votes (authors, affiliations)

  /** The vote paper `p` casts for member `a`: its weight divided by its
      number of members, once per time `a` is listed; nothing from a
      paper without members. */
  function VoteShares(lists: seq<seq<int>>, w: seq<real>, a: int): seq<real>
    requires |lists| == |w|
  {
    seq(|w|, p requires 0 <= p < |w| =>
      if 0 < |lists[p]| then Repeated(lists[p], a, w[p] / |lists[p]| as real) else 0.0)
  }

  /** How many times member `a` is listed by the papers below `k`. */
  function AppearancesBefore(lists: seq<seq<int>>, a: int, k: nat): nat
    requires k <= |lists|
  {
    if k == 0 then 0 else AppearancesBefore(lists, a, k - 1) + Occurrences(lists[k - 1], a)
  }

  function AppearanceCounts(lists: seq<seq<int>>, n: nat): seq<int> {
    seq(n, a => AppearancesBefore(lists, a, |lists|))
  }

  /** The weight of each paper that has at least one member; the weight of
      a paper with none is not handed out. */
  function VotingWeights(lists: seq<seq<int>>, w: seq<real>): seq<real>
    requires |lists| == |w|
  {
    seq(|w|, p requires 0 <= p < |w| => if 0 < |lists[p]| then w[p] else 0.0)
  }

  /** One paper's inner loop: every listed member gets `vote` added to its
      sum and one added to its count, a repeated member once per listing. */
  function CastVotes(t: Tally, members: seq<int>, vote: real): (r: Tally)
    requires |t.sums| == |t.counts|
    requires InRange(members, |t.sums|)
    ensures |r.sums| == |t.sums| && |r.counts| == |t.counts|
    decreases |members|
  {
    if |members| == 0 then t
    else
      var a := members[0];
      CastVotes(Tally(t.sums[a := t.sums[a] + vote], t.counts[a := t.counts[a] + 1]), members[1..], vote)
  }

  /** Each member receives `vote` and one count per time it is listed;
      an unlisted member receives nothing. */
  lemma {:induction false} CastVotesReceive(t: Tally, members: seq<int>, vote: real)
    requires |t.sums| == |t.counts|
    requires InRange(members, |t.sums|)
    ensures forall a :: 0 <= a < |t.sums| ==>
      && CastVotes(t, members, vote).sums[a] == t.sums[a] + Repeated(members, a, vote)
      && CastVotes(t, members, vote).counts[a] == t.counts[a] + Occurrences(members, a)
    decreases |members|
  {
    if |members| > 0 {
      var a := members[0];
      var rest := members[1..];
      assert InRange(rest, |t.sums|);
      var next := Tally(t.sums[a := t.sums[a] + vote], t.counts[a := t.counts[a] + 1]);
      CastVotesReceive(next, rest, vote);
      assert CastVotes(t, members, vote) == CastVotes(next, rest, vote);
    }
  }

  /** The votes one paper casts add up to one `vote` per listed member. */
  lemma {:induction false} CastVotesTotal(t: Tally, members: seq<int>, vote: real)
    requires |t.sums| == |t.counts|
    requires InRange(members, |t.sums|)
    ensures Sum(CastVotes(t, members, vote).sums) == Sum(t.sums) + Copies(vote, |members|)
    decreases |members|
  {
    if |members| > 0 {
      var a := members[0];
      var rest := members[1..];
      assert InRange(rest, |t.sums|);
      var next := Tally(t.sums[a := t.sums[a] + vote], t.counts[a := t.counts[a] + 1]);
      SumUpdate(t.sums, a, t.sums[a] + vote);
      CastVotesTotal(next, rest, vote);
      CopiesFirst(vote, |rest|);
      calc {
        Sum(CastVotes(t, members, vote).sums);
        Sum(CastVotes(next, rest, vote).sums);
        Sum(next.sums) + Copies(vote, |rest|);
        Sum(t.sums) + vote + Copies(vote, |rest|);
      }
    }
  }

  /** The accumulation pass over papers `0 .. k-1`: a paper with `m > 0`
      members gives each of them `weight / m`; a paper with none gives
      nothing. */
  function MultiTally(lists: seq<seq<int>>, w: seq<real>, n: nat, k: nat): (t: Tally)
    requires |lists| == |w| && k <= |lists|
    requires forall p :: 0 <= p < |lists| ==> InRange(lists[p], n)
    ensures |t.sums| == n && |t.counts| == n
  {
    if k == 0 then EmptyTally(n)
    else
      var t := MultiTally(lists, w, n, k - 1);
      var members := lists[k - 1];
      if 0 < |members| then CastVotes(t, members, w[k - 1] / |members| as real) else t
  }

  /** After papers `0 .. k-1`, each member's sum is the votes cast for it
      and its count the number of times it was listed. */
  lemma {:induction false} MultiTallyContents(lists: seq<seq<int>>, w: seq<real>, n: nat, k: nat)
    requires |lists| == |w| && k <= |lists|
    requires forall p :: 0 <= p < |lists| ==> InRange(lists[p], n)
    ensures forall a :: 0 <= a < n ==>
      && MultiTally(lists, w, n, k).sums[a] == SumTo(VoteShares(lists, w, a), k)
      && MultiTally(lists, w, n, k).counts[a] == AppearancesBefore(lists, a, k)
  {
    if k > 0 {
      MultiTallyContents(lists, w, n, k - 1);
      var members := lists[k - 1];
      if 0 < |members| {
        CastVotesReceive(MultiTally(lists, w, n, k - 1), members, w[k - 1] / |members| as real);
      }
    }
  }

  /** Split votes conserve weight: the accumulated votes total exactly the
      weight of the papers that have members. */
  lemma {:induction false} SplitVotesConserveWeight(lists: seq<seq<int>>, w: seq<real>, n: nat, k: nat)
    requires |lists| == |w| && k <= |lists|
    requires forall p :: 0 <= p < |lists| ==> InRange(lists[p], n)
    ensures Sum(MultiTally(lists, w, n, k).sums) == SumTo(VotingWeights(lists, w), k)
  {
    if k > 0 {
      SplitVotesConserveWeight(lists, w, n, k - 1);
      var t := MultiTally(lists, w, n, k - 1);
      var members := lists[k - 1];
      assert SumTo(VotingWeights(lists, w), k)
        == SumTo(VotingWeights(lists, w), k - 1) + (if 0 < |members| then w[k - 1] else 0.0);
      if 0 < |members| {
        var vote := w[k - 1] / |members| as real;
        assert MultiTally(lists, w, n, k) == CastVotes(t, members, vote);
        CastVotesTotal(t, members, vote);
        EqualSharesAddUp(w[k - 1], |members|);
      } else {
        assert MultiTally(lists, w, n, k) == t;
      }
    } else {
      SumToConstant(Zeros(n), 0.0, n);
    }
  }

  lemma {:induction false} AppearancesZero(lists: seq<seq<int>>, w: seq<real>, a: int, k: nat)
    requires |lists| == |w| && k <= |lists|
    requires AppearancesBefore(lists, a, k) == 0
    ensures SumTo(VoteShares(lists, w, a), k) == 0.0
  {
    if k > 0 {
      AppearancesZero(lists, w, a, k - 1);
      if 0 < |lists[k - 1]| {
        RepeatedIsScaled(lists[k - 1], a, w[k - 1] / |lists[k - 1]| as real);
      }
    }
  }

  /** Author or affiliation scores: each member's summed split votes
      divided by the number of its listings (0 for an id nobody lists),
      and the mean of those averages over the members that appear. */
  function MultiValuedWeights(lists: seq<seq<int>>, w: seq<real>): (r: CategoryScores)
    requires |lists| == |w|
    requires ValidLists(lists)
    ensures |r.scores| == MultiValuedCount(lists)
    ensures forall p :: 0 <= p < |lists| ==> InRange(lists[p], |r.scores|)
    ensures forall a :: 0 <= a < |r.scores| ==>
      r.scores[a] == Average(Sum(VoteShares(lists, w, a)), AppearancesBefore(lists, a, |lists|))
    ensures IsNonEmptyMean(r.mean, r.scores, AppearanceCounts(lists, |r.scores|))
  {
    var n := MultiValuedCount(lists);
    assert forall p :: 0 <= p < |lists| ==> InRange(lists[p], n);
    var t := MultiTally(lists, w, n, |lists|);
    MultiTallyContents(lists, w, n, |lists|);
    assert t.counts == AppearanceCounts(lists, n);
    forall a | 0 <= a < n && AppearancesBefore(lists, a, |lists|) == 0 {
      AppearancesZero(lists, w, a, |lists|);
    }
    Finalize(t)
  }

  lemma {:induction false} VoteSharesNonNegative(lists: seq<seq<int>>, w: seq<real>, a: int)
    requires |lists| == |w| && NonNegative(w)
    ensures NonNegative(VoteShares(lists, w, a))
  {
    var s := VoteShares(lists, w, a);
    forall p | 0 <= p < |s|
      ensures 0.0 <= s[p]
    {
      if 0 < |lists[p]| {
        RepeatedNonNegative(lists[p], a, w[p] / |lists[p]| as real);
      }
    }
  }

  lemma MemberAverageNonNegative(lists: seq<seq<int>>, w: seq<real>, a: int)
    requires |lists| == |w| && NonNegative(w)
    ensures 0.0 <= Average(Sum(VoteShares(lists, w, a)), AppearancesBefore(lists, a, |lists|))
  {
    VoteSharesNonNegative(lists, w, a);
    SumToNonNegative(VoteShares(lists, w, a), |lists|);
  }

  /** Non-negative paper weights give non-negative member averages and a
      non-negative mean. */
  lemma MultiValuedWeightsNonNegative(lists: seq<seq<int>>, w: seq<real>)
    requires |lists| == |w| && NonNegative(w)
    requires ValidLists(lists)
    ensures NonNegativeScores(MultiValuedWeights(lists, w))
  {
    var r := MultiValuedWeights(lists, w);
    forall a | 0 <= a < |r.scores|
      ensures 0.0 <= r.scores[a]
    {
      MemberAverageNonNegative(lists, w, a);
    }
    var counts := AppearanceCounts(lists, |r.scores|);
    MeanNonNegative(r.mean, r.scores, counts);
  }
}
