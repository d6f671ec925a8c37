/** The composite paper weight: an initial link-and-age weight, then a
    conference pass and a journal pass that both aggregate the initial
    weights, then an author pass and an affiliation pass that both
    aggregate the weights reached after the two venue passes. */
module Synthesis {
  import opened Vectors
  import opened Papers
  import opened CategoryCount
  import opened Aggregation

  /** The weight of a paper nobody cites (1e-10). */
  const SmallPositiveValue: real := 0.0000000001

  /** Indegree divided by age, for a cited paper whose age is at least 1. */
  function AgeWeight(indegree: nat, age: int): (w: real)
    requires 0 < indegree && 1 <= age
    ensures 0.0 < w <= indegree as real
    ensures w * age as real == indegree as real
  {
    indegree as real / age as real
  }

  /** Indegree divided by age for a cited paper, where the age
      `CurrentYear(g) - year` is at least 1; the small positive constant
      for an uncited one. Every initial weight is strictly positive. */
  function InitialPaperWeights(g: Graph): (w: seq<real>)
    ensures |w| == |g|
    ensures Positive(w)
  {
    var currentYear := CurrentYear(g);
    seq(|g|, p requires 0 <= p < |g| =>
      var indegree := |g[p].predecessors|;
      if 0 < indegree then AgeWeight(indegree, currentYear - g[p].year) else SmallPositiveValue)
  }

  /** A cited paper's initial weight times its age is its indegree, so it
      never exceeds the indegree; an uncited paper gets the small
      positive constant. */
  lemma InitialWeightPerYear(g: Graph, p: int)
    requires 0 <= p < |g|
    ensures var w := InitialPaperWeights(g)[p];
      if 0 < |g[p].predecessors| then
        && 1 <= CurrentYear(g) - g[p].year
        && w * (CurrentYear(g) - g[p].year) as real == |g[p].predecessors| as real
        && w <= |g[p].predecessors| as real
      else w == SmallPositiveValue
  {
  }

  /** What a venue pass adds to paper `p`: the average of its own venue,
      or the venue mean when it has none. */
  function VenueScore(ids: seq<int>, agg: CategoryScores, p: int): (s: real)
    requires 0 <= p < |ids| && ids[p] < |agg.scores|
    ensures ids[p] < 0 ==> s == agg.mean
    ensures 0 <= ids[p] ==> s == agg.scores[ids[p]]
    ensures NonNegativeScores(agg) ==> 0.0 <= s
  {
    if 0 <= ids[p] then agg.scores[ids[p]] else agg.mean
  }

  /** A venue pass: each paper's weight grows by its venue score, so with
      non-negative venue scores no weight decreases. */
  function AddVenueScores(w: seq<real>, ids: seq<int>, agg: CategoryScores): (r: seq<real>)
    requires |ids| == |w|
    requires forall p :: 0 <= p < |ids| ==> ids[p] < |agg.scores|
    ensures |r| == |w|
    ensures forall p :: 0 <= p < |w| ==> r[p] - w[p] == VenueScore(ids, agg, p)
    ensures NonNegativeScores(agg) ==> forall p :: 0 <= p < |w| ==> w[p] <= r[p]
  {
    seq(|w|, p requires 0 <= p < |w| => w[p] + VenueScore(ids, agg, p))
  }

  /** What a member pass adds to a paper: the average of its members'
      averages, or the category mean when it lists no member. */
  function MemberScore(members: seq<int>, agg: CategoryScores): (s: real)
    requires InRange(members, |agg.scores|)
    ensures |members| == 0 ==> s == agg.mean
    ensures 0 < |members| ==> s * |members| as real == SumAt(agg.scores, members)
    ensures NonNegativeScores(agg) ==> 0.0 <= s
  {
    if 0 < |members| then
      var total := SumAt(agg.scores, members);
      assert NonNegativeScores(agg) ==> 0.0 <= total by {
        if NonNegativeScores(agg) {
          SumAtNonNegative(agg.scores, members);
        }
      }
      assert NonNegativeScores(agg) ==> 0.0 <= total / |members| as real;
      total / |members| as real
    else agg.mean
  }

  /** A member score is a true average: when every listed member's score
      lies between `lo` and `hi`, so does the paper's member score. */
  lemma MemberScoreWithinBounds(members: seq<int>, agg: CategoryScores, lo: real, hi: real)
    requires InRange(members, |agg.scores|) && 0 < |members|
    requires forall j :: 0 <= j < |members| ==> lo <= agg.scores[members[j]] <= hi
    ensures lo <= MemberScore(members, agg) <= hi
  {
    SumAtBounds(agg.scores, members, lo, hi);
    AverageOfBounded(SumAt(agg.scores, members), |members|, lo, hi);
  }

  /** A member pass: each paper's weight grows by its member score, so
      with non-negative member scores no weight decreases. */
  function AddMemberScores(w: seq<real>, lists: seq<seq<int>>, agg: CategoryScores): (r: seq<real>)
    requires |lists| == |w|
    requires forall p :: 0 <= p < |lists| ==> InRange(lists[p], |agg.scores|)
    ensures |r| == |w|
    ensures forall p :: 0 <= p < |w| ==> r[p] - w[p] == MemberScore(lists[p], agg)
    ensures NonNegativeScores(agg) ==> forall p :: 0 <= p < |w| ==> w[p] <= r[p]
  {
    seq(|w|, p requires 0 <= p < |w| => w[p] + MemberScore(lists[p], agg))
  }

  /** The conference pass and then the journal pass. Both aggregates are
      taken over `initial`, before either pass has added anything; with
      non-negative initial weights no weight decreases. */
  function VenueStage(conferences: seq<int>, journals: seq<int>, initial: seq<real>): (w: seq<real>)
    requires |conferences| == |initial| && |journals| == |initial| && NonNegative(initial)
    ensures |w| == |initial|
    ensures forall p :: 0 <= p < |initial| ==> initial[p] <= w[p]
  {
    var conference := SingleValuedWeights(conferences, initial);
    var journal := SingleValuedWeights(journals, initial);
    SingleValuedWeightsNonNegative(conferences, initial);
    SingleValuedWeightsNonNegative(journals, initial);
    var afterConference := AddVenueScores(initial, conferences, conference);
    AddVenueScores(afterConference, journals, journal)
  }

  /** The author pass and then the affiliation pass. Both aggregates are
      taken over `base`, the weights after the venue passes: the
      affiliation aggregate does not see what the author pass added. With
      non-negative base weights no weight decreases. */
  function MemberStage(authors: seq<seq<int>>, affiliations: seq<seq<int>>, base: seq<real>): (w: seq<real>)
    requires |authors| == |base| && |affiliations| == |base| && NonNegative(base)
    requires ValidLists(authors) && ValidLists(affiliations)
    ensures |w| == |base|
    ensures forall p :: 0 <= p < |base| ==> base[p] <= w[p]
  {
    var author := MultiValuedWeights(authors, base);
    var affiliation := MultiValuedWeights(affiliations, base);
    MultiValuedWeightsNonNegative(authors, base);
    MultiValuedWeightsNonNegative(affiliations, base);
    var afterAuthors := AddMemberScores(base, authors, author);
    var afterAffiliations := AddMemberScores(afterAuthors, affiliations, affiliation);
    forall p | 0 <= p < |base|
      ensures base[p] <= afterAffiliations[p]
    {
      assert base[p] <= afterAuthors[p];
      assert afterAuthors[p] <= afterAffiliations[p];
    }
    afterAffiliations
  }

  /** A valid graph lists no negative author or affiliation id. */
  lemma ValidGraphLists(g: Graph)
    requires ValidGraph(g)
    ensures ValidLists(AuthorLists(g)) && ValidLists(AffiliationLists(g))
  {
    assert forall p :: 0 <= p < |g| ==> ValidPaper(g[p], |g|);
  }

  /** The composite weight of every paper. It never falls below the
      initial weight, and so is strictly positive. */
  function PaperWeights(g: Graph): (w: seq<real>)
    requires ValidGraph(g)
    ensures |w| == |g|
    ensures forall p :: 0 <= p < |g| ==> InitialPaperWeights(g)[p] <= w[p]
    ensures Positive(w)
  {
    var initial := InitialPaperWeights(g);
    var afterVenues := VenueStage(Conferences(g), Journals(g), initial);
    ValidGraphLists(g);
    var w := MemberStage(AuthorLists(g), AffiliationLists(g), afterVenues);
    forall p | 0 <= p < |g|
      ensures initial[p] <= w[p] && 0.0 < w[p]
    {
      assert initial[p] <= afterVenues[p];
      assert afterVenues[p] <= w[p];
    }
    w
  }

  // ---------------------------------------------------------------------
  // Stage order

  function SwapVenues(g: Graph): Graph {
    seq(|g|, p requires 0 <= p < |g| => g[p].(conference := g[p].journal, journal := g[p].conference))
  }

  function SwapMembers(g: Graph): Graph {
    seq(|g|, p requires 0 <= p < |g| => g[p].(authors := g[p].affiliations, affiliations := g[p].authors))
  }

  /** Two venue passes add independent amounts, so their order does not
      matter. */
  lemma VenuePassesCommute(w: seq<real>, ids1: seq<int>, agg1: CategoryScores, ids2: seq<int>, agg2: CategoryScores)
    requires |ids1| == |w| && |ids2| == |w|
    requires forall p :: 0 <= p < |ids1| ==> ids1[p] < |agg1.scores|
    requires forall p :: 0 <= p < |ids2| ==> ids2[p] < |agg2.scores|
    ensures AddVenueScores(AddVenueScores(w, ids1, agg1), ids2, agg2)
         == AddVenueScores(AddVenueScores(w, ids2, agg2), ids1, agg1)
  {
    var a := AddVenueScores(AddVenueScores(w, ids1, agg1), ids2, agg2);
    var b := AddVenueScores(AddVenueScores(w, ids2, agg2), ids1, agg1);
    forall p | 0 <= p < |w|
      ensures a[p] == b[p]
    {
      var x := VenueScore(ids1, agg1, p);
      var y := VenueScore(ids2, agg2, p);
      assert a[p] == w[p] + x + y;
      assert b[p] == w[p] + y + x;
    }
  }

  /** Two member passes add independent amounts, so their order does not
      matter. */
  lemma MemberPassesCommute(w: seq<real>, lists1: seq<seq<int>>, agg1: CategoryScores, lists2: seq<seq<int>>, agg2: CategoryScores)
    requires |lists1| == |w| && |lists2| == |w|
    requires forall p :: 0 <= p < |lists1| ==> InRange(lists1[p], |agg1.scores|)
    requires forall p :: 0 <= p < |lists2| ==> InRange(lists2[p], |agg2.scores|)
    ensures AddMemberScores(AddMemberScores(w, lists1, agg1), lists2, agg2)
         == AddMemberScores(AddMemberScores(w, lists2, agg2), lists1, agg1)
  {
    var a := AddMemberScores(AddMemberScores(w, lists1, agg1), lists2, agg2);
    var b := AddMemberScores(AddMemberScores(w, lists2, agg2), lists1, agg1);
    forall p | 0 <= p < |w|
      ensures a[p] == b[p]
    {
      var x := MemberScore(lists1[p], agg1);
      var y := MemberScore(lists2[p], agg2);
      assert a[p] == w[p] + x + y;
      assert b[p] == w[p] + y + x;
    }
  }

  /** Both venue aggregates read the same initial weights, so exchanging
      the roles of conferences and journals changes nothing. */
  lemma VenueStageIsSymmetric(conferences: seq<int>, journals: seq<int>, initial: seq<real>)
    requires |conferences| == |initial| && |journals| == |initial| && NonNegative(initial)
    ensures VenueStage(journals, conferences, initial) == VenueStage(conferences, journals, initial)
  {
    var conference := SingleValuedWeights(conferences, initial);
    var journal := SingleValuedWeights(journals, initial);
    VenuePassesCommute(initial, conferences, conference, journals, journal);
  }

  /** Both member aggregates read the same base weights, so exchanging the
      roles of authors and affiliations changes nothing. */
  lemma MemberStageIsSymmetric(authors: seq<seq<int>>, affiliations: seq<seq<int>>, base: seq<real>)
    requires |authors| == |base| && |affiliations| == |base| && NonNegative(base)
    requires ValidLists(authors) && ValidLists(affiliations)
    ensures MemberStage(affiliations, authors, base) == MemberStage(authors, affiliations, base)
  {
    var author := MultiValuedWeights(authors, base);
    var affiliation := MultiValuedWeights(affiliations, base);
    MemberPassesCommute(base, authors, author, affiliations, affiliation);
  }

  /** Papers with the same years and indegrees get the same initial
      weights. */
  lemma SameYearsSameInitialWeights(g: Graph, h: Graph)
    requires |g| == |h| && Years(g) == Years(h)
    requires forall p :: 0 <= p < |g| ==> |g[p].predecessors| == |h[p].predecessors|
    ensures InitialPaperWeights(g) == InitialPaperWeights(h)
  {
    assert CurrentYear(g) == CurrentYear(h);
    assert forall p :: 0 <= p < |g| ==> g[p].year == Years(g)[p];
  }

  /** Exchanging venues keeps the graph valid and exchanges the
      conference and journal columns, leaving the rest. */
  lemma SwapVenuesFields(g: Graph)
    requires ValidGraph(g)
    ensures ValidGraph(SwapVenues(g))
    ensures Conferences(SwapVenues(g)) == Journals(g)
    ensures Journals(SwapVenues(g)) == Conferences(g)
    ensures AuthorLists(SwapVenues(g)) == AuthorLists(g)
    ensures AffiliationLists(SwapVenues(g)) == AffiliationLists(g)
    ensures InitialPaperWeights(SwapVenues(g)) == InitialPaperWeights(g)
  {
    var h := SwapVenues(g);
    assert forall p :: 0 <= p < |g| ==> ValidPaper(h[p], |h|) by {
      assert forall p :: 0 <= p < |g| ==> ValidPaper(g[p], |g|);
    }
    assert Years(h) == Years(g);
    SameYearsSameInitialWeights(h, g);
  }

  /** Exchanging authors with affiliations keeps the graph valid and
      exchanges the two list columns, leaving the rest. */
  lemma SwapMembersFields(g: Graph)
    requires ValidGraph(g)
    ensures ValidGraph(SwapMembers(g))
    ensures Conferences(SwapMembers(g)) == Conferences(g)
    ensures Journals(SwapMembers(g)) == Journals(g)
    ensures AuthorLists(SwapMembers(g)) == AffiliationLists(g)
    ensures AffiliationLists(SwapMembers(g)) == AuthorLists(g)
    ensures InitialPaperWeights(SwapMembers(g)) == InitialPaperWeights(g)
  {
    var h := SwapMembers(g);
    assert forall p :: 0 <= p < |g| ==> ValidPaper(h[p], |h|) by {
      assert forall p :: 0 <= p < |g| ==> ValidPaper(g[p], |g|);
    }
    assert Years(h) == Years(g);
    SameYearsSameInitialWeights(h, g);
  }

  /** Turning every conference into a journal and every journal into a
      conference leaves all composite weights unchanged. */
  lemma VenuePassesAreSymmetric(g: Graph)
    requires ValidGraph(g)
    ensures ValidGraph(SwapVenues(g))
    ensures PaperWeights(SwapVenues(g)) == PaperWeights(g)
  {
    SwapVenuesFields(g);
    VenueStageIsSymmetric(Conferences(g), Journals(g), InitialPaperWeights(g));
  }

  /** Exchanging every paper's authors with its affiliations leaves all
      composite weights unchanged. */
  lemma MemberPassesAreSymmetric(g: Graph)
    requires ValidGraph(g)
    ensures ValidGraph(SwapMembers(g))
    ensures PaperWeights(SwapMembers(g)) == PaperWeights(g)
  {
    SwapMembersFields(g);
    ValidGraphLists(g);
    var base := VenueStage(Conferences(g), Journals(g), InitialPaperWeights(g));
    MemberStageIsSymmetric(AuthorLists(g), AffiliationLists(g), base);
  }

  /** The attributes the composite weight reads. */
  predicate SameAttributes(a: Paper, b: Paper) {
    && a.year == b.year
    && |a.predecessors| == |b.predecessors|
    && a.conference == b.conference
    && a.journal == b.journal
    && a.authors == b.authors
    && a.affiliations == b.affiliations
  }

  /** Two papers in the same venues with the same initial weight leave
      the venue stage with the same weight. */
  lemma VenueStageEqualAt(conferences: seq<int>, journals: seq<int>, initial: seq<real>, p: int, q: int)
    requires |conferences| == |initial| && |journals| == |initial| && NonNegative(initial)
    requires 0 <= p < |initial| && 0 <= q < |initial|
    requires conferences[p] == conferences[q] && journals[p] == journals[q] && initial[p] == initial[q]
    ensures VenueStage(conferences, journals, initial)[p] == VenueStage(conferences, journals, initial)[q]
  {
    var conference := SingleValuedWeights(conferences, initial);
    var journal := SingleValuedWeights(journals, initial);
    var afterConference := AddVenueScores(initial, conferences, conference);
    assert afterConference[p] == afterConference[q];
  }

  /** Two papers with the same member lists and the same base weight
      leave the member stage with the same weight. */
  lemma MemberStageEqualAt(authors: seq<seq<int>>, affiliations: seq<seq<int>>, base: seq<real>, p: int, q: int)
    requires |authors| == |base| && |affiliations| == |base| && NonNegative(base)
    requires ValidLists(authors) && ValidLists(affiliations)
    requires 0 <= p < |base| && 0 <= q < |base|
    requires authors[p] == authors[q] && affiliations[p] == affiliations[q] && base[p] == base[q]
    ensures MemberStage(authors, affiliations, base)[p] == MemberStage(authors, affiliations, base)[q]
  {
    var author := MultiValuedWeights(authors, base);
    var affiliation := MultiValuedWeights(affiliations, base);
    var afterAuthors := AddMemberScores(base, authors, author);
    assert afterAuthors[p] == afterAuthors[q];
  }

  /** Two papers with the same year, indegree, venues, authors and
      affiliations get the same composite weight. */
  lemma SameAttributesSameWeight(g: Graph, p: int, q: int)
    requires ValidGraph(g) && 0 <= p < |g| && 0 <= q < |g|
    requires SameAttributes(g[p], g[q])
    ensures PaperWeights(g)[p] == PaperWeights(g)[q]
  {
    var initial := InitialPaperWeights(g);
    assert initial[p] == initial[q];
    VenueStageEqualAt(Conferences(g), Journals(g), initial, p, q);
    ValidGraphLists(g);
    var base := VenueStage(Conferences(g), Journals(g), initial);
    MemberStageEqualAt(AuthorLists(g), AffiliationLists(g), base, p, q);
  }
}
