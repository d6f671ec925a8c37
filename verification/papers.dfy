/** The input records of the scoring engine: one `Paper` per node of the
    citation graph, addressed by its dense 0-based index. */
module Papers {
  import opened Vectors

  /** A paper as the engine reads it. `conference` and `journal` are
      category ids, negative meaning "not published there"; `authors` and
      `affiliations` are lists of category ids, possibly with repeats.
      Only the length of `predecessors` (the indegree) is ever used. */
  datatype Paper = Paper(
    successors: seq<int>,
    predecessors: seq<int>,
    authors: seq<int>,
    affiliations: seq<int>,
    year: int,
    conference: int,
    journal: int)

  type Graph = seq<Paper>

  predicate NonNegativeIds(ids: seq<int>) {
    forall j :: 0 <= j < |ids| ==> 0 <= ids[j]
  }

  /** Every listed member id is non-negative. */
  predicate ValidLists(lists: seq<seq<int>>) {
    forall p :: 0 <= p < |lists| ==> NonNegativeIds(lists[p])
  }

  /** What the engine relies on without checking it: every cited paper
      exists, and author and affiliation ids are never negative (they
      index the per-category accumulators directly). */
  predicate ValidPaper(paper: Paper, paperCount: int) {
    && InRange(paper.successors, paperCount)
    && NonNegativeIds(paper.authors)
    && NonNegativeIds(paper.affiliations)
  }

  predicate ValidGraph(g: Graph) {
    forall p :: 0 <= p < |g| ==> ValidPaper(g[p], |g|)
  }

  function Years(g: Graph): seq<int> {
    seq(|g|, p requires 0 <= p < |g| => g[p].year)
  }

  function Conferences(g: Graph): seq<int> {
    seq(|g|, p requires 0 <= p < |g| => g[p].conference)
  }

  function Journals(g: Graph): seq<int> {
    seq(|g|, p requires 0 <= p < |g| => g[p].journal)
  }

  function AuthorLists(g: Graph): seq<seq<int>> {
    seq(|g|, p requires 0 <= p < |g| => g[p].authors)
  }

  function AffiliationLists(g: Graph): seq<seq<int>> {
    seq(|g|, p requires 0 <= p < |g| => g[p].affiliations)
  }
}
