/** The category counters and the current-year scan: each is a single
    left-to-right max-scan with an `isFirst` flag that returns the
    largest value seen plus one. */
module CategoryCount {
  import opened Papers

  /** State of a max-scan: `isFirst` holds until a value has been taken. */
  datatype Scan = Scan(isFirst: bool, best: int)

  /** One comparison `isFirst || best < x` of a scan. */
  function Take(s: Scan, x: int): (r: Scan)
    ensures !r.isFirst && x <= r.best
    ensures !s.isFirst ==> s.best <= r.best
    ensures r.best == x || (!s.isFirst && r.best == s.best)
  {
    if s.isFirst || s.best < x then Scan(false, x) else s
  }

  /** The single-valued scans pass over negative (absent) ids; the
      multi-valued and year scans compare every value. */
  predicate Skips(skipAbsent: bool, x: int) {
    skipAbsent && x < 0
  }

  /** The scan continued from `s` over `xs`, left to right. */
  function ScanFrom(s: Scan, xs: seq<int>, skipAbsent: bool): (r: Scan)
    ensures r.isFirst <==> s.isFirst && forall i :: 0 <= i < |xs| ==> Skips(skipAbsent, xs[i])
    ensures r.isFirst ==> r == s
    ensures !s.isFirst ==> s.best <= r.best
    ensures forall i :: 0 <= i < |xs| && !Skips(skipAbsent, xs[i]) ==> xs[i] <= r.best
    ensures !r.isFirst ==>
      (!s.isFirst && r.best == s.best) ||
      exists i :: 0 <= i < |xs| && !Skips(skipAbsent, xs[i]) && xs[i] == r.best
    decreases |xs|
  {
    if |xs| == 0 then s
    else
      var next := if Skips(skipAbsent, xs[0]) then s else Take(s, xs[0]);
      var r := ScanFrom(next, xs[1..], skipAbsent);
      assert forall i :: 0 <= i < |xs[1..]| ==> xs[1..][i] == xs[i + 1];
      r
  }

  /** The scan continued from `s` over every entry of every list, list by
      list. */
  function ScanLists(s: Scan, ls: seq<seq<int>>): (r: Scan)
    ensures r.isFirst <==> s.isFirst && forall p :: 0 <= p < |ls| ==> |ls[p]| == 0
    ensures r.isFirst ==> r == s
    ensures !s.isFirst ==> s.best <= r.best
    ensures forall p, j :: 0 <= p < |ls| && 0 <= j < |ls[p]| ==> ls[p][j] <= r.best
    ensures !r.isFirst ==>
      (!s.isFirst && r.best == s.best) ||
      exists p, j :: 0 <= p < |ls| && 0 <= j < |ls[p]| && ls[p][j] == r.best
    decreases |ls|
  {
    if |ls| == 0 then s
    else
      var r := ScanLists(ScanFrom(s, ls[0], false), ls[1..]);
      assert forall p :: 0 <= p < |ls[1..]| ==> ls[1..][p] == ls[p + 1];
      r
  }

  /** Number of categories of a single-valued field (conference or
      journal): the largest non-negative id plus one, or 0 when no paper
      has one. Every id in use is then a valid accumulator index. */
  function SingleValuedCount(ids: seq<int>): (count: int)
    ensures 0 <= count
    ensures forall p :: 0 <= p < |ids| && 0 <= ids[p] ==> ids[p] < count
    ensures count == 0 <==> forall p :: 0 <= p < |ids| ==> ids[p] < 0
    ensures 0 < count ==> exists p :: 0 <= p < |ids| && ids[p] == count - 1
  {
    ScanFrom(Scan(true, -1), ids, true).best + 1
  }

  /** Number of categories of a multi-valued field (authors or
      affiliations): the largest listed id plus one, or 0 when every list
      is empty. Negative ids are not skipped here. */
  function MultiValuedCount(lists: seq<seq<int>>): (count: int)
    ensures forall p, j :: 0 <= p < |lists| && 0 <= j < |lists[p]| ==> lists[p][j] < count
    ensures (forall p :: 0 <= p < |lists| ==> |lists[p]| == 0) ==> count == 0
    ensures (exists p :: 0 <= p < |lists| && 0 < |lists[p]|) ==>
      exists p, j :: 0 <= p < |lists| && 0 <= j < |lists[p]| && lists[p][j] == count - 1
    ensures (forall p :: 0 <= p < |lists| ==> NonNegativeIds(lists[p])) ==> 0 <= count
  {
    var r := ScanLists(Scan(true, -1), lists);
    assert !r.isFirst && (forall p :: 0 <= p < |lists| ==> NonNegativeIds(lists[p])) ==> 0 <= r.best;
    r.best + 1
  }

  /** One more than the latest publication year, or 1 for an empty graph,
      so that every paper's age `CurrentYear(g) - year` is at least 1. */
  function CurrentYear(g: Graph): (year: int)
    ensures forall p :: 0 <= p < |g| ==> g[p].year < year
    ensures |g| == 0 ==> year == 1
    ensures 0 < |g| ==> exists p :: 0 <= p < |g| && g[p].year == year - 1
  {
    var years := Years(g);
    var r := ScanFrom(Scan(true, 0), years, false);
    assert forall p :: 0 <= p < |g| ==> years[p] == g[p].year;
    r.best + 1
  }
}
