/** The regional strategy's geometry (align_thread.hpp:84-153): first-pass
    matches of one allele are clustered into buffered windows, sparse
    windows are drained into a catch-all, every allele of the gene is cut
    to each window, and the second-pass coordinates are shifted back.

    `Region` is declared in types.hpp, which is not part of this model. It
    is rebuilt here from its uses: a constructor taking start, end and
    buffer with an empty read set, `add_read`, `merge`, and an `==` that
    holds when the two regions overlap (align_thread.hpp:98). Two readings
    are assumptions of the model: `merge` unites the read sets and takes
    the enclosing span (the catch-all's initial span [INT_MAX, 0) at
    align_thread.hpp:106 only makes sense under min/max), and "overlap"
    means that the intervals widened by the buffer on both sides
    intersect. */
module Regions {
  import opened Results
  import opened Text
  import opened Types
  import opened Kir

  /** A window [start, end), its buffer radius and the reads assigned to
      it. The code cuts alleles to the window, so it is meant as a window on
      the allele; what it is built from is described at `Candidate`. */
  datatype Region = Region(start: int, end: int, buffer: int, readIds: set<int>)

  /** The clustering `==`: the buffer-widened intervals intersect. */
  predicate Overlaps(a: Region, b: Region)
  {
    a.start - a.buffer < b.end + b.buffer && b.start - b.buffer < a.end + a.buffer
  }

  /** `into.merge(other)`: union of the reads, enclosing span, and the
      buffer of the region merged into. */
  function Merge(into: Region, other: Region): (m: Region)
    ensures m.readIds == into.readIds + other.readIds
    ensures m.start <= into.start && m.start <= other.start && (m.start == into.start || m.start == other.start)
    ensures m.end >= into.end && m.end >= other.end && (m.end == into.end || m.end == other.end)
    ensures m.buffer == into.buffer
  {
    Region(Min(into.start, other.start), Max(into.end, other.end), into.buffer, into.readIds + other.readIds)
  }

  /** The candidate built for one first-pass match (align_thread.hpp:93-96):
      the window [query_start, query_end), holding the match's read and,
      with `incPair`, the read's mate. kir.hpp:123 fills `query_start` and
      `query_end` from the kernel's `qs`/`qe`, which are offsets on the
      read; the offsets on the allele are `rs`/`re`, stored as `read_start`
      and `read_end` (see `WindowOffAllele` and `AlleleCandidate`). */
  function Candidate(rec: ReadAlignment, buffer: int, incPair: bool): (c: Region)
    ensures c.start == rec.queryStart && c.end == rec.queryEnd && c.buffer == buffer
    ensures forall id :: id in c.readIds <==> id == rec.readId || (incPair && id == PairId(rec.readId))
  {
    Region(rec.queryStart, rec.queryEnd, buffer, {rec.readId} + (if incPair then {PairId(rec.readId)} else {}))
  }

  /** The union of the read sets of a list of regions. */
  function ReadsOf(rs: seq<Region>): set<int>
  {
    if rs == [] then {} else rs[0].readIds + ReadsOf(rs[1..])
  }

  lemma {:induction false} ReadsOfAppend(a: seq<Region>, b: seq<Region>)
    ensures ReadsOf(a + b) == ReadsOf(a) + ReadsOf(b)
  {
    if a == [] {
      assert a + b == b;
    } else {
      assert (a + b)[1..] == a[1..] + b;
      ReadsOfAppend(a[1..], b);
    }
  }

  /** Replacing one region changes the union only by that region's reads. */
  lemma {:induction false} ReadsOfUpdate(rs: seq<Region>, i: nat, r: Region)
    requires i < |rs| && rs[i].readIds <= r.readIds
    ensures ReadsOf(rs[i := r]) == ReadsOf(rs) + r.readIds
  {
    if i == 0 {
      assert rs[i := r][1..] == rs[1..];
    } else {
      assert rs[i := r][1..] == rs[1..][i - 1 := r];
      ReadsOfUpdate(rs[1..], i - 1, r);
    }
  }

  // ---------------------------------------------------------------------
  // Clustering fold (align_thread.hpp:91-103)
  // ---------------------------------------------------------------------

  /** `std::find` with the overlap `==`: the index of the first region that
      overlaps `c`, if any. */
  function FirstOverlap(rs: seq<Region>, c: Region): (r: Option<nat>)
    ensures r.Some? ==> r.value < |rs| && Overlaps(rs[r.value], c)
    ensures r.Some? ==> forall j :: 0 <= j < r.value ==> !Overlaps(rs[j], c)
    ensures r.None? <==> forall j :: 0 <= j < |rs| ==> !Overlaps(rs[j], c)
  {
    if rs == [] then None
    else if Overlaps(rs[0], c) then Some(0)
    else match FirstOverlap(rs[1..], c)
      case None => None
      case Some(i) => Some(i + 1)
  }

  /** One step of the fold: merge into the first overlapping region, or
      append the candidate as a new region. */
  function Step(rs: seq<Region>, c: Region): seq<Region>
  {
    match FirstOverlap(rs, c)
    case None => rs + [c]
    case Some(i) => rs[i := Merge(rs[i], c)]
  }

  /** The regions of one allele's first-pass matches, folding the matches
      left to right. */
  function Cluster(hits: seq<ReadAlignment>, buffer: int, incPair: bool): (rs: seq<Region>)
    ensures forall i :: 0 <= i < |rs| ==> rs[i].buffer == buffer
  {
    if hits == [] then []
    else Step(Cluster(hits[..|hits| - 1], buffer, incPair), Candidate(hits[|hits| - 1], buffer, incPair))
  }

  /** A step adds exactly the candidate's reads to the union, and either
      keeps the number of regions (a merge) or adds one (an append). */
  lemma StepReads(rs: seq<Region>, c: Region)
    ensures ReadsOf(Step(rs, c)) == ReadsOf(rs) + c.readIds
    ensures |Step(rs, c)| == |rs| || |Step(rs, c)| == |rs| + 1
    ensures |Step(rs, c)| == |rs| + 1 <==> forall j :: 0 <= j < |rs| ==> !Overlaps(rs[j], c)
  {
    match FirstOverlap(rs, c)
    case None =>
      ReadsOfAppend(rs, [c]);
      assert ReadsOf([c]) == c.readIds by {
        assert [c][1..] == [];
      }
    case Some(i) =>
      ReadsOfUpdate(rs, i, Merge(rs[i], c));
      assert rs[i].readIds <= ReadsOf(rs) by {
        ReadsOfUpdate(rs, i, rs[i]);
        assert rs[i := rs[i]] == rs;
      }
  }

  /** Region merging preserves read sets: the regions of an allele hold
      exactly the matches' reads and, with `incPair`, their mates; there
      are never more regions than matches, and never fewer than one when
      there is a match. */
  lemma {:induction false} ClusterReads(hits: seq<ReadAlignment>, buffer: int, incPair: bool)
    ensures ReadsOf(Cluster(hits, buffer, incPair)) == HitIds(hits, incPair)
    ensures |Cluster(hits, buffer, incPair)| <= |hits|
    ensures hits != [] ==> |Cluster(hits, buffer, incPair)| >= 1
  {
    if hits != [] {
      var init := hits[..|hits| - 1];
      var last := hits[|hits| - 1];
      var c := Candidate(last, buffer, incPair);
      var before := Cluster(init, buffer, incPair);
      assert Cluster(hits, buffer, incPair) == Step(before, c);
      HitIdsLast(hits, buffer, incPair);
      hide Cluster, Step, FirstOverlap, Candidate, HitIds;
      ClusterReads(init, buffer, incPair);
      StepReads(before, c);
    }
  }

  /** The last match adds the reads of its candidate. */
  lemma HitIdsLast(hits: seq<ReadAlignment>, buffer: int, incPair: bool)
    requires hits != []
    ensures HitIds(hits, incPair)
      == HitIds(hits[..|hits| - 1], incPair) + Candidate(hits[|hits| - 1], buffer, incPair).readIds
  {
    var init := hits[..|hits| - 1];
    assert forall h :: h in hits <==> h in init || h == hits[|hits| - 1] by {
      assert hits == init + [hits[|hits| - 1]];
    }
  }

  /** Region `r` spans the window of `c` and holds its reads. */
  predicate Encloses(r: Region, c: Region)
  {
    r.start <= c.start && c.end <= r.end && c.readIds <= r.readIds && r.buffer == c.buffer
  }

  /** No match is clipped: every match's window and reads lie inside one
      of the regions built from it. */
  lemma {:induction false} ClusterEncloses(hits: seq<ReadAlignment>, buffer: int, incPair: bool, k: nat)
    requires k < |hits|
    ensures exists i :: (0 <= i < |Cluster(hits, buffer, incPair)|
      && Encloses(Cluster(hits, buffer, incPair)[i], Candidate(hits[k], buffer, incPair)))
  {
    var init := hits[..|hits| - 1];
    var c := Candidate(hits[|hits| - 1], buffer, incPair);
    var before := Cluster(init, buffer, incPair);
    var after := Cluster(hits, buffer, incPair);
    assert after == Step(before, c);
    var target := Candidate(hits[k], buffer, incPair);
    if k == |hits| - 1 {
      match FirstOverlap(before, c)
      case None =>
        assert Encloses(after[|before|], target);
      case Some(i) =>
        assert Encloses(after[i], target);
    } else {
      ClusterEncloses(init, buffer, incPair, k);
      assert init[k] == hits[k];
      var i :| 0 <= i < |before| && Encloses(before[i], target);
      StepEncloses(before, c, i);
      assert Encloses(after[i], target);
    }
  }

  /** A step only widens the regions it keeps. */
  lemma StepEncloses(rs: seq<Region>, c: Region, i: nat)
    requires i < |rs|
    ensures i < |Step(rs, c)| && Encloses(Step(rs, c)[i], rs[i])
  {
  }

  /** The matches' windows form a chain: each one overlaps the next. */
  predicate Chained(hits: seq<ReadAlignment>, buffer: int)
  {
    forall k :: 0 <= k < |hits| - 1 ==>
      Overlaps(Candidate(hits[k], buffer, false), Candidate(hits[k + 1], buffer, false))
  }

  /** A chain of overlapping matches, visited in chain order, ends up in a
      single region that encloses the last of them. */
  lemma {:induction false} ChainOneRegion(hits: seq<ReadAlignment>, buffer: int, incPair: bool)
    requires hits != [] && Chained(hits, buffer)
    ensures |Cluster(hits, buffer, incPair)| == 1
    ensures Encloses(Cluster(hits, buffer, incPair)[0], Candidate(hits[|hits| - 1], buffer, incPair))
  {
    var init := hits[..|hits| - 1];
    var c := Candidate(hits[|hits| - 1], buffer, incPair);
    if init != [] {
      assert Chained(init, buffer) by {
        forall k | 0 <= k < |init| - 1
          ensures Overlaps(Candidate(init[k], buffer, false), Candidate(init[k + 1], buffer, false))
        {
          assert init[k] == hits[k] && init[k + 1] == hits[k + 1];
        }
      }
      ChainOneRegion(init, buffer, incPair);
      var r := Cluster(init, buffer, incPair)[0];
      var prev := Candidate(init[|init| - 1], buffer, incPair);
      assert init[|init| - 1] == hits[|hits| - 2];
      assert Overlaps(Candidate(hits[|hits| - 2], buffer, false), Candidate(hits[|hits| - 1], buffer, false));
      assert Overlaps(r, c);
    }
  }

  const ChainA := ReadAlignment(0, "G", "A", false, 0, 0, 10, 0, 10, "10M")
  const ChainB := ReadAlignment(1, "G", "A", false, 0, 0, 10, 150, 160, "10M")
  const ChainC := ReadAlignment(2, "G", "A", false, 0, 0, 10, 300, 310, "10M")

  /** Overlap does not carry over to the fold as an equivalence: with a
      buffer of 100, A overlaps B and B overlaps C but A does not overlap
      C. Visited in the order A, C, B, the match B is merged into A's
      region only, and the reads of A and C stay in different regions. */
  lemma ClusterNotTransitive()
    ensures Overlaps(Candidate(ChainA, 100, false), Candidate(ChainB, 100, false))
    ensures Overlaps(Candidate(ChainB, 100, false), Candidate(ChainC, 100, false))
    ensures !Overlaps(Candidate(ChainA, 100, false), Candidate(ChainC, 100, false))
    ensures Cluster([ChainA, ChainC, ChainB], 100, false)
      == [Region(0, 160, 100, {0, 1}), Region(300, 310, 100, {2})]
  {
    var a := Candidate(ChainA, 100, false);
    var b := Candidate(ChainB, 100, false);
    var c := Candidate(ChainC, 100, false);
    var hits := [ChainA, ChainC, ChainB];
    assert hits[..2] == [ChainA, ChainC] && hits[..2][..1] == [ChainA] && hits[..2][..1][..0] == [];
    assert Cluster([], 100, false) == [];
    assert FirstOverlap([], a) == None;
    assert Cluster([ChainA], 100, false) == [a];
    assert FirstOverlap([a], c) == None;
    assert Cluster([ChainA, ChainC], 100, false) == [a, c];
    assert FirstOverlap([a, c], b) == Some(0);
    assert Merge(a, b) == Region(0, 160, 100, {0, 1});
    assert Step([a, c], b) == [Region(0, 160, 100, {0, 1}), c];
    assert Cluster(hits, 100, false) == Step(Cluster([ChainA, ChainC], 100, false), b);
    assert c == Region(300, 310, 100, {2});
  }

  // ---------------------------------------------------------------------
  // Draining sparse regions (align_thread.hpp:105-117)
  // ---------------------------------------------------------------------

  /** Regions with fewer reads than this are drained into the catch-all. */
  const MinReadsPerRegion: nat := 3

  predicate Sparse(r: Region)
  {
    |r.readIds| < MinReadsPerRegion
  }

  /** The catch-all before anything is merged into it: the empty span
      [INT_MAX, 0). */
  function CatchAllSeed(buffer: int): Region
  {
    Region(IntMax, 0, buffer, {})
  }

  /** Reference definition: the regions that are not sparse, in order. */
  function Dense(rs: seq<Region>): seq<Region>
  {
    if rs == [] then [] else (if Sparse(rs[0]) then [] else [rs[0]]) + Dense(rs[1..])
  }

  /** Reference definition: the reads of the sparse regions. */
  function SparseReads(rs: seq<Region>): set<int>
  {
    if rs == [] then {} else (if Sparse(rs[0]) then rs[0].readIds else {}) + SparseReads(rs[1..])
  }

  /** The erase loop: walks the regions once, merging each sparse one into
      `common` and keeping the others in their order. */
  function Drain(rs: seq<Region>, common: Region): (out: (seq<Region>, Region))
    ensures forall i :: 0 <= i < |out.0| ==> !Sparse(out.0[i])
    ensures out.1.buffer == common.buffer
    ensures out.1.start <= common.start && out.1.end >= common.end
    ensures forall j :: 0 <= j < |rs| && Sparse(rs[j]) ==>
      out.1.start <= rs[j].start && rs[j].end <= out.1.end
  {
    if rs == [] then ([], common)
    else if Sparse(rs[0]) then Drain(rs[1..], Merge(common, rs[0]))
    else
      var rest := Drain(rs[1..], common);
      ([rs[0]] + rest.0, rest.1)
  }

  /** Draining keeps the dense regions in order and gathers exactly the
      sparse regions' reads; with no sparse region the catch-all is left as
      it was. */
  lemma {:induction false} DrainSpec(rs: seq<Region>, common: Region)
    ensures Drain(rs, common).0 == Dense(rs)
    ensures Drain(rs, common).1.readIds == common.readIds + SparseReads(rs)
    ensures (forall j :: 0 <= j < |rs| ==> !Sparse(rs[j])) ==> Drain(rs, common) == (rs, common)
  {
    if rs != [] {
      if Sparse(rs[0]) {
        DrainSpec(rs[1..], Merge(common, rs[0]));
      } else {
        DrainSpec(rs[1..], common);
        assert [rs[0]] + rs[1..] == rs;
      }
    }
  }

  /** Every read lies in a dense region or a sparse one. */
  lemma {:induction false} DenseSparseReads(rs: seq<Region>)
    ensures ReadsOf(Dense(rs)) + SparseReads(rs) == ReadsOf(rs)
  {
    if rs != [] {
      var head := if Sparse(rs[0]) then [] else [rs[0]];
      assert ReadsOf(head) == if Sparse(rs[0]) then {} else rs[0].readIds by {
        assert [rs[0]][1..] == [];
      }
      assert Dense(rs) == head + Dense(rs[1..]);
      assert ReadsOf(rs) == rs[0].readIds + ReadsOf(rs[1..]);
      hide ReadsOf, Dense, SparseReads;
      DenseSparseReads(rs[1..]);
      ReadsOfAppend(head, Dense(rs[1..]));
    }
  }

  /** The filtered list: the dense regions in order, then the catch-all. */
  function Filter(rs: seq<Region>, buffer: int): (out: seq<Region>)
    ensures |out| >= 1
  {
    var drained := Drain(rs, CatchAllSeed(buffer));
    drained.0 + [drained.1]
  }

  /** After filtering, every region except the last holds at least three
      reads, the last is the catch-all holding exactly the drained regions'
      reads and spanning their windows, and no read is lost or added. */
  lemma FilterSpec(rs: seq<Region>, buffer: int)
    ensures var out := Filter(rs, buffer);
      out[..|out| - 1] == Dense(rs)
      && (forall i :: 0 <= i < |out| - 1 ==> |out[i].readIds| >= MinReadsPerRegion)
      && out[|out| - 1].readIds == SparseReads(rs)
      && (forall j :: 0 <= j < |rs| && Sparse(rs[j]) ==>
            out[|out| - 1].start <= rs[j].start && rs[j].end <= out[|out| - 1].end)
      && ReadsOf(out) == ReadsOf(rs)
  {
    var drained := Drain(rs, CatchAllSeed(buffer));
    var out := Filter(rs, buffer);
    DrainSpec(rs, CatchAllSeed(buffer));
    DenseSparseReads(rs);
    assert out[..|out| - 1] == drained.0;
    ReadsOfAppend(drained.0, [drained.1]);
    assert ReadsOf([drained.1]) == drained.1.readIds by {
      assert [drained.1][1..] == [];
    }
  }

  /** The regions an allele's first-pass matches produce. */
  function AlleleRegions(hits: seq<ReadAlignment>, buffer: int, incPair: bool): seq<Region>
  {
    Filter(Cluster(hits, buffer, incPair), buffer)
  }

  /** The regions of an allele together hold the reads of its matches and
      their mates. */
  lemma AlleleRegionsReads(hits: seq<ReadAlignment>, buffer: int, incPair: bool)
    ensures ReadsOf(AlleleRegions(hits, buffer, incPair)) == HitIds(hits, incPair)
  {
    ClusterReads(hits, buffer, incPair);
    FilterSpec(Cluster(hits, buffer, incPair), buffer);
  }

  /** `readOrder` is an iteration order of the read map: it lists exactly
      the map's ids. */
  predicate IterationOrder(readOrder: seq<int>, readMap: map<int, string>)
  {
    (set i | i in readOrder) == readMap.Keys
  }

  /** The buffer, taken from the first read in the read map's iteration
      order (align_thread.hpp:88): 100 times that read's length.
      Dereferencing `begin()` of an empty map is undefined, which is `None`
      here. */
  function RegionBuffer(readOrder: seq<int>, readMap: map<int, string>): (b: Option<int>)
    requires IterationOrder(readOrder, readMap)
    ensures b.None? <==> readMap == map[]
    ensures b.Some? ==> (readOrder != [] && readOrder[0] in readMap
      && b.value == |readMap[readOrder[0]]| * 100 && b.value >= 0)
  {
    if readOrder == [] then
      assert readMap.Keys == {};
      None
    else
      assert readOrder[0] in set i | i in readOrder;
      Some(|readMap[readOrder[0]]| * 100)
  }

  // ---------------------------------------------------------------------
  // Trimming and remapping (align_thread.hpp:135, 149-150)
  // ---------------------------------------------------------------------

  /** `allele.substr(min(start, size - 1), end - start)`. The position is
      converted to `size_t`: a negative one (an empty allele, or a negative
      start) becomes huge and `substr` throws `out_of_range`, which is
      `None`. A negative count also becomes huge and takes the rest of the
      allele. */
  function Trim(allele: string, start: int, end: int): (t: Option<string>)
    ensures t.None? <==> Min(start, |allele| - 1) < 0
    ensures t.Some? ==> var p := Min(start, |allele| - 1);
      p + |t.value| <= |allele| && t.value == allele[p..p + |t.value|]
      && |t.value| == (if end < start then |allele| - p else Min(end - start, |allele| - p))
  {
    var p := Min(start, |allele| - 1);
    if p < 0 then None
    else if end < start then Some(allele[p..])
    else Some(allele[p..Min(p + (end - start), |allele|)])
  }

  /** The translation of a second-pass match back to the full allele of
      length `alleleLen` (align_thread.hpp:149-150): `query_start` and
      `query_end` are shifted by the region start and the end is clamped to
      the allele; nothing else changes. As at `Candidate`, these fields hold
      offsets on the read, so the code shifts read offsets by an allele
      offset (see `AlleleRemap` for the allele offsets). */
  function Remap(rec: ReadAlignment, start: int, alleleLen: int): (r: ReadAlignment)
    ensures r.queryStart == rec.queryStart + start
    ensures r.queryEnd <= alleleLen
    ensures r.queryEnd == rec.queryEnd + start || r.queryEnd == alleleLen
    ensures r.(queryStart := rec.queryStart, queryEnd := rec.queryEnd) == rec
  {
    rec.(queryStart := rec.queryStart + start, queryEnd := Min(rec.queryEnd + start, alleleLen))
  }

  /** The arithmetic of the remap: when the region starts inside the
      allele, a window [s, e) of the trimmed sequence held in
      `query_start`/`query_end` is shifted to a window of the full allele
      that holds the same bases, with s <= e <= L afterwards. The code
      applies this to the read offsets `qs`/`qe`, for which only the bounds
      carry meaning; `AlleleRemapRoundTrip` states it for the allele
      offsets. */
  lemma RemapRoundTrip(allele: string, start: int, end: int, rec: ReadAlignment)
    requires 0 <= start < |allele|
    requires Trim(allele, start, end).Some?
    requires 0 <= rec.queryStart <= rec.queryEnd <= |Trim(allele, start, end).value|
    ensures var t := Trim(allele, start, end).value;
      var r := Remap(rec, start, |allele|);
      0 <= r.queryStart <= r.queryEnd <= |allele|
      && r.queryEnd == rec.queryEnd + start
      && allele[r.queryStart..r.queryEnd] == t[rec.queryStart..rec.queryEnd]
  {
    var t := Trim(allele, start, end).value;
    var r := Remap(rec, start, |allele|);
    assert t == allele[start..start + |t|];
    assert r.queryEnd == rec.queryEnd + start;
    assert t[rec.queryStart..rec.queryEnd] == allele[start + rec.queryStart..start + rec.queryEnd] by {
      forall k | 0 <= k < rec.queryEnd - rec.queryStart
        ensures t[rec.queryStart..rec.queryEnd][k] == allele[start + rec.queryStart..start + rec.queryEnd][k]
      {
        assert t[rec.queryStart + k] == allele[start + rec.queryStart + k];
      }
    }
  }

  /** When the region starts at or past the end of a (shorter) allele of
      the gene, the trim position is clamped to the allele's last base but
      the remap still adds the unclamped start: the single trimmed base,
      matched at [0, 1), is mapped to the window [20, 10), whose start lies
      after its end. */
  lemma RemapPastEnd()
    ensures Trim("ACGTACGTAC", 20, 30) == Some("C")
    ensures var r := Remap(ReadAlignment(0, "G", "A", false, 0, 0, 1, 0, 1, "1M"), 20, 10);
      r.queryStart == 20 && r.queryEnd == 10 && r.queryStart > r.queryEnd
  {
    assert "ACGTACGTAC"[9..10] == "C";
  }

  // ---------------------------------------------------------------------
  // Allele offsets: the window the regional strategy evidently intends
  // ---------------------------------------------------------------------

  /** The first-pass match of a read "CCCC" against the allele "AAAACCCCGG":
      the read is covered from offset 0 to 4 (`qs`/`qe`), the allele from
      offset 4 to 8 (`rs`/`re`). */
  const OffsetHit := ReadAlignment(0, "G", "A", false, 0, 4, 8, 0, 4, "4M")

  /** As written, the candidate window is the read offsets [0, 4), so the
      allele is cut to "AAAA" and the matched bases "CCCC" are no longer in
      the cut allele the second pass aligns against. */
  lemma WindowOffAllele()
    ensures var c := Candidate(OffsetHit, 400, false);
      c.start == 0 && c.end == 4
      && Trim("AAAACCCCGG", c.start, c.end) == Some("AAAA")
      && "AAAACCCCGG"[OffsetHit.readStart..OffsetHit.readEnd] == "CCCC"
  {
    assert "AAAACCCCGG"[0..4] == "AAAA";
    assert "AAAACCCCGG"[4..8] == "CCCC";
  }

  /** The evidently intended candidate: the match's window on the allele,
      [read_start, read_end), which kir.hpp:123 fills from `rs`/`re`. */
  function AlleleCandidate(rec: ReadAlignment, buffer: int, incPair: bool): (c: Region)
    ensures c.start == rec.readStart && c.end == rec.readEnd && c.buffer == buffer
    ensures c.readIds == Candidate(rec, buffer, incPair).readIds
  {
    Region(rec.readStart, rec.readEnd, buffer, {rec.readId} + (if incPair then {PairId(rec.readId)} else {}))
  }

  /** A region that encloses an allele window starting inside the allele
      keeps that window's bases when the allele is cut to it: the bases of
      [from, to) are found at offset `from - r.start` of the cut allele. So
      every region the fold builds from `AlleleCandidate` windows keeps the
      first-pass matches' bases. */
  lemma TrimHolds(allele: string, r: Region, from: int, to: int)
    requires 0 <= r.start <= from <= to <= r.end && to <= |allele| && r.start < |allele|
    ensures Trim(allele, r.start, r.end).Some?
    ensures var t := Trim(allele, r.start, r.end).value;
      to - r.start <= |t| && t[from - r.start..to - r.start] == allele[from..to]
  {
    var t := Trim(allele, r.start, r.end).value;
    assert t == allele[r.start..r.start + |t|];
    assert t[from - r.start..to - r.start] == allele[from..to] by {
      forall k | 0 <= k < to - from
        ensures t[from - r.start..to - r.start][k] == allele[from..to][k]
      {
        assert t[from - r.start + k] == allele[from + k];
      }
    }
  }

  /** `AlleleCandidate` encloses the match's allele window, so by
      `TrimHolds` the cut allele keeps the matched bases. */
  lemma AlleleCandidateHolds(allele: string, rec: ReadAlignment, buffer: int, incPair: bool)
    requires 0 <= rec.readStart <= rec.readEnd <= |allele| && rec.readStart < |allele|
    ensures var c := AlleleCandidate(rec, buffer, incPair);
      Trim(allele, c.start, c.end) == Some(allele[rec.readStart..rec.readEnd])
  {
    var c := AlleleCandidate(rec, buffer, incPair);
    TrimHolds(allele, c, rec.readStart, rec.readEnd);
  }

  /** The evidently intended remap: the allele offsets of a second-pass
      match against the cut allele, `read_start`/`read_end`, are shifted by
      the region start and the end clamped to the allele. */
  function AlleleRemap(rec: ReadAlignment, start: int, alleleLen: int): (r: ReadAlignment)
    ensures r.readStart == rec.readStart + start
    ensures r.readEnd <= alleleLen
    ensures r.readEnd == rec.readEnd + start || r.readEnd == alleleLen
    ensures r.(readStart := rec.readStart, readEnd := rec.readEnd) == rec
  {
    rec.(readStart := rec.readStart + start, readEnd := Min(rec.readEnd + start, alleleLen))
  }

  /** With allele offsets the round trip is about the matched bases: a match
      at [rs, re) of the cut allele is remapped to a window of the full
      allele holding the same bases, with rs' <= re' <= L. */
  lemma AlleleRemapRoundTrip(allele: string, start: int, end: int, rec: ReadAlignment)
    requires 0 <= start < |allele|
    requires Trim(allele, start, end).Some?
    requires 0 <= rec.readStart <= rec.readEnd <= |Trim(allele, start, end).value|
    ensures var t := Trim(allele, start, end).value;
      var r := AlleleRemap(rec, start, |allele|);
      0 <= r.readStart <= r.readEnd <= |allele|
      && r.readEnd == rec.readEnd + start
      && allele[r.readStart..r.readEnd] == t[rec.readStart..rec.readEnd]
  {
    var t := Trim(allele, start, end).value;
    var r := AlleleRemap(rec, start, |allele|);
    assert t == allele[start..start + |t|];
    assert t[rec.readStart..rec.readEnd] == allele[start + rec.readStart..start + rec.readEnd] by {
      forall k | 0 <= k < rec.readEnd - rec.readStart
        ensures t[rec.readStart..rec.readEnd][k] == allele[start + rec.readStart..start + rec.readEnd][k]
      {
        assert t[rec.readStart + k] == allele[start + rec.readStart + k];
      }
    }
  }
}
