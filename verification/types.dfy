/** The records the aligner produces and the shared result store they are
    merged into. */
module Types {

  /** One match of a read against an allele. The field order is that of the
      aggregate initialiser in kir.hpp:123 and of the flat record written by
      main.cpp:181. */
  datatype ReadAlignment = ReadAlignment(
    readId: int,
    kirId: string,
    alleleId: string,
    reversed: bool,
    cost: int,
    readStart: int,
    readEnd: int,
    queryStart: int,
    queryEnd: int,
    cigar: string)

  /** Allele name to the matches found against it. */
  type AlleleHits = map<string, seq<ReadAlignment>>

  /** Gene name to allele name to matches: `all_alignments`, the first-pass
      results and every aligner result share this shape. */
  type Store = map<string, AlleleHits>

  /** `m[a]` read through `operator[]`: a missing allele reads as empty. */
  function AlleleList(m: AlleleHits, allele: string): seq<ReadAlignment>
  {
    if allele in m then m[allele] else []
  }

  /** `store[gene]` read through `operator[]`. */
  function GeneHits(store: Store, gene: string): AlleleHits
  {
    if gene in store then store[gene] else map[]
  }

  /** The matches stored for one gene and allele. */
  function Hits(store: Store, gene: string, allele: string): seq<ReadAlignment>
  {
    AlleleList(GeneHits(store, gene), allele)
  }

  /** Appends each allele's new matches after the ones already present. */
  function MergeAlleles(into: AlleleHits, delta: AlleleHits): (m: AlleleHits)
    ensures m.Keys == into.Keys + delta.Keys
    ensures forall a :: AlleleList(m, a) == AlleleList(into, a) + AlleleList(delta, a)
  {
    map a | a in into.Keys + delta.Keys :: AlleleList(into, a) + AlleleList(delta, a)
  }

  /** The merge of one gene's second-pass matches under the result lock
      (align_thread.hpp:213-216, and the per-record `push_back` of :151):
      every allele of `delta` gets its matches appended, and nothing stored
      for another gene changes. */
  function MergeGene(store: Store, gene: string, delta: AlleleHits): (s: Store)
    ensures s.Keys == store.Keys + {gene}
    ensures forall a :: Hits(s, gene, a) == Hits(store, gene, a) + AlleleList(delta, a)
    ensures forall g :: g != gene && g in store ==> s[g] == store[g]
  {
    store[gene := MergeAlleles(GeneHits(store, gene), delta)]
  }

  /** The merge of a whole aligner result (align_thread.hpp:52-56): every
      gene and allele of `delta` gets its matches appended. */
  function MergeAll(store: Store, delta: Store): (s: Store)
    ensures s.Keys == store.Keys + delta.Keys
    ensures forall g, a :: Hits(s, g, a) == Hits(store, g, a) + Hits(delta, g, a)
  {
    map g | g in store.Keys + delta.Keys :: MergeAlleles(GeneHits(store, g), GeneHits(delta, g))
  }
}
