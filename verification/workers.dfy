/** The three worker bodies of align_thread.hpp and the first pass of
    main.cpp, with files, threads and locks taken away. What a worker
    writes to its scratch files becomes the arguments of the aligner,
    which is a parameter: minimap2 itself is not part of this model. */
module Workers {
  import opened Results
  import opened Text
  import opened Types
  import opened Kir
  import opened Regions
  import opened Cursor

  /** `align_minimap` on a staged reference set (staging name to sequence)
      and a staged read set (read id to sequence), after the files are
      written: the matches grouped by gene and allele. */
  type Aligner = (map<string, string>, map<int, string>) -> Store

  /** The shared state a worker changes: the result store and the progress
      counter. */
  datatype Shared = Shared(store: Store, progress: int)

  /** The database's naming invariant, which `LoadKirs` establishes. */
  predicate DotFree(db: Database)
  {
    forall g :: g in db ==> '.' !in g
  }

  // ---------------------------------------------------------------------
  // Staging
  // ---------------------------------------------------------------------

  /** The sequence a staged reference name stands for. */
  function StagedSequence(db: Database, name: string): string
  {
    var parts := SplitName(name);
    if parts.0 in db && parts.1 in db[parts.0] then db[parts.0][parts.1] else ""
  }

  /** The reference names written for the genes in `genes`: every allele
      of every such gene, as `gene.allele`. */
  function StagedNames(db: Database, genes: set<string>): set<string>
  {
    set g, a | g in genes && g in db && a in db[g] :: StagingName(g, a)
  }

  /** The reference file of one batch of genes (align_thread.hpp:42-45 and
      200-203): each allele of each gene under its staging name. Every
      staged name splits back into a gene of the batch and one of its
      alleles, so the aligner's grouping recovers them. */
  function StageAlleles(db: Database, genes: set<string>): (refs: map<string, string>)
    requires DotFree(db)
    ensures forall g, a :: g in genes && g in db && a in db[g] ==>
      StagingName(g, a) in refs && refs[StagingName(g, a)] == db[g][a]
    ensures forall n :: n in refs ==>
      SplitName(n).0 in genes && SplitName(n).0 in db && SplitName(n).1 in db[SplitName(n).0]
  {
    StagedRefsSpec(db, genes);
    StagedRefs(db, genes)
  }

  /** Every staged name of the genes with its allele's sequence. */
  function StagedRefs(db: Database, genes: set<string>): map<string, string>
  {
    map n | n in StagedNames(db, genes) :: StagedSequence(db, n)
  }

  lemma StagedRefsSpec(db: Database, genes: set<string>)
    requires DotFree(db)
    ensures forall g, a :: g in genes && g in db && a in db[g] ==>
      StagingName(g, a) in StagedRefs(db, genes) && StagedRefs(db, genes)[StagingName(g, a)] == db[g][a]
    ensures forall n :: n in StagedRefs(db, genes) ==>
      SplitName(n).0 in genes && SplitName(n).0 in db && SplitName(n).1 in db[SplitName(n).0]
  {
    hide SplitName, StagingName, StagedSequence;
    var refs := StagedRefs(db, genes);
    forall g, a | g in genes && g in db && a in db[g]
      ensures StagingName(g, a) in refs && refs[StagingName(g, a)] == db[g][a]
    {
      StagedNameOf(db, genes, g, a);
    }
    forall n | n in refs
      ensures SplitName(n).0 in genes && SplitName(n).0 in db && SplitName(n).1 in db[SplitName(n).0]
    {
      StagedNameSplits(db, genes, n);
    }
  }

  /** Each allele of a staged gene is staged under its own name. */
  lemma StagedNameOf(db: Database, genes: set<string>, g: string, a: string)
    requires DotFree(db) && g in genes && g in db && a in db[g]
    ensures StagingName(g, a) in StagedNames(db, genes)
    ensures SplitName(StagingName(g, a)) == (g, a)
    ensures StagedSequence(db, StagingName(g, a)) == db[g][a]
  {
    hide StagingName;
    SplitStagingName(g, a);
  }

  /** Each staged name splits back into a staged gene and one of its
      alleles. */
  lemma StagedNameSplits(db: Database, genes: set<string>, n: string)
    requires DotFree(db) && n in StagedNames(db, genes)
    ensures SplitName(n).0 in genes && SplitName(n).0 in db && SplitName(n).1 in db[SplitName(n).0]
  {
    hide StagingName;
    var g, a :| g in genes && g in db && a in db[g] && n == StagingName(g, a);
    SplitStagingName(g, a);
  }

  /** The read file of a worker: each chosen id with `reads[id]`, where
      `operator[]` yields an empty sequence for an id without a read (a
      mate past the last read, say). */
  function StageReads(ids: set<int>, readMap: map<int, string>): (staged: map<int, string>)
    ensures staged.Keys == ids
    ensures forall id :: id in ids ==> staged[id] == (if id in readMap then readMap[id] else "")
  {
    map id | id in ids :: if id in readMap then readMap[id] else ""
  }

  // ---------------------------------------------------------------------
  // Naive strategy (align_thread.hpp:20-65)
  // ---------------------------------------------------------------------

  /** One naive claim processed: the batch's alleles are aligned against
      all reads, every returned match is appended, and progress rises by
      the number of genes in the batch. */
  function NaiveBatch(st: Shared, db: Database, batch: seq<string>, readMap: map<int, string>, aligner: Aligner): (next: Shared)
    requires DotFree(db)
    ensures next.progress == st.progress + |set g | g in batch|
    ensures forall g, a :: (Hits(next.store, g, a)
      == Hits(st.store, g, a) + Hits(aligner(StageAlleles(db, set g | g in batch), readMap), g, a))
  {
    var genes := set g | g in batch;
    Shared(MergeAll(st.store, aligner(StageAlleles(db, genes), readMap)), st.progress + |genes|)
  }

  /** The naive run from `cursor` on, with a positive chunk. */
  function NaiveRun(st: Shared, db: Database, keys: seq<string>, cursor: nat, chunk: nat,
                    readMap: map<int, string>, aligner: Aligner): Shared
    requires DotFree(db) && chunk >= 1 && cursor <= |keys|
    decreases |keys| - cursor
  {
    match ChunkClaim(keys, cursor, chunk)
    case Exhausted => st
    case Claimed(batch, next) => NaiveRun(NaiveBatch(st, db, batch, readMap, aligner), db, keys, next, chunk, readMap, aligner)
  }

  /** A sequence without repetitions has as many elements as its set. */
  lemma {:induction false} DistinctCard(xs: seq<string>)
    requires Distinct(xs)
    ensures |set x | x in xs| == |xs|
  {
    if xs != [] {
      var rest := xs[1..];
      assert Distinct(rest) by {
        forall i, j | 0 <= i < j < |rest|
          ensures rest[i] != rest[j]
        {
          assert rest[i] == xs[i + 1] && rest[j] == xs[j + 1];
        }
      }
      DistinctCard(rest);
      assert (set x | x in xs) == (set x | x in rest) + {xs[0]};
      assert xs[0] !in (set x | x in rest);
    }
  }

  lemma DistinctSlice(xs: seq<string>, i: nat, j: nat)
    requires i <= j <= |xs| && Distinct(xs)
    ensures Distinct(xs[i..j])
  {
    forall p, q | 0 <= p < q < |xs[i..j]|
      ensures xs[i..j][p] != xs[i..j][q]
    {
      assert xs[i..j][p] == xs[i + p] && xs[i..j][q] == xs[i + q];
    }
  }

  /** Naive progress: with the map's (distinct) keys the increments add up
      to exactly the number of keys the run had left. */
  lemma {:induction false} NaiveRunProgress(st: Shared, db: Database, keys: seq<string>, cursor: nat, chunk: nat,
                                            readMap: map<int, string>, aligner: Aligner)
    requires DotFree(db) && chunk >= 1 && cursor <= |keys| && Distinct(keys)
    ensures NaiveRun(st, db, keys, cursor, chunk, readMap, aligner).progress == st.progress + |keys| - cursor
    decreases |keys| - cursor
  {
    if cursor < |keys| {
      var next := cursor + Min(chunk, |keys| - cursor);
      var batch := keys[cursor..next];
      assert ChunkClaim(keys, cursor, chunk) == Claimed(batch, next);
      var st1 := NaiveBatch(st, db, batch, readMap, aligner);
      assert NaiveRun(st, db, keys, cursor, chunk, readMap, aligner) == NaiveRun(st1, db, keys, next, chunk, readMap, aligner);
      hide NaiveBatch, NaiveRun, ChunkClaim;
      DistinctSlice(keys, cursor, next);
      DistinctCard(batch);
      assert st1.progress == st.progress + |batch|;
      NaiveRunProgress(st1, db, keys, next, chunk, readMap, aligner);
    }
  }

  /** The naive run as launched by main.cpp:110-116, with the chunk size
      corrected to be at least one (see `NaiveStalls`). */
  function Naive(db: Database, keys: seq<string>, nThreads: int, readMap: map<int, string>, aligner: Aligner): Shared
    requires DotFree(db) && nThreads != 0
  {
    NaiveRun(Shared(map[], 0), db, keys, 0, FixedChunkSize(|keys|, nThreads), readMap, aligner)
  }

  /** Every gene of the database is counted once when the keys are the
      database's keys in iteration order: progress ends at `kirs.size()`. */
  lemma NaiveProgressTotal(db: Database, keys: seq<string>, nThreads: int, readMap: map<int, string>, aligner: Aligner)
    requires DotFree(db) && nThreads != 0
    requires Distinct(keys) && (set g | g in keys) == db.Keys
    ensures Naive(db, keys, nThreads, readMap, aligner).progress == |db|
  {
    NaiveRunProgress(Shared(map[], 0), db, keys, 0, FixedChunkSize(|keys|, nThreads), readMap, aligner);
    DistinctCard(keys);
  }

  // ---------------------------------------------------------------------
  // Categorical strategy (align_thread.hpp:165-226)
  // ---------------------------------------------------------------------

  /** Reference definition of the categorical read set: the read of every
      first-pass match of any allele of the gene and, with `incPair`, its
      mate. */
  function GeneHitIds(m: AlleleHits, incPair: bool): set<int>
  {
    (set a, h | a in m && h in m[a] :: h.readId)
      + (if incPair then set a, h | a in m && h in m[a] :: PairId(h.readId) else {})
  }

  /** The ids of the matches of the alleles in `done`. */
  function PartialHitIds(m: AlleleHits, done: set<string>, incPair: bool): set<int>
  {
    (set a, h | a in done && a in m && h in m[a] :: h.readId)
      + (if incPair then set a, h | a in done && a in m && h in m[a] :: PairId(h.readId) else {})
  }

  /** The inner loop of align_thread.hpp:186-191: each match inserts its
      read id and, with `incPair`, its mate's. */
  method InsertHitIds(ids: set<int>, hits: seq<ReadAlignment>, incPair: bool) returns (out: set<int>)
    ensures out == ids + HitIds(hits, incPair)
  {
    out := ids;
    var j := 0;
    while j < |hits|
      invariant 0 <= j <= |hits|
      invariant out == ids + HitIds(hits[..j], incPair)
    {
      var mates := if incPair then {PairId(hits[j].readId)} else {};
      HitIdsStep(hits, j, incPair);
      out := out + ({hits[j].readId} + mates);
      j := j + 1;
    }
    assert hits[..j] == hits;
  }

  /** The loops of align_thread.hpp:183-192, over every allele of the
      gene's first-pass matches. */
  method CategoricalReadIds(m: AlleleHits, incPair: bool) returns (ids: set<int>)
    ensures ids == GeneHitIds(m, incPair)
  {
    ids := {};
    var todo := m.Keys;
    ghost var done: set<string> := {};
    assert ids == PartialHitIds(m, done, incPair);
    while todo != {}
      invariant todo + done == m.Keys && todo !! done
      invariant ids == PartialHitIds(m, done, incPair)
      decreases |todo|
    {
      var a :| a in todo;
      ids := InsertHitIds(ids, m[a], incPair);
      PartialHitIdsAdd(m, done, a, incPair);
      LoopSets(todo, done, a, m.Keys);
      todo := todo - {a};
      done := done + {a};
    }
    assert done == m.Keys;
    PartialHitIdsAll(m, incPair);
  }

  lemma LoopSets(todo: set<string>, done: set<string>, a: string, all: set<string>)
    requires todo + done == all && todo !! done && a in todo
    ensures (todo - {a}) + (done + {a}) == all && (todo - {a}) !! (done + {a})
    ensures |todo - {a}| < |todo|
  {
  }

  lemma PartialHitIdsAll(m: AlleleHits, incPair: bool)
    ensures PartialHitIds(m, m.Keys, incPair) == GeneHitIds(m, incPair)
  {
  }

  /** One more match adds its read and, with `incPair`, its mate. */
  lemma HitIdsStep(hits: seq<ReadAlignment>, j: nat, incPair: bool)
    requires j < |hits|
    ensures HitIds(hits[..j + 1], incPair)
      == HitIds(hits[..j], incPair) + {hits[j].readId} + (if incPair then {PairId(hits[j].readId)} else {})
  {
    assert forall h :: h in hits[..j + 1] <==> h in hits[..j] || h == hits[j] by {
      assert hits[..j + 1] == hits[..j] + [hits[j]];
    }
  }

  lemma PartialHitIdsAdd(m: AlleleHits, done: set<string>, a: string, incPair: bool)
    requires a in m
    ensures PartialHitIds(m, done + {a}, incPair) == PartialHitIds(m, done, incPair) + HitIds(m[a], incPair)
  {
  }

  /** What the aligner returns for one categorical gene: the gene's full
      allele set against the reads its first-pass matches selected. */
  function CategoricalPass(db: Database, firstPass: Store, gene: string, readMap: map<int, string>,
                           incPair: bool, aligner: Aligner): Store
    requires DotFree(db)
  {
    aligner(StageAlleles(db, {gene}), StageReads(GeneHitIds(GeneHits(firstPass, gene), incPair), readMap))
  }

  /** One categorical gene. A gene the second pass does not return is
      skipped with no change at all, and in particular without advancing
      the progress (the `continue` at align_thread.hpp:209 jumps over the
      increment). Otherwise the gene's matches are appended, no other gene
      changes, and progress rises by one. */
  function CategoricalGene(st: Shared, db: Database, firstPass: Store, gene: string, readMap: map<int, string>,
                           incPair: bool, aligner: Aligner): (next: Shared)
    requires DotFree(db)
    ensures var second := CategoricalPass(db, firstPass, gene, readMap, incPair, aligner);
      gene !in second ==> next == st
    ensures var second := CategoricalPass(db, firstPass, gene, readMap, incPair, aligner);
      gene in second ==> (next.progress == st.progress + 1
        && (forall a :: Hits(next.store, gene, a) == Hits(st.store, gene, a) + AlleleList(second[gene], a))
        && (forall g :: g != gene && g in st.store ==> g in next.store && next.store[g] == st.store[g]))
  {
    var second := CategoricalPass(db, firstPass, gene, readMap, incPair, aligner);
    if gene !in second then st
    else Shared(MergeGene(st.store, gene, second[gene]), st.progress + 1)
  }

  /** The categorical run from `cursor` on: one gene per claim. */
  function CategoricalRun(st: Shared, db: Database, firstPass: Store, keys: seq<string>, cursor: nat,
                          readMap: map<int, string>, incPair: bool, aligner: Aligner): Shared
    requires DotFree(db) && cursor <= |keys|
    decreases |keys| - cursor
  {
    match ClaimOne(keys, cursor)
    case Exhausted => st
    case Claimed(batch, next) =>
      CategoricalRun(CategoricalGene(st, db, firstPass, batch[0], readMap, incPair, aligner),
                     db, firstPass, keys, next, readMap, incPair, aligner)
  }

  /** The number of genes from `cursor` on that the second pass returns. */
  function Found(db: Database, firstPass: Store, keys: seq<string>, cursor: nat,
                 readMap: map<int, string>, incPair: bool, aligner: Aligner): nat
    requires DotFree(db) && cursor <= |keys|
    decreases |keys| - cursor
  {
    if cursor == |keys| then 0
    else
      var here := if keys[cursor] in CategoricalPass(db, firstPass, keys[cursor], readMap, incPair, aligner) then 1 else 0;
      here + Found(db, firstPass, keys, cursor + 1, readMap, incPair, aligner)
  }

  /** Categorical progress counts only the genes the second pass returned:
      it reaches the number of claimed genes exactly when every one of them
      was returned. */
  lemma {:induction false} CategoricalProgress(st: Shared, db: Database, firstPass: Store, keys: seq<string>, cursor: nat,
                                               readMap: map<int, string>, incPair: bool, aligner: Aligner)
    requires DotFree(db) && cursor <= |keys|
    ensures CategoricalRun(st, db, firstPass, keys, cursor, readMap, incPair, aligner).progress
      == st.progress + Found(db, firstPass, keys, cursor, readMap, incPair, aligner)
    ensures Found(db, firstPass, keys, cursor, readMap, incPair, aligner) <= |keys| - cursor
    ensures Found(db, firstPass, keys, cursor, readMap, incPair, aligner) == |keys| - cursor
      <==> forall i :: cursor <= i < |keys| ==> keys[i] in CategoricalPass(db, firstPass, keys[i], readMap, incPair, aligner)
    decreases |keys| - cursor
  {
    hide CategoricalPass, CategoricalGene;
    if cursor < |keys| {
      var gene := keys[cursor];
      var st1 := CategoricalGene(st, db, firstPass, gene, readMap, incPair, aligner);
      var found := gene in CategoricalPass(db, firstPass, gene, readMap, incPair, aligner);
      assert st1.progress == st.progress + (if found then 1 else 0);
      assert ClaimOne(keys, cursor) == Claimed([gene], cursor + 1);
      assert CategoricalRun(st, db, firstPass, keys, cursor, readMap, incPair, aligner)
        == CategoricalRun(st1, db, firstPass, keys, cursor + 1, readMap, incPair, aligner);
      assert Found(db, firstPass, keys, cursor, readMap, incPair, aligner)
        == (if found then 1 else 0) + Found(db, firstPass, keys, cursor + 1, readMap, incPair, aligner);
      hide CategoricalRun, ClaimOne, Found;
      CategoricalProgress(st1, db, firstPass, keys, cursor + 1, readMap, incPair, aligner);
    }
  }

  // ---------------------------------------------------------------------
  // Regional strategy (align_thread.hpp:67-163)
  // ---------------------------------------------------------------------

  /** `kirs[gene_name][allele].size()`: `operator[]` makes a missing allele
      an empty one. */
  function AlleleLength(db: Database, gene: string, allele: string): nat
  {
    var alleles := GeneAlleles(db, gene);
    if allele in alleles then |alleles[allele]| else 0
  }

  /** Every allele of the gene can be cut to the region without `substr`
      throwing. */
  predicate Trimmable(db: Database, gene: string, r: Region)
  {
    forall a :: a in GeneAlleles(db, gene) ==> Trim(GeneAlleles(db, gene)[a], r.start, r.end).Some?
  }

  /** `Trim` where it succeeds. */
  function TrimmedOr(s: string, start: int, end: int): string
  {
    match Trim(s, start, end)
    case Some(t) => t
    case None => ""
  }

  /** The reference file of one region (align_thread.hpp:132-139): every
      allele of the gene under its staging name, cut to the region's
      window. `None` when cutting some allele throws, which ends the run. */
  function StageTrimmed(db: Database, gene: string, r: Region): (refs: Option<map<string, string>>)
    requires DotFree(db)
    ensures refs.Some? <==> Trimmable(db, gene, r)
    ensures refs.Some? ==> forall a :: a in GeneAlleles(db, gene) ==>
      StagingName(gene, a) in refs.value
      && refs.value[StagingName(gene, a)] == Trim(GeneAlleles(db, gene)[a], r.start, r.end).value
    ensures refs.Some? ==> forall n :: n in refs.value ==>
      SplitName(n).0 == gene && SplitName(n).1 in GeneAlleles(db, gene)
  {
    if !Trimmable(db, gene, r) then None
    else
      TrimmedRefsSpec(db, gene, r);
      Some(TrimmedRefs(db, gene, r))
  }

  /** Every staged name of the gene with its allele cut to the region. */
  function TrimmedRefs(db: Database, gene: string, r: Region): map<string, string>
  {
    map n | n in StagedNames(db, {gene}) :: TrimmedOr(StagedSequence(db, n), r.start, r.end)
  }

  lemma {:induction false} TrimmedRefsSpec(db: Database, gene: string, r: Region)
    requires DotFree(db) && Trimmable(db, gene, r)
    ensures forall a :: a in GeneAlleles(db, gene) ==>
      StagingName(gene, a) in TrimmedRefs(db, gene, r)
      && TrimmedRefs(db, gene, r)[StagingName(gene, a)] == Trim(GeneAlleles(db, gene)[a], r.start, r.end).value
    ensures forall n :: n in TrimmedRefs(db, gene, r) ==>
      SplitName(n).0 == gene && SplitName(n).1 in GeneAlleles(db, gene)
  {
    hide SplitName, StagingName, Trim, StagedSequence;
    var refs := TrimmedRefs(db, gene, r);
    forall a | a in GeneAlleles(db, gene)
      ensures StagingName(gene, a) in refs
        && refs[StagingName(gene, a)] == Trim(GeneAlleles(db, gene)[a], r.start, r.end).value
    {
      StagedNameOf(db, {gene}, gene, a);
    }
    forall n | n in refs
      ensures SplitName(n).0 == gene && SplitName(n).1 in GeneAlleles(db, gene)
    {
      StagedNameSplits(db, {gene}, n);
    }
  }

  /** The translation of a region's second-pass matches back to the full
      alleles (align_thread.hpp:146-151). */
  function RemapHits(hits: AlleleHits, start: int, db: Database, gene: string): (out: AlleleHits)
    ensures out.Keys == hits.Keys
    ensures forall a :: a in hits ==> (|out[a]| == |hits[a]|
      && forall k :: 0 <= k < |hits[a]| ==> out[a][k] == Remap(hits[a][k], start, AlleleLength(db, gene, a)))
    ensures forall a :: a in out ==> Clamped(out[a], AlleleLength(db, gene, a))
  {
    map a | a in hits :: seq(|hits[a]|, k requires 0 <= k < |hits[a]| => Remap(hits[a][k], start, AlleleLength(db, gene, a)))
  }

  /** Every match ends within the allele. */
  predicate Clamped(recs: seq<ReadAlignment>, alleleLen: int)
  {
    forall k :: 0 <= k < |recs| ==> recs[k].queryEnd <= alleleLen
  }

  /** `after` keeps `before` as a prefix and appends only matches that end
      within the allele. */
  predicate Extends(before: seq<ReadAlignment>, after: seq<ReadAlignment>, alleleLen: int)
  {
    |before| <= |after| && after[..|before|] == before
    && forall k :: |before| <= k < |after| ==> after[k].queryEnd <= alleleLen
  }

  /** What a regional pass may do to the store: only the genes in `genes`
      change, and their match lists only grow by matches that end within
      their alleles. */
  ghost predicate Grows(before: Store, after: Store, db: Database, genes: set<string>)
  {
    before.Keys <= after.Keys && after.Keys <= before.Keys + genes
    && (forall g :: g in before && g !in genes ==> after[g] == before[g])
    && (forall g, a :: g in genes ==> Extends(Hits(before, g, a), Hits(after, g, a), AlleleLength(db, g, a)))
  }

  lemma GrowsRefl(st: Store, db: Database, genes: set<string>)
    ensures Grows(st, st, db, genes)
  {
    forall g, a | g in genes
      ensures Extends(Hits(st, g, a), Hits(st, g, a), AlleleLength(db, g, a))
    {
      assert Hits(st, g, a)[..|Hits(st, g, a)|] == Hits(st, g, a);
    }
  }

  lemma ExtendsTrans(s1: seq<ReadAlignment>, s2: seq<ReadAlignment>, s3: seq<ReadAlignment>, len: int)
    requires Extends(s1, s2, len) && Extends(s2, s3, len)
    ensures Extends(s1, s3, len)
  {
    assert s3[..|s1|] == s3[..|s2|][..|s1|];
  }

  /** Growth composes: two passes grow the store on the union of their
      genes. */
  lemma GrowsTrans(s1: Store, s2: Store, s3: Store, db: Database, g1: set<string>, g2: set<string>)
    requires Grows(s1, s2, db, g1) && Grows(s2, s3, db, g2)
    ensures Grows(s1, s3, db, g1 + g2)
  {
    forall g, a | g in g1 + g2
      ensures Extends(Hits(s1, g, a), Hits(s3, g, a), AlleleLength(db, g, a))
    {
      var len := AlleleLength(db, g, a);
      if g in g1 && g in g2 {
        ExtendsTrans(Hits(s1, g, a), Hits(s2, g, a), Hits(s3, g, a), len);
      } else if g in g1 {
        assert Hits(s3, g, a) == Hits(s2, g, a);
      } else {
        assert Hits(s2, g, a) == Hits(s1, g, a);
      }
    }
  }

  /** Appending matches that end within their alleles grows the store on
      one gene. */
  lemma MergeGrows(store: Store, db: Database, gene: string, delta: AlleleHits)
    requires forall a :: a in delta ==> Clamped(delta[a], AlleleLength(db, gene, a))
    ensures Grows(store, MergeGene(store, gene, delta), db, {gene})
  {
    var next := MergeGene(store, gene, delta);
    forall a
      ensures Extends(Hits(store, gene, a), Hits(next, gene, a), AlleleLength(db, gene, a))
    {
      var before := Hits(store, gene, a);
      assert Hits(next, gene, a) == before + AlleleList(delta, a);
      assert (before + AlleleList(delta, a))[..|before|] == before;
    }
  }

  /** What the aligner returns for one non-empty region. */
  function RegionSecondPass(db: Database, gene: string, r: Region, readMap: map<int, string>, aligner: Aligner): Store
    requires DotFree(db) && Trimmable(db, gene, r)
  {
    aligner(StageTrimmed(db, gene, r).value, StageReads(r.readIds, readMap))
  }

  /** One region of one gene (align_thread.hpp:119-153). A region without
      reads is skipped untouched; otherwise `None` exactly when cutting an
      allele throws, and a gene the second pass does not return adds
      nothing. The remapped matches are appended under the gene, so the
      store grows on this gene only. */
  function RegionPass(store: Store, db: Database, gene: string, r: Region, readMap: map<int, string>, aligner: Aligner): (out: Option<Store>)
    requires DotFree(db)
    ensures r.readIds == {} ==> out == Some(store)
    ensures out.None? <==> r.readIds != {} && !Trimmable(db, gene, r)
    ensures out.Some? ==> Grows(store, out.value, db, {gene})
    ensures out.Some? && r.readIds != {} ==>
      var second := RegionSecondPass(db, gene, r, readMap, aligner);
      forall a :: Hits(out.value, gene, a) == Hits(store, gene, a)
        + (if gene in second then AlleleList(RemapHits(second[gene], r.start, db, gene), a) else [])
  {
    if r.readIds == {} then
      GrowsRefl(store, db, {gene});
      Some(store)
    else match StageTrimmed(db, gene, r)
      case None => None
      case Some(refs) =>
        var second := aligner(refs, StageReads(r.readIds, readMap));
        if gene !in second then
          GrowsRefl(store, db, {gene});
          Some(store)
        else
          var delta := RemapHits(second[gene], r.start, db, gene);
          MergeGrows(store, db, gene, delta);
          var next := MergeGene(store, gene, delta);
          Some(next)
  }

  /** The regions of one allele processed in order; the first throw ends
      everything. */
  function ProcessRegions(store: Store, db: Database, gene: string, regions: seq<Region>,
                          readMap: map<int, string>, aligner: Aligner): (out: Option<Store>)
    requires DotFree(db)
    ensures out.None? <==> Throws(db, gene, regions)
    ensures out.Some? ==> Grows(store, out.value, db, {gene})
    decreases |regions|
  {
    if regions == [] then
      GrowsRefl(store, db, {gene});
      Some(store)
    else
      ThrowsCons(db, gene, regions);
      match RegionPass(store, db, gene, regions[0], readMap, aligner)
      case None => None
      case Some(s) =>
        var out := ProcessRegions(s, db, gene, regions[1..], readMap, aligner);
        if out.Some? then GrowsTrans(store, s, out.value, db, {gene}, {gene}); out
        else out
  }

  /** Some non-empty region of the list cannot be cut from every allele. */
  predicate Throws(db: Database, gene: string, regions: seq<Region>)
  {
    exists i :: 0 <= i < |regions| && regions[i].readIds != {} && !Trimmable(db, gene, regions[i])
  }

  lemma ThrowsCons(db: Database, gene: string, regions: seq<Region>)
    requires regions != []
    ensures Throws(db, gene, regions)
      <==> (regions[0].readIds != {} && !Trimmable(db, gene, regions[0])) || Throws(db, gene, regions[1..])
  {
    hide Trimmable;
    if Throws(db, gene, regions[1..]) {
      var i :| 0 <= i < |regions[1..]| && regions[1..][i].readIds != {} && !Trimmable(db, gene, regions[1..][i]);
      assert regions[i + 1] == regions[1..][i];
    }
    if Throws(db, gene, regions) {
      var i :| 0 <= i < |regions| && regions[i].readIds != {} && !Trimmable(db, gene, regions[i]);
      if i > 0 {
        assert regions[1..][i - 1] == regions[i];
      }
    }
  }

  /** The allele loop of one gene (align_thread.hpp:84-154), over the
      first-pass alleles in iteration order. The buffer is taken from the
      read map on every allele; an empty read map makes that undefined
      (`None`). */
  function RegionalAlleles(store: Store, db: Database, gene: string, alleleOrder: seq<string>, firstPass: Store,
                           buffer: Option<int>, readMap: map<int, string>, incPair: bool, aligner: Aligner): (out: Option<Store>)
    requires DotFree(db)
    ensures out.Some? ==> Grows(store, out.value, db, {gene})
    ensures alleleOrder != [] && buffer.None? ==> out.None?
    decreases |alleleOrder|
  {
    if alleleOrder == [] then
      GrowsRefl(store, db, {gene});
      Some(store)
    else match buffer
      case None => None
      case Some(b) =>
        var regions := AlleleRegions(Hits(firstPass, gene, alleleOrder[0]), b, incPair);
        match ProcessRegions(store, db, gene, regions, readMap, aligner)
        case None => None
        case Some(s) =>
          var out := RegionalAlleles(s, db, gene, alleleOrder[1..], firstPass, buffer, readMap, incPair, aligner);
          if out.Some? then GrowsTrans(store, s, out.value, db, {gene}, {gene}); out
          else out
  }

  /** One regional gene: all its alleles' regions, then progress rises by
      one, however many regions there were. */
  function RegionalGene(st: Shared, db: Database, firstPass: Store, gene: string, alleleOrder: seq<string>,
                        readOrder: seq<int>, readMap: map<int, string>, incPair: bool, aligner: Aligner): (out: Option<Shared>)
    requires DotFree(db) && IterationOrder(readOrder, readMap)
    ensures out.Some? ==> out.value.progress == st.progress + 1 && Grows(st.store, out.value.store, db, {gene})
    ensures readMap == map[] && alleleOrder != [] ==> out.None?
  {
    var buffer := RegionBuffer(readOrder, readMap);
    match RegionalAlleles(st.store, db, gene, alleleOrder, firstPass, buffer, readMap, incPair, aligner)
    case None => None
    case Some(s) => Some(Shared(s, st.progress + 1))
  }

  /** The first-pass alleles of a gene in iteration order. */
  function AlleleOrder(orders: map<string, seq<string>>, gene: string): seq<string>
  {
    if gene in orders then orders[gene] else []
  }

  /** The regional run from `cursor` on: one gene per claim. */
  function RegionalRun(st: Shared, db: Database, firstPass: Store, keys: seq<string>, cursor: nat,
                       orders: map<string, seq<string>>, readOrder: seq<int>, readMap: map<int, string>,
                       incPair: bool, aligner: Aligner): Option<Shared>
    requires DotFree(db) && cursor <= |keys| && IterationOrder(readOrder, readMap)
    decreases |keys| - cursor
  {
    match ClaimOne(keys, cursor)
    case Exhausted => Some(st)
    case Claimed(batch, next) =>
      match RegionalGene(st, db, firstPass, batch[0], AlleleOrder(orders, batch[0]), readOrder, readMap, incPair, aligner)
      case None => None
      case Some(s) => RegionalRun(s, db, firstPass, keys, next, orders, readOrder, readMap, incPair, aligner)
  }

  /** A regional run that completes advances progress once per claimed
      gene, changes only the claimed genes, and only appends matches that
      end within their alleles. */
  lemma {:induction false} RegionalRunSpec(st: Shared, db: Database, firstPass: Store, keys: seq<string>, cursor: nat,
                                           orders: map<string, seq<string>>, readOrder: seq<int>, readMap: map<int, string>,
                                           incPair: bool, aligner: Aligner)
    requires DotFree(db) && cursor <= |keys| && IterationOrder(readOrder, readMap)
    ensures var out := RegionalRun(st, db, firstPass, keys, cursor, orders, readOrder, readMap, incPair, aligner);
      out.Some? ==> (out.value.progress == st.progress + |keys| - cursor
        && Grows(st.store, out.value.store, db, set i | cursor <= i < |keys| :: keys[i]))
    decreases |keys| - cursor
  {
    var genes := set i | cursor <= i < |keys| :: keys[i];
    var out := RegionalRun(st, db, firstPass, keys, cursor, orders, readOrder, readMap, incPair, aligner);
    if cursor == |keys| {
      assert genes == {};
      GrowsRefl(st.store, db, genes);
    } else {
      var gene := keys[cursor];
      var step := RegionalGene(st, db, firstPass, gene, AlleleOrder(orders, gene), readOrder, readMap, incPair, aligner);
      if step.Some? {
        RegionalRunSpec(step.value, db, firstPass, keys, cursor + 1, orders, readOrder, readMap, incPair, aligner);
        if out.Some? {
          var rest := set i | cursor + 1 <= i < |keys| :: keys[i];
          assert genes == {gene} + rest;
          GrowsTrans(st.store, step.value.store, out.value.store, db, {gene}, rest);
        }
      }
    }
  }
}
