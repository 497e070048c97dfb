/** The database and read helpers of kir.hpp: mate ids, `gene.allele` names,
    the two loaders (with the file reading stripped away) and the choice of
    representative alleles for the first pass. */
module Kir {
  import opened Results
  import opened Text
  import opened Types

  // ---------------------------------------------------------------------
  // Mate ids
  // ---------------------------------------------------------------------

  /** Mate of a read in an interleaved paired-end file: ids 2k and 2k+1 are
      mates. C's `%` truncates toward zero, but the code only tests whether
      the remainder is zero, which Dafny's `%` decides the same way. The
      contract says the mate is the other member of the block {2k, 2k+1}. */
  function PairId(readId: int): (mate: int)
    ensures mate != readId
    ensures mate / 2 == readId / 2
  {
    readId - 1 + (if readId % 2 == 0 then 1 else 0) * 2
  }

  /** Pairing is an involution without fixed points, and the mate of an
      `int` id is again an `int` id. (The C++ expression subtracts one
      first, which overflows for `INT_MIN` alone; ids come from
      `load_reads` and are never negative.) */
  lemma PairIdInvolution(readId: int)
    ensures PairId(PairId(readId)) == readId
    ensures PairId(readId) != readId
    ensures IsInt(readId) ==> IsInt(PairId(readId))
  {
  }

  /** Read ids of a list of matches, together with their mates when
      `incPair` is set. */
  function HitIds(hits: seq<ReadAlignment>, incPair: bool): set<int>
  {
    (set h | h in hits :: h.readId) + (if incPair then set h | h in hits :: PairId(h.readId) else {})
  }

  // ---------------------------------------------------------------------
  // `gene.allele` names
  // ---------------------------------------------------------------------

  /** Splits a reference name at its first '.' into gene and allele. When
      there is no '.', `find` yields `npos` and `npos + 1` wraps to 0, so
      both halves are the whole name. */
  function SplitName(name: string): (parts: (string, string))
    ensures '.' !in name ==> parts == (name, name)
    ensures '.' in name ==> '.' !in parts.0 && name == parts.0 + "." + parts.1
  {
    match IndexOf(name, '.')
    case None => (name, name)
    case Some(i) => (name[..i], name[i + 1..])
  }

  /** The name under which an allele is written to every staged reference
      file. */
  function StagingName(gene: string, allele: string): string
  {
    gene + "." + allele
  }

  /** Splitting undoes staging whenever the gene name has no '.', which
      holds of every gene the loader produces. */
  lemma SplitStagingName(gene: string, allele: string)
    requires '.' !in gene
    ensures SplitName(StagingName(gene, allele)) == (gene, allele)
  {
    var name := StagingName(gene, allele);
    assert name[|gene|] == '.';
    var parts := SplitName(name);
    assert parts.0 == name[..|gene|] == gene;
    assert parts.1 == name[|gene| + 1..] == allele;
  }

  // ---------------------------------------------------------------------
  // Loading
  // ---------------------------------------------------------------------

  /** A sequence record as the FASTA/FASTQ reader delivers it. */
  datatype SeqRecord = SeqRecord(name: string, sequence: string)

  /** Gene to allele to allele sequence. */
  type Database = map<string, map<string, string>>

  /** `kirs[gene]` read through `operator[]`. */
  function GeneAlleles(db: Database, gene: string): map<string, string>
  {
    if gene in db then db[gene] else map[]
  }

  /** The database loader without the file: records are stored in input
      order under the halves of their split name, so a repeated
      `gene.allele` keeps the last sequence. No gene ends up without an
      allele and no gene name contains a '.'. */
  function LoadKirs(records: seq<SeqRecord>): (db: Database)
    ensures forall g :: g in db ==> db[g] != map[] && '.' !in g
  {
    if records == [] then map[]
    else
      var db := LoadKirs(records[..|records| - 1]);
      var parts := SplitName(records[|records| - 1].name);
      var alleles := GeneAlleles(db, parts.0)[parts.1 := records[|records| - 1].sequence];
      assert parts.1 in alleles;
      db[parts.0 := alleles]
  }

  /** The names the database holds are exactly the split record names. */
  lemma {:induction false} LoadKirsNames(records: seq<SeqRecord>, gene: string, allele: string)
    ensures (gene in LoadKirs(records) && allele in LoadKirs(records)[gene])
        <==> exists i :: 0 <= i < |records| && SplitName(records[i].name) == (gene, allele)
  {
    if records != [] {
      hide SplitName, LoadKirs;
      LoadKirsHas(records, gene, allele);
      NamedStep(records, gene, allele);
      LoadKirsNames(records[..|records| - 1], gene, allele);
    }
  }

  /** One more record adds its own name and keeps the earlier ones. */
  lemma LoadKirsHas(records: seq<SeqRecord>, gene: string, allele: string)
    requires records != []
    ensures var db := LoadKirs(records);
      var init := LoadKirs(records[..|records| - 1]);
      (gene in db && allele in db[gene])
        <==> (gene in init && allele in init[gene]) || SplitName(records[|records| - 1].name) == (gene, allele)
  {
  }

  /** Some record of `records` carries the name, or the last one does. */
  lemma NamedStep(records: seq<SeqRecord>, gene: string, allele: string)
    requires records != []
    ensures var init := records[..|records| - 1];
      (exists i :: 0 <= i < |records| && SplitName(records[i].name) == (gene, allele))
        <==> ((exists i :: 0 <= i < |init| && SplitName(init[i].name) == (gene, allele))
          || SplitName(records[|records| - 1].name) == (gene, allele))
  {
    hide SplitName;
    var init := records[..|records| - 1];
    if exists i :: 0 <= i < |init| && SplitName(init[i].name) == (gene, allele) {
      var i :| 0 <= i < |init| && SplitName(init[i].name) == (gene, allele);
      assert records[i] == init[i];
    }
    if exists i :: 0 <= i < |records| && SplitName(records[i].name) == (gene, allele) {
      var i :| 0 <= i < |records| && SplitName(records[i].name) == (gene, allele);
      if i < |init| {
        assert init[i] == records[i];
      }
    }
  }

  /** Record `i` is the last one with its name. */
  predicate LastWithName(records: seq<SeqRecord>, i: nat)
    requires i < |records|
  {
    forall j :: i < j < |records| ==> SplitName(records[j].name) != SplitName(records[i].name)
  }

  /** Last write wins: the sequence stored for a name is that of the last
      record carrying it. */
  lemma {:induction false} LoadKirsLastWins(records: seq<SeqRecord>, i: nat)
    requires i < |records| && LastWithName(records, i)
    ensures var parts := SplitName(records[i].name);
      parts.0 in LoadKirs(records) && parts.1 in LoadKirs(records)[parts.0]
      && LoadKirs(records)[parts.0][parts.1] == records[i].sequence
  {
    if i < |records| - 1 {
      var init := records[..|records| - 1];
      assert LastWithName(init, i) by {
        forall j | i < j < |init|
          ensures SplitName(init[j].name) != SplitName(init[i].name)
        {
          assert init[j] == records[j];
        }
      }
      LoadKirsLastWins(init, i);
      assert init[i] == records[i];
    }
  }

  /** The read loader without the file: the i-th record gets id i, so the
      ids are exactly 0..n-1 in input order. */
  method LoadReads(records: seq<SeqRecord>) returns (readMap: map<int, string>)
    ensures forall i :: i in readMap <==> 0 <= i < |records|
    ensures forall i :: 0 <= i < |records| ==> readMap[i] == records[i].sequence
  {
    readMap := map[];
    var rId := 0;
    while rId < |records|
      invariant 0 <= rId <= |records|
      invariant forall i :: i in readMap <==> 0 <= i < rId
      invariant forall i :: 0 <= i < rId ==> readMap[i] == records[i].sequence
    {
      readMap := readMap[rId := records[rId].sequence];
      rId := rId + 1;
    }
  }

  // ---------------------------------------------------------------------
  // Representatives for the first pass
  // ---------------------------------------------------------------------

  /** One gene of the database with its allele names, in the database's
      iteration order. */
  datatype GeneEntry = GeneEntry(gene: string, alleles: seq<string>)

  /** How many alleles the loop `for (i = 0; i < n; i++)` picks per gene. */
  function PicksPerGene(numRepresentatives: int): nat
  {
    if numRepresentatives < 0 then 0 else numRepresentatives
  }

  /** The names one gene contributes, the i-th chosen by `draws[i]`
      reduced modulo the allele count (kir.hpp:75): each names an allele of
      the gene, and splits back into that gene and allele. */
  function PickAlleles(entry: GeneEntry, draws: seq<nat>): (names: seq<string>)
    requires |entry.alleles| > 0 && '.' !in entry.gene
    ensures |names| == |draws|
    ensures forall t :: 0 <= t < |names| ==>
      SplitName(names[t]).0 == entry.gene && SplitName(names[t]).1 in entry.alleles
  {
    var names := seq(|draws|, t requires 0 <= t < |draws| =>
      StagingName(entry.gene, entry.alleles[draws[t] % |entry.alleles|]));
    assert forall t :: 0 <= t < |names| ==>
      SplitName(names[t]) == (entry.gene, entry.alleles[draws[t] % |entry.alleles|]) by {
      forall t | 0 <= t < |names|
        ensures SplitName(names[t]) == (entry.gene, entry.alleles[draws[t] % |entry.alleles|])
      {
        SplitStagingName(entry.gene, entry.alleles[draws[t] % |entry.alleles|]);
      }
    }
    names
  }

  lemma ConsumedDraws(genes: nat, n: nat)
    requires genes >= 1
    ensures genes * n == n + (genes - 1) * n
  {
  }

  /** The representative reference names, one block per gene. `draws` is
      the stream of `rand()` values, consumed gene by gene. The modulo by
      the allele count is undefined for a gene without alleles, so every
      gene must have one (which `LoadKirs` guarantees). */
  function Representatives(genes: seq<GeneEntry>, numRepresentatives: int, draws: seq<nat>): (blocks: seq<seq<string>>)
    requires forall i :: 0 <= i < |genes| ==> |genes[i].alleles| > 0 && '.' !in genes[i].gene
    requires |draws| >= |genes| * PicksPerGene(numRepresentatives)
    ensures |blocks| == |genes|
    ensures forall i :: 0 <= i < |genes| ==> |blocks[i]| == PicksPerGene(numRepresentatives)
    ensures forall i, t :: 0 <= i < |genes| && 0 <= t < |blocks[i]| ==>
      SplitName(blocks[i][t]).0 == genes[i].gene && SplitName(blocks[i][t]).1 in genes[i].alleles
  {
    var n := PicksPerGene(numRepresentatives);
    if genes == [] then []
    else
      ConsumedDraws(|genes|, n);
      [PickAlleles(genes[0], draws[..n])] + Representatives(genes[1..], numRepresentatives, draws[n..])
  }
}
