/** The body of `main` once the arguments are read (main.cpp:42 and
    68-186): the first pass over representative alleles, the choice of
    worker strategy, and the `report` command over the file `align -o`
    writes. Threads are not modelled: the workers' claims form one
    sequential run, as in the Workers module. */
module Pipeline {
  import opened Results
  import opened Types
  import opened Kir
  import opened Cursor
  import opened Regions
  import opened Workers
  import opened Cli
  import opened Report
  import Text

  // ---------------------------------------------------------------------
  // The first pass (main.cpp:125-133)
  // ---------------------------------------------------------------------

  /** The genes of a database with their alleles in iteration order, as
      `extract_representatives` walks them. */
  predicate Lists(db: Database, genes: seq<GeneEntry>)
  {
    (forall i :: 0 <= i < |genes| ==> genes[i].gene in db && |genes[i].alleles| > 0)
    && (forall i, t :: 0 <= i < |genes| && 0 <= t < |genes[i].alleles| ==> genes[i].alleles[t] in db[genes[i].gene])
  }

  /** The names written to the representatives file. */
  function RepresentativeNames(blocks: seq<seq<string>>): set<string>
  {
    set i, t | 0 <= i < |blocks| && 0 <= t < |blocks[i]| :: blocks[i][t]
  }

  /** The representatives file as the aligner sees it: each chosen name with
      the sequence of its allele. A name chosen twice is one reference. */
  function RepresentativeRefs(db: Database, genes: seq<GeneEntry>, numRepresentatives: int, draws: seq<nat>): (refs: map<string, string>)
    requires DotFree(db) && Lists(db, genes)
    requires |draws| >= |genes| * PicksPerGene(numRepresentatives)
    ensures forall n :: n in refs ==>
      var parts := SplitName(n);
      parts.0 in db && parts.1 in db[parts.0] && refs[n] == db[parts.0][parts.1]
      && exists i :: 0 <= i < |genes| && genes[i].gene == parts.0
  {
    var blocks := Representatives(genes, numRepresentatives, draws);
    RepresentativeRefsSpec(db, genes, numRepresentatives, draws);
    map n | n in RepresentativeNames(blocks) :: StagedSequence(db, n)
  }

  lemma RepresentativeRefsSpec(db: Database, genes: seq<GeneEntry>, numRepresentatives: int, draws: seq<nat>)
    requires DotFree(db) && Lists(db, genes)
    requires |draws| >= |genes| * PicksPerGene(numRepresentatives)
    ensures var blocks := Representatives(genes, numRepresentatives, draws);
      forall n :: n in RepresentativeNames(blocks) ==>
        var parts := SplitName(n);
        parts.0 in db && parts.1 in db[parts.0] && StagedSequence(db, n) == db[parts.0][parts.1]
        && exists i :: 0 <= i < |genes| && genes[i].gene == parts.0
  {
    var blocks := Representatives(genes, numRepresentatives, draws);
    forall n | n in RepresentativeNames(blocks)
      ensures var parts := SplitName(n);
        parts.0 in db && parts.1 in db[parts.0] && StagedSequence(db, n) == db[parts.0][parts.1]
        && exists i :: 0 <= i < |genes| && genes[i].gene == parts.0
    {
      var i, t :| 0 <= i < |blocks| && 0 <= t < |blocks[i]| && n == blocks[i][t];
      var parts := SplitName(n);
      assert parts.0 == genes[i].gene && parts.1 in genes[i].alleles;
      var k :| 0 <= k < |genes[i].alleles| && genes[i].alleles[k] == parts.1;
    }
  }

  /** `align_minimap(representatives_file, reads_fasta_file, ...)`. */
  function FirstPass(db: Database, genes: seq<GeneEntry>, numRepresentatives: int, draws: seq<nat>,
                     readMap: map<int, string>, aligner: Aligner): Store
    requires DotFree(db) && Lists(db, genes)
    requires |draws| >= |genes| * PicksPerGene(numRepresentatives)
  {
    aligner(RepresentativeRefs(db, genes, numRepresentatives, draws), readMap)
  }

  // ---------------------------------------------------------------------
  // The alignment run (main.cpp:108-151)
  // ---------------------------------------------------------------------

  /** What the workers need besides the options: the database and its key
      order, the representative choice, the reads and their iteration
      order, and the iteration orders of the first-pass result. */
  datatype Inputs = Inputs(
    db: Database,
    keys: seq<string>,
    genes: seq<GeneEntry>,
    draws: seq<nat>,
    readMap: map<int, string>,
    readOrder: seq<int>,
    firstKeys: seq<string>,
    alleleOrders: map<string, seq<string>>)

  /** `genes` is what `extract_representatives` walks: every gene of the
      database once, each with its alleles listed once. */
  predicate ListsAll(db: Database, genes: seq<GeneEntry>)
  {
    Lists(db, genes)
    && (forall i, j :: 0 <= i < j < |genes| ==> genes[i].gene != genes[j].gene)
    && (forall g :: g in db ==> exists i :: 0 <= i < |genes| && genes[i].gene == g)
    && (forall i :: 0 <= i < |genes| ==>
          Distinct(genes[i].alleles) && (set a | a in genes[i].alleles) == db[genes[i].gene].Keys)
  }

  /** The orders and choices are those of the maps they walk: `keys` the
      database's, `genes` its genes and alleles, `readOrder` the read
      map's, and `firstKeys` and `alleleOrders` those of the first pass. */
  predicate Consistent(o: AlignOptions, inp: Inputs, aligner: Aligner)
  {
    DotFree(inp.db) && ListsAll(inp.db, inp.genes)
    && |inp.draws| >= |inp.genes| * PicksPerGene(o.numRepresentatives)
    && Distinct(inp.keys) && (set g | g in inp.keys) == inp.db.Keys
    && Distinct(inp.readOrder) && IterationOrder(inp.readOrder, inp.readMap)
    && var firstPass := FirstPass(inp.db, inp.genes, o.numRepresentatives, inp.draws, inp.readMap, aligner);
    Distinct(inp.firstKeys) && (set g | g in inp.firstKeys) == firstPass.Keys
    && forall g :: g in firstPass ==>
         g in inp.alleleOrders && Distinct(inp.alleleOrders[g])
         && (set a | a in inp.alleleOrders[g]) == firstPass[g].Keys
  }

  /** The workers `main` starts for a valid method, with the evidently
      intended dispatch (see `Cli.Dispatch`) and the naive chunk corrected
      to at least one. With no thread to start (`-t` zero or negative) no
      worker runs, which is `None`. Naive progress ends at `kirs.size()`;
      the other two count genes of the first pass: regional every one of
      them when the run completes, categorical at most that many. */
  function Align(o: AlignOptions, inp: Inputs, aligner: Aligner): (out: Option<Shared>)
    requires o.methodName in Methods && Consistent(o, inp, aligner)
    ensures o.nThreads <= 0 ==> out.None?
    ensures out.None? ==> o.nThreads <= 0 || o.methodName == "regional"
    ensures o.nThreads > 0 && o.methodName == "naive" ==> out.Some? && out.value.progress == |inp.db|
    ensures var firstPass := FirstPass(inp.db, inp.genes, o.numRepresentatives, inp.draws, inp.readMap, aligner);
      o.nThreads > 0 && o.methodName == "categorical" ==> out.Some? && out.value.progress <= |firstPass|
    ensures var firstPass := FirstPass(inp.db, inp.genes, o.numRepresentatives, inp.draws, inp.readMap, aligner);
      o.methodName == "regional" && out.Some? ==>
        out.value.progress == |firstPass| && Grows(map[], out.value.store, inp.db, firstPass.Keys)
  {
    if o.nThreads <= 0 then None
    else
      var firstPass := FirstPass(inp.db, inp.genes, o.numRepresentatives, inp.draws, inp.readMap, aligner);
      var start := Shared(map[], 0);
      FirstKeysCount(inp.firstKeys, firstPass);
      match Dispatch(o.methodName)
      case NaiveStrategy =>
        NaiveProgressTotal(inp.db, inp.keys, o.nThreads, inp.readMap, aligner);
        Some(Naive(inp.db, inp.keys, o.nThreads, inp.readMap, aligner))
      case RegionalStrategy =>
        RegionalRunSpec(start, inp.db, firstPass, inp.firstKeys, 0, inp.alleleOrders, inp.readOrder, inp.readMap, o.incPair, aligner);
        assert (set i | 0 <= i < |inp.firstKeys| :: inp.firstKeys[i]) == set g | g in inp.firstKeys;
        RegionalRun(start, inp.db, firstPass, inp.firstKeys, 0, inp.alleleOrders, inp.readOrder, inp.readMap, o.incPair, aligner)
      case CategoricalStrategy =>
        CategoricalProgress(start, inp.db, firstPass, inp.firstKeys, 0, inp.readMap, o.incPair, aligner);
        Some(CategoricalRun(start, inp.db, firstPass, inp.firstKeys, 0, inp.readMap, o.incPair, aligner))
  }

  /** Distinct keys listing a map's keys are as many as its entries. */
  lemma FirstKeysCount(firstKeys: seq<string>, firstPass: Store)
    requires Distinct(firstKeys) && (set g | g in firstKeys) == firstPass.Keys
    ensures |firstKeys| == |firstPass|
  {
    DistinctCard(firstKeys);
  }

  // ---------------------------------------------------------------------
  // The `report` command (main.cpp:42, cli.hpp:28-68)
  // ---------------------------------------------------------------------

  /** The filters the `report` options ask for. */
  function FiltersOf(o: ReportOptions): Filters
  {
    Filters(o.kirId, o.alleleId, o.readId)
  }

  /** `show_report(alignments_file, kir_id, allele_id, read_id,
      num_results)` on the text of the file. */
  function RunReportOn(o: ReportOptions, text: string): (out: Output)
    ensures forall k :: 0 <= k < |out.shown| ==> Selects(FiltersOf(o), out.shown[k])
    ensures o.numResults >= 0 ==> |out.shown| <= o.numResults
  {
    ShowReport(Text.Lines(text), FiltersOf(o), o.numResults)
  }

  /** With the default filters every record is selected. */
  lemma {:induction false} SelectAll(f: Filters, recs: seq<ReadAlignment>)
    requires f == Filters("", "", -1)
    ensures Select(f, recs) == recs
  {
    if recs != [] {
      SelectAll(f, recs[1..]);
      assert [recs[0]] + recs[1..] == recs;
    }
  }

  /** `report <file>` with no options prints every record the align run
      wrote, in the order written, and ends normally. */
  lemma {:induction false} ReportAll(program: string, file: string, recs: seq<ReadAlignment>, hwThreads: int)
    requires forall k :: 0 <= k < |recs| ==> Writable(recs[k])
    ensures var c := Parse([program, "report", file], hwThreads);
      c.RunReport? && RunReportOn(c.report, FormatFile(recs)) == Output(recs, false)
  {
    ParseReport(program, file, [], hwThreads);
    assert [program, "report", file] + RenderReports([]) == [program, "report", file];
    var o := ReportDefaults(file);
    assert ApplyReports(o, []) == o;
    ReportRoundTrip(recs, FiltersOf(o), -1);
    SelectAll(FiltersOf(o), recs);
  }

  /** The file written from a result store, read back with no options,
      prints a record exactly when some gene and allele of the store holds
      it. */
  lemma {:induction false} ReportWritten(program: string, file: string, store: Store, genes: seq<string>,
                      alleles: map<string, seq<string>>, hwThreads: int, r: ReadAlignment)
    requires Enumerates(store, genes, alleles)
    requires forall g, a, k :: g in store && a in store[g] && 0 <= k < |store[g][a]| ==> Writable(store[g][a][k])
    ensures var c := Parse([program, "report", file], hwThreads);
      c.RunReport? && !RunReportOn(c.report, FormatFile(Written(store, genes, alleles))).aborted
      && (r in RunReportOn(c.report, FormatFile(Written(store, genes, alleles))).shown
          <==> exists g, a :: g in store && a in store[g] && r in store[g][a])
  {
    var recs := Written(store, genes, alleles);
    forall k | 0 <= k < |recs|
      ensures Writable(recs[k])
    {
      WrittenContents(store, genes, alleles, recs[k]);
      var g, a :| g in store && a in store[g] && recs[k] in store[g][a];
      var j :| 0 <= j < |store[g][a]| && store[g][a][j] == recs[k];
    }
    ReportAll(program, file, recs, hwThreads);
    WrittenContents(store, genes, alleles, r);
  }
}
