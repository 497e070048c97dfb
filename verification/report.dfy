/** The alignments file: the flat record `align -o` writes for every match
    (main.cpp:175-185) and the `report` command that reads it back
    (cli.hpp:28-68). Printing is reduced to the list of records that would
    be printed. */
module Report {
  import opened Results
  import opened Text
  import opened Types

  // ---------------------------------------------------------------------
  // Writing
  // ---------------------------------------------------------------------

  /** The strand field: "1" for a reversed match, "0" otherwise. */
  function StrandField(reversed: bool): string
  {
    if reversed then "1" else "0"
  }

  /** The ten fields of one written record, in the order read_id, kir_id,
      allele_id, strand, cost, read_start, read_end, query_start,
      query_end, cigar. */
  function Fields(r: ReadAlignment): (f: seq<string>)
    ensures |f| == 10
    ensures f[1] == r.kirId && f[2] == r.alleleId && f[9] == r.cigar
    ensures f[3] == "1" <==> r.reversed
  {
    [IntToString(r.readId), r.kirId, r.alleleId, StrandField(r.reversed), IntToString(r.cost),
     IntToString(r.readStart), IntToString(r.readEnd), IntToString(r.queryStart), IntToString(r.queryEnd),
     r.cigar]
  }

  /** One line of the alignments file, without its newline. */
  function FormatRecord(r: ReadAlignment): string
  {
    Join(Fields(r), '\t')
  }

  /** The alignments file holding `recs` in order, one line each. */
  function FormatFile(recs: seq<ReadAlignment>): string
  {
    Unlines(seq(|recs|, i requires 0 <= i < |recs| => FormatRecord(recs[i])))
  }

  /** The matches of a store in the order the writer visits them: genes in
      `genes` order, and within a gene its alleles in `alleles[gene]`
      order. */
  function Written(store: Store, genes: seq<string>, alleles: map<string, seq<string>>): seq<ReadAlignment>
  {
    if genes == [] then []
    else
      var order := if genes[0] in alleles then alleles[genes[0]] else [];
      GeneRecords(store, genes[0], order) + Written(store, genes[1..], alleles)
  }

  /** The matches of one gene, alleles in `order`. */
  function GeneRecords(store: Store, gene: string, order: seq<string>): seq<ReadAlignment>
  {
    if order == [] then [] else Hits(store, gene, order[0]) + GeneRecords(store, gene, order[1..])
  }

  lemma {:induction false} GeneRecordsMember(store: Store, gene: string, order: seq<string>, r: ReadAlignment)
    ensures r in GeneRecords(store, gene, order) <==> exists k :: 0 <= k < |order| && r in Hits(store, gene, order[k])
  {
    if order != [] {
      GeneRecordsMember(store, gene, order[1..], r);
      if exists k :: 0 <= k < |order| && r in Hits(store, gene, order[k]) {
        var k :| 0 <= k < |order| && r in Hits(store, gene, order[k]);
        if k > 0 {
          assert order[1..][k - 1] == order[k];
        }
      }
      if exists k :: 0 <= k < |order[1..]| && r in Hits(store, gene, order[1..][k]) {
        var k :| 0 <= k < |order[1..]| && r in Hits(store, gene, order[1..][k]);
        assert order[1..][k] == order[k + 1];
      }
    }
  }

  /** The writer visits every key of the maps it walks. */
  predicate Enumerates(store: Store, genes: seq<string>, alleles: map<string, seq<string>>)
  {
    (forall g :: g in store ==> g in genes)
    && (forall g :: g in store ==> g in alleles && forall a :: a in store[g] ==> a in alleles[g])
  }

  /** When the orders enumerate the store's keys, the written file holds
      exactly the store's matches: a record is written iff some allele of
      some gene holds it. */
  lemma {:induction false} WrittenContents(store: Store, genes: seq<string>, alleles: map<string, seq<string>>, r: ReadAlignment)
    requires Enumerates(store, genes, alleles)
    ensures r in Written(store, genes, alleles) <==> exists g, a :: g in store && a in store[g] && r in store[g][a]
  {
    if exists g, a :: g in store && a in store[g] && r in store[g][a] {
      var g, a :| g in store && a in store[g] && r in store[g][a];
      var i :| 0 <= i < |genes| && genes[i] == g;
      var k :| 0 <= k < |alleles[g]| && alleles[g][k] == a;
      GeneRecordsMember(store, g, alleles[g], r);
      WrittenHas(store, genes, alleles, i, r);
    }
    if r in Written(store, genes, alleles) {
      var i, a := WrittenFrom(store, genes, alleles, r);
    }
  }

  lemma {:induction false} WrittenHas(store: Store, genes: seq<string>, alleles: map<string, seq<string>>, i: nat, r: ReadAlignment)
    requires i < |genes| && genes[i] in alleles && r in GeneRecords(store, genes[i], alleles[genes[i]])
    ensures r in Written(store, genes, alleles)
  {
    if i > 0 {
      WrittenHas(store, genes[1..], alleles, i - 1, r);
    }
  }

  lemma {:induction false} WrittenFrom(store: Store, genes: seq<string>, alleles: map<string, seq<string>>, r: ReadAlignment)
    returns (g: string, a: string)
    requires r in Written(store, genes, alleles)
    ensures g in store && a in store[g] && r in store[g][a]
  {
    var order := if genes[0] in alleles then alleles[genes[0]] else [];
    if r in GeneRecords(store, genes[0], order) {
      GeneRecordsMember(store, genes[0], order, r);
      var k :| 0 <= k < |order| && r in Hits(store, genes[0], order[k]);
      g, a := genes[0], order[k];
    } else {
      g, a := WrittenFrom(store, genes[1..], alleles, r);
    }
  }

  // ---------------------------------------------------------------------
  // Reading back
  // ---------------------------------------------------------------------

  /** The `report` filters: `readId == -1`, an empty `kirId` and an empty
      `alleleId` each mean "any". */
  datatype Filters = Filters(kirId: string, alleleId: string, readId: int)

  /** A record passes the filters. */
  predicate Selects(f: Filters, r: ReadAlignment)
  {
    (f.readId == -1 || r.readId == f.readId)
    && (f.kirId == "" || r.kirId == f.kirId)
    && (f.alleleId == "" || r.alleleId == f.alleleId)
  }

  /** What one line does: it is printed, it is filtered out, or it ends the
      report. The last covers `stoi` throwing and the out-of-range
      `fields[k]` of a line with too few fields (undefined behaviour in the
      source). */
  datatype LineOutcome = Shown(record: ReadAlignment) | Skipped | Aborted

  /** One iteration of the report loop (cli.hpp:39-66). The fields are read
      in the source's order, so a line can be filtered out before its later
      fields are looked at. */
  function ReadLine(line: string, f: Filters): (o: LineOutcome)
    ensures o.Shown? ==> Selects(f, o.record)
  {
    var fields := Split(line, '\t');
    match StoI(fields[0])
    case None => Aborted
    case Some(id) =>
      if f.readId != -1 && id != f.readId then Skipped
      else if |fields| < 2 then Aborted
      else if f.kirId != "" && fields[1] != f.kirId then Skipped
      else if |fields| < 3 then Aborted
      else if f.alleleId != "" && fields[2] != f.alleleId then Skipped
      else if |fields| < 10 then Aborted
      else ParseRest(id, fields)
  }

  /** The rest of a line whose first three fields passed the filters. */
  function ParseRest(id: int, fields: seq<string>): (o: LineOutcome)
    requires |fields| >= 10
    ensures o.Shown? ==> o.record.readId == id && o.record.kirId == fields[1] && o.record.alleleId == fields[2]
  {
    match (StoI(fields[4]), StoI(fields[5]), StoI(fields[6]), StoI(fields[7]), StoI(fields[8]))
    case (Some(cost), Some(rs), Some(re), Some(qs), Some(qe)) =>
      Shown(ReadAlignment(id, fields[1], fields[2], fields[3] == "1", cost, rs, re, qs, qe, fields[9]))
    case _ => Aborted
  }

  /** What a report run produces: the records printed, and whether it ended
      abnormally. */
  datatype Output = Output(shown: seq<ReadAlignment>, aborted: bool)

  /** The report loop over what each line does (cli.hpp:37). The head
      counter is checked and decremented before each line is read, filtered
      lines included: a negative count never reaches zero, so every line is
      read, and zero reads nothing. At most `numResults` records are shown
      when it is not negative, and each comes from some line. */
  function Run(outcomes: seq<LineOutcome>, numResults: int): (out: Output)
    ensures numResults >= 0 ==> |out.shown| <= numResults
    ensures |out.shown| <= |outcomes|
    ensures forall k :: 0 <= k < |out.shown| ==> Shown(out.shown[k]) in outcomes
    decreases |outcomes|
  {
    if numResults == 0 || outcomes == [] then Output([], false)
    else match outcomes[0]
      case Aborted => Output([], true)
      case Skipped => Run(outcomes[1..], numResults - 1)
      case Shown(r) =>
        var rest := Run(outcomes[1..], numResults - 1);
        Output([r] + rest.shown, rest.aborted)
  }

  /** The counter stops the loop after `numResults` lines, whatever those
      lines did: a run with a non-negative count is the unbounded run over
      the first `numResults` lines, so no line past them is ever examined
      (an unreadable one included). */
  lemma {:induction false} HeadExamined(outcomes: seq<LineOutcome>, numResults: int, unbounded: int)
    requires numResults >= 0 && unbounded < 0
    ensures Run(outcomes, numResults) == Run(Head(outcomes, numResults), unbounded)
    decreases |outcomes|
  {
    if numResults > 0 && outcomes != [] {
      var h := Head(outcomes, numResults);
      assert h[0] == outcomes[0] && h[1..] == Head(outcomes[1..], numResults - 1);
      HeadExamined(outcomes[1..], numResults - 1, unbounded - 1);
    }
  }

  /** The records of the shown outcomes, in order. */
  function Records(outcomes: seq<LineOutcome>): seq<ReadAlignment>
  {
    if outcomes == [] then []
    else (if outcomes[0].Shown? then [outcomes[0].record] else []) + Records(outcomes[1..])
  }

  /** Without a head limit every line is examined until the first
      unreadable one: the run prints each shown record once, in line order,
      and ends abnormally exactly at the first aborted line. */
  lemma {:induction false} RunUnbounded(outcomes: seq<LineOutcome>, unbounded: int)
    requires unbounded < 0
    ensures Aborted !in outcomes ==> Run(outcomes, unbounded) == Output(Records(outcomes), false)
    ensures forall i :: 0 <= i < |outcomes| && outcomes[i] == Aborted && Aborted !in outcomes[..i] ==>
      Run(outcomes, unbounded) == Output(Records(outcomes[..i]), true)
    decreases |outcomes|
  {
    if outcomes != [] {
      RunUnbounded(outcomes[1..], unbounded - 1);
      forall i | 0 <= i < |outcomes| && outcomes[i] == Aborted && Aborted !in outcomes[..i]
        ensures Run(outcomes, unbounded) == Output(Records(outcomes[..i]), true)
      {
        if i > 0 {
          assert outcomes[..i][0] == outcomes[0] && outcomes[..i][1..] == outcomes[1..][..i - 1];
          assert outcomes[1..][i - 1] == Aborted;
          assert Aborted !in outcomes[1..][..i - 1] by {
            assert outcomes[1..][..i - 1] == outcomes[..i][1..];
          }
        }
      }
      if Aborted !in outcomes {
        assert Aborted !in outcomes[1..] by {
          assert forall k :: 0 <= k < |outcomes[1..]| ==> outcomes[1..][k] == outcomes[k + 1];
        }
      }
    }
  }

  /** What each line of the file does. */
  function Outcomes(lines: seq<string>, f: Filters): (o: seq<LineOutcome>)
    ensures |o| == |lines| && forall i :: 0 <= i < |lines| ==> o[i] == ReadLine(lines[i], f)
  {
    seq(|lines|, i requires 0 <= i < |lines| => ReadLine(lines[i], f))
  }

  /** `show_report` on the lines of the alignments file: every record it
      prints passes the filters, and at most `numResults` are printed when
      that is not negative. */
  function ShowReport(lines: seq<string>, f: Filters, numResults: int): (out: Output)
    ensures forall k :: 0 <= k < |out.shown| ==> Selects(f, out.shown[k])
    ensures numResults >= 0 ==> |out.shown| <= numResults
    ensures numResults == 0 ==> out == Output([], false)
  {
    var o := Outcomes(lines, f);
    OutcomesSelect(lines, f);
    Run(o, numResults)
  }

  /** `show_report` with a head limit is the unbounded report over the
      first `numResults` lines of the file. */
  lemma ShowReportHead(lines: seq<string>, f: Filters, numResults: int, unbounded: int)
    requires numResults >= 0 && unbounded < 0
    ensures ShowReport(lines, f, numResults) == ShowReport(Head(lines, numResults), f, unbounded)
  {
    assert Outcomes(Head(lines, numResults), f) == Head(Outcomes(lines, f), numResults);
    HeadExamined(Outcomes(lines, f), numResults, unbounded);
  }

  /** Every record a line shows passes the filters. */
  lemma OutcomesSelect(lines: seq<string>, f: Filters)
    ensures forall r :: Shown(r) in Outcomes(lines, f) ==> Selects(f, r)
  {
    var o := Outcomes(lines, f);
    forall r | Shown(r) in o
      ensures Selects(f, r)
    {
      var i :| 0 <= i < |o| && o[i] == Shown(r);
      assert o[i] == ReadLine(lines[i], f);
    }
  }

  /** The lines the head counter lets the loop read. */
  function Head<T>(xs: seq<T>, numResults: int): (h: seq<T>)
    ensures numResults < 0 ==> h == xs
    ensures numResults >= 0 ==> h == xs[..Min(numResults, |xs|)]
  {
    if numResults < 0 || numResults >= |xs| then xs else xs[..numResults]
  }

  /** The records that pass the filters, in order. */
  function Select(f: Filters, recs: seq<ReadAlignment>): (sel: seq<ReadAlignment>)
    ensures forall k :: 0 <= k < |sel| ==> Selects(f, sel[k])
    ensures forall r :: r in recs && Selects(f, r) ==> r in sel
    ensures |sel| <= |recs|
  {
    if recs == [] then []
    else (if Selects(f, recs[0]) then [recs[0]] else []) + Select(f, recs[1..])
  }

  /** A record can be written faithfully: its strings hold no tab or
      newline and its numbers fit an `int`. */
  predicate Writable(r: ReadAlignment)
  {
    '\t' !in r.kirId && '\n' !in r.kirId
    && '\t' !in r.alleleId && '\n' !in r.alleleId
    && '\t' !in r.cigar && '\n' !in r.cigar
    && IsInt(r.readId) && IsInt(r.cost) && IsInt(r.readStart) && IsInt(r.readEnd)
    && IsInt(r.queryStart) && IsInt(r.queryEnd)
  }

  /** A written line splits into the ten fields it was built from. */
  lemma {:induction false} SplitRecord(r: ReadAlignment)
    requires Writable(r)
    ensures Split(FormatRecord(r), '\t') == Fields(r)
    ensures '\n' !in FormatRecord(r)
  {
    hide IntToString, Split, Join;
    var fs := Fields(r);
    IntToStringPlain(r.readId);
    IntToStringPlain(r.cost);
    IntToStringPlain(r.readStart);
    IntToStringPlain(r.readEnd);
    IntToStringPlain(r.queryStart);
    IntToStringPlain(r.queryEnd);
    assert forall i :: 0 <= i < |fs| ==> '\t' !in fs[i] && '\n' !in fs[i];
    SplitJoin(fs, '\t');
    JoinExcludes(fs, '\t', '\n');
  }

  /** Reading back a written line yields the record exactly when it passes
      the filters, and skips it otherwise. */
  lemma {:induction false} ReadLineFormat(r: ReadAlignment, f: Filters)
    requires Writable(r)
    ensures ReadLine(FormatRecord(r), f) == if Selects(f, r) then Shown(r) else Skipped
  {
    hide StoI, IntToString, Split, ParseRest;
    SplitRecord(r);
    var fields := Fields(r);
    assert StoI(fields[0]) == Some(r.readId) by {
      StoIToString(r.readId);
    }
    ParseRestFields(r);
  }

  /** The numeric fields of a written record parse back to its numbers. */
  lemma {:induction false} ParseRestFields(r: ReadAlignment)
    requires Writable(r)
    ensures ParseRest(r.readId, Fields(r)) == Shown(r)
  {
    hide StoI, IntToString;
    var fields := Fields(r);
    StoIToString(r.cost);
    StoIToString(r.readStart);
    StoIToString(r.readEnd);
    StoIToString(r.queryStart);
    StoIToString(r.queryEnd);
    assert fields[4] == IntToString(r.cost) && fields[5] == IntToString(r.readStart)
      && fields[6] == IntToString(r.readEnd) && fields[7] == IntToString(r.queryStart)
      && fields[8] == IntToString(r.queryEnd);
  }

  /** What the lines of a written file do: a record is shown exactly when
      it passes the filters. */
  function Expected(recs: seq<ReadAlignment>, f: Filters): seq<LineOutcome>
  {
    seq(|recs|, i requires 0 <= i < |recs| => if Selects(f, recs[i]) then Shown(recs[i]) else Skipped)
  }

  /** The file written for `recs`, read back with `report`, prints the
      records among the first `numResults` lines (all when negative) that
      pass the filters, in file order, and ends normally. */
  lemma {:induction false} ReportRoundTrip(recs: seq<ReadAlignment>, f: Filters, numResults: int)
    requires forall k :: 0 <= k < |recs| ==> Writable(recs[k])
    ensures ShowReport(Lines(FormatFile(recs)), f, numResults) == Output(Select(f, Head(recs, numResults)), false)
  {
    var lines := seq(|recs|, i requires 0 <= i < |recs| => FormatRecord(recs[i]));
    forall i | 0 <= i < |lines|
      ensures '\n' !in lines[i]
    {
      SplitRecord(recs[i]);
    }
    LinesUnlines(lines);
    forall i | 0 <= i < |lines|
      ensures Outcomes(lines, f)[i] == Expected(recs, f)[i]
    {
      ReadLineFormat(recs[i], f);
    }
    assert Outcomes(lines, f) == Expected(recs, f);
    RunExpected(recs, f, numResults);
  }

  lemma {:induction false} RunExpected(recs: seq<ReadAlignment>, f: Filters, numResults: int)
    ensures Run(Expected(recs, f), numResults) == Output(Select(f, Head(recs, numResults)), false)
    decreases |recs|
  {
    if numResults != 0 && recs != [] {
      RunExpected(recs[1..], f, numResults - 1);
      SelectHead(f, recs, numResults);
      RunExpectedStep(recs, f, numResults);
    }
  }

  lemma SelectHead(f: Filters, recs: seq<ReadAlignment>, numResults: int)
    requires numResults != 0 && recs != []
    ensures Select(f, Head(recs, numResults))
         == (if Selects(f, recs[0]) then [recs[0]] else []) + Select(f, Head(recs[1..], numResults - 1))
  {
    var h := Head(recs, numResults);
    assert h[1..] == Head(recs[1..], numResults - 1);
    assert h != [] && h[0] == recs[0];
  }

  lemma RunExpectedStep(recs: seq<ReadAlignment>, f: Filters, numResults: int)
    requires numResults != 0 && recs != []
    ensures var rest := Run(Expected(recs[1..], f), numResults - 1);
      Run(Expected(recs, f), numResults)
        == if Selects(f, recs[0]) then Output([recs[0]] + rest.shown, rest.aborted) else rest
  {
    assert Expected(recs, f)[1..] == Expected(recs[1..], f);
  }

  /** Printed records are a subsequence of the lines: each is parsed from a
      distinct line, and in file order. `idx[k]` is the line of the k-th
      printed record. */
  predicate FromLines(out: seq<ReadAlignment>, lines: seq<string>, f: Filters, idx: seq<nat>)
  {
    |idx| == |out|
    && (forall k :: 0 <= k < |idx| ==> idx[k] < |lines| && ReadLine(lines[idx[k]], f) == Shown(out[k]))
    && (forall k, l :: 0 <= k < l < |idx| ==> idx[k] < idx[l])
  }

  /** The same, over line outcomes. */
  predicate Traced(out: seq<ReadAlignment>, outcomes: seq<LineOutcome>, idx: seq<nat>)
  {
    |idx| == |out|
    && (forall k :: 0 <= k < |idx| ==> idx[k] < |outcomes| && outcomes[idx[k]] == Shown(out[k]))
    && (forall k, l :: 0 <= k < l < |idx| ==> idx[k] < idx[l])
  }

  /** Every report output can be traced back, line by line and in order,
      to the lines it was parsed from. */
  lemma {:induction false} ShownAreSubsequence(lines: seq<string>, f: Filters, numResults: int) returns (idx: seq<nat>)
    ensures FromLines(ShowReport(lines, f, numResults).shown, lines, f, idx)
  {
    idx := RunTraced(Outcomes(lines, f), numResults);
  }

  lemma {:induction false} RunTraced(outcomes: seq<LineOutcome>, numResults: int) returns (idx: seq<nat>)
    ensures Traced(Run(outcomes, numResults).shown, outcomes, idx)
    decreases |outcomes|
  {
    if numResults == 0 || outcomes == [] {
      idx := [];
    } else {
      var tail := Run(outcomes[1..], numResults - 1).shown;
      var rest := RunTraced(outcomes[1..], numResults - 1);
      var shifted := Shift(rest);
      TracedShift(tail, outcomes, rest);
      match outcomes[0]
      case Aborted =>
        idx := [];
      case Skipped =>
        assert Run(outcomes, numResults).shown == tail;
        idx := shifted;
      case Shown(r) =>
        assert Run(outcomes, numResults).shown == [r] + tail;
        TracedCons(r, tail, outcomes, shifted);
        idx := [0] + shifted;
    }
  }

  /** Every index moved one line down. */
  function Shift(idx: seq<nat>): (s: seq<nat>)
    ensures |s| == |idx| && forall k :: 0 <= k < |idx| ==> s[k] == idx[k] + 1
  {
    seq(|idx|, k requires 0 <= k < |idx| => idx[k] + 1)
  }

  /** A trace into the lines after the first is a trace into all of them,
      shifted by one. */
  lemma TracedShift(out: seq<ReadAlignment>, outcomes: seq<LineOutcome>, idx: seq<nat>)
    requires outcomes != [] && Traced(out, outcomes[1..], idx)
    ensures Traced(out, outcomes, Shift(idx))
  {
    var s := Shift(idx);
    forall k | 0 <= k < |idx|
      ensures s[k] < |outcomes| && outcomes[s[k]] == Shown(out[k])
    {
      assert outcomes[1..][idx[k]] == outcomes[s[k]];
    }
  }

  /** A record shown by the first line goes in front of a trace that
      starts after it. */
  lemma TracedCons(r: ReadAlignment, out: seq<ReadAlignment>, outcomes: seq<LineOutcome>, idx: seq<nat>)
    requires outcomes != [] && outcomes[0] == Shown(r) && Traced(out, outcomes, idx)
    requires forall k :: 0 <= k < |idx| ==> idx[k] >= 1
    ensures Traced([r] + out, outcomes, [0] + idx)
  {
    var full := [0] + idx;
    forall k | 0 <= k < |full|
      ensures full[k] < |outcomes| && outcomes[full[k]] == Shown(([r] + out)[k])
    {
      if k > 0 {
        assert full[k] == idx[k - 1] && ([r] + out)[k] == out[k - 1];
      }
    }
  }
}
