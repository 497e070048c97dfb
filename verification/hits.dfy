/** What `align_minimap` (kir.hpp:83-138) does with the hits the mapping
    kernel reports: the mismatch filter, the CIGAR string and the grouping
    of kept matches by gene and allele. The kernel itself is not modelled;
    its output for a staged reference and read set is the input here. */
module Hits {
  import opened Results
  import opened Text
  import opened Types
  import opened Kir

  /** One hit as the kernel reports it: reference name, strand, aligned
      block length, matching bases, ambiguous bases, the `rs`/`re` and
      `qs`/`qe` coordinate pairs, and the packed CIGAR operations (each a
      32-bit word holding `length << 4 | opcode`). */
  datatype RawHit = RawHit(
    refName: string,
    rev: bool,
    blen: int,
    mlen: int,
    nAmbi: int,
    rs: int,
    re: int,
    qs: int,
    qe: int,
    cigarOps: seq<nat>)

  /** A query read: its name in the staged read file, its length, and the
      hits reported for it, in the kernel's order. */
  datatype QueryHits = QueryHits(name: string, seqLen: int, hits: seq<RawHit>)

  /** The default of the `max_num_mismatches` parameter. */
  const DefaultMaxMismatches: int := 5

  /** The mismatch count recorded as the match's cost. */
  function Mismatches(h: RawHit): int
  {
    h.blen - h.mlen + h.nAmbi
  }

  /** The acceptance test: mismatches plus the read bases left outside the
      aligned reference span may not exceed the limit. */
  predicate Accepted(h: RawHit, seqLen: int, maxMismatches: int)
  {
    Mismatches(h) + seqLen - (h.re - h.rs) <= maxMismatches
  }

  // ---------------------------------------------------------------------
  // CIGAR strings
  // ---------------------------------------------------------------------

  /** The kernel's opcode letters, `MM_CIGAR_STR` = "MIDNSHP=XB". Indexing
      the C literal at 10 reads its terminating NUL, so that character is
      part of the table; opcodes 11 to 15 would read past the literal. */
  const CigarLetters: string := "MIDNSHP=XB\0"

  /** A packed operation the table can render: a 32-bit word whose low four
      bits index the letter table. */
  predicate RenderableOp(op: nat)
  {
    op < 0x1_0000_0000 && op % 16 < |CigarLetters|
  }

  predicate Renderable(ops: seq<nat>)
  {
    forall i :: 0 <= i < |ops| ==> RenderableOp(ops[i])
  }

  /** The CIGAR string of a hit: for each operation in order, the decimal
      length `op >> 4` followed by the letter `op & 0xf` names. No clipping
      operation is added. */
  function CigarString(ops: seq<nat>): string
    requires Renderable(ops)
  {
    if ops == [] then ""
    else
      assert RenderableOp(ops[0]);
      NatToString(ops[0] / 16) + [CigarLetters[ops[0] % 16]] + CigarString(ops[1..])
  }

  /** The string of a concatenation of operation lists is the concatenation
      of their strings: the rendering works operation by operation. */
  lemma {:induction false} CigarStringAppend(a: seq<nat>, b: seq<nat>)
    requires Renderable(a)
    requires Renderable(b)
    ensures Renderable(a + b)
    ensures CigarString(a + b) == CigarString(a) + CigarString(b)
  {
    assert Renderable(a + b) by {
      forall i | 0 <= i < |a + b|
        ensures RenderableOp((a + b)[i])
      {
        if i < |a| { assert (a + b)[i] == a[i]; } else { assert (a + b)[i] == b[i - |a|]; }
      }
    }
    if a != [] {
      assert (a + b)[1..] == a[1..] + b;
      CigarStringAppend(a[1..], b);
    } else {
      assert a + b == b;
    }
  }

  /** Reads one operation off the front of a CIGAR string: a run of
      digits, then one letter of the table. Yields the packed operation and
      the number of characters consumed. */
  function ParseOp(s: string): (r: Option<(nat, nat)>)
    ensures r.Some? ==> 0 < r.value.1 <= |s|
  {
    var digits := DigitRun(s);
    if digits == [] || |digits| == |s| then None
    else match OpCode(s[|digits|])
      case None => None
      case Some(code) => Some((DigitsValue(digits) * 16 + code, |digits| + 1))
  }

  /** Reads a CIGAR string back into packed operations. */
  function ParseCigar(s: string): Option<seq<nat>>
    decreases |s|
  {
    if s == [] then Some([])
    else match ParseOp(s)
      case None => None
      case Some(step) =>
        match ParseCigar(s[step.1..])
        case None => None
        case Some(rest) => Some([step.0] + rest)
  }

  /** The position of a letter in the table, if it is one. */
  function OpCode(c: char): Option<nat>
  {
    if c == 'M' then Some(0) else if c == 'I' then Some(1) else if c == 'D' then Some(2)
    else if c == 'N' then Some(3) else if c == 'S' then Some(4) else if c == 'H' then Some(5)
    else if c == 'P' then Some(6) else if c == '=' then Some(7) else if c == 'X' then Some(8)
    else if c == 'B' then Some(9) else if c == '\0' then Some(10) else None
  }

  /** No letter of the table is a digit, and each letter decodes to its
      own position. */
  lemma LetterCode(code: nat)
    requires code < |CigarLetters|
    ensures !IsDigit(CigarLetters[code])
    ensures OpCode(CigarLetters[code]) == Some(code)
  {
  }

  /** Reading one rendered operation in front of any text. */
  lemma ParseOpRendered(s: string, n: nat, len: nat, code: nat)
    requires 1 <= n < |s| && AllDigits(s[..n]) && DigitsValue(s[..n]) == len
    requires code < |CigarLetters| && s[n] == CigarLetters[code]
    ensures ParseOp(s) == Some((len * 16 + code, n + 1))
  {
    LetterCode(code);
    DigitRunOfDigits(s[..n], s[n..]);
    assert s[..n] + s[n..] == s;
  }

  lemma ParseCigarCons(s: string, op: nat, n: nat, rest: seq<nat>)
    requires s != [] && n <= |s|
    requires ParseOp(s) == Some((op, n)) && ParseCigar(s[n..]) == Some(rest)
    ensures ParseCigar(s) == Some([op] + rest)
  {
  }

  /** A packed operation is its length times 16 plus its opcode. */
  lemma Unpack(op: nat)
    ensures (op / 16) * 16 + op % 16 == op
  {
  }

  /** A rendered operation reads back as itself in front of any text. */
  lemma RenderedOp(op: nat, tail: string)
    requires RenderableOp(op)
    ensures var digits := NatToString(op / 16);
      ParseOp(digits + [CigarLetters[op % 16]] + tail) == Some((op, |digits| + 1))
  {
    var digits := NatToString(op / 16);
    var s := digits + [CigarLetters[op % 16]] + tail;
    assert s[..|digits|] == digits;
    Unpack(op);
    ParseOpRendered(s, |digits|, op / 16, op % 16);
  }

  /** The first rendered operation reads back as itself, and the rest of
      the string renders the remaining operations. */
  lemma CigarHead(ops: seq<nat>)
    requires Renderable(ops) && ops != []
    ensures var k := |NatToString(ops[0] / 16)| + 1;
      k <= |CigarString(ops)|
      && ParseOp(CigarString(ops)) == Some((ops[0], k))
      && CigarString(ops)[k..] == CigarString(ops[1..])
  {
    assert RenderableOp(ops[0]);
    var digits := NatToString(ops[0] / 16);
    var tail := CigarString(ops[1..]);
    assert CigarString(ops) == digits + [CigarLetters[ops[0] % 16]] + tail;
    RenderedOp(ops[0], tail);
  }

  /** The CIGAR string determines the packed operations it was rendered
      from. */
  lemma {:induction false} CigarRoundTrip(ops: seq<nat>)
    requires Renderable(ops)
    ensures ParseCigar(CigarString(ops)) == Some(ops)
  {
    if ops != [] {
      CigarHead(ops);
      CigarRoundTrip(ops[1..]);
      ParseCigarCons(CigarString(ops), ops[0], |NatToString(ops[0] / 16)| + 1, ops[1..]);
      assert [ops[0]] + ops[1..] == ops;
    }
  }

  // ---------------------------------------------------------------------
  // Collecting the kept matches
  // ---------------------------------------------------------------------

  /** The match record built from a kept hit of read `readId`. */
  function ToRecord(readId: int, h: RawHit): ReadAlignment
    requires Renderable(h.cigarOps)
  {
    var parts := SplitName(h.refName);
    ReadAlignment(readId, parts.0, parts.1, h.rev, Mismatches(h), h.rs, h.re, h.qs, h.qe, CigarString(h.cigarOps))
  }

  /** One (query, hit) pair of the nested loop. */
  datatype Reported = Reported(name: string, seqLen: int, hit: RawHit)

  predicate WellFormed(r: Reported)
  {
    Renderable(r.hit.cigarOps)
  }

  /** The pairs in the order the loops visit them: query by query, hit by
      hit. */
  function Flatten(queries: seq<QueryHits>): (flat: seq<Reported>)
  {
    if queries == [] then []
    else
      seq(|queries[0].hits|, j requires 0 <= j < |queries[0].hits| =>
        Reported(queries[0].name, queries[0].seqLen, queries[0].hits[j]))
      + Flatten(queries[1..])
  }

  /** The loop body applied to each pair in turn: rejected hits are
      skipped; a kept hit's read name goes through `stoi` (whose exception
      ends the run, here `None`) and the record is appended under its
      gene and allele. */
  function Collect(flat: seq<Reported>, maxMismatches: int, store: Store): Option<Store>
    requires forall i :: 0 <= i < |flat| ==> WellFormed(flat[i])
  {
    if flat == [] then Some(store)
    else
      var r := flat[0];
      assert WellFormed(r);
      if !Accepted(r.hit, r.seqLen, maxMismatches) then Collect(flat[1..], maxMismatches, store)
      else match StoI(r.name)
        case None => None
        case Some(readId) =>
          var rec := ToRecord(readId, r.hit);
          Collect(flat[1..], maxMismatches, MergeGene(store, rec.kirId, map[rec.alleleId := [rec]]))
  }

  /** `align_minimap` after the kernel: all kept matches grouped by gene
      and allele. */
  function AlignMinimap(queries: seq<QueryHits>, maxMismatches: int): Option<Store>
    requires forall i :: 0 <= i < |Flatten(queries)| ==> WellFormed(Flatten(queries)[i])
  {
    Collect(Flatten(queries), maxMismatches, map[])
  }

  /** The record a single pair contributes to `gene` and `allele`. */
  function KeptHere(r: Reported, maxMismatches: int, gene: string, allele: string): seq<ReadAlignment>
    requires WellFormed(r)
  {
    if Accepted(r.hit, r.seqLen, maxMismatches) && StoI(r.name).Some?
      && SplitName(r.hit.refName) == (gene, allele)
    then [ToRecord(StoI(r.name).value, r.hit)]
    else []
  }

  /** Reference for the grouping: the records, in visiting order, of the
      accepted hits whose reference name splits into `gene` and `allele`. */
  function Kept(flat: seq<Reported>, maxMismatches: int, gene: string, allele: string): seq<ReadAlignment>
    requires forall i :: 0 <= i < |flat| ==> WellFormed(flat[i])
  {
    if flat == [] then []
    else KeptHere(flat[0], maxMismatches, gene, allele) + Kept(flat[1..], maxMismatches, gene, allele)
  }

  /** Every kept record carries the cost the filter accepted, under the gene
      and allele its reference name names. */
  lemma {:induction false} KeptRecords(flat: seq<Reported>, maxMismatches: int, gene: string, allele: string)
    requires forall i :: 0 <= i < |flat| ==> WellFormed(flat[i])
    ensures forall rec :: rec in Kept(flat, maxMismatches, gene, allele) ==>
      rec.kirId == gene && rec.alleleId == allele
      && (exists i :: 0 <= i < |flat| && Accepted(flat[i].hit, flat[i].seqLen, maxMismatches)
            && rec.cost == Mismatches(flat[i].hit) && rec.readStart == flat[i].hit.rs
            && rec.readEnd == flat[i].hit.re && StoI(flat[i].name) == Some(rec.readId))
  {
    if flat != [] {
      KeptRecords(flat[1..], maxMismatches, gene, allele);
      forall rec | rec in Kept(flat, maxMismatches, gene, allele)
        ensures rec.kirId == gene && rec.alleleId == allele
          && (exists i :: 0 <= i < |flat| && Accepted(flat[i].hit, flat[i].seqLen, maxMismatches)
                && rec.cost == Mismatches(flat[i].hit) && rec.readStart == flat[i].hit.rs
                && rec.readEnd == flat[i].hit.re && StoI(flat[i].name) == Some(rec.readId))
      {
        if rec in KeptHere(flat[0], maxMismatches, gene, allele) {
          assert Accepted(flat[0].hit, flat[0].seqLen, maxMismatches);
        } else {
          assert rec in Kept(flat[1..], maxMismatches, gene, allele);
          var i :| 0 <= i < |flat[1..]| && Accepted(flat[1..][i].hit, flat[1..][i].seqLen, maxMismatches)
            && rec.cost == Mismatches(flat[1..][i].hit) && rec.readStart == flat[1..][i].hit.rs
            && rec.readEnd == flat[1..][i].hit.re && StoI(flat[1..][i].name) == Some(rec.readId);
          assert flat[1..][i] == flat[i + 1];
        }
      }
    }
  }

  /** Every accepted hit's read name is a number. */
  predicate NamesParse(flat: seq<Reported>, maxMismatches: int)
  {
    forall i :: 0 <= i < |flat| && Accepted(flat[i].hit, flat[i].seqLen, maxMismatches) ==> StoI(flat[i].name).Some?
  }

  lemma NamesParseCons(flat: seq<Reported>, maxMismatches: int)
    requires flat != []
    ensures NamesParse(flat, maxMismatches)
      <==> ((Accepted(flat[0].hit, flat[0].seqLen, maxMismatches) ==> StoI(flat[0].name).Some?)
        && NamesParse(flat[1..], maxMismatches))
  {
    hide Accepted, StoI;
    assert forall i :: 1 <= i < |flat| ==> flat[i] == flat[1..][i - 1];
  }

  /** The grouping loop fails exactly when a kept hit's read name is not a
      number. */
  lemma {:induction false} CollectFails(flat: seq<Reported>, maxMismatches: int, store: Store)
    requires forall i :: 0 <= i < |flat| ==> WellFormed(flat[i])
    ensures Collect(flat, maxMismatches, store).Some? <==> NamesParse(flat, maxMismatches)
  {
    if flat != [] {
      var r := flat[0];
      var rest := flat[1..];
      NamesParseCons(flat, maxMismatches);
      assert forall i :: 0 <= i < |rest| ==> WellFormed(rest[i]);
      hide Accepted, StoI, ToRecord, MergeGene, NamesParse;
      if !Accepted(r.hit, r.seqLen, maxMismatches) {
        CollectFails(rest, maxMismatches, store);
      } else if StoI(r.name).Some? {
        var rec := ToRecord(StoI(r.name).value, r.hit);
        CollectFails(rest, maxMismatches, MergeGene(store, rec.kirId, map[rec.alleleId := [rec]]));
      }
    }
  }

  /** Appending one record touches only its own gene and allele. */
  lemma MergeOne(store: Store, rec: ReadAlignment, gene: string, allele: string)
    ensures Hits(MergeGene(store, rec.kirId, map[rec.alleleId := [rec]]), gene, allele)
      == Hits(store, gene, allele) + (if (gene, allele) == (rec.kirId, rec.alleleId) then [rec] else [])
  {
    var next := MergeGene(store, rec.kirId, map[rec.alleleId := [rec]]);
    if gene == rec.kirId {
      assert Hits(next, gene, allele) == Hits(store, gene, allele) + AlleleList(map[rec.alleleId := [rec]], allele);
    } else if gene in store {
      assert next[gene] == store[gene];
    }
  }

  /** The record an accepted pair with a numeric read name contributes. */
  lemma KeptHereAccepted(r: Reported, maxMismatches: int, gene: string, allele: string)
    requires WellFormed(r) && Accepted(r.hit, r.seqLen, maxMismatches) && StoI(r.name).Some?
    ensures var rec := ToRecord(StoI(r.name).value, r.hit);
      KeptHere(r, maxMismatches, gene, allele)
        == (if (gene, allele) == (rec.kirId, rec.alleleId) then [rec] else [])
  {
  }

  /** One accepted pair with a numeric read name: the loop goes on from the
      store with its record appended. */
  lemma CollectAccepted(r: Reported, rest: seq<Reported>, maxMismatches: int, store: Store)
    requires WellFormed(r) && forall i :: 0 <= i < |rest| ==> WellFormed(rest[i])
    requires Accepted(r.hit, r.seqLen, maxMismatches) && StoI(r.name).Some?
    ensures forall i :: 0 <= i < |[r] + rest| ==> WellFormed(([r] + rest)[i])
    ensures var rec := ToRecord(StoI(r.name).value, r.hit);
      Collect([r] + rest, maxMismatches, store)
        == Collect(rest, maxMismatches, MergeGene(store, rec.kirId, map[rec.alleleId := [rec]]))
  {
    assert ([r] + rest)[1..] == rest;
  }

  lemma ConcatAssoc<T>(a: seq<T>, b: seq<T>, c: seq<T>)
    ensures (a + b) + c == a + (b + c)
  {
  }

  /** When the grouping loop succeeds it appends to each gene and allele
      precisely the reference's records. */
  lemma {:induction false} CollectGroups(flat: seq<Reported>, maxMismatches: int, store: Store, gene: string, allele: string)
    requires forall i :: 0 <= i < |flat| ==> WellFormed(flat[i])
    requires Collect(flat, maxMismatches, store).Some?
    ensures Hits(Collect(flat, maxMismatches, store).value, gene, allele)
      == Hits(store, gene, allele) + Kept(flat, maxMismatches, gene, allele)
  {
    if flat != [] {
      var r := flat[0];
      var rest := flat[1..];
      assert flat == [r] + rest;
      assert WellFormed(r) && forall i :: 0 <= i < |rest| ==> WellFormed(rest[i]);
      var here := KeptHere(r, maxMismatches, gene, allele);
      assert Kept(flat, maxMismatches, gene, allele) == here + Kept(rest, maxMismatches, gene, allele);
      assert !Accepted(r.hit, r.seqLen, maxMismatches) ==> here == [];
      hide StoI, ToRecord, MergeGene, KeptHere, Hits, Kept, Accepted;
      if !Accepted(r.hit, r.seqLen, maxMismatches) {
        assert Collect(flat, maxMismatches, store) == Collect(rest, maxMismatches, store);
        CollectGroups(rest, maxMismatches, store, gene, allele);
        assert here + Kept(rest, maxMismatches, gene, allele) == Kept(rest, maxMismatches, gene, allele);
      } else {
        var rec := ToRecord(StoI(r.name).value, r.hit);
        var next := MergeGene(store, rec.kirId, map[rec.alleleId := [rec]]);
        CollectAccepted(r, rest, maxMismatches, store);
        hide Collect;
        var after := Collect(rest, maxMismatches, next).value;
        assert Hits(after, gene, allele) == Hits(next, gene, allele) + Kept(rest, maxMismatches, gene, allele) by {
          CollectGroups(rest, maxMismatches, next, gene, allele);
        }
        assert Hits(next, gene, allele) == Hits(store, gene, allele) + here by {
          MergeOne(store, rec, gene, allele);
          KeptHereAccepted(r, maxMismatches, gene, allele);
        }
        assert Collect(flat, maxMismatches, store).value == after;
        ConcatAssoc(Hits(store, gene, allele), here, Kept(rest, maxMismatches, gene, allele));
      }
    }
  }
}
