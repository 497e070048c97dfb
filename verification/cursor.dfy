/** The shared gene cursor of the three worker bodies, with the mutex taken
    away: the iterator is an index into the sequence of keys in the map's
    iteration order. Claims made under the lock by several workers happen
    one after another, so the claims of a whole run form one sequential
    schedule; which worker receives which claim is not modelled. */
module Cursor {
  import opened Results

  /** What one claim under the cursor lock yields: the end of the keys (the
      worker leaves its loop), or a batch of keys and the new position. */
  datatype Claim<K> = Exhausted | Claimed(batch: seq<K>, next: nat)

  /** `(int)kirs.size() / n_threads` with C's division, which truncates
      toward zero; dividing by zero is undefined, so `nThreads` must not be
      zero. */
  function NaiveChunkSize(total: nat, nThreads: int): (chunk: int)
    requires nThreads != 0
    ensures nThreads > 0 ==> chunk * nThreads <= total < (chunk + 1) * nThreads
    ensures nThreads < 0 ==> chunk <= 0
  {
    if nThreads > 0 then total / nThreads else -(total / -nThreads)
  }

  /** The naive claim (align_thread.hpp:28-39): an exhausted cursor ends
      the worker; otherwise up to `chunk` keys are taken from the front,
      stopping early at the end of the keys. */
  method ClaimChunk<K>(keys: seq<K>, cursor: nat, chunk: int) returns (claim: Claim<K>)
    requires cursor <= |keys|
    ensures claim.Exhausted? <==> cursor == |keys|
    ensures claim.Claimed? ==> claim.next == cursor + Min(Max(chunk, 0), |keys| - cursor)
    ensures claim.Claimed? ==> claim.batch == keys[cursor..claim.next]
  {
    if cursor == |keys| {
      return Exhausted;
    }
    var batch: seq<K> := [];
    var it := cursor;
    var i := 0;
    while i < chunk
      invariant cursor <= it <= |keys|
      invariant it == cursor + i && i <= Max(chunk, 0)
      invariant batch == keys[cursor..it]
    {
      if it == |keys| {
        break;
      }
      batch := batch + [keys[it]];
      it := it + 1;
      i := i + 1;
    }
    return Claimed(batch, it);
  }

  /** The naive claim as a value, for reasoning about whole runs. */
  function ChunkClaim<K>(keys: seq<K>, cursor: nat, chunk: int): (claim: Claim<K>)
    requires cursor <= |keys|
    ensures claim.Exhausted? <==> cursor == |keys|
    ensures claim.Claimed? ==> claim.next == cursor + Min(Max(chunk, 0), |keys| - cursor)
    ensures claim.Claimed? ==> claim.batch == keys[cursor..claim.next]
  {
    if cursor == |keys| then Exhausted
    else
      var next := cursor + Min(Max(chunk, 0), |keys| - cursor);
      Claimed(keys[cursor..next], next)
  }

  /** With fewer keys than workers the chunk is zero: a claim on a cursor
      that is not exhausted takes nothing and leaves the cursor where it
      was, so the same claim repeats forever and the remaining keys are
      never processed. */
  lemma NaiveStalls<K>(keys: seq<K>, cursor: nat, nThreads: int)
    requires cursor < |keys| && |keys| < nThreads
    ensures NaiveChunkSize(|keys|, nThreads) == 0
    ensures ChunkClaim(keys, cursor, NaiveChunkSize(|keys|, nThreads)) == Claimed([], cursor)
  {
    assert |keys| / nThreads == 0;
    assert keys[cursor..cursor] == [];
  }

  /** The chunk the naive strategy evidently intends: the even share of
      the keys, but at least one. */
  function FixedChunkSize(total: nat, nThreads: int): (chunk: nat)
    requires nThreads != 0
    ensures chunk >= 1
    ensures nThreads > 0 && total >= nThreads ==> chunk == NaiveChunkSize(total, nThreads)
  {
    Max(1, NaiveChunkSize(total, nThreads))
  }

  /** The batches successive naive claims hand out, from `cursor` until
      the cursor is exhausted. */
  function Schedule<K>(keys: seq<K>, cursor: nat, chunk: nat): seq<seq<K>>
    requires chunk >= 1 && cursor <= |keys|
    decreases |keys| - cursor
  {
    match ChunkClaim(keys, cursor, chunk)
    case Exhausted => []
    case Claimed(batch, next) => [batch] + Schedule(keys, next, chunk)
  }

  /** The concatenation of a list of batches. */
  function Concat<K>(batches: seq<seq<K>>): seq<K>
  {
    if batches == [] then [] else batches[0] + Concat(batches[1..])
  }

  /** The total size of a list of batches: the progress they add. */
  function TotalSize<K>(batches: seq<seq<K>>): nat
  {
    if batches == [] then 0 else |batches[0]| + TotalSize(batches[1..])
  }

  lemma {:induction false} TotalSizeConcat<K>(batches: seq<seq<K>>)
    ensures TotalSize(batches) == |Concat(batches)|
  {
    if batches != [] {
      TotalSizeConcat(batches[1..]);
    }
  }

  /** Naive claims with a positive chunk partition the remaining keys: the
      batches, in claim order, are the keys from the cursor on, each batch
      holds between one and `chunk` keys, and the sizes (the progress
      increments) add up to the number of remaining keys. */
  lemma {:induction false} SchedulePartitions<K>(keys: seq<K>, cursor: nat, chunk: nat)
    requires chunk >= 1 && cursor <= |keys|
    ensures Concat(Schedule(keys, cursor, chunk)) == keys[cursor..]
    ensures forall i :: 0 <= i < |Schedule(keys, cursor, chunk)| ==>
      1 <= |Schedule(keys, cursor, chunk)[i]| <= chunk
    ensures TotalSize(Schedule(keys, cursor, chunk)) == |keys| - cursor
    decreases |keys| - cursor
  {
    var s := Schedule(keys, cursor, chunk);
    if cursor < |keys| {
      var next := cursor + Min(chunk, |keys| - cursor);
      assert s == [keys[cursor..next]] + Schedule(keys, next, chunk);
      hide Schedule, ChunkClaim;
      SchedulePartitions(keys, next, chunk);
      assert s[1..] == Schedule(keys, next, chunk);
      assert Concat(s) == keys[cursor..next] + Concat(s[1..]);
      assert TotalSize(s) == |keys[cursor..next]| + TotalSize(s[1..]);
      assert keys[cursor..next] + keys[next..] == keys[cursor..];
      forall i | 0 <= i < |s|
        ensures 1 <= |s[i]| <= chunk
      {
        if i > 0 {
          assert s[i] == Schedule(keys, next, chunk)[i - 1];
        }
      }
    }
  }

  /** No duplicates. */
  predicate Distinct<K(==)>(xs: seq<K>)
  {
    forall i, j :: 0 <= i < j < |xs| ==> xs[i] != xs[j]
  }

  /** With distinct keys (those of a map), no key lies in two batches. */
  lemma ScheduleDisjoint<K>(keys: seq<K>, cursor: nat, chunk: nat, i: nat, j: nat, k: K)
    requires chunk >= 1 && cursor <= |keys| && Distinct(keys)
    requires i < j < |Schedule(keys, cursor, chunk)|
    ensures !(k in Schedule(keys, cursor, chunk)[i] && k in Schedule(keys, cursor, chunk)[j])
    decreases |keys| - cursor
  {
    var s := Schedule(keys, cursor, chunk);
    var next := cursor + Min(chunk, |keys| - cursor);
    assert s[1..] == Schedule(keys, next, chunk);
    if i == 0 {
      SchedulePartitions(keys, next, chunk);
      if k in s[0] && k in s[j] {
        assert s[j] == Schedule(keys, next, chunk)[j - 1];
        ConcatMember(Schedule(keys, next, chunk), j - 1, k);
        assert false;
      }
    } else {
      ScheduleDisjoint(keys, next, chunk, i - 1, j - 1, k);
    }
  }

  /** A member of one batch is a member of the concatenation. */
  lemma {:induction false} ConcatMember<K>(batches: seq<seq<K>>, j: nat, k: K)
    requires j < |batches| && k in batches[j]
    ensures k in Concat(batches)
  {
    if j > 0 {
      ConcatMember(batches[1..], j - 1, k);
    }
  }

  /** The single-key claim (align_thread.hpp:75-82 and 173-180): the
      next key, or the end of the keys. */
  function ClaimOne<K>(keys: seq<K>, cursor: nat): (claim: Claim<K>)
    requires cursor <= |keys|
    ensures claim.Exhausted? <==> cursor == |keys|
    ensures claim.Claimed? ==> claim.next == cursor + 1 && claim.batch == [keys[cursor]]
  {
    if cursor == |keys| then Exhausted else Claimed([keys[cursor]], cursor + 1)
  }

  /** The keys successive single-key claims hand out, in claim order. */
  function Singles<K>(keys: seq<K>, cursor: nat): seq<K>
    requires cursor <= |keys|
    decreases |keys| - cursor
  {
    match ClaimOne(keys, cursor)
    case Exhausted => []
    case Claimed(batch, next) => batch + Singles(keys, next)
  }

  /** Single-key claims enumerate every remaining key exactly once, in
      order. */
  lemma {:induction false} SinglesEnumerate<K>(keys: seq<K>, cursor: nat)
    requires cursor <= |keys|
    ensures Singles(keys, cursor) == keys[cursor..]
    decreases |keys| - cursor
  {
    if cursor < |keys| {
      SinglesEnumerate(keys, cursor + 1);
      assert [keys[cursor]] + keys[cursor + 1..] == keys[cursor..];
    }
  }
}
