/**
 * The full buffered read (try_readall): the stream is read in chunks of at
 * most READSZ bytes into a heap block whose capacity doubles whenever fewer
 * than READSZ free bytes would remain.
 *
 * The stream is `chunks`: the n-th call of fread returns chunks[n], or
 * nothing once the sequence is exhausted. The allocator is `grant`:
 * grant(0) is the outcome of the initial malloc and grant(n), n >= 1, the
 * outcome of the realloc that follows the n-th successful read.
 */
module ReadAll {
  import opened Memory

  /** Bytes asked of each fread call, and the initial capacity: 1 MiB. */
  const READSZ: nat := 1024 * 1024

  /** The bytes of the chunks, in order. */
  ghost function Concat(chunks: seq<seq<byte>>): seq<byte>
  {
    if chunks == [] then [] else Concat(chunks[..|chunks| - 1]) + chunks[|chunks| - 1]
  }

  /** What the n-th fread call returns. */
  function ReadChunk(chunks: seq<seq<byte>>, n: nat): (c: seq<byte>)
    ensures c != [] ==> n < |chunks| && c == chunks[n]
  {
    if n < |chunks| then chunks[n] else []
  }

  /** Every chunk fits in one fread call. */
  ghost predicate ChunksFit(chunks: seq<seq<byte>>)
  {
    forall k :: 0 <= k < |chunks| ==> |chunks[k]| <= READSZ
  }

  /**
   * The capacity after n reads when every realloc succeeds: READSZ at
   * first, doubled after each read that leaves fewer than READSZ free bytes.
   */
  ghost function CapAfter(chunks: seq<seq<byte>>, n: nat): (cap: nat)
    requires n <= |chunks|
    ensures Doubled(READSZ, cap)
  {
    if n == 0 then READSZ
    else
      var c := CapAfter(chunks, n - 1);
      DoubledTwice(READSZ, c);
      if |Concat(chunks[..n])| + READSZ <= c then c else 2 * c
  }

  /** The k-th read (k >= 1) leaves fewer than READSZ free bytes, so a realloc follows it. */
  ghost predicate NeedsGrow(chunks: seq<seq<byte>>, k: nat)
    requires 1 <= k <= |chunks|
  {
    |Concat(chunks[..k])| + READSZ > CapAfter(chunks, k - 1)
  }

  /** Every realloc asked for after the reads 1..n was granted. */
  ghost predicate GrantedUpTo(chunks: seq<seq<byte>>, grant: nat -> bool, n: nat)
    requires n <= |chunks|
  {
    forall k :: 1 <= k <= n && NeedsGrow(chunks, k) ==> grant(k)
  }

  /** One more read: the capacity doubles exactly when that read needs it. */
  lemma CapStep(chunks: seq<seq<byte>>, n: nat)
    requires 1 <= n <= |chunks|
    ensures !NeedsGrow(chunks, n) ==> CapAfter(chunks, n) == CapAfter(chunks, n - 1)
    ensures NeedsGrow(chunks, n) ==> CapAfter(chunks, n) == 2 * CapAfter(chunks, n - 1)
  {
  }

  /** The grants so far extend by one read when that read's realloc, if any, is granted. */
  lemma GrantedStep(chunks: seq<seq<byte>>, grant: nat -> bool, n: nat)
    requires 1 <= n <= |chunks|
    requires GrantedUpTo(chunks, grant, n - 1)
    requires NeedsGrow(chunks, n) ==> grant(n)
    ensures GrantedUpTo(chunks, grant, n)
  {
  }

  /** The bytes of one more chunk follow those of the chunks before it. */
  lemma ConcatSnoc(chunks: seq<seq<byte>>, n: nat)
    requires n < |chunks|
    ensures Concat(chunks[..n + 1]) == Concat(chunks[..n]) + chunks[n]
  {
    assert chunks[..n + 1][..n] == chunks[..n];
  }

  /** One fread call: the chunk lands at offset len, the bytes before it stay. */
  method ReadInto(buf: array<byte>, len: nat, c: seq<byte>)
    requires len + |c| <= buf.Length
    modifies buf
    ensures buf[..len + |c|] == old(buf[..len]) + c
  {
    forall k | 0 <= k < |c| {
      buf[len + k] := c[k];
    }
  }

  /**
   * try_readall. A failed malloc gives null. Otherwise `taken` chunks were
   * read and their bytes are buf[..len]. `drained` tells that the loop ended
   * because fread returned nothing; otherwise a realloc failed and the old
   * block is kept with everything read so far. Every realloc the loop asked
   * for before it stopped was granted, and the block's capacity is the one
   * the doubling rule gives for the reads made.
   */
  method TryReadAll(chunks: seq<seq<byte>>, grant: nat -> bool)
    returns (buf: array?<byte>, len: nat, taken: nat, drained: bool)
    requires ChunksFit(chunks)
    ensures buf == null <==> !grant(0)
    ensures buf != null ==>
      && len <= buf.Length
      && Doubled(READSZ, buf.Length)
      && taken <= |chunks|
      && buf[..len] == Concat(chunks[..taken])
      && (forall k :: 0 <= k < taken ==> chunks[k] != [])
      && (drained ==> ReadChunk(chunks, taken) == [])
      && (drained ==> len + READSZ <= buf.Length)
      && (!drained ==> taken >= 1 && !grant(taken) && len + READSZ > buf.Length)
      && (drained ==> GrantedUpTo(chunks, grant, taken) && buf.Length == CapAfter(chunks, taken))
      && (!drained ==> GrantedUpTo(chunks, grant, taken - 1) && NeedsGrow(chunks, taken)
                       && buf.Length == CapAfter(chunks, taken - 1))
  {
    var cap: nat := READSZ;
    len, taken, drained := 0, 0, false;
    if !grant(0) {
      return null, len, taken, drained;
    }
    buf := new byte[cap];
    assert buf[..len] == Concat(chunks[..taken]);
    while true
      invariant fresh(buf) && buf.Length == cap
      invariant len + READSZ <= cap
      invariant taken <= |chunks|
      invariant buf[..len] == Concat(chunks[..taken])
      invariant forall k :: 0 <= k < taken ==> chunks[k] != []
      invariant cap == CapAfter(chunks, taken) && len == |Concat(chunks[..taken])|
      invariant GrantedUpTo(chunks, grant, taken)
      decreases |chunks| - taken
    {
      var c := ReadChunk(chunks, taken);
      if c == [] {
        drained := true;
        break;
      }
      ReadInto(buf, len, c);
      ConcatSnoc(chunks, taken);
      len := len + |c|;
      taken := taken + 1;
      CapStep(chunks, taken);
      assert NeedsGrow(chunks, taken) <==> len + READSZ > cap;
      if len + READSZ <= cap {
        GrantedStep(chunks, grant, taken);
        continue;
      }
      cap := cap * 2;
      if !grant(taken) {
        drained := false;
        break;
      }
      GrantedStep(chunks, grant, taken);
      ghost var kept := buf[..len];
      buf := Realloc(buf, cap);
      assert buf[..len] == kept;
    }
  }

  /**
   * When the loop is drained on a stream none of whose chunks is empty,
   * the block holds the whole stream.
   */
  lemma WholeStreamRead(chunks: seq<seq<byte>>, taken: nat)
    requires taken <= |chunks|
    requires forall k :: 0 <= k < |chunks| ==> chunks[k] != []
    requires ReadChunk(chunks, taken) == []
    ensures Concat(chunks[..taken]) == Concat(chunks)
  {
    assert chunks[..taken] == chunks;
  }
}
