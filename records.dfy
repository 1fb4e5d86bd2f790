/**
 * Record indexing (get_recs): one scan over the input region that collects
 * the offset of every record start into a table that grows by doubling.
 */
module Records {
  import opened Memory

  /** Initial capacity of the record table. */
  const INITIAL_CAP: nat := 64

  /**
   * The record starts found after scanning the first n bytes: offset 0,
   * then k for every newline at position k - 1 < n.
   */
  ghost function StartsUpTo(buf: seq<byte>, n: nat): (r: seq<nat>)
    requires n < |buf|
    ensures |r| >= 1 && r[0] == 0
    ensures forall a :: 0 <= a < |r| ==> r[a] <= n
    decreases n
  {
    if n == 0 then [0]
    else StartsUpTo(buf, n - 1) + if buf[n - 1] == NEWLINE then [n] else []
  }

  /** Every entry of r is smaller than every later one. */
  ghost predicate StrictlyIncreasing(r: seq<nat>)
  {
    forall a, b :: 0 <= a < b < |r| ==> r[a] < r[b]
  }

  /** The starts found in the first n bytes are strictly increasing. */
  lemma {:induction false} StartsIncreasing(buf: seq<byte>, n: nat)
    requires n < |buf|
    ensures StrictlyIncreasing(StartsUpTo(buf, n))
    decreases n
  {
    if n > 0 {
      StartsIncreasing(buf, n - 1);
      var p := StartsUpTo(buf, n - 1);
      assert StrictlyIncreasing(p);
      if buf[n - 1] == NEWLINE {
        var r := p + [n];
        assert StartsUpTo(buf, n) == r;
        forall a, b | 0 <= a < b < |r| ensures r[a] < r[b] {
          if b < |p| {
            assert r[a] == p[a] && r[b] == p[b];
          } else {
            assert r[a] == p[a] <= n - 1 && r[b] == n;
          }
        }
      } else {
        assert StartsUpTo(buf, n) == p;
      }
    }
  }

  /** The starts found in the first n bytes are 0 and the positions k <= n that follow a newline. */
  lemma {:induction false} StartsMembers(buf: seq<byte>, n: nat)
    requires n < |buf|
    ensures forall k :: k in StartsUpTo(buf, n) <==> k == 0 || (0 < k <= n && buf[k - 1] == NEWLINE)
    decreases n
  {
    if n > 0 {
      StartsMembers(buf, n - 1);
      var p := StartsUpTo(buf, n - 1);
      if buf[n - 1] == NEWLINE {
        var r := p + [n];
        assert StartsUpTo(buf, n) == r;
        assert forall k :: k in r <==> k in p || k == n;
      } else {
        assert StartsUpTo(buf, n) == p;
      }
    }
  }

  /** There is one start more than there are newlines in the first n bytes. */
  lemma {:induction false} StartsCount(buf: seq<byte>, n: nat)
    requires n < |buf|
    ensures |StartsUpTo(buf, n)| == 1 + NewlineCount(buf[..n])
    decreases n
  {
    if n > 0 {
      StartsCount(buf, n - 1);
      assert buf[..n][..n - 1] == buf[..n - 1];
    }
  }

  /**
   * The record table of a non-empty region: 0, then the offset after
   * every newline except one in the last byte. There are at most as many
   * records as bytes and every one starts inside the region.
   */
  ghost function RecordStarts(buf: seq<byte>): (r: seq<nat>)
    requires |buf| >= 1
    ensures |r| >= 1 && r[0] == 0
    ensures forall a :: 0 <= a < |r| ==> r[a] < |buf|
    ensures |r| <= |buf|
  {
    var r := StartsUpTo(buf, |buf| - 1);
    StartsIncreasing(buf, |buf| - 1);
    StartsMembers(buf, |buf| - 1);
    StrictlyIncreasingBound(r, |buf|);
    r
  }

  /** The record table is what the scan has found when it stops before the last byte. */
  lemma RecordStartsIsScan(buf: seq<byte>)
    requires |buf| >= 1
    ensures RecordStarts(buf) == StartsUpTo(buf, |buf| - 1)
  {
  }

  /**
   * The record table is strictly increasing; an offset is in it exactly
   * when it is 0 or follows a newline other than the last byte; it has one
   * entry more than there are newlines before the last byte.
   */
  lemma RecordStartsCharacterized(buf: seq<byte>)
    requires |buf| >= 1
    ensures var r := RecordStarts(buf);
      && StrictlyIncreasing(r)
      && (forall k :: k in r <==> k == 0 || (0 < k < |buf| && buf[k - 1] == NEWLINE))
      && |r| == 1 + NewlineCount(buf[..|buf| - 1])
  {
    StartsIncreasing(buf, |buf| - 1);
    StartsMembers(buf, |buf| - 1);
    StartsCount(buf, |buf| - 1);
  }

  /** size_t arithmetic, with size_t 64 bits wide: 2^64. */
  const SIZE_MODULUS: nat := 0x1_0000_0000_0000_0000

  /** n - 1 computed in size_t, as in the loop bounds of get_recs and shuf. */
  function SizeMinusOne(n: nat): (r: nat)
    requires n < SIZE_MODULUS
    ensures r < SIZE_MODULUS
    ensures n >= 1 ==> r + 1 == n
  {
    (n - 1) % SIZE_MODULUS
  }

  /**
   * The scan of get_recs reads buf[i] for every i below
   * SizeMinusOne(bufLen). That bound stays inside the region exactly when
   * the region is not empty; for an empty region it wraps to the largest
   * size_t and the first read is already outside the region. This is why
   * GetRecs, Shuf and ShufMain ask for a non-empty region and table.
   */
  lemma AsWrittenScanBound(bufLen: nat)
    requires bufLen < SIZE_MODULUS
    ensures SizeMinusOne(bufLen) <= bufLen <==> bufLen >= 1
    ensures bufLen == 0 ==> SizeMinusOne(bufLen) == SIZE_MODULUS - 1
  {
  }

  /** One more scanned byte adds at most one record start. */
  lemma StartsStep(buf: seq<byte>, i: nat)
    requires i + 1 < |buf|
    ensures StartsUpTo(buf, i + 1) == StartsUpTo(buf, i) + if buf[i] == NEWLINE then [i + 1] else []
  {
  }

  /** A strictly increasing sequence of naturals below n has at most n elements. */
  lemma {:induction false} StrictlyIncreasingBound(r: seq<nat>, n: nat)
    requires StrictlyIncreasing(r)
    requires forall k :: k in r ==> k < n
    ensures |r| <= n
  {
    if |r| > 0 {
      var last := r[|r| - 1];
      assert last in r;
      var front := r[..|r| - 1];
      forall k | k in front ensures k < last {
        var a :| 0 <= a < |front| && front[a] == k;
        assert r[a] == k;
      }
      StrictlyIncreasingBound(front, last);
    }
  }

  /**
   * get_recs: scans buf[0..bufLen-1) and records 0 and the offset after
   * every newline. bufLen must be at least 1: the loop bound bufLen - 1 is
   * computed in size_t (see AsWrittenScanBound).
   */
  method GetRecs(buf: array<byte>, bufLen: nat) returns (recs: array<nat>, recsLen: nat)
    requires 1 <= bufLen <= buf.Length
    ensures fresh(recs)
    ensures recsLen <= recs.Length && Doubled(INITIAL_CAP, recs.Length)
    ensures recs[..recsLen] == RecordStarts(buf[..bufLen])
  {
    var recsCap: nat := INITIAL_CAP;
    recs := new nat[recsCap];
    recs[0] := 0;
    recsLen := 1;
    ghost var region := buf[..bufLen];
    var i: nat := 0;
    while i < bufLen - 1
      invariant i <= bufLen - 1
      invariant fresh(recs)
      invariant recs.Length == recsCap && Doubled(INITIAL_CAP, recsCap)
      invariant 1 <= recsLen <= recsCap
      invariant recs[..recsLen] == StartsUpTo(region, i)
    {
      ghost var found := recs[..recsLen];
      if buf[i] == NEWLINE {
        if recsLen >= recsCap {
          DoubledTwice(INITIAL_CAP, recsCap);
          recsCap := recsCap * 2;
          recs := Realloc(recs, recsCap);
          assert recs[..recsLen] == found;
        }
        recs[recsLen] := i + 1;
        recsLen := recsLen + 1;
        assert recs[..recsLen] == found + [i + 1];
      }
      assert region[i] == buf[i];
      StartsStep(region, i);
      i := i + 1;
    }
  }
}
