/**
 * Emission (the printing loop of main): each record, in table order, is
 * written up to its terminating newline or the end of the region, then one
 * newline is written. The output stream is modelled as a byte sequence.
 */
module Emission {
  import opened Memory

  /** The end of the record starting at s is the first newline at or after s. */
  lemma RecordEndAt(buf: seq<byte>, s: nat, e: nat)
    requires s <= e <= |buf|
    requires forall k :: s <= k < e ==> buf[k] != NEWLINE
    requires e == |buf| || buf[e] == NEWLINE
    ensures Line(buf, s) == buf[s..e]
  {
    var r := RecordEnd(buf, s);
    assert r == e;
  }

  /** Every offset in starts lies in [0, n]. */
  ghost predicate Within(starts: seq<nat>, n: nat)
  {
    forall k :: 0 <= k < |starts| ==> starts[k] <= n
  }

  /** The end of the record starting at s: the first newline at or after s, else |buf|. */
  ghost function RecordEnd(buf: seq<byte>, s: nat): (e: nat)
    requires s <= |buf|
    ensures s <= e <= |buf|
    ensures e == |buf| || buf[e] == NEWLINE
    ensures forall k :: s <= k < e ==> buf[k] != NEWLINE
    decreases |buf| - s
  {
    if s == |buf| || buf[s] == NEWLINE then s else RecordEnd(buf, s + 1)
  }

  /**
   * The bytes of the record starting at s, without its newline (nothing
   * for an offset past the region, which no table holds).
   */
  ghost function Line(buf: seq<byte>, s: nat): (l: seq<byte>)
    ensures NEWLINE !in l
    ensures s <= |buf| ==> s + |l| <= |buf|
  {
    if s <= |buf| then buf[s..RecordEnd(buf, s)] else []
  }

  /** The records a table designates, in table order. */
  ghost function Lines(buf: seq<byte>, starts: seq<nat>): (ls: seq<seq<byte>>)
    ensures |ls| == |starts|
  {
    if starts == [] then []
    else Lines(buf, starts[..|starts| - 1]) + [Line(buf, starts[|starts| - 1])]
  }

  /** Entry k of the records is the record of table entry k. */
  lemma {:induction false} LinesAt(buf: seq<byte>, starts: seq<nat>, k: nat)
    requires k < |starts|
    ensures Lines(buf, starts)[k] == Line(buf, starts[k])
    decreases |starts|
  {
    if k < |starts| - 1 {
      LinesAt(buf, starts[..|starts| - 1], k);
    }
  }

  /** Each line followed by one newline, all in order. */
  ghost function Join(ls: seq<seq<byte>>): seq<byte>
  {
    if ls == [] then []
    else Join(ls[..|ls| - 1]) + ls[|ls| - 1] + [NEWLINE]
  }

  /** The sum of the lengths of the lines. */
  ghost function TotalLength(ls: seq<seq<byte>>): nat
  {
    if ls == [] then 0 else TotalLength(ls[..|ls| - 1]) + |ls[|ls| - 1]|
  }

  /** Joining distributes over concatenation. */
  lemma {:induction false} JoinAppend(a: seq<seq<byte>>, b: seq<seq<byte>>)
    ensures Join(a + b) == Join(a) + Join(b)
    decreases |b|
  {
    if b != [] {
      var b' := b[..|b| - 1];
      assert (a + b)[..|a + b| - 1] == a + b';
      JoinAppend(a, b');
    } else {
      assert a + b == a;
    }
  }

  /** The output holds every byte of every line plus one newline per line. */
  lemma {:induction false} JoinLength(ls: seq<seq<byte>>)
    ensures |Join(ls)| == TotalLength(ls) + |ls|
    decreases |ls|
  {
    if ls != [] {
      JoinLength(ls[..|ls| - 1]);
    }
  }

  /** Reordering the lines does not change the length of the output. */
  lemma {:induction false} JoinLengthPermutation(ls: seq<seq<byte>>, ms: seq<seq<byte>>)
    requires multiset(ls) == multiset(ms)
    ensures |Join(ls)| == |Join(ms)|
    decreases |ls|
  {
    if ls == [] {
      assert |ms| == |multiset(ms)| == 0;
    } else {
      var x := ls[|ls| - 1];
      var ls' := ls[..|ls| - 1];
      assert ls == ls' + [x];
      assert x in multiset(ms);
      var k :| 0 <= k < |ms| && ms[k] == x;
      var ms' := ms[..k] + ms[k + 1..];
      assert ms == ms[..k] + [x] + ms[k + 1..];
      assert multiset(ms') == multiset(ms) - multiset{x};
      assert multiset(ls') == multiset(ls) - multiset{x};
      JoinLengthPermutation(ls', ms');
      JoinAppend(ls', [x]);
      JoinAppend(ms[..k] + [x], ms[k + 1..]);
      JoinAppend(ms[..k], [x]);
      JoinAppend(ms[..k], ms[k + 1..]);
      assert Join([x]) == Join([]) + x + [NEWLINE];
    }
  }

  /**
   * The printing loop: for every table entry, scan for the end of the
   * record (testing the bound before the byte), write the record, then
   * write '\n'. The result is the bytes written, in order.
   */
  method Emit(buf: array<byte>, bufLen: nat, recs: array<nat>, recsLen: nat) returns (out: seq<byte>)
    requires bufLen <= buf.Length && recsLen <= recs.Length
    requires Within(recs[..recsLen], bufLen)
    ensures out == Join(Lines(buf[..bufLen], recs[..recsLen]))
  {
    ghost var region := buf[..bufLen];
    out := [];
    var i: nat := 0;
    while i < recsLen
      invariant i <= recsLen
      invariant out == Join(Lines(region, recs[..i]))
    {
      assert recs[..recsLen][i] == recs[i];
      var start := recs[i];
      var end := start;
      while end < bufLen && buf[end] != NEWLINE
        invariant start <= end <= bufLen
        invariant forall k :: start <= k < end ==> region[k] != NEWLINE
      {
        assert region[end] == buf[end];
        end := end + 1;
      }
      assert end < bufLen ==> region[end] == NEWLINE;
      RecordEndAt(region, start, end);
      assert buf[start..end] == region[start..end];
      out := out + buf[start..end] + [NEWLINE];
      assert recs[..i + 1][..i] == recs[..i];
      i := i + 1;
    }
    assert recs[..i] == recs[..recsLen];
  }

  /**
   * The positions the scan of shuf.c:293 dereferences when it starts at e,
   * as written there: the byte at `end` is read before `end < buf + buf_len`
   * is tested.
   */
  ghost function ProbesAsWritten(buf: seq<byte>, e: nat): (r: seq<nat>)
    requires e <= |buf|
    ensures |r| >= 1 && r[0] == e
    ensures forall p :: p in r ==> e <= p <= |buf|
    decreases |buf| - e
  {
    [e] + if e < |buf| && buf[e] != NEWLINE then ProbesAsWritten(buf, e + 1) else []
  }

  /**
   * As written, the scan reads the byte one past the region exactly when
   * the record has no terminating newline.
   */
  lemma {:induction false} AsWrittenReadsPastEnd(buf: seq<byte>, s: nat)
    requires s <= |buf|
    ensures |buf| in ProbesAsWritten(buf, s) <==> RecordEnd(buf, s) == |buf|
    decreases |buf| - s
  {
    if s < |buf| && buf[s] != NEWLINE {
      AsWrittenReadsPastEnd(buf, s + 1);
    }
  }

  /** "a" with no trailing newline: the as-written scan reads position 1 of a 1-byte region. */
  lemma AsWrittenReadsPastEndExample()
    ensures ProbesAsWritten([0x61], 0) == [0, 1]
  {
    assert ProbesAsWritten([0x61], 1) == [1];
  }

  /**
   * The positions the scan dereferences with the bound tested first, as
   * Emit does: all inside the region, and the terminating newline, when
   * there is one, is among them.
   */
  ghost function ProbesChecked(buf: seq<byte>, e: nat): (r: seq<nat>)
    requires e <= |buf|
    ensures forall p :: p in r ==> e <= p < |buf|
    ensures RecordEnd(buf, e) < |buf| ==> RecordEnd(buf, e) in r
    decreases |buf| - e
  {
    if e < |buf| then [e] + if buf[e] != NEWLINE then ProbesChecked(buf, e + 1) else []
    else []
  }
}
