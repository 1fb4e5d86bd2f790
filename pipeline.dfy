/**
 * The sequence main runs once the input region exists: index the records,
 * shuffle the table, print every record followed by a newline.
 */
module Pipeline {
  import opened Memory
  import opened Records
  import opened Shuffle
  import opened Emission

  /** 1 when the region does not end in a newline, so printing adds one; else 0. */
  function Unterminated(buf: seq<byte>): nat
    requires |buf| >= 1
  {
    if buf[|buf| - 1] == NEWLINE then 0 else 1
  }

  /** Printing one more table entry appends its record and a newline. */
  lemma JoinLinesSnoc(buf: seq<byte>, starts: seq<nat>, x: nat)
    ensures Join(Lines(buf, starts + [x])) == Join(Lines(buf, starts)) + Line(buf, x) + [NEWLINE]
  {
    assert (starts + [x])[..|starts|] == starts;
    var ls := Lines(buf, starts + [x]);
    assert ls[..|ls| - 1] == Lines(buf, starts);
  }

  /** buf[..n] is the bytes before last, those from last to the newline at n - 1, and that newline. */
  lemma SplitAtNewline(buf: seq<byte>, last: nat, n: nat)
    requires last <= n - 1 && n <= |buf| && n >= 1 && buf[n - 1] == NEWLINE
    ensures buf[..n] == buf[..last] + buf[last..n - 1] + [NEWLINE]
  {
    assert buf[..n] == buf[..last] + buf[last..n - 1] + [buf[n - 1]];
  }

  /** buf is the bytes before last followed by those from last on. */
  lemma SplitAt(buf: seq<byte>, last: nat)
    requires last <= |buf|
    ensures buf == buf[..last] + buf[last..|buf|]
  {
  }

  /** A record closed by the newline at n - 1 extends the reproduced prefix to buf[..n]. */
  lemma ClosedRecordReproduced(buf: seq<byte>, front: seq<nat>, last: nat, n: nat)
    requires last <= n - 1 && n <= |buf| && n >= 1
    requires Join(Lines(buf, front)) == buf[..last]
    requires forall k :: last <= k < n - 1 ==> buf[k] != NEWLINE
    requires buf[n - 1] == NEWLINE
    ensures Join(Lines(buf, front + [last])) == buf[..n]
  {
    JoinLinesSnoc(buf, front, last);
    RecordEndAt(buf, last, n - 1);
    SplitAtNewline(buf, last, n);
  }

  /** A last record that runs to the end of the region is printed with a newline added. */
  lemma OpenRecordReproduced(buf: seq<byte>, front: seq<nat>, last: nat)
    requires last <= |buf|
    requires Join(Lines(buf, front)) == buf[..last]
    requires forall k :: last <= k < |buf| ==> buf[k] != NEWLINE
    ensures Join(Lines(buf, front + [last])) == buf + [NEWLINE]
  {
    JoinLinesSnoc(buf, front, last);
    RecordEndAt(buf, last, |buf|);
    SplitAt(buf, last);
    assert Join(Lines(buf, front)) + Line(buf, last) == buf;
  }

  /**
   * After scanning n bytes, the table found is front + [last]: the records
   * of front print as exactly the bytes before last, and no newline lies
   * between last and n.
   */
  lemma {:induction false} ScanReproduces(buf: seq<byte>, n: nat) returns (front: seq<nat>, last: nat)
    requires n < |buf|
    ensures StartsUpTo(buf, n) == front + [last]
    ensures last <= n && Join(Lines(buf, front)) == buf[..last]
    ensures forall k :: last <= k < n ==> buf[k] != NEWLINE
    decreases n
  {
    if n == 0 {
      front, last := [], 0;
    } else {
      var front', last' := ScanReproduces(buf, n - 1);
      StartsStep(buf, n - 1);
      if buf[n - 1] == NEWLINE {
        ClosedRecordReproduced(buf, front', last', n);
        front, last := front' + [last'], n;
      } else {
        front, last := front', last';
      }
    }
  }

  /**
   * The records before the last one reproduce buf[..last] and the last
   * runs unbroken up to the final byte: then the whole table prints as
   * buf, plus a newline when the final byte is not one.
   */
  lemma WholeReproduced(buf: seq<byte>, front: seq<nat>, last: nat)
    requires |buf| >= 1 && last < |buf|
    requires Join(Lines(buf, front)) == buf[..last]
    requires forall k :: last <= k < |buf| - 1 ==> buf[k] != NEWLINE
    ensures buf[|buf| - 1] == NEWLINE ==> Join(Lines(buf, front + [last])) == buf
    ensures buf[|buf| - 1] != NEWLINE ==> Join(Lines(buf, front + [last])) == buf + [NEWLINE]
  {
    if buf[|buf| - 1] == NEWLINE {
      ClosedRecordReproduced(buf, front, last, |buf|);
      assert buf[..|buf|] == buf;
    } else {
      OpenRecordReproduced(buf, front, last);
    }
  }

  /**
   * Printing the records in index order gives back the input, with one
   * newline appended exactly when the last byte is not a newline.
   */
  lemma InOrderReproducesInput(buf: seq<byte>)
    requires |buf| >= 1
    ensures buf[|buf| - 1] == NEWLINE ==> Join(Lines(buf, RecordStarts(buf))) == buf
    ensures buf[|buf| - 1] != NEWLINE ==> Join(Lines(buf, RecordStarts(buf))) == buf + [NEWLINE]
  {
    var front, last := ScanReproduces(buf, |buf| - 1);
    RecordStartsIsScan(buf);
    assert RecordStarts(buf) == front + [last];
    WholeReproduced(buf, front, last);
  }

  /** Exchanging two table entries exchanges the records they designate. */
  lemma LinesSwap(buf: seq<byte>, starts: seq<nat>, i: nat, j: nat)
    requires i < |starts| && j < |starts|
    ensures Lines(buf, Swap(starts, i, j)) == Swap(Lines(buf, starts), i, j)
  {
    var s' := Swap(starts, i, j);
    forall k | 0 <= k < |starts|
      ensures Lines(buf, s')[k] == Swap(Lines(buf, starts), i, j)[k]
    {
      LinesAt(buf, s', k);
      LinesAt(buf, starts, k);
      LinesAt(buf, starts, i);
      LinesAt(buf, starts, j);
    }
  }

  /** Shuffling a table and then reading its records equals shuffling the records. */
  lemma {:induction false} LinesShuffledFrom(buf: seq<byte>, starts: seq<nat>, draws: seq<nat>, i: nat)
    requires |draws| >= |starts| - 1
    ensures Lines(buf, ShuffledFrom(starts, draws, i)) == ShuffledFrom(Lines(buf, starts), draws, i)
    decreases |starts| - i
  {
    if i + 1 < |starts| {
      var j := Partner(i, |starts|, draws[i]);
      LinesSwap(buf, starts, i, j);
      LinesShuffledFrom(buf, Swap(starts, i, j), draws, i + 1);
    }
  }

  /** Shuffling keeps every table entry inside the region. */
  lemma {:induction false} WithinShuffledFrom(starts: seq<nat>, draws: seq<nat>, i: nat, n: nat)
    requires |draws| >= |starts| - 1 && Within(starts, n)
    ensures Within(ShuffledFrom(starts, draws, i), n)
    decreases |starts| - i
  {
    if i + 1 < |starts| {
      var s' := Swap(starts, i, Partner(i, |starts|, draws[i]));
      assert Within(s', n);
      WithinShuffledFrom(s', draws, i + 1, n);
    }
  }

  /**
   * Whatever the draws, the shuffled records print as many bytes as the
   * input holds, plus one when the input lacks a final newline.
   */
  lemma ShuffledOutputLength(buf: seq<byte>, draws: seq<nat>, out: seq<byte>)
    requires |buf| >= 1 && |draws| >= |RecordStarts(buf)| - 1
    requires out == Join(Shuffled(Lines(buf, RecordStarts(buf)), draws))
    ensures |out| == |buf| + Unterminated(buf)
  {
    InOrderReproducesInput(buf);
    var ls := Lines(buf, RecordStarts(buf));
    JoinLengthPermutation(Shuffled(ls, draws), ls);
  }

  /**
   * main from the input region on: get_recs, shuf, then the printing loop.
   * shuf draws one random value per record but the last.
   * The output is the input's records in shuffled order, each once and
   * each followed by one newline, so it is as long as the input plus one
   * byte when the input lacks a final newline.
   */
  method ShufMain(buf: array<byte>, bufLen: nat, draws: seq<nat>)
    returns (out: seq<byte>, ghost lines: seq<seq<byte>>)
    requires 1 <= bufLen <= buf.Length
    requires |draws| >= |RecordStarts(buf[..bufLen])| - 1
    ensures lines == Shuffled(Lines(buf[..bufLen], RecordStarts(buf[..bufLen])), draws)
    ensures out == Join(lines)
    ensures multiset(lines) == multiset(Lines(buf[..bufLen], RecordStarts(buf[..bufLen])))
    ensures |out| == bufLen + Unterminated(buf[..bufLen])
  {
    ghost var region := buf[..bufLen];
    var recs, recsLen := GetRecs(buf, bufLen);
    ghost var starts := recs[..recsLen];
    assert starts == RecordStarts(region);
    Shuf(recs, recsLen, draws);
    assert buf[..bufLen] == region;
    ghost var shuffled := recs[..recsLen];
    assert shuffled == ShuffledFrom(starts, draws, 0);
    WithinShuffledFrom(starts, draws, 0, bufLen);
    out := Emit(buf, bufLen, recs, recsLen);
    assert out == Join(Lines(region, shuffled));
    LinesShuffledFrom(region, starts, draws, 0);
    lines := Shuffled(Lines(region, starts), draws);
    assert Lines(region, shuffled) == lines;
    ShuffledOutputLength(region, draws, out);
  }
}
