/**
 * The in-place Fisher-Yates (Durstenfeld) shuffle of the record table.
 * The random generator is replaced by `draws`: draws[i] is the value
 * random() returns in iteration i.
 */
module Shuffle {

  /** The swap partner of slot i: i + draw % (len - i). */
  function Partner(i: nat, len: nat, draw: nat): (j: nat)
    requires i < len
    ensures i <= j < len
    ensures draw < len - i ==> j == i + draw
  {
    i + draw % (len - i)
  }

  /** s with the elements at i and j exchanged. */
  ghost function Swap<T>(s: seq<T>, i: nat, j: nat): (r: seq<T>)
    requires i < |s| && j < |s|
    ensures |r| == |s| && r[i] == s[j] && r[j] == s[i]
    ensures forall k :: 0 <= k < |s| && k != i && k != j ==> r[k] == s[k]
    ensures multiset(r) == multiset(s)
  {
    s[i := s[j]][j := s[i]]
  }

  /**
   * The sequence the loop leaves behind when it starts at iteration i:
   * for every i' from i up to |s| - 2, exchange slot i' with its partner.
   */
  ghost function ShuffledFrom<T>(s: seq<T>, draws: seq<nat>, i: nat): (r: seq<T>)
    requires |draws| >= |s| - 1
    ensures |r| == |s|
    ensures multiset(r) == multiset(s)
    ensures i <= |s| ==> r[..i] == s[..i]
    decreases |s| - i
  {
    if i + 1 >= |s| then s
    else
      var s' := Swap(s, i, Partner(i, |s|, draws[i]));
      var r := ShuffledFrom(s', draws, i + 1);
      assert r[..i] == r[..i + 1][..i];
      r
  }

  /** The whole shuffle: the loop started at iteration 0. */
  ghost function Shuffled<T>(s: seq<T>, draws: seq<nat>): (r: seq<T>)
    requires |draws| >= |s| - 1
    ensures |r| == |s| && multiset(r) == multiset(s)
    ensures |s| <= 1 ==> r == s
  {
    ShuffledFrom(s, draws, 0)
  }

  /**
   * shuf: for i from 0 to len - 2, swap recs[i] with recs[j] where
   * j = i + draws[i] % (len - i). len must be at least 1: the loop bound
   * len - 1 is computed in size_t; get_recs always returns at least one
   * record.
   */
  method Shuf(recs: array<nat>, len: nat, draws: seq<nat>)
    requires 1 <= len <= recs.Length
    requires |draws| >= len - 1
    modifies recs
    ensures recs[..len] == Shuffled(old(recs[..len]), draws)
    ensures recs[len..] == old(recs[len..])
    ensures multiset(recs[..len]) == multiset(old(recs[..len]))
  {
    var i: nat := 0;
    while i < len - 1
      invariant i <= len - 1
      invariant ShuffledFrom(recs[..len], draws, i) == Shuffled(old(recs[..len]), draws)
      invariant recs[len..] == old(recs[len..])
    {
      var j := Partner(i, len, draws[i]);
      ghost var before := recs[..len];
      var tmp := recs[i];
      recs[i] := recs[j];
      recs[j] := tmp;
      assert recs[..len] == Swap(before, i, j);
      i := i + 1;
    }
  }

  /** Only draws[i..] matter to the loop started at iteration i. */
  lemma {:induction false} ShuffledFromIgnoresEarlierDraws<T>(s: seq<T>, d1: seq<nat>, d2: seq<nat>, i: nat)
    requires |d1| >= |s| - 1 && |d2| >= |s| - 1
    requires forall k :: i <= k < |s| - 1 ==> d1[k] == d2[k]
    ensures ShuffledFrom(s, d1, i) == ShuffledFrom(s, d2, i)
    decreases |s| - i
  {
    if i + 1 < |s| {
      var s' := Swap(s, i, Partner(i, |s|, d1[i]));
      ShuffledFromIgnoresEarlierDraws(s', d1, d2, i + 1);
    }
  }

  /** Once t agrees with s before i and s[i..] rearranges t[i..], a single remaining slot agrees too. */
  lemma SuffixOfOneAgrees<T>(s: seq<T>, t: seq<T>, i: nat)
    requires |s| == |t| && i <= |s| && i + 1 >= |s|
    requires s[..i] == t[..i] && multiset(s[i..]) == multiset(t[i..])
    ensures s == t
  {
    if i + 1 == |s| {
      assert s[i..] == [s[i]] && t[i..] == [t[i]];
      assert t[i] in multiset(s[i..]);
      assert s == s[..i] + [s[i]] && t == t[..i] + [t[i]];
    } else {
      assert s == s[..i] && t == t[..i];
    }
  }

  /** Swapping the element t[i] into slot i extends the agreeing prefix by one. */
  lemma SwapExtendsAgreement<T>(s: seq<T>, t: seq<T>, i: nat, j: nat)
    requires |s| == |t| && i <= j < |s|
    requires s[..i] == t[..i] && multiset(s[i..]) == multiset(t[i..])
    requires s[j] == t[i]
    ensures Swap(s, i, j)[..i + 1] == t[..i + 1]
    ensures multiset(Swap(s, i, j)[i + 1..]) == multiset(t[i + 1..])
  {
    var s' := Swap(s, i, j);
    assert s'[..i + 1] == t[..i + 1] by {
      assert s'[..i] == s[..i];
      assert s'[..i + 1] == s'[..i] + [s'[i]] && t[..i + 1] == t[..i] + [t[i]];
    }
    var tail := Swap(s[i..], 0, j - i);
    assert s'[i..] == tail;
    assert multiset(tail) == multiset(t[i..]);
    assert tail == [t[i]] + s'[i + 1..];
    assert t[i..] == [t[i]] + t[i + 1..];
    assert multiset(tail) == multiset{t[i]} + multiset(s'[i + 1..]);
    assert multiset(t[i..]) == multiset{t[i]} + multiset(t[i + 1..]);
    assert multiset(s'[i + 1..]) == multiset(tail) - multiset{t[i]};
    assert multiset(t[i + 1..]) == multiset(t[i..]) - multiset{t[i]};
  }

  /** An element of the multiset of s[i..] sits at some position j >= i. */
  lemma FindIndex<T>(s: seq<T>, i: nat, x: T) returns (j: nat)
    requires i <= |s| && x in multiset(s[i..])
    ensures i <= j < |s| && s[j] == x
  {
    assert x in s[i..];
    var k :| 0 <= k < |s[i..]| && s[i..][k] == x;
    j := i + k;
  }

  /**
   * A draw of j - i in iteration i, followed by the draws that take
   * Swap(s, i, j) on from iteration i + 1, takes s on from iteration i.
   */
  lemma PrependDraw<T>(s: seq<T>, i: nat, j: nat, rest: seq<nat>) returns (draws: seq<nat>)
    requires i + 1 < |s| && i <= j < |s|
    requires |rest| == |s| - 1 && forall k :: 0 <= k < |rest| ==> rest[k] < |s| - k
    ensures |draws| == |s| - 1
    ensures forall k :: 0 <= k < |draws| ==> draws[k] < |s| - k
    ensures ShuffledFrom(s, draws, i) == ShuffledFrom(Swap(s, i, j), rest, i + 1)
  {
    draws := rest[i := j - i];
    assert Partner(i, |s|, draws[i]) == j;
    var s' := Swap(s, i, j);
    assert ShuffledFrom(s, draws, i) == ShuffledFrom(s', draws, i + 1);
    ShuffledFromIgnoresEarlierDraws(s', rest, draws, i + 1);
  }

  /**
   * Every ordering is reachable: whenever t agrees with s before i and
   * is a rearrangement of s from i on, some draw vector with
   * draws[k] < |s| - k leads the loop from s to t.
   */
  lemma {:induction false} EveryOrderingReachableFrom<T>(s: seq<T>, t: seq<T>, i: nat) returns (draws: seq<nat>)
    requires |s| == |t| >= 1 && i <= |s|
    requires s[..i] == t[..i] && multiset(s[i..]) == multiset(t[i..])
    ensures |draws| == |s| - 1
    ensures forall k :: 0 <= k < |draws| ==> draws[k] < |s| - k
    ensures ShuffledFrom(s, draws, i) == t
    decreases |s| - i
  {
    if i + 1 >= |s| {
      draws := seq(|s| - 1, k => 0);
      SuffixOfOneAgrees(s, t, i);
    } else {
      assert t[i] in multiset(t[i..]) by {
        assert t[i..][0] == t[i];
      }
      var j := FindIndex(s, i, t[i]);
      SwapExtendsAgreement(s, t, i, j);
      var rest := EveryOrderingReachableFrom(Swap(s, i, j), t, i + 1);
      draws := PrependDraw(s, i, j, rest);
    }
  }

  /** Every rearrangement t of s is the outcome of some in-range draw vector. */
  lemma EveryOrderingReachable<T>(s: seq<T>, t: seq<T>) returns (draws: seq<nat>)
    requires |s| >= 1 && multiset(s) == multiset(t)
    ensures |draws| == |s| - 1
    ensures forall k :: 0 <= k < |draws| ==> draws[k] < |s| - k
    ensures Shuffled(s, draws) == t
  {
    assert |t| == |multiset(t)|;
    assert s[0..] == s && t[0..] == t;
    draws := EveryOrderingReachableFrom(s, t, 0);
  }
}
