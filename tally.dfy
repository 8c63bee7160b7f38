/**
 * The vote tally of the day phase: `Counter(votes).most_common(1)`.
 *
 * A `Counter` keeps its keys in the order in which they were first inserted,
 * and `most_common(1)` returns the first key, in that order, whose count is
 * maximal (a later key replaces the current best only when its count is
 * strictly larger).  So among tied leaders the one voted for first wins.
 */
module Tally {

  /** Number of votes cast for `x`. */
  function Count(votes: seq<int>, x: int): nat
  {
    multiset(votes)[x]
  }

  /** Position of the first vote cast for `x`. */
  function FirstIndex(votes: seq<int>, x: int): (r: nat)
    requires x in votes
    ensures r < |votes| && votes[r] == x && x !in votes[..r]
  {
    if votes[0] == x then 0 else 1 + FirstIndex(votes[1..], x)
  }

  /** The keys of the counter: every voted-for id once, in order of first vote. */
  function Keys(votes: seq<int>): (ks: seq<int>)
    ensures forall x :: x in ks <==> x in votes
    ensures forall i, j :: 0 <= i < j < |ks| ==> ks[i] != ks[j]
  {
    if votes == [] then []
    else
      var prev := Keys(votes[..|votes| - 1]);
      var x := votes[|votes| - 1];
      assert votes == votes[..|votes| - 1] + [x];
      if x in prev then prev else prev + [x]
  }

  /** Appending a vote does not move the first vote of an id already voted for. */
  lemma {:induction false} FirstIndexAppend(votes: seq<int>, x: int, y: int)
    requires y in votes
    ensures FirstIndex(votes + [x], y) == FirstIndex(votes, y)
  {
    if votes[0] != y {
      assert (votes + [x])[1..] == votes[1..] + [x];
      FirstIndexAppend(votes[1..], x, y);
    }
  }

  /** A fresh id appended at the end is first voted for at the end. */
  lemma {:induction false} FirstIndexFresh(votes: seq<int>, x: int)
    requires x !in votes
    ensures FirstIndex(votes + [x], x) == |votes|
  {
    if votes != [] {
      assert (votes + [x])[1..] == votes[1..] + [x];
      FirstIndexFresh(votes[1..], x);
    }
  }

  /** The keys are ordered by the position of their first vote. */
  lemma {:induction false} KeysOrdered(votes: seq<int>)
    ensures forall i, j :: 0 <= i < j < |Keys(votes)| ==>
      FirstIndex(votes, Keys(votes)[i]) < FirstIndex(votes, Keys(votes)[j])
  {
    if votes != [] {
      var init := votes[..|votes| - 1];
      var x := votes[|votes| - 1];
      assert votes == init + [x];
      KeysOrdered(init);
      var prev := Keys(init);
      var ks := Keys(votes);
      assert ks == if x in prev then prev else prev + [x];
      forall i, j | 0 <= i < j < |ks|
        ensures FirstIndex(votes, ks[i]) < FirstIndex(votes, ks[j])
      {
        assert ks[i] == prev[i] && ks[i] in init;
        FirstIndexAppend(init, x, ks[i]);
        if j < |prev| {
          assert ks[j] == prev[j] && ks[j] in init;
          FirstIndexAppend(init, x, ks[j]);
        } else {
          assert ks[j] == x && x !in init;
          FirstIndexFresh(init, x);
        }
      }
    }
  }

  /**
   * Position of the first key, in key order, whose count is maximal: no key
   * has more votes, and every key before it has strictly fewer.
   */
  function LeaderIndex(ks: seq<int>, votes: seq<int>): (k: nat)
    requires ks != []
    ensures k < |ks|
    ensures forall i :: 0 <= i < |ks| ==> Count(votes, ks[i]) <= Count(votes, ks[k])
    ensures forall i :: 0 <= i < k ==> Count(votes, ks[i]) < Count(votes, ks[k])
  {
    if |ks| == 1 then 0
    else
      var best := LeaderIndex(ks[..|ks| - 1], votes);
      if Count(votes, ks[|ks| - 1]) > Count(votes, ks[best]) then |ks| - 1 else best
  }

  /** The leader of the keys has the most votes and, among ties, the earliest first vote. */
  lemma {:induction false} LeaderIsMostCommon(votes: seq<int>)
    requires votes != []
    ensures Keys(votes) != []
    ensures var w := Keys(votes)[LeaderIndex(Keys(votes), votes)];
      w in votes &&
      (forall x :: Count(votes, x) <= Count(votes, w)) &&
      (forall x :: x in votes && Count(votes, x) == Count(votes, w) ==>
        FirstIndex(votes, w) <= FirstIndex(votes, x))
  {
    var ks := Keys(votes);
    assert votes[0] in ks;
    KeysOrdered(votes);
    var k := LeaderIndex(ks, votes);
    forall x | x in votes && Count(votes, x) == Count(votes, ks[k])
      ensures FirstIndex(votes, ks[k]) <= FirstIndex(votes, x)
    {
      var i :| 0 <= i < |ks| && ks[i] == x;
      assert !(i < k);
    }
    forall x ensures Count(votes, x) <= Count(votes, ks[k]) {
      if x in votes {
        var i :| 0 <= i < |ks| && ks[i] == x;
      }
    }
  }

  /**
   * `Counter(votes).most_common(1)[0][0]`: the id with the most votes; among
   * ids with the same, maximal number of votes, the one first voted for.
   */
  function MostCommon(votes: seq<int>): (w: int)
    requires votes != []
    ensures w in votes
    ensures forall x :: Count(votes, x) <= Count(votes, w)
    ensures forall x :: x in votes && Count(votes, x) == Count(votes, w) ==>
      FirstIndex(votes, w) <= FirstIndex(votes, x)
  {
    LeaderIsMostCommon(votes);
    var ks := Keys(votes);
    ks[LeaderIndex(ks, votes)]
  }

  /** The three properties of `MostCommon` determine the winner uniquely. */
  lemma {:induction false} MostCommonUnique(votes: seq<int>, w: int)
    requires w in votes
    requires forall x :: Count(votes, x) <= Count(votes, w)
    requires forall x :: x in votes && Count(votes, x) == Count(votes, w) ==>
      FirstIndex(votes, w) <= FirstIndex(votes, x)
    ensures w == MostCommon(votes)
  {
    var m := MostCommon(votes);
    assert Count(votes, m) == Count(votes, w);
    assert FirstIndex(votes, w) == FirstIndex(votes, m);
  }

  /**
   * A tie is not broken by the lowest id: with two votes each for ids 5 and 2
   * and 5 voted for first, 5 is condemned.
   */
  lemma TieGoesToFirstVoted()
    ensures MostCommon([5, 2, 5, 2, 1]) == 5
  {
    var votes := [5, 2, 5, 2, 1];
    assert Count(votes, 5) == 2 && Count(votes, 2) == 2;
    assert FirstIndex(votes, 5) == 0;
    forall x ensures Count(votes, x) <= 2 {
      assert multiset(votes) == multiset{5, 2, 5, 2, 1};
    }
    MostCommonUnique(votes, 5);
  }
}
