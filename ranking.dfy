/**
 * The final ranking of a closed poll (src/bot.rs, handle_remove_poll): the
 * pairs (tally, index) are pushed in index order, sorted ascending in
 * Rust's lexicographic tuple order, then reversed.
 */
module PollRanking {

  /** One ranked place: a candidate's final tally and its 0-based index. */
  datatype Place = Place(tally: int, index: int)

  /** Rust's `<` on the tuple (tally, index). */
  predicate Below(a: Place, b: Place) {
    a.tally < b.tally || (a.tally == b.tally && a.index < b.index)
  }

  /** No later place is below an earlier one. */
  predicate Ascending(s: seq<Place>) {
    forall i, j :: 0 <= i < j < |s| ==> !Below(s[j], s[i])
  }

  /** The pairs the push loop builds: (votes[i], i) for every candidate. */
  function Pairs(votes: seq<int>): seq<Place> {
    seq(|votes|, i requires 0 <= i < |votes| => Place(votes[i], i))
  }

  function Insert(p: Place, s: seq<Place>): (r: seq<Place>)
    ensures multiset(r) == multiset(s) + multiset{p}
  {
    if s == [] || !Below(s[0], p) then
      [p] + s
    else
      assert s == [s[0]] + s[1..];
      [s[0]] + Insert(p, s[1..])
  }

  lemma {:induction false} InsertAscending(p: Place, s: seq<Place>)
    requires Ascending(s)
    ensures Ascending(Insert(p, s))
  {
    if s != [] && Below(s[0], p) {
      var rest := Insert(p, s[1..]);
      InsertAscending(p, s[1..]);
      assert s == [s[0]] + s[1..];
      forall x | x in rest
        ensures !Below(x, s[0])
      {
        assert x in multiset(rest);
        if x != p {
          assert x in multiset(s[1..]);
          var j :| 0 <= j < |s[1..]| && s[1..][j] == x;
          assert s[j + 1] == x;
        }
      }
      var r := [s[0]] + rest;
      forall i, j | 0 <= i < j < |r|
        ensures !Below(r[j], r[i])
      {
        if i == 0 {
          assert r[j] == rest[j - 1];
        } else {
          assert r[i] == rest[i - 1] && r[j] == rest[j - 1];
        }
      }
    }
  }

  /** A stand-in for the standard library's `sort`: an insertion sort. */
  function Sort(s: seq<Place>): (r: seq<Place>)
    ensures multiset(r) == multiset(s)
    ensures Ascending(r)
  {
    if s == [] then [] else
      assert s == [s[0]] + s[1..];
      InsertAscending(s[0], Sort(s[1..]));
      Insert(s[0], Sort(s[1..]))
  }

  /** The standard library's `reverse`. */
  function Reverse(s: seq<Place>): (r: seq<Place>)
    ensures |r| == |s|
    ensures forall i :: 0 <= i < |s| ==> r[i] == s[|s| - 1 - i]
  {
    if s == [] then [] else Reverse(s[1..]) + [s[0]]
  }

  /** The ranking the close command publishes, all candidates included. */
  function Ranking(votes: seq<int>): seq<Place> {
    Reverse(Sort(Pairs(votes)))
  }

  lemma ReverseMultiset(s: seq<Place>)
    ensures multiset(Reverse(s)) == multiset(s)
  {
    if s != [] {
      ReverseMultiset(s[1..]);
      assert s == [s[0]] + s[1..];
    }
  }

  /** Each index occurs in `Pairs(votes)` once, with its own tally. */
  lemma PairsOnce(votes: seq<int>, p: Place)
    ensures multiset(Pairs(votes))[p] == if 0 <= p.index < |votes| && p.tally == votes[p.index] then 1 else 0
    decreases |votes|
  {
    var n := |votes|;
    if n > 0 {
      var init := votes[..n - 1];
      PairsOnce(init, p);
      assert Pairs(votes) == Pairs(init) + [Place(votes[n - 1], n - 1)];
    }
  }

  /** Every place of the ranking is some candidate with its own tally. */
  lemma RankingPlaces(votes: seq<int>)
    ensures multiset(Ranking(votes)) == multiset(Pairs(votes))
    ensures |Ranking(votes)| == |votes|
    ensures forall k :: 0 <= k < |votes| ==>
              0 <= Ranking(votes)[k].index < |votes| && Ranking(votes)[k].tally == votes[Ranking(votes)[k].index]
  {
    var r := Ranking(votes);
    ReverseMultiset(Sort(Pairs(votes)));
    assert |r| == |votes| by {
      assert |multiset(r)| == |multiset(Pairs(votes))|;
    }
    forall k | 0 <= k < |votes|
      ensures 0 <= r[k].index < |votes| && r[k].tally == votes[r[k].index]
    {
      assert r[k] in multiset(r);
      PairsOnce(votes, r[k]);
    }
  }

  lemma RepeatedTwice(s: seq<Place>, j: nat, k: nat)
    requires j < k < |s| && s[j] == s[k]
    ensures multiset(s)[s[k]] >= 2
  {
    assert s == s[..k] + s[k..];
    assert s[j] == s[..k][j] && s[k] == s[k..][0];
    assert multiset(s)[s[k]] == multiset(s[..k])[s[k]] + multiset(s[k..])[s[k]];
  }

  /** No candidate is listed twice. */
  lemma RankingDistinct(votes: seq<int>)
    ensures |Ranking(votes)| == |votes|
    ensures forall j, k :: 0 <= j < k < |votes| ==> Ranking(votes)[j].index != Ranking(votes)[k].index
  {
    var r := Ranking(votes);
    RankingPlaces(votes);
    forall j, k | 0 <= j < k < |votes|
      ensures r[j].index != r[k].index
    {
      if r[j].index == r[k].index {
        RepeatedTwice(r, j, k);
        PairsOnce(votes, r[k]);
      }
    }
  }

  /**
   * Highest tally first and, among equal tallies, the larger index first,
   * because the ascending sort is reversed.
   */
  lemma RankingOrder(votes: seq<int>)
    ensures |Ranking(votes)| == |votes|
    ensures forall j, k :: 0 <= j < k < |votes| ==>
              Ranking(votes)[j].tally > Ranking(votes)[k].tally ||
              (Ranking(votes)[j].tally == Ranking(votes)[k].tally && Ranking(votes)[j].index > Ranking(votes)[k].index)
  {
    var sorted := Sort(Pairs(votes));
    var r := Ranking(votes);
    RankingDistinct(votes);
    forall j, k | 0 <= j < k < |votes|
      ensures r[j].tally > r[k].tally || (r[j].tally == r[k].tally && r[j].index > r[k].index)
    {
      var n := |votes|;
      assert r[j] == sorted[n - 1 - j] && r[k] == sorted[n - 1 - k];
      assert !Below(sorted[n - 1 - j], sorted[n - 1 - k]);
    }
  }

  /**
   * The push loop of handle_remove_poll followed by `sort` and `reverse`.
   */
  method Rank(votes: seq<int>) returns (ranking: seq<Place>)
    ensures ranking == Ranking(votes)
    ensures |ranking| == |votes|
    ensures forall k :: 0 <= k < |votes| ==>
              0 <= ranking[k].index < |votes| && ranking[k].tally == votes[ranking[k].index]
    ensures forall j, k :: 0 <= j < k < |votes| ==> ranking[j].index != ranking[k].index
    ensures forall j, k :: 0 <= j < k < |votes| ==>
              ranking[j].tally > ranking[k].tally ||
              (ranking[j].tally == ranking[k].tally && ranking[j].index > ranking[k].index)
  {
    var res: seq<Place> := [];
    for i := 0 to |votes|
      invariant res == Pairs(votes)[..i]
    {
      res := res + [Place(votes[i], i)];
    }
    assert res == Pairs(votes);
    res := Sort(res);
    res := Reverse(res);
    RankingPlaces(votes);
    RankingDistinct(votes);
    RankingOrder(votes);
    ranking := res;
  }

  lemma SortLast()
    ensures Sort([Place(9, 2)]) == [Place(9, 2)]
  {
    assert [Place(9, 2)][1..] == [];
  }

  lemma SortTies()
    ensures Sort([Place(9, 1), Place(9, 2)]) == [Place(9, 1), Place(9, 2)]
  {
    SortLast();
    assert [Place(9, 1), Place(9, 2)][1..] == [Place(9, 2)];
  }

  lemma PairsTie()
    ensures Pairs([5, 9, 9]) == [Place(5, 0), Place(9, 1), Place(9, 2)]
  {
  }

  /** The pairs of [5, 9, 9] are already in order: the tie between the two 9s is broken by index. */
  lemma SortTie()
    ensures Sort([Place(5, 0), Place(9, 1), Place(9, 2)]) == [Place(5, 0), Place(9, 1), Place(9, 2)]
  {
    SortTies();
    assert [Place(5, 0), Place(9, 1), Place(9, 2)][1..] == [Place(9, 1), Place(9, 2)];
  }

  /** Tallies [5, 9, 9]: the two 9s tie and the third candidate is ranked ahead of the second. */
  lemma TieExample()
    ensures var r := Ranking([5, 9, 9]);
      |r| == 3 && r[0] == Place(9, 2) && r[1] == Place(9, 1) && r[2] == Place(5, 0)
  {
    PairsTie();
    SortTie();
  }
}
