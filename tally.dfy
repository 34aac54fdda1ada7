/** The two result lists: `Object.values(votes)` filtered by vote tag. */
module Tally {
  import opened Names
  import opened OrderedMap

  /** `entries.filter((v) => v.vote === tag)`. */
  function WithTag(entries: seq<VoteEntry>, tag: VoteTag): (r: seq<VoteEntry>)
    ensures forall e :: e in r <==> e in entries && e.vote == tag
    ensures |r| <= |entries|
  {
    if entries == [] then []
    else (if entries[0].vote == tag then [entries[0]] else []) + WithTag(entries[1..], tag)
  }

  /** `likedNames`: the entries voted "up". */
  function LikedNames(votes: Table<string, VoteEntry>): (r: seq<VoteEntry>)
    ensures forall e :: e in r <==> e in Values(votes) && e.vote == Up
  {
    WithTag(Values(votes), Up)
  }

  /** `dislikedNames`: the entries voted "down". */
  function DislikedNames(votes: Table<string, VoteEntry>): (r: seq<VoteEntry>)
    ensures forall e :: e in r <==> e in Values(votes) && e.vote == Down
  {
    WithTag(Values(votes), Down)
  }

  /** Filtering by each of the two tags splits a list into two parts that together are the whole list. */
  lemma {:induction false} WithTagSplits(entries: seq<VoteEntry>)
    ensures multiset(WithTag(entries, Up)) + multiset(WithTag(entries, Down)) == multiset(entries)
  {
    if entries != [] {
      var head, rest := entries[0], entries[1..];
      WithTagSplits(rest);
      assert entries == [head] + rest;
      assert multiset(entries) == multiset{head} + multiset(rest);
      if head.vote == Up {
        assert WithTag(entries, Up) == [head] + WithTag(rest, Up);
        assert WithTag(entries, Down) == WithTag(rest, Down);
      } else {
        assert WithTag(entries, Up) == WithTag(rest, Up);
        assert WithTag(entries, Down) == [head] + WithTag(rest, Down);
      }
    }
  }

  /** Filtering distributes over appending one more entry. */
  lemma {:induction false} WithTagAppend(entries: seq<VoteEntry>, e: VoteEntry, tag: VoteTag)
    ensures WithTag(entries + [e], tag) == WithTag(entries, tag) + (if e.vote == tag then [e] else [])
  {
    if entries != [] {
      assert (entries + [e])[1..] == entries[1..] + [e];
      WithTagAppend(entries[1..], e, tag);
    }
  }

  /**
   * Every vote is in exactly one of the two lists: no entry is both liked and
   * disliked, and the two lists together hold each vote once.
   */
  lemma TalliesPartitionVotes(votes: Table<string, VoteEntry>)
    ensures multiset(LikedNames(votes)) + multiset(DislikedNames(votes)) == multiset(Values(votes))
    ensures |LikedNames(votes)| + |DislikedNames(votes)| == |votes|
    ensures forall e :: !(e in LikedNames(votes) && e in DislikedNames(votes))
  {
    WithTagSplits(Values(votes));
    assert |multiset(Values(votes))| == |votes|;
  }

  /** A vote under a new key joins the end of its list and leaves the other list as it was. */
  lemma TalliesAfterNewVote(votes: Table<string, VoteEntry>, k: string, e: VoteEntry)
    requires Find(votes, k) == |votes|
    ensures LikedNames(Put(votes, k, e)) == LikedNames(votes) + (if e.vote == Up then [e] else [])
    ensures DislikedNames(Put(votes, k, e)) == DislikedNames(votes) + (if e.vote == Down then [e] else [])
  {
    assert Values(Put(votes, k, e)) == Values(votes) + [e];
    WithTagAppend(Values(votes), e, Up);
    WithTagAppend(Values(votes), e, Down);
  }
}
