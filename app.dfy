/**
 * The name-voting session of the `App` component: the pool of records not
 * yet shown, the record on screen, and the votes cast so far.
 */
module App {
  import opened Wrappers
  import opened Names
  import opened OrderedMap
  import opened Sequences
  import opened Tally

  /**
   * The indices `Math.floor(Math.random() * n)` can produce: 0 when n is 0,
   * otherwise one of 0 .. n - 1.
   */
  predicate RandomIndex(i: nat, n: nat) {
    if n == 0 then i == 0 else i < n
  }

  /** The records of the vote entries, in the order of their keys. */
  function Records(votes: Table<string, VoteEntry>): seq<NameRecord> {
    seq(|votes|, j requires 0 <= j < |votes| => votes[j].1.record)
  }

  function Shown(current: Option<NameRecord>): multiset<NameRecord> {
    match current
    case None => multiset{}
    case Some(r) => multiset{r}
  }

  /** Every record the session holds: in the pool, on screen, or voted on. */
  function Accounted(pool: seq<NameRecord>, current: Option<NameRecord>, votes: Table<string, VoteEntry>): multiset<NameRecord> {
    multiset(pool) + Shown(current) + multiset(Records(votes))
  }

  /**
   * The session invariant. The pool is the dataset with elements deleted and
   * the rest in order; nothing is on screen only once the pool is empty; each
   * vote is stored under its record's own key; and no record is created: the
   * pool, the current record and the voted records come from the dataset.
   * When the dataset's keys are unique, nothing is lost either.
   */
  ghost predicate Consistent(allNames: seq<NameRecord>, pool: seq<NameRecord>, current: Option<NameRecord>, votes: Table<string, VoteEntry>) {
    && Subseq(pool, allNames)
    && (current.None? ==> pool == [])
    && DistinctKeys(votes)
    && KeyedByRecord(votes)
    && Accounted(pool, current, votes) <= multiset(allNames)
    && (UniqueKeys(allNames) ==> Accounted(pool, current, votes) == multiset(allNames))
  }

  /** The state after loading the dataset and drawing once (when there is anything to draw) is consistent. */
  lemma InitConsistent(allNames: seq<NameRecord>, i: nat)
    requires RandomIndex(i, |allNames|)
    ensures |allNames| == 0 ==> Consistent(allNames, [], None, [])
    ensures |allNames| > 0 ==> Consistent(allNames, RemoveAt(allNames, i), Some(allNames[i]), [])
  {
    assert Records([]) == [];
    if |allNames| > 0 {
      RemoveAtSubseq(allNames, i);
    }
  }

  /** Each vote entry is stored under the key of its own record. */
  predicate KeyedByRecord(votes: Table<string, VoteEntry>) {
    forall j :: 0 <= j < |votes| ==> votes[j].0 == Key(votes[j].1.record)
  }

  /** Storing a vote on `current` under its key keeps every entry under its own key and the keys distinct. */
  lemma VoteKeepsKeys(votes: Table<string, VoteEntry>, current: NameRecord, tag: VoteTag)
    requires DistinctKeys(votes) && KeyedByRecord(votes)
    ensures DistinctKeys(Put(votes, Key(current), VoteEntry(current, tag)))
    ensures KeyedByRecord(Put(votes, Key(current), VoteEntry(current, tag)))
  {
  }

  /** Where `{ ...votes, [k]: e }` puts e, the voted records read e's record. */
  lemma RecordsAfterPut(votes: Table<string, VoteEntry>, k: string, e: VoteEntry)
    ensures Find(votes, k) == |votes| ==> Records(Put(votes, k, e)) == Records(votes) + [e.record]
    ensures Find(votes, k) < |votes| ==> Records(Put(votes, k, e)) == Records(votes)[Find(votes, k) := e.record]
  {
  }

  /**
   * A vote under a new key adds `current` to the voted records; an existing
   * key already belongs to `current`, so the voted records stay as they were.
   */
  lemma VoteRecords(votes: Table<string, VoteEntry>, current: NameRecord, tag: VoteTag)
    requires KeyedByRecord(votes)
    ensures Find(votes, Key(current)) == |votes| ==> Records(Put(votes, Key(current), VoteEntry(current, tag))) == Records(votes) + [current]
    ensures Find(votes, Key(current)) < |votes| ==> Records(Put(votes, Key(current), VoteEntry(current, tag))) == Records(votes)
  {
    var k := Key(current);
    RecordsAfterPut(votes, k, VoteEntry(current, tag));
    var j := Find(votes, k);
    if j < |votes| {
      KeyInjective(votes[j].1.record, current);
      assert Records(votes)[j := current] == Records(votes);
    }
  }

  /**
   * Storing the vote on the record on screen and then drawing the next record
   * (or, with an empty pool, clearing the screen) keeps the session consistent.
   */
  lemma VoteKeepsConsistent(allNames: seq<NameRecord>, pool: seq<NameRecord>, current: NameRecord,
                            votes: Table<string, VoteEntry>, tag: VoteTag, i: nat)
    requires Consistent(allNames, pool, Some(current), votes)
    requires RandomIndex(i, |pool|)
    ensures var votes' := Put(votes, Key(current), VoteEntry(current, tag));
            if |pool| > 0 then Consistent(allNames, RemoveAt(pool, i), Some(pool[i]), votes')
            else Consistent(allNames, pool, None, votes')
  {
    VoteKeepsKeys(votes, current, tag);
    VoteRecords(votes, current, tag);
    if UniqueKeys(allNames) {
      Conservation(allNames, pool, Some(current), votes);
    }
    if |pool| > 0 {
      RemoveAtSubseq(pool, i);
      SubseqTransitive(RemoveAt(pool, i), pool, allNames);
    }
  }

  /**
   * With unique keys in the dataset, no record is lost, duplicated or created:
   * pool size plus vote count plus the record on screen is the dataset size,
   * and the record on screen is neither in the pool nor already voted on.
   */
  lemma Conservation(allNames: seq<NameRecord>, pool: seq<NameRecord>, current: Option<NameRecord>, votes: Table<string, VoteEntry>)
    requires Consistent(allNames, pool, current, votes)
    requires UniqueKeys(allNames)
    ensures |pool| + |votes| + (if current.Some? then 1 else 0) == |allNames|
    ensures current.Some? ==> current.value !in pool && Find(votes, Key(current.value)) == |votes|
  {
    var acc := Accounted(pool, current, votes);
    assert |acc| == |pool| + |Shown(current)| + |Records(votes)|;
    if current.Some? {
      var c := current.value;
      UniqueKeysOnce(allNames);
      assert acc[c] <= 1;
      assert multiset(pool)[c] == 0 && multiset(Records(votes))[c] == 0;
      forall m | 0 <= m < |votes| ensures votes[m].0 != Key(c) {
        assert Records(votes)[m] in Records(votes);
        KeyInjective(votes[m].1.record, c);
      }
    }
  }

  /**
   * No name is both liked and disliked: an entry of the liked list and an
   * entry of the disliked list sit under different keys, so they belong to
   * different records.
   */
  lemma NoNameLikedAndDisliked(votes: Table<string, VoteEntry>)
    requires DistinctKeys(votes) && KeyedByRecord(votes)
    ensures forall e1, e2 :: e1 in LikedNames(votes) && e2 in DislikedNames(votes) ==> e1.record != e2.record
  {
    forall e1, e2 | e1 in LikedNames(votes) && e2 in DislikedNames(votes)
      ensures e1.record != e2.record
    {
      var j :| 0 <= j < |votes| && Values(votes)[j] == e1;
      var k :| 0 <= k < |votes| && Values(votes)[k] == e2;
      assert j != k by {
        assert e1.vote == Up && e2.vote == Down;
      }
      assert votes[j].0 != votes[k].0;
    }
  }

  /**
   * With unique keys in the dataset, a record that has a vote is no longer
   * in the pool, so it is never shown again.
   */
  lemma VotedNotInPool(allNames: seq<NameRecord>, pool: seq<NameRecord>, current: Option<NameRecord>, votes: Table<string, VoteEntry>)
    requires Consistent(allNames, pool, current, votes)
    requires UniqueKeys(allNames)
    ensures forall j :: 0 <= j < |votes| ==> votes[j].1.record !in pool
  {
    UniqueKeysOnce(allNames);
    var acc := Accounted(pool, current, votes);
    forall j | 0 <= j < |votes| ensures votes[j].1.record !in pool {
      var r := votes[j].1.record;
      assert Records(votes)[j] == r;
      assert multiset(Records(votes))[r] >= 1;
      assert acc[r] <= 1;
    }
  }

  /**
   * With unique keys in the dataset, a vote in a consistent session is a new
   * entry: it goes to the end of the liked list for "up" or of the disliked
   * list for "down", and the other list is unchanged.
   */
  lemma VoteExtendsTallies(allNames: seq<NameRecord>, pool: seq<NameRecord>, current: NameRecord,
                           votes: Table<string, VoteEntry>, tag: VoteTag)
    requires Consistent(allNames, pool, Some(current), votes)
    requires UniqueKeys(allNames)
    ensures var votes' := Put(votes, Key(current), VoteEntry(current, tag));
            && |votes'| == |votes| + 1
            && LikedNames(votes') == LikedNames(votes) + (if tag == Up then [VoteEntry(current, tag)] else [])
            && DislikedNames(votes') == DislikedNames(votes) + (if tag == Down then [VoteEntry(current, tag)] else [])
  {
    Conservation(allNames, pool, Some(current), votes);
    TalliesAfterNewVote(votes, Key(current), VoteEntry(current, tag));
  }

  class VotingSession {
    /** The dataset (`allNames`), loaded once. */
    const allNames: seq<NameRecord>
    /** The records not yet shown, in dataset order. */
    var namePool: seq<NameRecord>
    /** The record on screen, or None for `null`. */
    var currentName: Option<NameRecord>
    /** The votes, keyed by `year-gender-name`, in the order they were first cast. */
    var votes: Table<string, VoteEntry>

    ghost predicate Valid()
      reads this
    {
      Consistent(allNames, namePool, currentName, votes)
    }

    /**
     * Mounting the component: the state starts empty, the first effect loads
     * the dataset into the pool, and the second draws the first record.
     */
    constructor (allNames: seq<NameRecord>, i: nat)
      requires RandomIndex(i, |allNames|)
      ensures Valid()
      ensures this.allNames == allNames && votes == []
      ensures |allNames| == 0 ==> namePool == [] && currentName == None
      ensures |allNames| > 0 ==> currentName == Some(allNames[i]) && namePool == RemoveAt(allNames, i)
    {
      this.allNames := allNames;
      namePool := [];
      currentName := None;
      votes := [];
      new;
      namePool := allNames;
      DrawIfIdle(i);
      InitConsistent(allNames, i);
    }

    /**
     * The effect that runs when the pool changes: draw when the pool has
     * records and nothing is on screen. Only the constructor calls it. On a
     * consistent session its guard is false, so it keeps the session as it is.
     */
    method DrawIfIdle(i: nat)
      requires RandomIndex(i, |namePool|)
      modifies this
      ensures old(Valid()) ==> Valid()
      ensures if |old(namePool)| > 0 && old(currentName).None?
              then currentName == Some(old(namePool)[i]) && namePool == RemoveAt(old(namePool), i)
              else currentName == old(currentName) && namePool == old(namePool)
      ensures votes == old(votes)
    {
      if |namePool| > 0 && currentName.None? {
        PickRandomName(i);
      }
    }

    /**
     * Shows the record at index i and removes it from the pool. On an empty
     * pool the element read is undefined and the splice removes nothing.
     * This is an inner step: it is called only behind the guards of the
     * pool-change effect and of HandleVote, after the record on screen has
     * been recorded or when nothing is on screen. Called while a record is
     * on screen and unvoted, it would drop that record.
     */
    method PickRandomName(i: nat)
      requires RandomIndex(i, |namePool|)
      modifies this
      ensures |old(namePool)| > 0 ==> currentName == Some(old(namePool)[i]) && namePool == RemoveAt(old(namePool), i)
      ensures |old(namePool)| == 0 ==> currentName == None && namePool == old(namePool)
      ensures votes == old(votes)
    {
      var randomName := if i < |namePool| then Some(namePool[i]) else None;
      currentName := randomName;
      var updatedPool := namePool;
      if i < |updatedPool| {
        updatedPool := RemoveAt(updatedPool, i);
      }
      namePool := updatedPool;
    }

    /**
     * Records the vote on the record on screen under its key, then draws the
     * next record, or clears the screen when the pool is empty. With nothing
     * on screen, reading the key fails before any state is touched: `ok` is
     * false and nothing changes.
     */
    method HandleVote(voteType: VoteTag, i: nat) returns (ok: bool)
      requires Valid()
      requires RandomIndex(i, |namePool|)
      modifies this
      ensures Valid()
      ensures ok == old(currentName).Some?
      ensures !ok ==> namePool == old(namePool) && currentName == old(currentName) && votes == old(votes)
      ensures ok ==> votes == Put(old(votes), Key(old(currentName).value), VoteEntry(old(currentName).value, voteType))
      ensures ok && |old(namePool)| > 0 ==> currentName == Some(old(namePool)[i]) && namePool == RemoveAt(old(namePool), i)
      ensures ok && |old(namePool)| == 0 ==> currentName == None && namePool == []
    {
      if currentName.None? {
        return false;
      }
      var current := currentName.value;
      var key := Key(current);
      votes := Put(votes, key, VoteEntry(current, voteType));
      if |namePool| > 0 {
        PickRandomName(i);
      } else {
        currentName := None;
      }
      VoteKeepsConsistent(allNames, old(namePool), current, old(votes), voteType, i);
      ok := true;
    }
  }
}
