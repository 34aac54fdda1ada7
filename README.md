# Baby-name voting session, modelled in Dafny

The `App` component of this baby-names app shows one name at a time from a
fixed dataset. The user votes it up or down, and the app then shows the next
name at random. The component holds three pieces of state:

- `namePool`: the records `{name, gender, year}` not yet shown, in dataset order;
- `currentName`: the record on screen, or `null`;
- `votes`: an object from the key `year-gender-name` to the record extended with its
  vote, `"up"` or `"down"`.

The results view lists the liked and the disliked entries.

The model has six modules:

- `Names`: the records, the vote entries and the composite key. It includes a parser
  that reads a key back into its record, which shows the key is injective.
- `OrderedMap`: the vote object as a JavaScript object behaves: one entry per key, in
  insertion order. `{ ...prev, [key]: v }` is `Put`.
- `Sequences`: `splice(i, 1)` on a copy of the pool is `RemoveAt`. `Subseq` says
  the pool keeps the dataset's order.
- `Tally`: the two `filter` expressions.
- `App`: the session invariant `Consistent`, the lemmas that each transition keeps
  it, and the class `VotingSession`. Its fields are the component's state. The two
  `useEffect` hooks are its constructor (load, then draw) and `DrawIfIdle`. The
  handlers `pickRandomName` and `handleVote` are its methods `PickRandomName` and
  `HandleVote`.
- `Wrappers`: `Option`, standing for `null`/`undefined`.

The random index is a parameter `i`. `RandomIndex(i, n)` states its range: the values
`Math.floor(Math.random() * n)` can take. That is `0` for an empty pool and
`0 <= i < n` otherwise.

The session invariant always says these things:

- the pool is the dataset with elements deleted and the rest in order;
- nothing is on screen only once the pool is empty;
- each vote is stored under its own record's key;
- the pool, the current record and the voted records together form a sub-multiset of
  the dataset.

When the dataset's keys are unique, that multiset equals the dataset. Because the key
is injective, "unique keys" is the same as "pairwise different records"
(`Names.UniqueKeysIffDistinct`). That in turn implies each record occurs at most once
(`Names.UniqueKeysOnce`).

## Model

| member | source | states |
|---|---|---|
| `Names.Key` | src/components/App.js:34 | the vote key: the year's decimal text, `-`, the gender's text, `-`, the name |
| `Names.KeyRoundTrip` | src/components/App.js:34 | parsing the key `${year}-${gender}-${name}` of any record gives back that record |
| `Names.KeyInjective` | src/components/App.js:34 | two records have the same vote key exactly when they are the same record |
| `Names.ParseNatText` | src/components/App.js:34 | the decimal text of the year reads back as the year |
| `Names.UniqueKeysIffDistinct` | src/components/App.js:34 | the dataset's keys are pairwise different exactly when its positions hold pairwise different records |
| `Names.UniqueKeysOnce` | src/components/App.js:34-38 | a dataset whose keys are unique holds every record at most once |
| `OrderedMap.Put` | src/components/App.js:35-38 | the object spread with `[key]` overwrites an existing key in its own position, or appends a new key at the end |
| `OrderedMap.Values` | src/components/App.js:47-48 | `Object.values(votes)`: the entries' values, in the order of their keys |
| `OrderedMap.PutThenGet` | src/components/App.js:35-38 | after the vote write, the key reads the new entry and every other key reads what it read before; keys stay distinct |
| `Sequences.RemoveAt` | src/components/App.js:28-30 | the spliced copy is one shorter, keeps the elements before `i` and shifts the ones after it down by one, and together with the removed element is the old pool as a multiset |
| `Sequences.RemoveAtSubseq` | src/components/App.js:28-30 | the spliced pool keeps the remaining elements in their old order |
| `Sequences.SubseqTransitive` | src/components/App.js:14-30 | repeated splices still leave a subsequence of the dataset, so the pool is never appended to or reordered |
| `Tally.WithTag` | src/components/App.js:47-48 | the filter keeps exactly the entries carrying the given tag |
| `Tally.LikedNames` | src/components/App.js:47 | `likedNames` holds exactly the vote entries tagged up |
| `Tally.DislikedNames` | src/components/App.js:48 | `dislikedNames` holds exactly the vote entries tagged down |
| `Tally.WithTagSplits` | src/components/App.js:47-48 | filtering by up and by down splits any list of entries into two parts whose multisets add up to the whole |
| `Tally.WithTagAppend` | src/components/App.js:47-48 | the filter of a list with one more entry is the old filter plus that entry when its tag matches |
| `Tally.TalliesPartitionVotes` | src/components/App.js:47-48 | no entry is both liked and disliked; liked and disliked together hold every vote once, so their lengths add up to the vote count |
| `Tally.TalliesAfterNewVote` | src/components/App.js:35-48 | a vote under a new key is appended to the end of its own list and leaves the other list unchanged |
| `App.RandomIndex` | src/components/App.js:24 | the indices `Math.floor(Math.random() * n)` can yield: 0 when n is 0, otherwise 0 to n - 1 |
| `App.Consistent` | src/components/App.js:8-45 | the session invariant: the pool is an order-preserving subsequence of the dataset; nothing is on screen only when the pool is empty; keys are distinct and each entry sits under its record's key; pool, record on screen and voted records are a sub-multiset of the dataset, equal to it when the keys are unique |
| `App.InitConsistent` | src/components/App.js:13-21 | loading the dataset and drawing once when it is non-empty gives a consistent session |
| `App.VoteKeepsKeys` | src/components/App.js:34-38 | storing a vote under the current record's key keeps keys distinct and every entry under its own record's key |
| `App.VoteRecords` | src/components/App.js:34-38 | a vote under a new key adds the current record to the voted records; a vote under an existing key leaves them unchanged, because that key already belongs to the current record |
| `App.VoteKeepsConsistent` | src/components/App.js:33-45 | recording a vote and then drawing the next record, or clearing the screen when the pool is empty, keeps the session consistent |
| `App.Conservation` | src/components/App.js:13-45 | with unique dataset keys: pool size plus vote count plus one for the record on screen equals the dataset size; the record on screen is not in the pool and has no vote yet |
| `App.NoNameLikedAndDisliked` | src/components/App.js:34-48 | an entry of the liked list and an entry of the disliked list always belong to different records, so no name is both liked and disliked |
| `App.VotedNotInPool` | src/components/App.js:14-45 | with unique dataset keys, a record that has a vote is not in the pool, so it is never shown again |
| `App.VoteExtendsTallies` | src/components/App.js:33-48 | with unique dataset keys, each vote adds exactly one entry, which goes to the end of the liked list (up) or the disliked list (down) |
| `App.VotingSession.constructor` | src/components/App.js:8-21 | initial state is an empty pool, no current name and no votes; the pool is then set to the dataset and one record is drawn if any; the result is consistent |
| `App.VotingSession.DrawIfIdle` | src/components/App.js:17-21 | draws exactly when the pool is non-empty and nothing is on screen, and otherwise changes nothing; on a consistent session it keeps the session consistent |
| `App.VotingSession.PickRandomName` | src/components/App.js:23-31 | the current name becomes `pool[i]` and the pool loses exactly element `i`; on an empty pool the current name becomes empty and the pool is unchanged; votes are untouched |
| `App.VotingSession.HandleVote` | src/components/App.js:33-45 | the vote is written under the current record's key and other keys are unchanged; then the next record is drawn from a non-empty pool, or the screen is cleared when the pool is empty; with nothing on screen it fails and changes nothing; the session stays consistent |

## Left out

- Rendering, react-bootstrap components, CSS classes and `getBackgroundColor` (src/components/App.js:50-163): presentation only.
- The `showResults` flag (src/components/App.js:11): a view toggle that does not affect the session state.
- `Math.random`: the index is a parameter constrained to the range the expression can produce. Uniformity is not modelled.
- React's hook scheduling and batching: each handler is one atomic transition. The pool-change effect is modelled once, at mount. After every later pool change a record is already on screen, so the effect's guard is false. In the "no more names" branch the pool does not change, so the effect does not run.
- Loading the JSON dataset (src/components/App.js:2): the dataset is a constructor argument.
- The vote tag is a two-valued type. The handler accepts any string, but its only callers pass `"up"` and `"down"` (src/components/App.js:88, src/components/App.js:97). This is why the two lists hold every vote.
- `App.VotingSession.HandleVote`: with no record on screen, the source throws a `TypeError` while building the key. The model returns `false` instead and leaves the state unchanged. The buttons that call the handler are only shown while a record is on screen.
- `Names.KeyRoundTrip`: the year is an unbounded integer. `IntText` agrees with `${year}` for every integer with |year| <= 2^53. Above that, only some integers are exact Numbers, and an exact one can print as rounded digits padded with zeros (`${2**64}` is "18446744073709552000"). Gender is one of the two dataset values, `"Girl"` and `"Boy"`.
- Object key order: JavaScript lists integer-like keys first. Every vote key contains `-Girl-` or `-Boy-`, so none is integer-like, and `Object.values` follows insertion order as `OrderedMap.Values` does.
- Persistence to storage, restoring a saved session, reset and CSV or e-mail export: none of these exist in src/components/App.js, so they are not part of this model.
