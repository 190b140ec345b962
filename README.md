# Spelling-list sorter: a Dafny model of its core

The application is a spelling-practice page. A learner picks a spelling list. The
list's words are queued in a shuffled order, and each word is dragged (with a typed
spelling) into one of the list's spelling-pattern buckets. A check scores the board:
a card is correct when it sits in its own group's bucket and its spelling matches
the word.

This project models three pieces of that program and proves properties about them.

**The shuffle** (`Shuffle`, shuffle.dfy). This is the Durstenfeld form of
Fisher–Yates, working on a copy of the input.
- `Shuffle.Shuffle` copies the items into a fresh array. It then swaps in place from
  the top index down.
- Its loop is proved against the specification function `Shuffled`. Lemmas then
  show that `Shuffled` is a permutation of its input.
- The random source is a parameter: a sequence of index draws.
- `DrawIndex` and `DrawsFrom` show that values in [0, 1) turned into indices by
  `floor(r * (i + 1))` always give such a sequence.
- The method has no `modifies` clause, so the caller's array is left as it was.

**The scoring** (`Stats`, stats.dfy, with `Text`, text.dfy, for trimming and
lower-casing).
- `isCardCorrect` becomes `IsCardCorrect`, and `aggregateStats` becomes
  `AggregateStats`.
- The record of buckets is a sequence of key/cards entries, in `Object.entries`
  order. A missing card list is `None`.
- Both counts are the left folds of the source. They are shown equal to a count
  over one flat list of card placements.
- The percentage is exact round-half-up: `(200c + t) / (2t)`.

**The page's session** (`Buckets`, buckets.dfy, and `Page`, page.dfy).
- The `Home` component's state is the class `Page.Home`, with one method per
  handler.
- The record `Record<string, Card[]>` is a `Board`: a sequence of buckets with
  distinct keys, in insertion order. `buildBuckets`, and the `forEach` loops that
  rebuild the record in the drop and delete updaters, are loop methods in `Buckets`.
- Each handler is also stated as a transition function on the value `Session`
  (`AfterDrop`, `AfterDeleteCard`, …). Each method ensures that its new state is
  that function of its old state.
- Lemmas prove two kinds of result about the transitions. First, they preserve the
  session invariant `Invariant`:
  - each word sits in at most one bucket;
  - a queued word is on no bucket;
  - there is a current word exactly when the queue is non-empty, and it is queued;
  - the queue has no duplicates when the lists name their words once.
- Second, the lemmas state what each transition does to the board, the queue and
  the check.

One observation about the scoring. Because the denominator is the list's word count,
a learner who has not placed every word scores below 100 — but only on lists of
fewer than 200 words. With exact round-half-up, 199 correct out of 200 gives 99.5,
which rounds to 100. So the A+ badge can show while one card is wrong.
- `Stats.FullWithOneWrong` states this case.
- `Stats.FullMeansAllCorrect` and `Page.APlusMeansAllCorrect` prove the "100 only
  when all correct" direction for lists of fewer than 200 words.
- `Page.APlusAfterCheckMeansAllGreen` states it for a session: on such a list,
  the badge after a check means the queue is empty and the green cards number
  exactly the list's words.

## Model

| member | source | states |
|---|---|---|
| Shuffle.Shuffle | src/lib/shuffle.ts:1-8 | returns a fresh array holding `Shuffled(items, draws)`, a permutation of the items; the input array is not modified |
| Shuffle.Steps | src/lib/shuffle.ts:3-6 | the loop iterations `i` down to 1 on a sequence; keeps the length (its permutation and suffix properties are `StepsPermutes` and `StepsKeepsSuffix`) |
| Shuffle.Shuffled | src/lib/shuffle.ts:1-8 | the specification of `shuffle`: all iterations from the top index, applied to the input (its properties are in the lemmas below) |
| Shuffle.ShuffledIsPermutation | src/lib/shuffle.ts:1-8 | the shuffle keeps the length and the multiset of elements |
| Shuffle.StepsPermutes | src/lib/shuffle.ts:3-6 | the remaining loop iterations only permute their input |
| Shuffle.SwapPermutes | src/lib/shuffle.ts:5 | one swap keeps the multiset of elements |
| Shuffle.Swap | src/lib/shuffle.ts:5 | the destructuring swap `[copy[i], copy[j]] = [copy[j], copy[i]]` on a sequence, keeping the length (its multiset property is `SwapPermutes`) |
| Shuffle.StepsKeepsSuffix | src/lib/shuffle.ts:3-5 | iterations from `i` down never touch a position above `i` |
| Shuffle.ShortInputUnchanged | src/lib/shuffle.ts:3 | empty and one-element inputs come back unchanged |
| Shuffle.DrawIndex | src/lib/shuffle.ts:4 | `floor(r * (i + 1))` for `r` in [0, 1) lies in [0, i] and is the floor of that product |
| Shuffle.DrawsFrom | src/lib/shuffle.ts:4 | random values in [0, 1) always yield in-bounds draws for every iteration |
| Shuffle.FifthsDrawZero | src/lib/shuffle.test.ts:7-12 | the random value 0.2 draws index 0 on every iteration for four items |
| Shuffle.ZeroDrawsRotate | src/lib/shuffle.test.ts:6-17 | index 0 drawn every time rotates the input left by one, which differs from the input unless all its elements are equal |
| Shuffle.ShuffleOfFourWithZeroDraws | src/lib/shuffle.test.ts:6-17 | `["a","b","c","d"]` with index 0 drawn every time gives `["b","c","d","a"]` |
| Shuffle.ReplayIsDeterministic | src/lib/shuffle.test.ts:35-46 | two shuffles of the same items with the same random values in [0, 1) return arrays with the same contents |
| Text.LowerChar | src/lib/stats.ts:14 | ASCII lower-casing of one character: upper-case letters shift by 32, other characters stay |
| Text.TrimStart | src/lib/stats.ts:14 | drops exactly the leading whitespace, leaving a suffix that starts with a non-space |
| Text.TrimEnd | src/lib/stats.ts:14 | drops exactly the trailing whitespace, leaving a prefix that ends with a non-space |
| Text.ToLower | src/lib/stats.ts:14 | lower-cases every character, keeping the length |
| Text.Trim | src/lib/stats.ts:14 | `trim()`: no longer than its input and with no white space at either end |
| Text.TrimIsInnerSlice | src/lib/stats.ts:14 | `trim()` is a slice of its input with no whitespace at either end |
| Text.TrimIdempotent | src/lib/stats.ts:14 | trimming twice is trimming once |
| Text.TrimOfUnpadded | src/lib/stats.ts:14 | a string without whitespace at its ends is its own trim |
| Text.TrimOfPadded | src/lib/stats.ts:14 | any whitespace padding around an unpadded core trims back to the core |
| Text.TrimStartOfPadded | src/lib/stats.ts:14 | leading whitespace before a non-space is removed by the start trim |
| Text.TrimEndOfPadded | src/lib/stats.ts:14 | trailing whitespace after a non-space is removed by the end trim |
| Text.ToLowerIdempotent | src/lib/stats.ts:14 | lower-casing twice is lower-casing once |
| Stats.CorrectIgnoresCaseAndPadding | src/lib/stats.ts:13-16 | a padded spelling that differs from the word only in case is correct exactly in the word's own bucket |
| Stats.BothConditionsNeeded | src/lib/stats.ts:15 | a wrong bucket or a wrong spelling alone makes a card incorrect |
| Stats.MissingSpellingIsEmpty | src/lib/stats.ts:14 | a missing spelling scores as the empty string |
| Stats.NormalizedSpelling | src/lib/stats.ts:14 | `(card.spelling ?? "").trim().toLowerCase()` (definition; used by `IsCardCorrect`) |
| Stats.IsCardCorrect | src/lib/stats.ts:13-16 | `isCardCorrect`: the bucket key is the card's group and the normalised spelling equals the lower-cased word (definition; properties in the three lemmas above and `FeedbackAgreesWithScoring`) |
| Stats.CountCorrect | src/lib/stats.ts:30 | at most all of the bucket's cards are correct, and all are exactly when every card is correct for that key |
| Stats.PlacedCount | src/lib/stats.ts:22-26 | the `reduce` adding each entry's list length, from the left (definition; related to the flat count by `PlacedCountIsPlacements`) |
| Stats.PlacedIn | src/lib/stats.ts:24 | one entry's `cards?.length ?? 0` (definition; summed by `PlacedCount`) |
| Stats.CorrectCount | src/lib/stats.ts:28-32 | the `reduce` adding each non-empty entry's correct cards, from the left (definition; related to the flat count by `CorrectCountIsCorrectPlacements`) |
| Stats.CorrectIn | src/lib/stats.ts:29-31 | one entry's contribution: 0 for an absent or empty list, else its correct cards (definition; summed by `CorrectCount`) |
| Stats.PlacedCountIsPlacements | src/lib/stats.ts:22-26 | `placedCount` is the number of card placements over all entries, a missing list counting 0 |
| Stats.CorrectCountIsCorrectPlacements | src/lib/stats.ts:28-32 | `correctCount` is the number of placements correct for their own bucket's key |
| Stats.CorrectPlacementsOfBucket | src/lib/stats.ts:29-31 | the filter over one bucket counts that bucket's correct placements |
| Stats.PlacedCountFront | src/lib/stats.ts:22-26 | the left fold of `placedCount` also splits off the first entry |
| Stats.CorrectCountFront | src/lib/stats.ts:28-32 | the left fold of `correctCount` also splits off the first entry |
| Stats.CorrectAtMostPlaced | src/lib/stats.ts:22-32 | `correctCount <= placedCount` |
| Stats.RoundedPercent | src/lib/stats.ts:34 | the result is the integer nearest to `100c / t`, halves rounded up |
| Stats.PercentAtMost100 | src/lib/stats.ts:34 | with `c <= t` the percentage is at most 100 |
| Stats.AllCorrectIsFull | src/lib/stats.ts:34 | all words correct gives 100 |
| Stats.FullMeansAllCorrect | src/lib/stats.ts:34 | for fewer than 200 words, 100 percent means exactly as many correct cards as words, whatever the count |
| Stats.FullWithOneWrong | src/lib/stats.ts:34 | 199 correct out of 200 rounds to 100 |
| Stats.AggregateStats | src/lib/stats.ts:18-37 | placed and correct counts over all placements, `correct <= placed`, percentage 0 without words, else the rounded ratio, in [0, 100] when `correct <= total` |
| Stats.EmptyBoardIsZero | src/lib/stats.test.ts:53-59 | an empty or absent record with no words gives all zeros |
| Stats.TwoBucketTotals | src/lib/stats.ts:22-32 | for two entries both folds are the sums of the entries' counts |
| Stats.TwoOfFiveIsForty | src/lib/stats.test.ts:34-51 | two correct cards out of three placed, with five words, give 3 placed, 2 correct, 40 percent |
| Buckets.PermutationKeepsNoDuplicates | src/app/page.tsx:187 | reordering keeps a queue duplicate-free |
| Buckets.Lookup | src/app/page.tsx:163 | a key's cards are found exactly when the key is present |
| Buckets.Assign | src/app/page.tsx:160-165 | assigning a key sets its cards and leaves every other key's lookup alone |
| Buckets.AssignKeys | src/app/page.tsx:160-165 | assignment keeps the key order and adds a new key at the end |
| Buckets.AssignNewKey | src/app/page.tsx:162-165 | a new key's bucket is appended |
| Buckets.AssignKeepsDistinct | src/app/page.tsx:160-165 | assignment keeps the keys distinct |
| Buckets.CountAtMostOccurrences | src/app/page.tsx:157-167 | a bucket holds no more cards of a word than the whole board |
| Buckets.OccurrencesAssign | src/app/page.tsx:160-165 | assigning a key trades its old cards for the new ones in every word's count |
| Buckets.WithoutWord | src/app/page.tsx:160 | the filter keeps every card of another word, as often as it was there, and none of the word |
| Buckets.WithoutWordAppend | src/app/page.tsx:160 | the filter keeps the relative order |
| Buckets.WithoutAbsentWord | src/app/page.tsx:160 | filtering a word that is not there changes nothing |
| Buckets.RemovedProperties | src/app/page.tsx:200-206 | removing a word keeps the keys, leaves none of that word, keeps every other word's count and filters each bucket |
| Buckets.RemovedKeepsAtMostOnce | src/app/page.tsx:200-206 | removing a word keeps each word in at most one bucket |
| Buckets.Removed | src/app/page.tsx:200-206 | the delete updater as a value: every bucket with the word's cards filtered out, same length (properties in `RemovedProperties`) |
| Buckets.Dropped | src/app/page.tsx:157-167 | the drop updater as a value: the word removed everywhere, then the card appended to the target (properties in `DroppedPlacesOnce`, `DroppedLayout`) |
| Buckets.CardsAt | src/app/page.tsx:163 | `next[targetKey] ?? []` (definition; used by `Dropped` and stated in `DroppedLayout`) |
| Buckets.DroppedPlacesOnce | src/app/page.tsx:157-167 | after a drop the word is on the board exactly once, other words' counts are unchanged, and the at-most-once invariant holds on |
| Buckets.DroppedLayout | src/app/page.tsx:157-167 | the card is the last of the target bucket, every other bucket is only filtered, keys keep their order, and a new target key is added at the end |
| Buckets.LayoutKeys | src/app/page.tsx:29-35 | `buildBuckets` has distinct keys, exactly the list's groups |
| Buckets.LayoutKeyOrder | src/app/page.tsx:29-35 | for distinct groups the keys are the groups in order |
| Buckets.LayoutEmpty | src/app/page.tsx:29-35 | every bucket starts empty, so no word is on the board |
| Buckets.Layout | src/app/page.tsx:29-35 | `buildBuckets` as a value: an empty bucket assigned for each group in turn (properties in `LayoutKeys`, `LayoutKeyOrder`, `LayoutEmpty`) |
| Buckets.BuildBuckets | src/app/page.tsx:29-35 | the loop builds one empty bucket per group, with no other key, in the groups' order when they are distinct |
| Buckets.RemoveWord | src/app/page.tsx:200-206 | the loop copies every bucket without the word: keys kept, the word gone, other words' counts kept, at-most-once preserved |
| Buckets.DropCard | src/app/page.tsx:157-167 | the loop removes the word everywhere and appends the card to the target: exactly one copy, at the end of the target, distinct keys and at-most-once preserved |
| Page.FindList | src/app/page.tsx:122 | no list is found exactly when no list has the id; a found list has it |
| Page.FindListIsFirst | src/app/page.tsx:122 | `find` returns the first list with the id |
| Page.FindWord | src/app/page.tsx:152 | no word is found exactly when no word has the key; a found word has it |
| Page.FindWordIsFirst | src/app/page.tsx:152 | `find` returns the first word with the key |
| Page.WithoutId | src/app/page.tsx:173 | `remainingIds.filter(id => id !== w)`: no longer than the queue (its contents are fixed by the four lemmas below) |
| Page.WithoutIdCounts | src/app/page.tsx:173 | filtering drops every copy of the id and keeps every other id as often as it was there |
| Page.WithoutIdMembers | src/app/page.tsx:173 | the filtered queue holds exactly the other ids |
| Page.WithoutAbsentId | src/app/page.tsx:172-173 | filtering an absent id changes nothing |
| Page.WithoutIdAt | src/app/page.tsx:173 | in a duplicate-free queue, filtering removes exactly the one position holding the id |
| Page.WithoutIdKeepsNoDuplicates | src/app/page.tsx:173 | filtering keeps a queue duplicate-free |
| Page.Requeued | src/app/page.tsx:213-216 | the word is in the queue afterwards |
| Page.RequeuedKeepsNoDuplicates | src/app/page.tsx:213-216 | re-queueing adds no duplicate, puts a missing word at the front and keeps every other id |
| Page.CardFeedbackStyles | src/app/page.tsx:219-233 | the style is one of the neutral, green and red class strings |
| Page.FeedbackAgreesWithScoring | src/app/page.tsx:219-233 | unchecked cards are neutral; a checked card is green exactly when `isCardCorrect` holds and red exactly when it does not |
| Page.GreenInFront | src/app/page.tsx:225-232 | the first card adds a green card exactly when it is scored correct |
| Page.GreenInIsCountCorrect | src/app/page.tsx:219-233 | a bucket's green cards are the cards the scoring counts as correct |
| Page.GreenCountIsCorrectCount | src/app/page.tsx:247-248 | the green cards on the board number exactly `correctCount` |
| Page.ShowAPlus | src/app/page.tsx:239-245 | the badge shows only after a check with 100 percent, no words left and a non-empty list |
| Page.APlusShown | src/app/page.tsx:235-245 | `showAPlus` evaluated on a session's fields: its last statistics, queue length, the active list's word count and `showCheck` (used by `CheckGroupsEffects` and `APlusAfterCheckMeansAllGreen`) |
| Page.AllCorrectEarnsAPlus | src/app/page.tsx:239-245 | every word correct after a check shows the badge |
| Page.APlusMeansAllCorrect | src/app/page.tsx:239-245 | for lists of fewer than 200 words, the badge means as many correct cards as words and none left |
| Page.ActiveWord | src/app/page.tsx:152 | `activeList?.words.find(...)`: a found word belongs to the active list and has the key; nothing is found exactly when there is no list or no word of it has the key |
| Page.CurrentWord | src/app/page.tsx:112-117 | the `currentWord` memo: a found word belongs to the active list and has the current, non-empty id; nothing exactly when there is no list, no id, an empty id, or no word with the id |
| Page.Invariant | src/app/page.tsx:52-252 | the session invariant every handler keeps: distinct bucket keys, each word in at most one bucket, queued words off the board, a current word exactly for a non-empty queue and queued, the active list one of the lists, and a duplicate-free queue when lists name their words once |
| Page.StartKeepsInvariant | src/app/page.tsx:119-142 | a freshly started or emptied session satisfies the session invariant |
| Page.Start | src/app/page.tsx:124-141 | a fresh session on a list (its ids `WordIds` shuffled, buckets from `Layout`, the head current via `Head`) or an empty one for no list; properties in `StartEffects` |
| Page.InitialSession | src/app/page.tsx:48-69 | the state `Home` starts in: `Start` on `lists[0] ?? null` |
| Page.AfterListChange | src/app/page.tsx:119-142 | the state after `handleListChange`: `Start` on the list found by id; properties in `ListChangeEffects` |
| Page.StartEffects | src/app/page.tsx:52-69 | a fresh session has one empty bucket per group, the list's ids reordered as the queue, its head current, and no guess, check, statistics or badge |
| Page.ListChangeEffects | src/app/page.tsx:119-142 | the new id is selected; a list is active exactly when one has the id; otherwise board, queue and current word are empty; the guess and check are reset |
| Page.DropKeepsInvariant | src/app/page.tsx:146-182 | a drop keeps the session invariant |
| Page.AfterDrop | src/app/page.tsx:146-182 | the state after `handleDrop`, found through `ActiveWord`; properties in `DropEffects` and `DropKeepsInvariant` |
| Page.DroppedCard | src/app/page.tsx:155-164 | the card a drop places: the word with `(spelling ?? typedGuess).trim()` (definition; `DropEffects` states that this card is last in the target bucket) |
| Page.QueueOffBoardAfterDrop | src/app/page.tsx:172-174 | after a drop, the ids still queued are on no bucket |
| Page.DropEffects | src/app/page.tsx:146-182 | an unknown word changes nothing; a known one lands once, last in the target with the trimmed spelling; other buckets are only filtered; the check is hidden; the queue loses the word and advances to its head only if the word was queued |
| Page.NextPracticeWordKeepsInvariant | src/app/page.tsx:184-192 | reshuffling keeps the invariant and the queue's contents, sets a current word for a non-empty queue and changes nothing for an empty one |
| Page.AfterNextPracticeWord | src/app/page.tsx:184-192 | the state after `nextPracticeWord`: unchanged for an empty queue, else the queue shuffled and its head current with the guess cleared |
| Page.AfterType | src/app/page.tsx:194-196 | the state after `handleType`: only the guess changes |
| Page.DeleteCardKeepsInvariant | src/app/page.tsx:198-217 | deleting a card keeps the session invariant |
| Page.AfterDeleteCard | src/app/page.tsx:198-217 | the state after `handleDeleteCard`, via `Removed` and `Requeued`; properties in `DeleteCardEffects` |
| Page.DeleteCardEffects | src/app/page.tsx:198-217 | the word leaves every bucket, other words stay, it becomes current with its old spelling, and it is queued at the front only if it was absent; the check is hidden |
| Page.CheckGroupsEffects | src/app/page.tsx:247-252 | a check counts once, shows the result, scores as correct exactly the green cards, never more than placed, and shows the badge exactly at 100 percent with no word left and a non-empty list |
| Page.AfterCheckGroups | src/app/page.tsx:247-252 | the state after `handleCheckGroups`: the board scored by `AggregateStats` (through `ToStatEntries`) against `TotalWords` |
| Page.APlusAfterCheckMeansAllGreen | src/app/page.tsx:239-252 | on a list of fewer than 200 words, the badge after a check means the queue is empty and the green cards number exactly the list's words |
| Page.Drop | src/app/page.tsx:146-182 | the steps of the drop handler compute `AfterDrop` |
| Page.ShuffleIds | src/app/page.tsx:187 | shuffling the queue through an array gives `Shuffled(ids, draws)` |
| Page.Home.constructor | src/app/page.tsx:52-69 | the component starts in `InitialSession`: the first list, its shuffled ids, empty buckets; the invariant holds |
| Page.Home.HandleListChange | src/app/page.tsx:119-142 | the new state is `AfterListChange`, and the invariant holds |
| Page.Home.HandleDrop | src/app/page.tsx:146-182 | the new state is `AfterDrop` of the old one, and the invariant holds |
| Page.Home.NextPracticeWord | src/app/page.tsx:184-192 | the new state is `AfterNextPracticeWord` of the old one, and the invariant holds |
| Page.Home.HandleType | src/app/page.tsx:194-196 | only the typed guess changes, and the invariant holds |
| Page.Home.HandleDeleteCard | src/app/page.tsx:198-217 | the new state is `AfterDeleteCard` of the old one, and the invariant holds |
| Page.Home.HandleCheckGroups | src/app/page.tsx:247-252 | the new state is `AfterCheckGroups` of the old one, and the invariant holds |

## Left out

- The seeded generator (`createSeededRandom`, `seedFromString`) is not part of this model: src/lib/shuffle.ts does not define them. Every shuffle takes its draws as a parameter, so the first shuffle's determinism is modelled only as "same draws, same order".
- `Math.random` and the floating-point `Math.floor(r * (i + 1))` are modelled with exact rationals (`Ratio`). The draws themselves are integers in [0, i]. The precondition `DrawsFit` stands for the random source's promise of values in [0, 1).
- Stats.RoundedPercent: uses exact rational round-half-up. IEEE doubles can land just below a .5 boundary and round down; 29/200 is one such case.
- `trim()` and `toLowerCase()` are modelled for ASCII whitespace and ASCII letters only. Unicode whitespace and case mapping are not modelled.
- Stats.FullMeansAllCorrect: proved only for fewer than 200 words, because 199 of 200 rounds to 100 (`Stats.FullWithOneWrong`).
- Page.APlusMeansAllCorrect: proved only for fewer than 200 words, for the same reason.
- Page.APlusAfterCheckMeansAllGreen: proved only for fewer than 200 words. It counts green cards and does not conclude that each word of the list is green: the session invariant does not record that every card on the board is a word of the active list.
- `Object.entries` lists integer-like keys first, in numeric order. The model keeps plain insertion order; group keys are spelling patterns, not numbers.
- The record's keys are distinct by construction in the program. The bucket methods and `Page.Drop` therefore require `DistinctKeys` of their input, which the session invariant keeps.
- React hook semantics are not modelled: `useMemo`, and the batching of `useState` setters and updater functions. Each handler is one atomic transition of the class's fields.
- Speech synthesis, the autoplay timer (`clearAutoPlay`, `queueAutoPlay`, `autoPlayState`), input focus, drag-and-drop event wiring, the info modal, sentence blanking and all rendering are I/O or presentation.
- `showInfoModal` is left out for the same reason.
- The `bucketKey` argument of `handleDeleteCard` is taken but ignored, as in the program: the card's word is removed from every bucket.
- The list data file is an input (`Home`'s `lists`). src/app/layout.tsx carries no logic and is not part of this model.
- The `label` field of a spelling list is named `labelText`, since `label` is a Dafny keyword.
