/**
 * The practice session held by the `Home` page component: the chosen list,
 * the board of buckets, the queue of words still to place, the current word,
 * the typed guess and the result of the last check. Each event handler is one
 * atomic state transition of the `Home` class.
 */
module Page {
  import opened Wrappers
  import opened Text
  import opened Shuffle
  import opened Stats
  import opened Buckets

  /** A spelling list: its groups are the bucket keys, its words the cards to place (`labelText` is the `label` field). */
  datatype SpellingList = SpellingList(id: string, labelText: string, groups: seq<string>, words: seq<Word>)

  /** The result of the last check together with the word count it was taken against. */
  datatype LastStats = LastStats(stats: Totals, totalWords: int)

  /** The ids of a list's words (`words.map(entry => entry.word)`). */
  function WordIds(l: SpellingList): (ids: seq<string>)
    ensures |ids| == |l.words|
    ensures forall i :: 0 <= i < |ids| ==> ids[i] == l.words[i].word
  {
    seq(|l.words|, i requires 0 <= i < |l.words| => l.words[i].word)
  }

  /** Every list names each of its words once. */
  predicate UniqueWordIds(lists: seq<SpellingList>) {
    forall l :: l in lists ==> NoDuplicates(WordIds(l))
  }

  /** `lists.find(entry => entry.id === id) ?? null`. */
  function FindList(lists: seq<SpellingList>, id: string): (r: Option<SpellingList>)
    ensures r.None? <==> forall l :: l in lists ==> l.id != id
    ensures r.Some? ==> r.value in lists && r.value.id == id
  {
    if lists == [] then None
    else if lists[0].id == id then Some(lists[0])
    else FindList(lists[1..], id)
  }

  /** `find` returns the first list with the id. */
  lemma {:induction false} FindListIsFirst(lists: seq<SpellingList>, id: string, i: nat)
    requires i < |lists| && lists[i].id == id
    requires forall j :: 0 <= j < i ==> lists[j].id != id
    ensures FindList(lists, id) == Some(lists[i])
  {
    if i > 0 {
      FindListIsFirst(lists[1..], id, i - 1);
    }
  }

  /** `words.find(entry => entry.word === key)`. */
  function FindWord(words: seq<Word>, key: string): (r: Option<Word>)
    ensures r.None? <==> forall w :: w in words ==> w.word != key
    ensures r.Some? ==> r.value in words && r.value.word == key
  {
    if words == [] then None
    else if words[0].word == key then Some(words[0])
    else FindWord(words[1..], key)
  }

  /** `find` returns the first word with the key. */
  lemma {:induction false} FindWordIsFirst(words: seq<Word>, key: string, i: nat)
    requires i < |words| && words[i].word == key
    requires forall j :: 0 <= j < i ==> words[j].word != key
    ensures FindWord(words, key) == Some(words[i])
  {
    if i > 0 {
      FindWordIsFirst(words[1..], key, i - 1);
    }
  }

  /** `remainingIds.filter(id => id !== w)`. */
  function WithoutId<T(==)>(ids: seq<T>, w: T): (r: seq<T>)
    ensures |r| <= |ids|
  {
    if ids == [] then []
    else (if ids[0] == w then [] else [ids[0]]) + WithoutId(ids[1..], w)
  }

  /** Filtering drops every copy of `w` and keeps every other id as often as it was there. */
  lemma {:induction false} WithoutIdCounts<T>(ids: seq<T>, w: T)
    ensures multiset(WithoutId(ids, w)) == multiset(ids)[w := 0]
  {
    if ids != [] {
      WithoutIdCounts(ids[1..], w);
      assert ids == [ids[0]] + ids[1..];
      assert multiset(ids) == multiset{ids[0]} + multiset(ids[1..]);
    }
  }

  /** Filtering keeps exactly the ids other than `w`. */
  lemma {:induction false} WithoutIdMembers<T>(ids: seq<T>, w: T)
    ensures forall x :: x in WithoutId(ids, w) <==> x in ids && x != w
  {
    if ids != [] {
      WithoutIdMembers(ids[1..], w);
      assert ids == [ids[0]] + ids[1..];
    }
  }

  /** Filtering out an absent id changes nothing. */
  lemma {:induction false} WithoutAbsentId<T>(ids: seq<T>, w: T)
    requires w !in ids
    ensures WithoutId(ids, w) == ids
  {
    if ids != [] {
      WithoutAbsentId(ids[1..], w);
      assert ids == [ids[0]] + ids[1..];
    }
  }

  /** In a queue without duplicates, filtering removes exactly the one position holding the id. */
  lemma {:induction false} WithoutIdAt<T>(ids: seq<T>, i: nat)
    requires NoDuplicates(ids) && i < |ids|
    ensures WithoutId(ids, ids[i]) == ids[..i] + ids[i + 1..]
  {
    var w := ids[i];
    var tail := ids[1..];
    if i == 0 {
      assert w !in tail by {
        forall k | 0 <= k < |tail| ensures tail[k] != w {
          assert tail[k] == ids[k + 1];
        }
      }
      WithoutAbsentId(tail, w);
    } else {
      assert ids[0] != w;
      assert NoDuplicates(tail) by {
        forall a, b | 0 <= a < b < |tail| ensures tail[a] != tail[b] {
          assert tail[a] == ids[a + 1] && tail[b] == ids[b + 1];
        }
      }
      assert tail[i - 1] == w;
      WithoutIdAt(tail, i - 1);
      assert ids[..i] == [ids[0]] + tail[..i - 1];
      assert tail[i..] == ids[i + 1..];
    }
  }

  /** Filtering keeps a queue free of duplicates. */
  lemma WithoutIdKeepsNoDuplicates<T>(ids: seq<T>, w: T)
    requires NoDuplicates(ids)
    ensures NoDuplicates(WithoutId(ids, w))
  {
    WithoutIdCounts(ids, w);
    NoDuplicatesMultiset(ids);
    NoDuplicatesMultiset(WithoutId(ids, w));
  }

  /** `prev.includes(w) ? prev : [w, ...prev]`. */
  function Requeued<T(==)>(ids: seq<T>, w: T): (r: seq<T>)
    ensures w in r
  {
    if w in ids then ids else [w] + ids
  }

  /** Re-queueing never duplicates an id, puts a missing id at the front and keeps every other id. */
  lemma RequeuedKeepsNoDuplicates<T>(ids: seq<T>, w: T)
    requires NoDuplicates(ids)
    ensures NoDuplicates(Requeued(ids, w))
    ensures w !in ids ==> Requeued(ids, w)[0] == w && Requeued(ids, w)[1..] == ids
    ensures forall x :: x in Requeued(ids, w) <==> x in ids || x == w
  {
    if w !in ids {
      var r := [w] + ids;
      assert r[1..] == ids;
      forall i, j | 0 <= i < j < |r|
        ensures r[i] != r[j]
      {
        if i == 0 {
          assert r[j] == ids[j - 1];
        } else {
          assert r[i] == ids[i - 1] && r[j] == ids[j - 1];
        }
      }
    }
  }

  /** The card as the scoring code sees it (the page's `Card` is a `StatCard` whose spelling is present). */
  function ToStatCard(card: Card): StatCard {
    StatCard(StatWord(card.word.word, card.word.group), Some(card.spelling))
  }

  function ToStatCards(cards: seq<Card>): (r: seq<StatCard>)
    ensures |r| == |cards|
    ensures forall j :: 0 <= j < |cards| ==> r[j] == ToStatCard(cards[j])
  {
    seq(|cards|, j requires 0 <= j < |cards| => ToStatCard(cards[j]))
  }

  /** The board as `aggregateStats` enumerates it: one entry per bucket, in order. */
  function ToStatEntries(b: Board): (r: seq<StatEntry>)
    ensures |r| == |b|
    ensures forall i :: 0 <= i < |b| ==> r[i] == StatEntry(b[i].key, Some(ToStatCards(b[i].cards)))
  {
    seq(|b|, i requires 0 <= i < |b| => StatEntry(b[i].key, Some(ToStatCards(b[i].cards))))
  }

  const NeutralStyle: string := "border-slate-200 bg-white"
  const CorrectStyle: string := "border-emerald-500 bg-emerald-100 text-emerald-900"
  const IncorrectStyle: string := "border-rose-400 bg-rose-100 text-rose-900"

  /** The border and colour classes of a card: neutral before a check, then green or red. */
  function CardFeedbackStyles(card: Card, bucketKey: string, showStatus: bool): (style: string)
    ensures style in {NeutralStyle, CorrectStyle, IncorrectStyle}
  {
    if !showStatus then NeutralStyle
    else
      var isGroupCorrect := bucketKey == card.word.group;
      var isSpellingCorrect := ToLower(Trim(card.spelling)) == ToLower(card.word.word);
      if isGroupCorrect && isSpellingCorrect then CorrectStyle else IncorrectStyle
  }

  /** The colours agree with the scoring: a checked card is green exactly when it counts as correct. */
  lemma FeedbackAgreesWithScoring(card: Card, bucketKey: string)
    ensures CardFeedbackStyles(card, bucketKey, false) == NeutralStyle
    ensures CardFeedbackStyles(card, bucketKey, true) == CorrectStyle <==> IsCardCorrect(ToStatCard(card), bucketKey)
    ensures CardFeedbackStyles(card, bucketKey, true) == IncorrectStyle <==> !IsCardCorrect(ToStatCard(card), bucketKey)
  {
    assert CorrectStyle[7] != IncorrectStyle[7];
  }

  /** The number of cards of one bucket that are shown green after a check. */
  function GreenIn(cards: seq<Card>, key: string): (n: nat)
    ensures n <= |cards|
  {
    if cards == [] then 0
    else (if CardFeedbackStyles(cards[0], key, true) == CorrectStyle then 1 else 0) + GreenIn(cards[1..], key)
  }

  /** The number of cards on the board shown green after a check. */
  function GreenCount(b: Board): nat {
    if b == [] then 0 else GreenIn(b[0].cards, b[0].key) + GreenCount(b[1..])
  }

  /** One card at the front of a bucket adds one green card exactly when it is scored correct. */
  lemma GreenInFront(cards: seq<Card>, key: string)
    requires cards != []
    ensures GreenIn(cards, key) == (if IsCardCorrect(ToStatCard(cards[0]), key) then 1 else 0) + GreenIn(cards[1..], key)
  {
    FeedbackAgreesWithScoring(cards[0], key);
  }

  lemma {:induction false} GreenInIsCountCorrect(cards: seq<Card>, key: string)
    ensures GreenIn(cards, key) == CountCorrect(ToStatCards(cards), key)
  {
    if cards != [] {
      var sc := ToStatCards(cards);
      assert sc[1..] == ToStatCards(cards[1..]);
      GreenInIsCountCorrect(cards[1..], key);
      GreenInFront(cards, key);
    }
  }

  /** The green cards on the board are exactly the cards `aggregateStats` counts as correct. */
  lemma {:induction false} GreenCountIsCorrectCount(b: Board)
    ensures GreenCount(b) == CorrectCount(ToStatEntries(b))
  {
    if b != [] {
      GreenCountIsCorrectCount(b[1..]);
      GreenInIsCountCorrect(b[0].cards, b[0].key);
      CorrectCountFront(ToStatEntries(b));
      assert ToStatEntries(b)[1..] == ToStatEntries(b[1..]);
    }
  }

  /** Whether the A+ badge shows. */
  function ShowAPlus(lastStats: Option<LastStats>, wordsLeft: nat, totalWords: int, showCheck: bool): (shown: bool)
    ensures shown ==> lastStats.Some? && lastStats.value.stats.percentCorrect == 100
    ensures shown ==> wordsLeft == 0 && totalWords > 0 && showCheck
  {
    lastStats.Some? && lastStats.value.stats.percentCorrect == 100 && wordsLeft == 0 && totalWords > 0 && showCheck
  }

  /** Placing every word correctly and emptying the queue earns the badge when the check is shown. */
  lemma AllCorrectEarnsAPlus(es: seq<StatEntry>, t: nat)
    requires 0 < t && AggregateStats(Some(es), t).correctCount == t
    ensures ShowAPlus(Some(LastStats(AggregateStats(Some(es), t), t)), 0, t, true)
  {
    AllCorrectIsFull(t);
  }

  /**
   * For lists of fewer than 200 words the badge means the correct cards number
   * exactly the list's words and none is left. From 200 words on, rounding lets one mistake through (see `Stats.FullWithOneWrong`).
   */
  lemma APlusMeansAllCorrect(es: seq<StatEntry>, t: nat, wordsLeft: nat)
    requires 0 < t < 200
    requires ShowAPlus(Some(LastStats(AggregateStats(Some(es), t), t)), wordsLeft, t, true)
    ensures AggregateStats(Some(es), t).correctCount == t && wordsLeft == 0
  {
    var r := AggregateStats(Some(es), t);
    FullMeansAllCorrect(r.correctCount, t);
  }

  /** `activeList?.words.find(entry => entry.word === key)`. */
  function ActiveWord(activeList: Option<SpellingList>, key: string): (r: Option<Word>)
    ensures r.Some? ==> activeList.Some? && r.value in activeList.value.words && r.value.word == key
    ensures r.None? <==> activeList.None? || forall w :: w in activeList.value.words ==> w.word != key
  {
    match activeList
    case None => None
    case Some(l) => FindWord(l.words, key)
  }

  /** `activeList?.words.length ?? 0`. */
  function TotalWords(activeList: Option<SpellingList>): (n: nat)
    ensures activeList.None? ==> n == 0
    ensures activeList.Some? ==> n == |activeList.value.words|
  {
    match activeList
    case None => 0
    case Some(l) => |l.words|
  }

  /** The part of the `Home` component's state that its handlers change. */
  datatype Session = Session(
    selectedListId: string,
    activeList: Option<SpellingList>,
    buckets: Board,
    remainingIds: seq<string>,
    currentWordId: Option<string>,
    typedGuess: string,
    showCheck: bool,
    checkCount: nat,
    lastStats: Option<LastStats>)

  /** The `currentWord` memo: no word without a list or with an absent or empty id, else the first word with that id. */
  function CurrentWord(s: Session): (r: Option<Word>)
    ensures r.Some? ==> && s.activeList.Some? && s.currentWordId.Some? && s.currentWordId.value != ""
                        && r.value in s.activeList.value.words && r.value.word == s.currentWordId.value
    ensures r.None? <==> || s.activeList.None? || s.currentWordId.None? || s.currentWordId.value == ""
                         || forall w :: w in s.activeList.value.words ==> w.word != s.currentWordId.value
  {
    match s.currentWordId
    case None => None
    case Some(id) => if id == "" then None else ActiveWord(s.activeList, id)
  }

  /** Whether the A+ badge shows in a session. */
  function APlusShown(s: Session): bool {
    ShowAPlus(s.lastStats, |s.remainingIds|, TotalWords(s.activeList), s.showCheck)
  }

  /**
   * The session invariant: bucket keys are distinct, each word sits in at most
   * one bucket, a queued word is on no bucket, there is a current word exactly
   * when the queue is non-empty and it is queued, the active list is one of the
   * lists, and the queue has no duplicates when the lists name their words once.
   */
  ghost predicate Invariant(lists: seq<SpellingList>, s: Session) {
    && DistinctKeys(s.buckets)
    && AtMostOnce(s.buckets)
    && (forall id :: id in s.remainingIds ==> Occurrences(s.buckets, id) == 0)
    && (s.currentWordId.None? <==> s.remainingIds == [])
    && (s.currentWordId.Some? ==> s.currentWordId.value in s.remainingIds)
    && (s.activeList.Some? ==> s.activeList.value in lists)
    && (UniqueWordIds(lists) ==> NoDuplicates(s.remainingIds))
  }

  // ---------------------------------------------------------------------------
  // Starting a list: the initial state and `handleListChange`
  // ---------------------------------------------------------------------------

  /** A fresh session on `list`: empty buckets for its groups and its word ids shuffled by `draws`. */
  function Start(selectedListId: string, list: Option<SpellingList>, draws: seq<nat>): Session
    requires list.Some? ==> DrawsFit(|list.value.words|, draws)
  {
    match list
    case None => Session(selectedListId, None, [], [], None, "", false, 0, None)
    case Some(l) =>
      var ids := Shuffled(WordIds(l), draws);
      Session(selectedListId, list, Layout(l.groups), ids, Head(ids), "", false, 0, None)
  }

  /** The state `Home` starts in: the first list, or nothing when there are no lists. */
  function InitialSession(lists: seq<SpellingList>, draws: seq<nat>): Session
    requires lists != [] ==> DrawsFit(|lists[0].words|, draws)
  {
    Start(if lists == [] then "" else lists[0].id, Head(lists), draws)
  }

  /** The state after `handleListChange(nextId)`: every field is reset, whatever the state before. */
  function AfterListChange(lists: seq<SpellingList>, nextId: string, draws: seq<nat>): Session
    requires FindList(lists, nextId).Some? ==> DrawsFit(|FindList(lists, nextId).value.words|, draws)
  {
    Start(nextId, FindList(lists, nextId), draws)
  }

  /** A fresh session satisfies the invariant. */
  lemma StartKeepsInvariant(lists: seq<SpellingList>, selectedListId: string, list: Option<SpellingList>, draws: seq<nat>)
    requires list.Some? ==> list.value in lists && DrawsFit(|list.value.words|, draws)
    ensures Invariant(lists, Start(selectedListId, list, draws))
  {
    if list.Some? {
      var l := list.value;
      LayoutKeys(l.groups);
      LayoutEmpty(l.groups);
      ShuffledIsPermutation(WordIds(l), draws);
      if UniqueWordIds(lists) {
        PermutationKeepsNoDuplicates(WordIds(l), Shuffled(WordIds(l), draws));
      }
    }
  }

  /**
   * What a fresh session holds: one empty bucket per group and no other key,
   * a queue that is the list's word ids reordered, the head of the queue as the
   * current word, and no guess, check or statistics.
   */
  lemma StartEffects(selectedListId: string, list: Option<SpellingList>, draws: seq<nat>)
    requires list.Some? ==> DrawsFit(|list.value.words|, draws)
    ensures var s := Start(selectedListId, list, draws);
      && s.selectedListId == selectedListId && s.activeList == list
      && (list.None? ==> s.buckets == [] && s.remainingIds == [])
      && (list.Some? ==>
            && (forall k :: k in Keys(s.buckets) <==> k in list.value.groups)
            && (NoDuplicates(list.value.groups) ==> Keys(s.buckets) == list.value.groups)
            && (forall i :: 0 <= i < |s.buckets| ==> s.buckets[i].cards == [])
            && multiset(s.remainingIds) == multiset(WordIds(list.value))
            && s.remainingIds == Shuffled(WordIds(list.value), draws))
      && s.currentWordId == Head(s.remainingIds)
      && s.typedGuess == "" && !s.showCheck && s.checkCount == 0 && s.lastStats == None
      && !APlusShown(s)
  {
    if list.Some? {
      var l := list.value;
      LayoutKeys(l.groups);
      LayoutEmpty(l.groups);
      if NoDuplicates(l.groups) {
        LayoutKeyOrder(l.groups);
      }
      ShuffledIsPermutation(WordIds(l), draws);
    }
  }

  /** Changing to a list that exists selects it; to an unknown id, empties the session. */
  lemma ListChangeEffects(lists: seq<SpellingList>, nextId: string, draws: seq<nat>)
    requires FindList(lists, nextId).Some? ==> DrawsFit(|FindList(lists, nextId).value.words|, draws)
    ensures var s := AfterListChange(lists, nextId, draws);
      && s.selectedListId == nextId
      && ((exists l :: l in lists && l.id == nextId) <==> s.activeList.Some?)
      && (s.activeList.Some? ==> s.activeList.value in lists && s.activeList.value.id == nextId)
      && (s.activeList.None? ==> s.buckets == [] && s.remainingIds == [] && s.currentWordId == None)
      && s.checkCount == 0 && !s.showCheck && s.lastStats == None && s.typedGuess == ""
  {
    StartEffects(nextId, FindList(lists, nextId), draws);
    var r := FindList(lists, nextId);
    if r.Some? {
      assert r.value in lists && r.value.id == nextId;
    }
  }

  // ---------------------------------------------------------------------------
  // `handleDrop`
  // ---------------------------------------------------------------------------

  /** The card a drop places: the word with the given spelling, or else the typed guess, trimmed. */
  function DroppedCard(word: Word, spelling: Option<string>, typedGuess: string): Card {
    Card(word, Trim(spelling.GetOr(typedGuess)))
  }

  /** The state after `handleDrop(targetKey, wordKey, spelling)`. */
  function AfterDrop(s: Session, targetKey: string, wordKey: string, spelling: Option<string>): Session {
    match ActiveWord(s.activeList, wordKey)
    case None => s
    case Some(word) =>
      var placed := s.(buckets := Dropped(s.buckets, targetKey, DroppedCard(word, spelling, s.typedGuess)),
                       showCheck := false, lastStats := None);
      if word.word in s.remainingIds then
        var rest := WithoutId(s.remainingIds, word.word);
        placed.(remainingIds := rest, currentWordId := Head(rest), typedGuess := "")
      else
        placed
  }

  /** A drop keeps the invariant. */
  lemma DropKeepsInvariant(lists: seq<SpellingList>, s: Session, targetKey: string, wordKey: string, spelling: Option<string>)
    requires Invariant(lists, s)
    ensures Invariant(lists, AfterDrop(s, targetKey, wordKey, spelling))
  {
    var found := ActiveWord(s.activeList, wordKey);
    if found.Some? {
      var card := DroppedCard(found.value, spelling, s.typedGuess);
      assert card.word.word == wordKey;
      var board := Dropped(s.buckets, targetKey, card);
      DroppedPlacesOnce(s.buckets, targetKey, card);
      DroppedLayout(s.buckets, targetKey, card);
      var placed := s.(buckets := board, showCheck := false, lastStats := None);
      if wordKey in s.remainingIds {
        var rest := WithoutId(s.remainingIds, wordKey);
        assert AfterDrop(s, targetKey, wordKey, spelling) == placed.(remainingIds := rest, currentWordId := Head(rest), typedGuess := "");
        QueueOffBoardAfterDrop(s.buckets, board, s.remainingIds, wordKey);
        if UniqueWordIds(lists) {
          WithoutIdKeepsNoDuplicates(s.remainingIds, wordKey);
        }
      } else {
        assert AfterDrop(s, targetKey, wordKey, spelling) == placed;
      }
    }
  }

  /** After a drop of `w`, the queue without `w` is still off the board. */
  lemma QueueOffBoardAfterDrop(before: Board, after: Board, ids: seq<string>, w: string)
    requires forall id :: id in ids ==> Occurrences(before, id) == 0
    requires forall v :: v != w ==> Occurrences(after, v) == Occurrences(before, v)
    ensures forall id :: id in WithoutId(ids, w) ==> Occurrences(after, id) == 0
  {
    WithoutIdMembers(ids, w);
  }

  /**
   * A drop of a word that is not in the active list changes nothing. A drop of
   * one that is puts it on the board exactly once, as the last card of the target
   * bucket with the trimmed spelling, leaves every other word where it was,
   * hides the last check, and takes the word off the queue if it was queued.
   */
  lemma DropEffects(s: Session, targetKey: string, wordKey: string, spelling: Option<string>)
    ensures ActiveWord(s.activeList, wordKey).None? ==> AfterDrop(s, targetKey, wordKey, spelling) == s
    ensures ActiveWord(s.activeList, wordKey).Some? ==>
      var word := ActiveWord(s.activeList, wordKey).value;
      var s' := AfterDrop(s, targetKey, wordKey, spelling);
      && word.word == wordKey && word in s.activeList.value.words
      && Occurrences(s'.buckets, wordKey) == 1
      && (forall v :: v != wordKey ==> Occurrences(s'.buckets, v) == Occurrences(s.buckets, v))
      && Lookup(s'.buckets, targetKey)
           == Some(WithoutWord(CardsAt(s.buckets, targetKey), wordKey) + [Card(word, Trim(spelling.GetOr(s.typedGuess)))])
      && (forall k :: k != targetKey && Lookup(s.buckets, k).Some? ==>
            Lookup(s'.buckets, k) == Some(WithoutWord(Lookup(s.buckets, k).value, wordKey)))
      && !s'.showCheck && s'.lastStats == None && !APlusShown(s')
      && s'.activeList == s.activeList && s'.selectedListId == s.selectedListId && s'.checkCount == s.checkCount
      && (wordKey in s.remainingIds ==>
            && s'.remainingIds == WithoutId(s.remainingIds, wordKey)
            && wordKey !in s'.remainingIds
            && s'.currentWordId == Head(s'.remainingIds)
            && s'.typedGuess == "")
      && (wordKey !in s.remainingIds ==>
            && s'.remainingIds == s.remainingIds
            && s'.currentWordId == s.currentWordId
            && s'.typedGuess == s.typedGuess)
  {
    var found := ActiveWord(s.activeList, wordKey);
    if found.Some? {
      var card := DroppedCard(found.value, spelling, s.typedGuess);
      DroppedPlacesOnce(s.buckets, targetKey, card);
      DroppedLayout(s.buckets, targetKey, card);
      WithoutIdMembers(s.remainingIds, wordKey);
    }
  }

  // ---------------------------------------------------------------------------
  // `nextPracticeWord` and `handleType`
  // ---------------------------------------------------------------------------

  /** The state after `nextPracticeWord()`: the queue reshuffled by `draws` and its new head current. */
  function AfterNextPracticeWord(s: Session, draws: seq<nat>): Session
    requires DrawsFit(|s.remainingIds|, draws)
  {
    if s.remainingIds == [] then s
    else
      var shuffled := Shuffled(s.remainingIds, draws);
      s.(remainingIds := shuffled, currentWordId := Head(shuffled), typedGuess := "")
  }

  /** Practising the next word only reorders the queue, so the invariant holds on. */
  lemma NextPracticeWordKeepsInvariant(lists: seq<SpellingList>, s: Session, draws: seq<nat>)
    requires Invariant(lists, s) && DrawsFit(|s.remainingIds|, draws)
    ensures Invariant(lists, AfterNextPracticeWord(s, draws))
    ensures multiset(AfterNextPracticeWord(s, draws).remainingIds) == multiset(s.remainingIds)
    ensures s.remainingIds != [] ==> AfterNextPracticeWord(s, draws).currentWordId.Some?
    ensures s.remainingIds == [] ==> AfterNextPracticeWord(s, draws) == s
  {
    if s.remainingIds != [] {
      var shuffled := Shuffled(s.remainingIds, draws);
      ShuffledIsPermutation(s.remainingIds, draws);
      if UniqueWordIds(lists) {
        PermutationKeepsNoDuplicates(s.remainingIds, shuffled);
      }
      forall x | x in shuffled
        ensures Occurrences(s.buckets, x) == 0
      {
        assert x in multiset(shuffled);
      }
    }
  }

  /** The state after `handleType(value)`. */
  function AfterType(s: Session, value: string): Session {
    s.(typedGuess := value)
  }

  // ---------------------------------------------------------------------------
  // `handleDeleteCard`
  // ---------------------------------------------------------------------------

  /** The state after `handleDeleteCard(bucketKey, card)`; the bucket key plays no part. */
  function AfterDeleteCard(s: Session, bucketKey: string, card: Card): Session {
    var w := card.word.word;
    s.(buckets := Removed(s.buckets, w), showCheck := false, lastStats := None,
       typedGuess := card.spelling, currentWordId := Some(w), remainingIds := Requeued(s.remainingIds, w))
  }

  /** Deleting a card keeps the invariant. */
  lemma DeleteCardKeepsInvariant(lists: seq<SpellingList>, s: Session, bucketKey: string, card: Card)
    requires Invariant(lists, s)
    ensures Invariant(lists, AfterDeleteCard(s, bucketKey, card))
  {
    var w := card.word.word;
    RemovedProperties(s.buckets, w);
    RemovedKeepsAtMostOnce(s.buckets, w);
    if UniqueWordIds(lists) {
      RequeuedKeepsNoDuplicates(s.remainingIds, w);
    }
  }

  /**
   * Deleting a card takes its word off every bucket and leaves the other words
   * alone, makes it the current word with its old spelling, and queues it at the
   * front unless it is queued already.
   */
  lemma DeleteCardEffects(s: Session, bucketKey: string, card: Card)
    ensures var w := card.word.word; var s' := AfterDeleteCard(s, bucketKey, card);
      && Keys(s'.buckets) == Keys(s.buckets)
      && Occurrences(s'.buckets, w) == 0
      && (forall v :: v != w ==> Occurrences(s'.buckets, v) == Occurrences(s.buckets, v))
      && s'.currentWordId == Some(w) && s'.typedGuess == card.spelling
      && (w in s.remainingIds ==> s'.remainingIds == s.remainingIds)
      && (w !in s.remainingIds ==> s'.remainingIds == [w] + s.remainingIds)
      && !s'.showCheck && s'.lastStats == None && !APlusShown(s')
      && s'.activeList == s.activeList && s'.checkCount == s.checkCount
  {
    RemovedProperties(s.buckets, card.word.word);
  }

  // ---------------------------------------------------------------------------
  // `handleCheckGroups`
  // ---------------------------------------------------------------------------

  /** The state after `handleCheckGroups()`: the board scored against the list's word count. */
  function AfterCheckGroups(s: Session): Session {
    var t := TotalWords(s.activeList);
    s.(lastStats := Some(LastStats(AggregateStats(Some(ToStatEntries(s.buckets)), t), t)),
       checkCount := s.checkCount + 1, showCheck := true)
  }

  /**
   * A check counts once, shows the result, and counts as correct exactly the
   * cards it colours green; the badge then shows exactly when the score is 100,
   * the queue is empty and the list has words.
   */
  lemma CheckGroupsEffects(s: Session)
    ensures var s' := AfterCheckGroups(s);
      && s'.checkCount == s.checkCount + 1 && s'.showCheck
      && s'.lastStats.Some?
      && s'.lastStats.value.totalWords == TotalWords(s.activeList)
      && s'.lastStats.value.stats.correctCount == GreenCount(s.buckets)
      && s'.lastStats.value.stats.correctCount <= s'.lastStats.value.stats.placedCount
      && (TotalWords(s.activeList) == 0 ==> s'.lastStats.value.stats.percentCorrect == 0)
      && (APlusShown(s') <==>
            s'.lastStats.value.stats.percentCorrect == 100 && s.remainingIds == [] && TotalWords(s.activeList) > 0)
      && s'.buckets == s.buckets && s'.remainingIds == s.remainingIds && s'.currentWordId == s.currentWordId
  {
    GreenCountIsCorrectCount(s.buckets);
    CorrectCountIsCorrectPlacements(ToStatEntries(s.buckets));
  }
  /**
   * On a list of fewer than 200 words, the badge shown after a check means the
   * queue is empty and the green cards number exactly the list's words.
   */
  lemma APlusAfterCheckMeansAllGreen(s: Session)
    requires TotalWords(s.activeList) < 200
    requires APlusShown(AfterCheckGroups(s))
    ensures s.remainingIds == []
    ensures GreenCount(s.buckets) == TotalWords(s.activeList)
  {
    CheckGroupsEffects(s);
    var t := TotalWords(s.activeList);
    FullMeansAllCorrect(AggregateStats(Some(ToStatEntries(s.buckets)), t).correctCount, t);
  }


  /** The steps of `handleDrop` on a session value: the bucket updater, then the queue. */
  method Drop(s: Session, targetKey: string, wordKey: string, spelling: Option<string>) returns (next: Session)
    requires DistinctKeys(s.buckets)
    ensures next == AfterDrop(s, targetKey, wordKey, spelling)
  {
    next := s;
    var found := ActiveWord(s.activeList, wordKey);
    if found.None? {
      return;
    }
    var word := found.value;
    var card := Card(word, Trim(spelling.GetOr(s.typedGuess)));
    var board := DropCard(s.buckets, targetKey, card);
    next := next.(buckets := board, showCheck := false, lastStats := None);
    if word.word in s.remainingIds {
      var rest := WithoutId(s.remainingIds, word.word);
      next := next.(remainingIds := rest, currentWordId := Head(rest), typedGuess := "");
    }
  }

  /** `shuffle` on a list of ids, through an array copy. */
  method ShuffleIds(ids: seq<string>, draws: seq<nat>) returns (r: seq<string>)
    requires DrawsFit(|ids|, draws)
    ensures r == Shuffled(ids, draws)
  {
    var a := new string[|ids|](k requires 0 <= k < |ids| => ids[k]);
    assert a[..] == ids;
    var c := Shuffle.Shuffle(a, draws);
    r := c[..];
  }

  /** The `Home` component's state, changed in place by its handlers. */
  class Home {
    const lists: seq<SpellingList>
    var selectedListId: string
    var activeList: Option<SpellingList>
    var buckets: Board
    var remainingIds: seq<string>
    var currentWordId: Option<string>
    var typedGuess: string
    var showCheck: bool
    var checkCount: nat
    var lastStats: Option<LastStats>

    /** The fields as a value. */
    function Snapshot(): Session
      reads this
    {
      Session(selectedListId, activeList, buckets, remainingIds, currentWordId,
              typedGuess, showCheck, checkCount, lastStats)
    }

    ghost predicate Valid()
      reads this
    {
      Invariant(lists, Snapshot())
    }

    /** A session on the first list; `draws` stand for the seeded generator of the first shuffle. */
    constructor (lists: seq<SpellingList>, draws: seq<nat>)
      requires lists != [] ==> DrawsFit(|lists[0].words|, draws)
      ensures this.lists == lists
      ensures Snapshot() == InitialSession(lists, draws)
      ensures Valid()
    {
      this.lists := lists;
      checkCount := 0;
      typedGuess := "";
      showCheck := false;
      lastStats := None;
      if lists == [] {
        selectedListId := "";
        activeList := None;
        buckets := [];
        remainingIds := [];
        currentWordId := None;
      } else {
        var first := lists[0];
        var ids := ShuffleIds(WordIds(first), draws);
        var board := BuildBuckets(first.groups);
        selectedListId := first.id;
        activeList := Some(first);
        buckets := board;
        remainingIds := ids;
        currentWordId := Head(ids);
      }
      new;
      StartKeepsInvariant(lists, if lists == [] then "" else lists[0].id, Head(lists), draws);
    }

    /** `handleListChange(nextId)`; `draws` stand for the `Math.random` calls of its shuffle. */
    method HandleListChange(nextId: string, draws: seq<nat>)
      requires Valid()
      requires FindList(lists, nextId).Some? ==> DrawsFit(|FindList(lists, nextId).value.words|, draws)
      modifies this
      ensures Snapshot() == AfterListChange(lists, nextId, draws)
      ensures Valid()
    {
      StartKeepsInvariant(lists, nextId, FindList(lists, nextId), draws);
      selectedListId := nextId;
      var nextList := FindList(lists, nextId);
      activeList := nextList;
      match nextList {
        case Some(l) =>
          var ids := ShuffleIds(WordIds(l), draws);
          var board := BuildBuckets(l.groups);
          remainingIds, currentWordId, buckets := ids, Head(ids), board;
        case None =>
          remainingIds, currentWordId, buckets := [], None, [];
      }
      typedGuess, showCheck, checkCount, lastStats := "", false, 0, None;
    }

    /** `handleDrop(targetKey, wordKey, spelling)`. */
    method HandleDrop(targetKey: string, wordKey: string, spelling: Option<string>)
      requires Valid()
      modifies this
      ensures Snapshot() == AfterDrop(old(Snapshot()), targetKey, wordKey, spelling)
      ensures Valid()
    {
      var before := Snapshot();
      DropKeepsInvariant(lists, before, targetKey, wordKey, spelling);
      var next := Drop(before, targetKey, wordKey, spelling);
      assert next.selectedListId == selectedListId && next.activeList == activeList && next.checkCount == checkCount;
      buckets, showCheck, lastStats := next.buckets, next.showCheck, next.lastStats;
      remainingIds, currentWordId, typedGuess := next.remainingIds, next.currentWordId, next.typedGuess;
      assert Snapshot() == next;
    }

    /** `nextPracticeWord()`; `draws` stand for the `Math.random` calls of its shuffle. */
    method NextPracticeWord(draws: seq<nat>)
      requires Valid()
      requires DrawsFit(|remainingIds|, draws)
      modifies this
      ensures Snapshot() == AfterNextPracticeWord(old(Snapshot()), draws)
      ensures Valid()
    {
      NextPracticeWordKeepsInvariant(lists, Snapshot(), draws);
      if remainingIds == [] {
        return;
      }
      var shuffled := ShuffleIds(remainingIds, draws);
      remainingIds, currentWordId, typedGuess := shuffled, Head(shuffled), "";
    }

    /** `handleType(value)`. */
    method HandleType(value: string)
      requires Valid()
      modifies this
      ensures Snapshot() == AfterType(old(Snapshot()), value)
      ensures Valid()
    {
      typedGuess := value;
    }

    /** `handleDeleteCard(bucketKey, card)`. */
    method HandleDeleteCard(bucketKey: string, card: Card)
      requires Valid()
      modifies this
      ensures Snapshot() == AfterDeleteCard(old(Snapshot()), bucketKey, card)
      ensures Valid()
    {
      DeleteCardKeepsInvariant(lists, Snapshot(), bucketKey, card);
      var w := card.word.word;
      var next := RemoveWord(buckets, w);
      buckets, showCheck, lastStats := next, false, None;
      typedGuess, currentWordId := card.spelling, Some(w);
      remainingIds := Requeued(remainingIds, w);
    }

    /** `handleCheckGroups()`. */
    method HandleCheckGroups()
      requires Valid()
      modifies this
      ensures Snapshot() == AfterCheckGroups(old(Snapshot()))
      ensures Valid()
    {
      var totalWords := TotalWords(activeList);
      var stats := AggregateStats(Some(ToStatEntries(buckets)), totalWords);
      lastStats := Some(LastStats(stats, totalWords));
      checkCount := checkCount + 1;
      showCheck := true;
    }
  }
}
