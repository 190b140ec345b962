/**
 * Scoring of a player's placements: whether one card is correct for the
 * bucket it sits in, and the totals shown after "Check groups".
 */
module Stats {
  import opened Wrappers
  import opened Text

  /** A word of the list and the group it belongs to. */
  datatype StatWord = StatWord(word: string, group: string)

  /** A placed card: the word and the player's spelling, which may be absent. */
  datatype StatCard = StatCard(word: StatWord, spelling: Option<string>)

  /**
   * One entry of `Object.entries(buckets)`: a bucket key and its card list,
   * which may be absent. A bucket mapping is a sequence of entries with
   * distinct keys, in enumeration order.
   */
  datatype StatEntry = StatEntry(key: string, cards: Option<seq<StatCard>>)

  datatype Totals = Totals(placedCount: nat, correctCount: nat, percentCorrect: int)

  /** The spelling as compared: absent means empty, then trimmed and lower-cased. */
  function NormalizedSpelling(card: StatCard): string {
    ToLower(Trim(card.spelling.GetOr("")))
  }

  /** The card sits in its own group and is spelled right, ignoring case and surrounding white space. */
  predicate IsCardCorrect(card: StatCard, bucketKey: string) {
    bucketKey == card.word.group && NormalizedSpelling(card) == ToLower(card.word.word)
  }

  /**
   * A spelling that is the word up to letter case, with any white space
   * around it, is correct in the word's own group and in no other bucket.
   */
  lemma CorrectIgnoresCaseAndPadding(w: StatWord, pre: string, typed: string, post: string, bucketKey: string)
    requires AllSpace(pre) && AllSpace(post)
    requires typed == [] || (!IsSpace(typed[0]) && !IsSpace(typed[|typed| - 1]))
    requires ToLower(typed) == ToLower(w.word)
    ensures IsCardCorrect(StatCard(w, Some(pre + typed + post)), bucketKey) <==> bucketKey == w.group
  {
    TrimOfPadded(pre, typed, post);
  }

  /** Each of the two conditions is needed: a wrong bucket or a wrong spelling makes the card incorrect. */
  lemma BothConditionsNeeded(card: StatCard, bucketKey: string)
    ensures bucketKey != card.word.group ==> !IsCardCorrect(card, bucketKey)
    ensures NormalizedSpelling(card) != ToLower(card.word.word) ==> !IsCardCorrect(card, bucketKey)
  {
  }

  /** An absent spelling counts as the empty one, so it is correct only for an empty word. */
  lemma MissingSpellingIsEmpty(w: StatWord, bucketKey: string)
    ensures IsCardCorrect(StatCard(w, None), bucketKey) == IsCardCorrect(StatCard(w, Some("")), bucketKey)
    ensures IsCardCorrect(StatCard(w, None), bucketKey) ==> w.word == []
  {
  }

  /** The number of cards in `cards` that are correct for `bucketKey` (`cards.filter(...).length`). */
  function CountCorrect(cards: seq<StatCard>, bucketKey: string): (n: nat)
    ensures n <= |cards|
    ensures n == |cards| <==> forall c :: c in cards ==> IsCardCorrect(c, bucketKey)
  {
    if cards == [] then 0
    else (if IsCardCorrect(cards[0], bucketKey) then 1 else 0) + CountCorrect(cards[1..], bucketKey)
  }

  /** The length of an entry's list, 0 when absent (`cards?.length ?? 0`). */
  function PlacedIn(e: StatEntry): nat {
    match e.cards
    case None => 0
    case Some(cs) => |cs|
  }

  /** The correct cards of an entry; an absent or empty list adds nothing. */
  function CorrectIn(e: StatEntry): nat {
    match e.cards
    case None => 0
    case Some(cs) => if |cs| == 0 then 0 else CountCorrect(cs, e.key)
  }

  /** `placedCount`: the left fold adding each entry's list length. */
  function PlacedCount(es: seq<StatEntry>): nat {
    if es == [] then 0 else PlacedCount(es[..|es| - 1]) + PlacedIn(es[|es| - 1])
  }

  /** `correctCount`: the left fold adding each entry's correct cards. */
  function CorrectCount(es: seq<StatEntry>): nat {
    if es == [] then 0 else CorrectCount(es[..|es| - 1]) + CorrectIn(es[|es| - 1])
  }

  /** Every card on the board paired with the key of the bucket it sits in, in enumeration order. */
  function Placements(es: seq<StatEntry>): seq<(StatCard, string)> {
    if es == [] then []
    else
      var e := es[0];
      var here := match e.cards
        case None => []
        case Some(cs) => seq(|cs|, k requires 0 <= k < |cs| => (cs[k], e.key));
      here + Placements(es[1..])
  }

  /** The number of placements whose card is correct for its bucket. */
  function CorrectPlacements(ps: seq<(StatCard, string)>): nat {
    if ps == [] then 0
    else (if IsCardCorrect(ps[0].0, ps[0].1) then 1 else 0) + CorrectPlacements(ps[1..])
  }

  /** `placedCount` counts every placed card once: it is the number of placements. */
  lemma {:induction false} PlacedCountIsPlacements(es: seq<StatEntry>)
    ensures PlacedCount(es) == |Placements(es)|
  {
    if es != [] {
      PlacedCountIsPlacements(es[1..]);
      PlacedCountFront(es);
    }
  }

  /** `correctCount` counts exactly the placements correct for their own bucket key. */
  lemma {:induction false} CorrectCountIsCorrectPlacements(es: seq<StatEntry>)
    ensures CorrectCount(es) == CorrectPlacements(Placements(es))
  {
    if es != [] {
      CorrectCountIsCorrectPlacements(es[1..]);
      CorrectCountFront(es);
      var e := es[0];
      match e.cards
      case None =>
        assert Placements(es) == Placements(es[1..]);
      case Some(cs) =>
        var here := seq(|cs|, k requires 0 <= k < |cs| => (cs[k], e.key));
        assert Placements(es) == here + Placements(es[1..]);
        CorrectPlacementsAppend(here, Placements(es[1..]));
        CorrectPlacementsOfBucket(cs, e.key);
    }
  }

  lemma {:induction false} CorrectPlacementsAppend(a: seq<(StatCard, string)>, b: seq<(StatCard, string)>)
    ensures CorrectPlacements(a + b) == CorrectPlacements(a) + CorrectPlacements(b)
  {
    if a == [] {
      assert a + b == b;
    } else {
      assert (a + b)[1..] == a[1..] + b;
      CorrectPlacementsAppend(a[1..], b);
    }
  }

  lemma {:induction false} CorrectPlacementsOfBucket(cs: seq<StatCard>, key: string)
    ensures CorrectPlacements(seq(|cs|, k requires 0 <= k < |cs| => (cs[k], key))) == CountCorrect(cs, key)
  {
    var here := seq(|cs|, k requires 0 <= k < |cs| => (cs[k], key));
    if cs != [] {
      var rest := seq(|cs| - 1, k requires 0 <= k < |cs| - 1 => (cs[1..][k], key));
      assert here[1..] == rest;
      CorrectPlacementsOfBucket(cs[1..], key);
    }
  }

  /** The left fold over entries equals the fold that takes the first entry first. */
  lemma {:induction false} PlacedCountFront(es: seq<StatEntry>)
    requires es != []
    ensures PlacedCount(es) == PlacedIn(es[0]) + PlacedCount(es[1..])
  {
    if |es| > 1 {
      assert es[..|es| - 1][1..] == es[1..][..|es| - 2];
      assert es[..|es| - 1][0] == es[0];
      PlacedCountFront(es[..|es| - 1]);
    } else {
      assert es[..0] == [];
    }
  }

  lemma {:induction false} CorrectCountFront(es: seq<StatEntry>)
    requires es != []
    ensures CorrectCount(es) == CorrectIn(es[0]) + CorrectCount(es[1..])
  {
    if |es| > 1 {
      assert es[..|es| - 1][1..] == es[1..][..|es| - 2];
      assert es[..|es| - 1][0] == es[0];
      CorrectCountFront(es[..|es| - 1]);
    } else {
      assert es[..0] == [];
    }
  }

  /** No more cards are correct than are placed. */
  lemma {:induction false} CorrectAtMostPlaced(es: seq<StatEntry>)
    ensures CorrectCount(es) <= PlacedCount(es)
  {
    if es != [] {
      CorrectAtMostPlaced(es[..|es| - 1]);
    }
  }

  /**
   * `Math.round(100 * c / t)` in exact arithmetic: the nearest integer to
   * `100 * c / t`, a half rounded up.
   */
  function RoundedPercent(c: nat, t: nat): (p: nat)
    requires 0 < t
    ensures 2 * t * p <= 200 * c + t < 2 * t * (p + 1)
  {
    var n := 200 * c + t;
    var d := 2 * t;
    assert n == (n / d) * d + n % d;
    n / d
  }

  lemma ScaleMonotone(a: nat, b: nat, t: nat)
    requires a <= b
    ensures 2 * t * a <= 2 * t * b
  {
    assert 2 * t * b == 2 * t * a + 2 * t * (b - a);
  }

  /** A percentage of at most all the words is at most 100. */
  lemma PercentAtMost100(c: nat, t: nat)
    requires 0 < t && c <= t
    ensures RoundedPercent(c, t) <= 100
  {
    var p := RoundedPercent(c, t);
    if p > 100 {
      ScaleMonotone(101, p, t);
      assert false;
    }
  }

  /** All words correct is exactly 100 percent. */
  lemma AllCorrectIsFull(t: nat)
    requires 0 < t
    ensures RoundedPercent(t, t) == 100
  {
    var p := RoundedPercent(t, t);
    if p < 100 {
      ScaleMonotone(p + 1, 100, t);
      assert false;
    } else if p > 100 {
      ScaleMonotone(101, p, t);
      assert false;
    }
  }

  /** With fewer than 200 words, 100 percent means exactly as many correct cards as words. */
  lemma {:induction false} FullMeansAllCorrect(c: nat, t: nat)
    requires 0 < t < 200
    requires RoundedPercent(c, t) == 100
    ensures c == t
  {
    assert 200 * t <= 200 * c + t < 202 * t;
  }

  /** With 200 words, 199 correct already rounds to 100 percent. */
  lemma FullWithOneWrong()
    ensures RoundedPercent(199, 200) == 100
  {
  }

  /** `aggregateStats(buckets, totalWords)`; an absent mapping counts as having no entries. */
  function AggregateStats(buckets: Option<seq<StatEntry>>, totalWords: int): (r: Totals)
    ensures r.correctCount <= r.placedCount
    ensures r.placedCount == |Placements(buckets.GetOr([]))|
    ensures r.correctCount == CorrectPlacements(Placements(buckets.GetOr([])))
    ensures totalWords <= 0 ==> r.percentCorrect == 0
    ensures totalWords > 0 ==>
      2 * totalWords * r.percentCorrect <= 200 * r.correctCount + totalWords < 2 * totalWords * (r.percentCorrect + 1)
    ensures 0 < totalWords && r.correctCount <= totalWords ==> 0 <= r.percentCorrect <= 100
  {
    var es := buckets.GetOr([]);
    var placed := PlacedCount(es);
    var correct := CorrectCount(es);
    CorrectAtMostPlaced(es);
    PlacedCountIsPlacements(es);
    CorrectCountIsCorrectPlacements(es);
    var percent := if totalWords > 0 then RoundedPercent(correct, totalWords) else 0;
    assert 0 < totalWords && correct <= totalWords ==> percent <= 100 by {
      if 0 < totalWords && correct <= totalWords {
        PercentAtMost100(correct, totalWords);
      }
    }
    Totals(placed, correct, percent)
  }

  /** Nothing placed (absent or empty mapping) and no words: all zeros. */
  lemma EmptyBoardIsZero(buckets: Option<seq<StatEntry>>)
    requires buckets == None || buckets == Some([])
    ensures AggregateStats(buckets, 0) == Totals(0, 0, 0)
  {
  }

  /** The totals of a board with two buckets are the sums of the two buckets' counts. */
  lemma TwoBucketTotals(e0: StatEntry, e1: StatEntry)
    ensures PlacedCount([e0, e1]) == PlacedIn(e0) + PlacedIn(e1)
    ensures CorrectCount([e0, e1]) == CorrectIn(e0) + CorrectIn(e1)
  {
    var es := [e0, e1];
    assert es[..1] == [e0] && es[1] == e1;
    assert [e0][..0] == [];
    assert PlacedCount([e0]) == PlacedIn(e0);
    assert CorrectCount([e0]) == CorrectIn(e0);
    assert PlacedCount(es) == PlacedCount(es[..1]) + PlacedIn(es[1]);
    assert CorrectCount(es) == CorrectCount(es[..1]) + CorrectIn(es[1]);
  }

  /**
   * Two buckets holding two correct cards and one incorrect card, out of five
   * words: 3 placed, 2 correct, 40 percent. The denominator is the word
   * count, not the placed count.
   */
  lemma TwoOfFiveIsForty(right1: StatCard, wrong: StatCard, right2: StatCard, key1: string, key2: string)
    requires IsCardCorrect(right1, key1) && !IsCardCorrect(wrong, key1) && IsCardCorrect(right2, key2)
    ensures AggregateStats(Some([StatEntry(key1, Some([right1, wrong])), StatEntry(key2, Some([right2]))]), 5)
      == Totals(3, 2, 40)
  {
    assert [right1, wrong][1..] == [wrong];
    assert CountCorrect([right1, wrong], key1) == 1;
    var e0 := StatEntry(key1, Some([right1, wrong]));
    var e1 := StatEntry(key2, Some([right2]));
    TwoBucketTotals(e0, e1);
    assert RoundedPercent(2, 5) == 40;
  }
}
