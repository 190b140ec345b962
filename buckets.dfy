/**
 * The page's bucket mapping (`Record<string, Card[]>`) and the three ways the
 * page rebuilds it: a fresh empty layout for a list, a word taken out of
 * every bucket, and a word dropped into one bucket.
 *
 * A record is a sequence of buckets with distinct keys, in the order the
 * keys were first assigned, which is the order `Object.entries` visits them.
 */
module Buckets {
  import opened Wrappers

  datatype Word = Word(word: string, sentence: string, group: string)

  /** A card on the board: a word of the list and the spelling typed for it. */
  datatype Card = Card(word: Word, spelling: string)

  datatype Bucket = Bucket(key: string, cards: seq<Card>)

  type Board = seq<Bucket>

  function Keys(b: Board): seq<string> {
    seq(|b|, i requires 0 <= i < |b| => b[i].key)
  }

  predicate DistinctKeys(b: Board) {
    forall i, j :: 0 <= i < j < |b| ==> b[i].key != b[j].key
  }

  predicate NoDuplicates<T(==)>(s: seq<T>) {
    forall i, j :: 0 <= i < j < |s| ==> s[i] != s[j]
  }

  /** No duplicates means every element occurs at most once. */
  lemma {:induction false} NoDuplicatesMultiset<T>(s: seq<T>)
    ensures NoDuplicates(s) <==> forall x :: multiset(s)[x] <= 1
  {
    if s != [] {
      NoDuplicatesMultiset(s[1..]);
      assert s == [s[0]] + s[1..];
      assert multiset(s) == multiset{s[0]} + multiset(s[1..]);
      if NoDuplicates(s) {
        assert NoDuplicates(s[1..]);
        assert s[0] !in s[1..];
      } else {
        var i, j :| 0 <= i < j < |s| && s[i] == s[j];
        if i == 0 {
          assert s[j] in s[1..];
          assert multiset(s)[s[0]] >= 2;
        } else {
          assert s[1..][i - 1] == s[1..][j - 1];
          assert !NoDuplicates(s[1..]);
          var x :| multiset(s[1..])[x] > 1;
          assert multiset(s)[x] > 1;
        }
      }
    }
  }

  /** Reordering keeps a sequence free of duplicates. */
  lemma PermutationKeepsNoDuplicates<T>(a: seq<T>, b: seq<T>)
    requires multiset(a) == multiset(b) && NoDuplicates(a)
    ensures NoDuplicates(b)
  {
    NoDuplicatesMultiset(a);
    NoDuplicatesMultiset(b);
  }

  /** `b[k]`: the cards under key `k`, if the key is present. */
  function Lookup(b: Board, k: string): (r: Option<seq<Card>>)
    ensures r.Some? <==> k in Keys(b)
  {
    if b == [] then None
    else
      assert Keys(b) == [b[0].key] + Keys(b[1..]);
      if b[0].key == k then Some(b[0].cards) else Lookup(b[1..], k)
  }

  /** `b[k] ?? []`. */
  function CardsAt(b: Board, k: string): seq<Card> {
    Lookup(b, k).GetOr([])
  }

  /** `b[k] = v`: overwrite the cards of key `k` in place, or add the key at the end. */
  function Assign(b: Board, k: string, v: seq<Card>): (r: Board)
    ensures Lookup(r, k) == Some(v)
    ensures forall k' :: k' != k ==> Lookup(r, k') == Lookup(b, k')
  {
    if b == [] then [Bucket(k, v)]
    else if b[0].key == k then [Bucket(k, v)] + b[1..]
    else [b[0]] + Assign(b[1..], k, v)
  }

  /** Assignment keeps the key order, adding a new key at the end. */
  lemma {:induction false} AssignKeys(b: Board, k: string, v: seq<Card>)
    ensures Keys(Assign(b, k, v)) == if k in Keys(b) then Keys(b) else Keys(b) + [k]
  {
    if b != [] {
      KeysCons(b[0], b[1..]);
      assert [b[0]] + b[1..] == b;
      if b[0].key != k {
        AssignKeys(b[1..], k, v);
        KeysCons(b[0], Assign(b[1..], k, v));
      } else {
        KeysCons(Bucket(k, v), b[1..]);
      }
    }
  }

  lemma KeysCons(x: Bucket, t: Board)
    ensures Keys([x] + t) == [x.key] + Keys(t)
  {
  }

  /** A key the record does not have yet goes at the end. */
  lemma {:induction false} AssignNewKey(b: Board, k: string, v: seq<Card>)
    requires k !in Keys(b)
    ensures Assign(b, k, v) == b + [Bucket(k, v)]
  {
    if b != [] {
      assert k != Keys(b)[0];
      assert Keys(b[1..]) == Keys(b)[1..];
      AssignNewKey(b[1..], k, v);
    }
  }

  /** Assignment keeps the keys distinct. */
  lemma {:induction false} AssignKeepsDistinct(b: Board, k: string, v: seq<Card>)
    requires DistinctKeys(b)
    ensures DistinctKeys(Assign(b, k, v))
  {
    var r := Assign(b, k, v);
    var ks := Keys(r);
    AssignKeys(b, k, v);
    forall i, j | 0 <= i < j < |r| ensures r[i].key != r[j].key {
      assert ks[i] == r[i].key && ks[j] == r[j].key;
      if k !in Keys(b) && j == |b| {
        assert ks[i] == Keys(b)[i] == b[i].key;
      } else {
        assert ks[i] == Keys(b)[i] && ks[j] == Keys(b)[j];
      }
    }
  }

  /** How many of `cards` are cards of the word `w`. */
  function Count(cards: seq<Card>, w: string): (n: nat)
    ensures n <= |cards|
  {
    if cards == [] then 0 else (if cards[0].word.word == w then 1 else 0) + Count(cards[1..], w)
  }

  lemma {:induction false} CountAppend(a: seq<Card>, c: seq<Card>, w: string)
    ensures Count(a + c, w) == Count(a, w) + Count(c, w)
  {
    if a == [] {
      assert a + c == c;
    } else {
      assert (a + c)[1..] == a[1..] + c;
      CountAppend(a[1..], c, w);
    }
  }

  /** How many cards of the word `w` there are across all buckets. */
  function Occurrences(b: Board, w: string): nat {
    if b == [] then 0 else Count(b[0].cards, w) + Occurrences(b[1..], w)
  }

  /** The board invariant: each word sits in at most one bucket, at most once. */
  ghost predicate AtMostOnce(b: Board) {
    forall w :: Occurrences(b, w) <= 1
  }

  /** The cards of one bucket are among the cards of the board. */
  lemma {:induction false} CountAtMostOccurrences(b: Board, k: string, w: string)
    ensures Count(CardsAt(b, k), w) <= Occurrences(b, w)
  {
    if b != [] && b[0].key != k {
      CountAtMostOccurrences(b[1..], k, w);
    }
  }

  /** Assigning `v` to `k` trades the old cards of `k` for `v` in every word's count. */
  lemma {:induction false} OccurrencesAssign(b: Board, k: string, v: seq<Card>, w: string)
    ensures Occurrences(Assign(b, k, v), w) + Count(CardsAt(b, k), w) == Occurrences(b, w) + Count(v, w)
  {
    if b != [] && b[0].key != k {
      OccurrencesAssign(b[1..], k, v, w);
      assert Assign(b, k, v)[1..] == Assign(b[1..], k, v);
    } else if b != [] {
      assert Assign(b, k, v)[1..] == b[1..];
    }
  }

  /** `cards.filter((entry) => entry.word.word !== w)`. */
  function WithoutWord(cards: seq<Card>, w: string): (r: seq<Card>)
    ensures Count(r, w) == 0
    ensures forall v :: v != w ==> Count(r, v) == Count(cards, v)
    ensures forall c :: c in r <==> c in cards && c.word.word != w
  {
    if cards == [] then []
    else if cards[0].word.word == w then WithoutWord(cards[1..], w)
    else [cards[0]] + WithoutWord(cards[1..], w)
  }

  /** Filtering keeps the relative order: it distributes over concatenation. */
  lemma {:induction false} WithoutWordAppend(a: seq<Card>, c: seq<Card>, w: string)
    ensures WithoutWord(a + c, w) == WithoutWord(a, w) + WithoutWord(c, w)
  {
    if a == [] {
      assert a + c == c;
    } else {
      assert (a + c)[1..] == a[1..] + c;
      WithoutWordAppend(a[1..], c, w);
    }
  }

  /** Filtering out a word that is not there changes nothing. */
  lemma {:induction false} WithoutAbsentWord(cards: seq<Card>, w: string)
    requires Count(cards, w) == 0
    ensures WithoutWord(cards, w) == cards
  {
    if cards != [] {
      WithoutAbsentWord(cards[1..], w);
    }
  }

  /** Every bucket with the cards of `w` filtered out, keys and order unchanged. */
  function Removed(b: Board, w: string): (r: Board)
    ensures |r| == |b|
  {
    seq(|b|, i requires 0 <= i < |b| => Bucket(b[i].key, WithoutWord(b[i].cards, w)))
  }

  /** Removing a word keeps the keys, empties the board of that word and leaves every other word's count alone. */
  lemma {:induction false} RemovedProperties(b: Board, w: string)
    ensures Keys(Removed(b, w)) == Keys(b)
    ensures DistinctKeys(b) ==> DistinctKeys(Removed(b, w))
    ensures Occurrences(Removed(b, w), w) == 0
    ensures forall v :: v != w ==> Occurrences(Removed(b, w), v) == Occurrences(b, v)
    ensures forall k :: Lookup(b, k).None? ==> Lookup(Removed(b, w), k).None?
    ensures forall k :: Lookup(b, k).Some? ==> Lookup(Removed(b, w), k) == Some(WithoutWord(Lookup(b, k).value, w))
  {
    if b != [] {
      RemovedProperties(b[1..], w);
      assert Removed(b, w)[1..] == Removed(b[1..], w);
    }
  }

  /** AtMostOnce survives removing a word. */
  lemma RemovedKeepsAtMostOnce(b: Board, w: string)
    requires AtMostOnce(b)
    ensures AtMostOnce(Removed(b, w))
  {
    RemovedProperties(b, w);
    forall v ensures Occurrences(Removed(b, w), v) <= 1 {
      assert Occurrences(b, v) <= 1;
    }
  }

  /**
   * The drop updater: take `card`'s word out of every bucket, then append
   * `card` to the (possibly new) bucket `targetKey`.
   */
  function Dropped(b: Board, targetKey: string, card: Card): Board {
    var r := Removed(b, card.word.word);
    Assign(r, targetKey, CardsAt(r, targetKey) + [card])
  }

  /**
   * After a drop the word is on the board exactly once, and every other
   * word is on it as often as before; so a drop keeps the board invariant.
   */
  lemma DroppedPlacesOnce(b: Board, targetKey: string, card: Card)
    ensures Occurrences(Dropped(b, targetKey, card), card.word.word) == 1
    ensures forall v :: v != card.word.word ==> Occurrences(Dropped(b, targetKey, card), v) == Occurrences(b, v)
    ensures AtMostOnce(b) ==> AtMostOnce(Dropped(b, targetKey, card))
  {
    var w := card.word.word;
    var r := Removed(b, w);
    var d := Dropped(b, targetKey, card);
    var v := CardsAt(r, targetKey) + [card];
    RemovedProperties(b, w);
    CountAtMostOccurrences(r, targetKey, w);
    forall x ensures Occurrences(d, x) == Occurrences(r, x) + (if x == w then 1 else 0) {
      OccurrencesAssign(r, targetKey, v, x);
      CountAppend(CardsAt(r, targetKey), [card], x);
      assert [card][1..] == [];
    }
    if AtMostOnce(b) {
      forall x ensures Occurrences(d, x) <= 1 {
        assert Occurrences(b, x) <= 1;
      }
    }
  }

  /**
   * After a drop the target bucket holds its old cards without the word,
   * then the card; every other bucket only lost the word's cards; the keys
   * keep their order, a new target key going last.
   */
  lemma DroppedLayout(b: Board, targetKey: string, card: Card)
    ensures Lookup(Dropped(b, targetKey, card), targetKey) == Some(WithoutWord(CardsAt(b, targetKey), card.word.word) + [card])
    ensures forall k :: k != targetKey && Lookup(b, k).None? ==> Lookup(Dropped(b, targetKey, card), k).None?
    ensures forall k :: k != targetKey && Lookup(b, k).Some? ==>
      Lookup(Dropped(b, targetKey, card), k) == Some(WithoutWord(Lookup(b, k).value, card.word.word))
    ensures Keys(Dropped(b, targetKey, card)) == if targetKey in Keys(b) then Keys(b) else Keys(b) + [targetKey]
    ensures DistinctKeys(b) ==> DistinctKeys(Dropped(b, targetKey, card))
  {
    var w := card.word.word;
    var r := Removed(b, w);
    var v := CardsAt(r, targetKey) + [card];
    RemovedProperties(b, w);
    AssignKeys(r, targetKey, v);
    assert CardsAt(r, targetKey) == WithoutWord(CardsAt(b, targetKey), w);
    if DistinctKeys(b) {
      AssignKeepsDistinct(r, targetKey, v);
    }
  }

  /** `buildBuckets`: one empty bucket per group, assigned in order. */
  function Layout(groups: seq<string>): Board {
    if groups == [] then [] else Assign(Layout(groups[..|groups| - 1]), groups[|groups| - 1], [])
  }

  /** The layout has exactly the list's groups as keys, each once. */
  lemma {:induction false} LayoutKeys(groups: seq<string>)
    ensures DistinctKeys(Layout(groups))
    ensures forall k :: k in Keys(Layout(groups)) <==> k in groups
  {
    if groups != [] {
      var init := groups[..|groups| - 1];
      var g := groups[|groups| - 1];
      LayoutKeys(init);
      AssignKeepsDistinct(Layout(init), g, []);
      AssignKeys(Layout(init), g, []);
      assert groups == init + [g];
    }
  }

  /** For distinct groups the layout's keys are the groups, in the same order. */
  lemma {:induction false} LayoutKeyOrder(groups: seq<string>)
    requires NoDuplicates(groups)
    ensures Keys(Layout(groups)) == groups
  {
    if groups != [] {
      var init := groups[..|groups| - 1];
      var g := groups[|groups| - 1];
      var prev := Layout(init);
      assert Layout(groups) == Assign(prev, g, []);
      assert groups == init + [g];
      assert NoDuplicates(init);
      assert g !in init;
      LayoutKeyOrder(init);
      AssignKeys(prev, g, []);
    }
  }

  /** Every bucket of the layout is empty, so no word is on the board. */
  lemma {:induction false} LayoutEmpty(groups: seq<string>)
    ensures forall i :: 0 <= i < |Layout(groups)| ==> Layout(groups)[i].cards == []
    ensures forall w :: Occurrences(Layout(groups), w) == 0
  {
    if groups != [] {
      var init := groups[..|groups| - 1];
      var g := groups[|groups| - 1];
      var prev := Layout(init);
      LayoutEmpty(init);
      AssignEmpty(prev, g);
      forall w ensures Occurrences(Layout(groups), w) == 0 {
        OccurrencesAssign(prev, g, [], w);
      }
    }
  }

  lemma {:induction false} AssignEmpty(b: Board, k: string)
    requires forall i :: 0 <= i < |b| ==> b[i].cards == []
    ensures forall i :: 0 <= i < |Assign(b, k, [])| ==> Assign(b, k, [])[i].cards == []
  {
    if b != [] && b[0].key != k {
      AssignEmpty(b[1..], k);
      assert Assign(b, k, [])[1..] == Assign(b[1..], k, []);
    }
  }

  /** In a record with distinct keys, looking up a bucket's key finds that bucket. */
  lemma {:induction false} LookupOfDistinct(b: Board, i: nat)
    requires DistinctKeys(b) && i < |b|
    ensures Lookup(b, b[i].key) == Some(b[i].cards)
  {
    if i > 0 {
      assert b[0].key != b[i].key;
      assert b[1..][i - 1] == b[i];
      LookupOfDistinct(b[1..], i - 1);
    }
  }

  /** `buildBuckets(list)`: a fresh record with an empty bucket for each group of the list, in order. */
  method BuildBuckets(groups: seq<string>) returns (next: Board)
    ensures next == Layout(groups)
    ensures DistinctKeys(next) && forall i :: 0 <= i < |next| ==> next[i].cards == []
    ensures forall k :: k in Keys(next) <==> k in groups
    ensures NoDuplicates(groups) ==> Keys(next) == groups
  {
    next := [];
    for i := 0 to |groups|
      invariant next == Layout(groups[..i])
    {
      assert groups[..i + 1][..i] == groups[..i];
      next := Assign(next, groups[i], []);
    }
    assert groups[..|groups|] == groups;
    LayoutKeys(groups);
    LayoutEmpty(groups);
    if NoDuplicates(groups) {
      LayoutKeyOrder(groups);
    }
  }

  /** The first half of both updaters: copy every bucket without the cards of `w`. */
  method RemoveWord(prev: Board, w: string) returns (next: Board)
    requires DistinctKeys(prev)
    ensures next == Removed(prev, w)
    ensures Keys(next) == Keys(prev) && DistinctKeys(next)
    ensures Occurrences(next, w) == 0
    ensures forall v :: v != w ==> Occurrences(next, v) == Occurrences(prev, v)
    ensures AtMostOnce(prev) ==> AtMostOnce(next)
  {
    next := [];
    for i := 0 to |prev|
      invariant next == Removed(prev[..i], w)
    {
      RemovedProperties(prev[..i], w);
      assert prev[i].key !in Keys(prev[..i]);
      AssignNewKey(next, prev[i].key, WithoutWord(prev[i].cards, w));
      next := Assign(next, prev[i].key, WithoutWord(prev[i].cards, w));
      assert next == Removed(prev[..i + 1], w);
    }
    assert prev[..|prev|] == prev;
    RemovedProperties(prev, w);
    if AtMostOnce(prev) {
      RemovedKeepsAtMostOnce(prev, w);
    }
  }

  /** The updater in `handleDrop`: remove the card's word everywhere, then append the card to `targetKey`. */
  method DropCard(prev: Board, targetKey: string, card: Card) returns (next: Board)
    requires DistinctKeys(prev)
    ensures next == Dropped(prev, targetKey, card)
    ensures Occurrences(next, card.word.word) == 1
    ensures forall v :: v != card.word.word ==> Occurrences(next, v) == Occurrences(prev, v)
    ensures Lookup(next, targetKey) == Some(WithoutWord(CardsAt(prev, targetKey), card.word.word) + [card])
    ensures DistinctKeys(next)
    ensures AtMostOnce(prev) ==> AtMostOnce(next)
  {
    next := RemoveWord(prev, card.word.word);
    next := Assign(next, targetKey, CardsAt(next, targetKey) + [card]);
    DroppedPlacesOnce(prev, targetKey, card);
    DroppedLayout(prev, targetKey, card);
  }
}
