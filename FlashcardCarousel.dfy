/** The card cursor of frontend/learn-with-ai/src/Components/flashcards/FlashcardManager.jsx:
    the selected flashcard set and the index of the card shown, moved forwards and
    backwards around the set and reset when another set is selected. */
module FlashcardCarousel {
  import opened Results
  import FlashcardParser

  datatype FlashcardSet = FlashcardSet(cards: seq<FlashcardParser.Flashcard>)

  /** JavaScript's `a % n` for a positive `n`: the remainder takes the sign of `a`. */
  function JsRemainder(a: int, n: int): (r: int)
    requires n > 0
    ensures a >= 0 ==> 0 <= r < n
    ensures a < 0 ==> -n < r <= 0
  {
    if a >= 0 then a % n else -((-a) % n)
  }

  /** The index after `handleNextCard` in a set of `n` cards. */
  function NextIndex(i: int, n: int): int
    requires n > 0
  {
    JsRemainder(i + 1, n)
  }

  /** The index after `handlePrevCard` in a set of `n` cards. */
  function PrevIndex(i: int, n: int): int
    requires n > 0
  {
    JsRemainder(i - 1 + n, n)
  }

  /** A positive number times at least one is at least that number. */
  lemma {:induction false} ProductAtLeast(n: int, q: int)
    requires n > 0 && q >= 1
    ensures n * q >= n
    decreases q
  {
    if q > 1 {
      ProductAtLeast(n, q - 1);
      assert n * q == n * (q - 1) + n;
    }
  }

  /** The only multiple of `n` strictly between `-n` and `n` is 0. */
  lemma QuotientZero(n: int, q: int)
    requires n > 0 && -n < n * q < n
    ensures q == 0
  {
    if q > 0 {
      ProductAtLeast(n, q);
    } else if q < 0 {
      ProductAtLeast(n, -q);
    }
  }

  /** Quotient and remainder are the only such pair with the remainder in `[0, n)`. */
  lemma DivModUnique(a: int, n: int, q: int, r: int)
    requires n > 0 && 0 <= r < n && a == n * q + r
    ensures a / n == q && a % n == r
  {
    assert n * (a / n - q) == n * (a / n) - n * q;
    QuotientZero(n, a / n - q);
  }

  /** From a card of the set, next moves to the following card and wraps from the
      last to the first; previous moves to the preceding card and wraps from the
      first to the last. */
  lemma StepsWrapAround(i: int, n: int)
    requires 0 <= i < n
    ensures NextIndex(i, n) == if i == n - 1 then 0 else i + 1
    ensures PrevIndex(i, n) == if i == 0 then n - 1 else i - 1
  {
    if i == n - 1 {
      DivModUnique(i + 1, n, 1, 0);
    } else {
      DivModUnique(i + 1, n, 0, i + 1);
    }
    if i == 0 {
      DivModUnique(i - 1 + n, n, 0, n - 1);
    } else {
      DivModUnique(i - 1 + n, n, 1, i - 1);
    }
  }

  /** Both steps keep the index on a card of the set. */
  lemma StepsStayInRange(i: int, n: int)
    requires 0 <= i < n
    ensures 0 <= NextIndex(i, n) < n && 0 <= PrevIndex(i, n) < n
  {
    StepsWrapAround(i, n);
  }

  /** Previous undoes next, and next undoes previous. */
  lemma StepsUndoEachOther(i: int, n: int)
    requires 0 <= i < n
    ensures PrevIndex(NextIndex(i, n), n) == i
    ensures NextIndex(PrevIndex(i, n), n) == i
  {
    StepsWrapAround(i, n);
    StepsWrapAround(NextIndex(i, n), n);
    StepsWrapAround(PrevIndex(i, n), n);
  }

  /** The index after `k` presses of next. */
  function Advance(i: int, n: int, k: nat): int
    requires n > 0
  {
    if k == 0 then i else NextIndex(Advance(i, n, k - 1), n)
  }

  /** Next from the remainder of `a` is the remainder of `a + 1`. */
  lemma NextOfRemainder(a: int, n: int)
    requires a >= 0 && n > 0
    ensures NextIndex(a % n, n) == (a + 1) % n
  {
    var q, r := a / n, a % n;
    StepsWrapAround(r, n);
    if r == n - 1 {
      assert n * (q + 1) == n * q + n;
      DivModUnique(a + 1, n, q + 1, 0);
    } else {
      DivModUnique(a + 1, n, q, r + 1);
    }
  }

  /** `k` presses of next from a card move `k` places round the set. */
  lemma {:induction false} AdvanceMoves(i: int, n: int, k: nat)
    requires 0 <= i < n
    ensures Advance(i, n, k) == (i + k) % n
  {
    if k == 0 {
      DivModUnique(i, n, 0, i);
    } else {
      AdvanceMoves(i, n, k - 1);
      NextOfRemainder(i + k - 1, n);
    }
  }

  /** So `n` presses of next come back to the card they started from. */
  lemma FullCircle(i: int, n: int)
    requires 0 <= i < n
    ensures Advance(i, n, n) == i
  {
    AdvanceMoves(i, n, n);
    DivModUnique(i + n, n, 1, i);
  }

  /** The state of the component that the cursor handlers update. */
  class Carousel {
    var selectedSet: Option<FlashcardSet>
    var currentCardIndex: int

    /** The number of cards the cursor moves over: none without a set. */
    function CardCount(): nat
      reads this
    {
      if selectedSet.Some? then |selectedSet.value.cards| else 0
    }

    /** The index names a card of the selected set, or is 0 when there is none. */
    predicate Valid()
      reads this
    {
      0 <= currentCardIndex && (currentCardIndex == 0 || currentCardIndex < CardCount())
    }

    /** `useState(null)` and `useState(0)`. */
    constructor()
      ensures selectedSet == None && currentCardIndex == 0
      ensures Valid()
    {
      selectedSet := None;
      currentCardIndex := 0;
    }

    /** `handleSelectSet`: the set becomes the selected one and its first card is shown. */
    method SelectSet(chosen: Option<FlashcardSet>)
      modifies this
      ensures selectedSet == chosen && currentCardIndex == 0
      ensures Valid()
    {
      selectedSet := chosen;
      currentCardIndex := 0;
    }

    /** `handleNextCard`: with a set, the index moves one card on, round the set;
        without one nothing changes. A set without cards is excluded: there the
        source computes `NaN`. */
    method NextCard()
      requires selectedSet.Some? ==> |selectedSet.value.cards| > 0
      modifies this
      ensures selectedSet == old(selectedSet)
      ensures old(selectedSet).Some? ==> currentCardIndex == NextIndex(old(currentCardIndex), CardCount())
      ensures old(selectedSet).None? ==> currentCardIndex == old(currentCardIndex)
      ensures old(Valid()) ==> Valid()
    {
      if selectedSet.Some? {
        var n := |selectedSet.value.cards|;
        if 0 <= currentCardIndex < n {
          StepsStayInRange(currentCardIndex, n);
        }
        currentCardIndex := NextIndex(currentCardIndex, n);
      }
    }

    /** `handlePrevCard`: with a set, the index moves one card back, round the set;
        without one nothing changes. */
    method PrevCard()
      requires selectedSet.Some? ==> |selectedSet.value.cards| > 0
      modifies this
      ensures selectedSet == old(selectedSet)
      ensures old(selectedSet).Some? ==> currentCardIndex == PrevIndex(old(currentCardIndex), CardCount())
      ensures old(selectedSet).None? ==> currentCardIndex == old(currentCardIndex)
      ensures old(Valid()) ==> Valid()
    {
      if selectedSet.Some? {
        var n := |selectedSet.value.cards|;
        if 0 <= currentCardIndex < n {
          StepsStayInRange(currentCardIndex, n);
        }
        currentCardIndex := PrevIndex(currentCardIndex, n);
      }
    }
  }
}
