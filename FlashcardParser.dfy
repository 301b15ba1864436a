/** The flashcard decoder of `generateFlashcards` (backend/utils/geminiService.js):
    the model's reply is cut into `---` blocks, each block is read line by line for
    `Q:`, `A:` and `D:` tags, blocks without a question or an answer are dropped and
    at most `count` cards are returned. */
module FlashcardParser {
  import opened Results
  import opened JsText
  import opened ResponseFormat

  /** The number of cards asked for when the caller names none. */
  const DefaultCount := 10

  datatype Flashcard = Flashcard(question: string, answer: string, difficulty: Difficulty)

  /** What the decoder promises of every card it returns: a question and an answer
      that are non-empty and carry no white space at either end. */
  predicate IsWellFormed(card: Flashcard) {
    card.question != [] && card.answer != [] && IsTrimmed(card.question) && IsTrimmed(card.answer)
  }

  /** The locals `question`, `answer` and `difficulty` of the loop over one block's lines. */
  datatype CardDraft = CardDraft(question: string, answer: string, difficulty: Difficulty)

  /** Their values before the first line. */
  const EmptyCard := CardDraft("", "", DefaultDifficulty)

  /** One pass of the line loop. Tags are tested on the line as it is, untrimmed. */
  function ReadCardLine(d: CardDraft, line: string): (d': CardDraft)
    ensures IsTrimmed(d.question) && IsTrimmed(d.answer) ==> IsTrimmed(d'.question) && IsTrimmed(d'.answer)
  {
    if StartsWith(line, "Q:") then d.(question := TagValue(line))
    else if StartsWith(line, "A:") then d.(answer := TagValue(line))
    else if StartsWith(line, "D:") then
      match ParseDifficulty(TagValue(line))
      case Some(level) => d.(difficulty := level)
      case None => d
    else d
  }

  /** The draft after reading `lines` in order, starting from `d`. */
  function ReadCardLines(d: CardDraft, lines: seq<string>): (d': CardDraft)
    ensures IsTrimmed(d.question) && IsTrimmed(d.answer) ==> IsTrimmed(d'.question) && IsTrimmed(d'.answer)
    decreases |lines|
  {
    if lines == [] then d
    else ReadCardLine(ReadCardLines(d, lines[..|lines| - 1]), lines[|lines| - 1])
  }

  /** The card the lines of one block yield: only when its question and its answer
      are both non-empty. */
  function CardOfLines(lines: seq<string>): (r: Option<Flashcard>)
    ensures r.Some? ==> IsWellFormed(r.value)
  {
    var d := ReadCardLines(EmptyCard, lines);
    if d.question != [] && d.answer != [] then Some(Flashcard(d.question, d.answer, d.difficulty))
    else None
  }

  function CardOfBlock(block: string): (r: Option<Flashcard>)
    ensures r.Some? ==> IsWellFormed(r.value)
  {
    CardOfLines(BlockLines(block))
  }

  /** The cards of a sequence of blocks, in block order, at most one per block. */
  function AcceptedCards(blocks: seq<string>): (cards: seq<Flashcard>)
    ensures |cards| <= |blocks|
    ensures forall k :: 0 <= k < |cards| ==> IsWellFormed(cards[k])
  {
    AcceptedKeeps(CardOfBlock, blocks, IsWellFormed);
    Accepted(CardOfBlock, blocks)
  }

  /** What the decoder returns for the reply `raw` and the requested `count`:
      the first `count` accepted cards, in block order. */
  function FlashcardsOf(raw: string, count: int): (cards: seq<Flashcard>)
    ensures |cards| <= |AcceptedCards(Blocks(raw))| && cards == AcceptedCards(Blocks(raw))[..|cards|]
    ensures count >= 0 ==> |cards| == Min(count, |AcceptedCards(Blocks(raw))|)
    ensures forall k :: 0 <= k < |cards| ==> IsWellFormed(cards[k])
  {
    var accepted := AcceptedCards(Blocks(raw));
    var cards := SliceTo(accepted, count);
    assert forall k :: 0 <= k < |cards| ==> cards[k] == accepted[k];
    cards
  }

  /** The decoding part of `generateFlashcards`, applied to the reply text. */
  method ParseFlashcards(raw: string, count: int) returns (cards: seq<Flashcard>)
    ensures cards == FlashcardsOf(raw, count)
    ensures count >= 0 ==> |cards| <= count
  {
    var blocks := Blocks(raw);
    var flashcards := DecodeCards(blocks);
    cards := SliceTo(flashcards, count);
  }

  /** The loop over the blocks, pushing the card of every block that has one. */
  method DecodeCards(blocks: seq<string>) returns (flashcards: seq<Flashcard>)
    ensures flashcards == AcceptedCards(blocks)
  {
    flashcards := [];
    for i := 0 to |blocks|
      invariant flashcards == Accepted(CardOfBlock, blocks[..i])
    {
      var card := DecodeCard(blocks[i]);
      if card.Some? {
        flashcards := flashcards + [card.value];
      }
      assert blocks[..i + 1][..i] == blocks[..i];
    }
    assert blocks[..|blocks|] == blocks;
  }

  /** The body of the loop over blocks: the inner loop over the block's lines, which
      keeps the locals `question`, `answer` and `difficulty`, and the test that decides
      whether a card is pushed. */
  method DecodeCard(block: string) returns (card: Option<Flashcard>)
    ensures card == CardOfBlock(block)
  {
    var lines := BlockLines(block);
    var question, answer, difficulty := "", "", DefaultDifficulty;
    for j := 0 to |lines|
      invariant CardDraft(question, answer, difficulty) == ReadCardLines(EmptyCard, lines[..j])
    {
      var line := lines[j];
      if StartsWith(line, "Q:") {
        question := Trim(line[2..]);
      } else if StartsWith(line, "A:") {
        answer := Trim(line[2..]);
      } else if StartsWith(line, "D:") {
        var level := ParseDifficulty(Trim(line[2..]));
        if level.Some? {
          difficulty := level.value;
        }
      }
      assert lines[..j + 1][..j] == lines[..j];
    }
    assert lines[..|lines|] == lines;
    if question != [] && answer != [] {
      card := Some(Flashcard(question, answer, difficulty));
    } else {
      card := None;
    }
  }

  // ----- Properties of the decoder -----

  /** The text fields a `Q:` or an `A:` line sets. */
  predicate IsTextTag(tag: string) {
    tag == "Q:" || tag == "A:"
  }

  function TextField(d: CardDraft, tag: string): string
    requires IsTextTag(tag)
  {
    if tag == "Q:" then d.question else d.answer
  }

  /** A line without `tag` leaves that tag's field alone. */
  lemma ReadCardLineKeepsField(d: CardDraft, line: string, tag: string)
    requires IsTextTag(tag) && !StartsWith(line, tag)
    ensures TextField(ReadCardLine(d, line), tag) == TextField(d, tag)
  {
  }

  /** Within a block a later `Q:` (or `A:`) line overwrites an earlier one: the field
      holds the value of the last line carrying the tag. */
  lemma {:induction false} LastTextTagWins(d: CardDraft, lines: seq<string>, tag: string, j: int)
    requires IsTextTag(tag) && 0 <= j < |lines| && StartsWith(lines[j], tag)
    requires forall k :: j < k < |lines| ==> !StartsWith(lines[k], tag)
    ensures TextField(ReadCardLines(d, lines), tag) == TagValue(lines[j])
    decreases |lines|
  {
    var last := |lines| - 1;
    var before := ReadCardLines(d, lines[..last]);
    if j == last {
      assert lines[j][0] == tag[0];
    } else {
      LastTextTagWins(d, lines[..last], tag, j);
      ReadCardLineKeepsField(before, lines[last], tag);
    }
  }

  /** Without any line carrying `tag` the field keeps its starting value ("" for a block). */
  lemma {:induction false} AbsentTextTagKeeps(d: CardDraft, lines: seq<string>, tag: string)
    requires IsTextTag(tag)
    requires forall k :: 0 <= k < |lines| ==> !StartsWith(lines[k], tag)
    ensures TextField(ReadCardLines(d, lines), tag) == TextField(d, tag)
    decreases |lines|
  {
    if lines != [] {
      var last := |lines| - 1;
      AbsentTextTagKeeps(d, lines[..last], tag);
      ReadCardLineKeepsField(ReadCardLines(d, lines[..last]), lines[last], tag);
    }
  }

  /** A `D:` line whose value names one of the three levels, ignoring case. */
  predicate SetsDifficulty(line: string) {
    StartsWith(line, "D:") && ParseDifficulty(TagValue(line)).Some?
  }

  /** The difficulty is that of the last `D:` line with a valid value; a `D:` line
      with any other value leaves it unchanged. */
  lemma {:induction false} LastDifficultyWins(d: CardDraft, lines: seq<string>, j: int)
    requires 0 <= j < |lines| && SetsDifficulty(lines[j])
    requires forall k :: j < k < |lines| ==> !SetsDifficulty(lines[k])
    ensures ReadCardLines(d, lines).difficulty == ParseDifficulty(TagValue(lines[j])).value
    decreases |lines|
  {
    var last := |lines| - 1;
    if j == last {
      assert lines[j][0] == 'D';
    } else {
      LastDifficultyWins(d, lines[..last], j);
    }
  }

  /** Without a valid `D:` line the difficulty keeps its starting value, which for a
      block is `medium`. */
  lemma {:induction false} AbsentDifficultyKeeps(d: CardDraft, lines: seq<string>)
    requires forall k :: 0 <= k < |lines| ==> !SetsDifficulty(lines[k])
    ensures ReadCardLines(d, lines).difficulty == d.difficulty
    decreases |lines|
  {
    if lines != [] {
      AbsentDifficultyKeeps(d, lines[..|lines| - 1]);
    }
  }

  /** A line that is neither a `Q:` nor an `A:` line nor a `D:` line with a valid level. */
  predicate IsIgnoredCardLine(line: string) {
    !StartsWith(line, "Q:") && !StartsWith(line, "A:") && !SetsDifficulty(line)
  }

  lemma IgnoredCardLineKeeps(d: CardDraft, line: string)
    requires IsIgnoredCardLine(line)
    ensures ReadCardLine(d, line) == d
  {
  }

  /** Such a line can be removed from anywhere in a block without changing the result. */
  lemma {:induction false} IgnoredCardLine(d: CardDraft, before: seq<string>, line: string, after: seq<string>)
    requires IsIgnoredCardLine(line)
    ensures ReadCardLines(d, before + [line] + after) == ReadCardLines(d, before + after)
    decreases |after|
  {
    if after == [] {
      assert before + [line] + after == before + [line];
      assert before + after == before;
      ReadCardLinesSnoc(d, before, line);
      IgnoredCardLineKeeps(ReadCardLines(d, before), line);
    } else {
      var init, last := after[..|after| - 1], after[|after| - 1];
      assert before + [line] + after == (before + [line] + init) + [last];
      assert before + after == (before + init) + [last];
      IgnoredCardLine(d, before, line, init);
      ReadCardLinesSameThen(d, before + [line] + init, before + init, last);
    }
  }

  /** Two line sequences that leave the same draft still do after one more line. */
  lemma ReadCardLinesSameThen(d: CardDraft, a: seq<string>, b: seq<string>, line: string)
    requires ReadCardLines(d, a) == ReadCardLines(d, b)
    ensures ReadCardLines(d, a + [line]) == ReadCardLines(d, b + [line])
  {
    ReadCardLinesSnoc(d, a, line);
    ReadCardLinesSnoc(d, b, line);
  }

  /** A block without an `A:` line is dropped, whatever else it holds. */
  lemma MissingAnswerDropped(block: string)
    requires forall k :: 0 <= k < |BlockLines(block)| ==> !StartsWith(BlockLines(block)[k], "A:")
    ensures CardOfBlock(block) == None
  {
    AbsentTextTagKeeps(EmptyCard, BlockLines(block), "A:");
  }

  // ----- The layout the prompt asks for -----

  /** The tags of a card's lines, in the order the prompt lists them. */
  const CardTags: seq<string> := ["Q:", "A:", "D:"]

  /** The values a card's lines carry, in the order of `CardTags`. */
  function CardValues(card: Flashcard): seq<string> {
    [card.question, card.answer, DifficultyName(card.difficulty)]
  }

  /** The three lines the prompt asks the model to write for a card. */
  function CardLines(card: Flashcard): (lines: seq<string>)
    ensures |lines| == 3
  {
    TaggedLines(CardTags, CardValues(card))
  }

  /** One card written out as a block. */
  function FormatCard(card: Flashcard): string {
    TaggedBlock(CardTags, CardValues(card))
  }

  /** A reply in the layout the prompt asks for: the cards' blocks separated by `---`. */
  function FormatCards(cards: seq<Flashcard>): string {
    Join(seq(|cards|, k requires 0 <= k < |cards| => FormatCard(cards[k])), BlockDelimiter)
  }

  /** A card that the layout can carry: well formed, and neither text holds a line
      break or the block delimiter. */
  predicate IsWritable(card: Flashcard) {
    IsWellFormed(card) && IsWritableText(card.question) && IsWritableText(card.answer)
  }

  lemma ReadCardLinesSnoc(d: CardDraft, lines: seq<string>, line: string)
    ensures ReadCardLines(d, lines + [line]) == ReadCardLine(ReadCardLines(d, lines), line)
  {
    assert (lines + [line])[..|lines|] == lines;
  }

  lemma ReadQuestionLine(d: CardDraft, v: string)
    requires IsTrimmed(v)
    ensures ReadCardLine(d, TaggedLine("Q:", v)) == d.(question := v)
  {
    TaggedLineValue("Q:", v);
  }

  lemma ReadAnswerLine(d: CardDraft, v: string)
    requires IsTrimmed(v)
    ensures ReadCardLine(d, TaggedLine("A:", v)) == d.(answer := v)
  {
    TaggedLineValue("A:", v);
    assert TaggedLine("A:", v)[..2][0] == 'A';
  }

  lemma ReadDifficultyLine(d: CardDraft, level: Difficulty)
    ensures ReadCardLine(d, TaggedLine("D:", DifficultyName(level))) == d.(difficulty := level)
  {
    var name := DifficultyName(level);
    DifficultyNameIsWord(level);
    assert IsTrimmed(name);
    TaggedLineValue("D:", name);
    ParseDifficultyName(level);
    ReadValidDifficulty(d, TaggedLine("D:", name), level);
  }

  lemma ReadValidDifficulty(d: CardDraft, line: string, level: Difficulty)
    requires StartsWith(line, "D:") && ParseDifficulty(TagValue(line)) == Some(level)
    ensures ReadCardLine(d, line) == d.(difficulty := level)
  {
    assert line[..2][0] == 'D';
  }

  /** A card's lines, spelled out. */
  lemma CardLinesSpelled(card: Flashcard)
    ensures CardLines(card) == [TaggedLine("Q:", card.question), TaggedLine("A:", card.answer),
                                TaggedLine("D:", DifficultyName(card.difficulty))]
  {
  }

  /** The decoder reads a card's three lines back as that card. */
  lemma CardLinesRoundTrip(card: Flashcard)
    requires IsWellFormed(card)
    ensures CardOfLines(CardLines(card)) == Some(card)
  {
    var q := TaggedLine("Q:", card.question);
    var a := TaggedLine("A:", card.answer);
    var d := TaggedLine("D:", DifficultyName(card.difficulty));
    CardLinesSpelled(card);
    var d1 := EmptyCard.(question := card.question);
    var d2 := d1.(answer := card.answer);
    ReadQuestionLine(EmptyCard, card.question);
    ReadAnswerLine(d1, card.answer);
    ReadDifficultyLine(d2, card.difficulty);
    ReadCardLinesSnoc(EmptyCard, [], q);
    ReadCardLinesSnoc(EmptyCard, [q], a);
    ReadCardLinesSnoc(EmptyCard, [q, a], d);
    assert [] + [q] == [q];
    assert [q] + [a] == [q, a];
    assert [q, a] + [d] == [q, a, d];
  }

  /** The block of a writable card is not blank, holds no delimiter, does not end in
      `-`, and its lines are the card's three lines. */
  lemma FormatCardShape(card: Flashcard)
    requires IsWritable(card)
    ensures BlockLines(FormatCard(card)) == CardLines(card)
    ensures FreeOf(FormatCard(card), BlockDelimiter)
    ensures Trim(FormatCard(card)) != []
    ensures FormatCard(card)[|FormatCard(card)| - 1] !in BlockDelimiter
  {
    var name := DifficultyName(card.difficulty);
    var values := CardValues(card);
    DifficultyNameIsWord(card.difficulty);
    FreeOfFirstChar(name, LineBreak);
    FreeOfFirstChar(name, BlockDelimiter);
    assert IsWritableText(name);
    assert forall k :: 0 <= k < 3 ==> IsWritableText(values[k]);
    TaggedBlockLines(CardTags, values);
    TaggedBlockTrimmed(CardTags, values);
    TrimOfTrimmed(FormatCard(card));
  }

  /** The decoder reads a writable card's block back as that card. */
  lemma CardRoundTrip(card: Flashcard)
    requires IsWritable(card)
    ensures CardOfBlock(FormatCard(card)) == Some(card)
  {
    FormatCardShape(card);
    CardLinesRoundTrip(card);
  }

  /** Decoding a reply written in the prompt's layout gives back its cards, cut to
      `count` as `slice(0, count)` cuts them. */
  lemma FlashcardsRoundTrip(cards: seq<Flashcard>, count: int)
    requires forall k :: 0 <= k < |cards| ==> IsWritable(cards[k])
    ensures FlashcardsOf(FormatCards(cards), count) == SliceTo(cards, count)
  {
    var blocks := seq(|cards|, k requires 0 <= k < |cards| => FormatCard(cards[k]));
    forall k | 0 <= k < |cards| ensures Trim(blocks[k]) != [] {
      FormatCardShape(cards[k]);
    }
    if cards == [] {
      assert Blocks(FormatCards(cards)) == [];
    } else {
      forall k | 0 <= k < |cards|
        ensures FreeOf(blocks[k], BlockDelimiter)
        ensures blocks[k] != [] && blocks[k][|blocks[k]| - 1] !in BlockDelimiter
      {
        FormatCardShape(cards[k]);
      }
      SplitOfJoin(blocks, BlockDelimiter);
    }
    NonBlankOfNonBlank(blocks);
    forall k | 0 <= k < |cards| ensures CardOfBlock(blocks[k]) == Some(cards[k]) {
      CardRoundTrip(cards[k]);
    }
    AcceptedAll(CardOfBlock, blocks, cards);
  }

  /** The cards' blocks on lines of their own with a `---` line between two of them,
      the way replies usually lay the prompt's format out. */
  function FormatCardsSpaced(cards: seq<Flashcard>): string {
    Join(seq(|cards|, k requires 0 <= k < |cards| => FormatCard(cards[k])), SpacedDelimiter)
  }

  /** A reply with each card on lines of its own between `---` lines decodes to the
      same cards, cut to `count`. */
  lemma FlashcardsSpacedRoundTrip(cards: seq<Flashcard>, count: int)
    requires forall k :: 0 <= k < |cards| ==> IsWritable(cards[k])
    ensures FlashcardsOf(FormatCardsSpaced(cards), count) == SliceTo(cards, count)
  {
    var blocks := seq(|cards|, k requires 0 <= k < |cards| => FormatCard(cards[k]));
    forall k | 0 <= k < |cards| ensures IsCarriedBlock(blocks[k]) {
      FormatCardShape(cards[k]);
    }
    SpacedBlocks(blocks);
    var read := Blocks(FormatCardsSpaced(cards));
    forall k | 0 <= k < |cards| ensures CardOfBlock(read[k]) == Some(cards[k]) {
      CardRoundTrip(cards[k]);
    }
    AcceptedAll(CardOfBlock, read, cards);
  }
}
