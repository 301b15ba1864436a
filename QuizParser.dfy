/** The quiz decoder of `generateQuiz` (backend/utils/geminiService.js): the reply is
    cut into `---` blocks, each trimmed line of a block is matched against `Q:`,
    `O<digit>:`, `C:`, `E:` and `D:`, a block is kept only with a question, exactly
    four options and a correct answer, and at most `numQuestions` questions are
    returned. */
module QuizParser {
  import opened Results
  import opened JsText
  import opened ResponseFormat

  /** The number of questions asked for when the caller names none. */
  const DefaultQuestionCount := 5

  /** The number of options a question must have to be kept. */
  const OptionCount := 4

  datatype QuizQuestion = QuizQuestion(
    question: string,
    options: seq<string>,
    correctAnswer: string,
    explanation: string,
    difficulty: Difficulty)

  /** What the decoder promises of every question it returns. Nothing ties the
      correct answer to the options. */
  predicate IsWellFormed(q: QuizQuestion) {
    q.question != [] && |q.options| == OptionCount && q.correctAnswer != []
  }

  /** The locals `question`, `options`, `correctAnswer`, `explanation` and `difficulty`
      of the loop over one block's lines. */
  datatype QuizDraft = QuizDraft(
    question: string,
    options: seq<string>,
    correctAnswer: string,
    explanation: string,
    difficulty: Difficulty)

  /** Their values before the first line. */
  const EmptyQuiz := QuizDraft("", [], "", "", DefaultDifficulty)

  /** `/^O\d:/`: the letter O, one ASCII digit and a colon. */
  predicate IsOptionLine(t: string) {
    |t| >= 3 && t[0] == 'O' && IsDigit(t[1]) && t[2] == ':'
  }

  /** `trimmed.substring(3).trim()`: the text of an option line. */
  function OptionValue(t: string): string
    requires IsOptionLine(t)
  {
    Trim(t[3..])
  }

  /** One pass of the line loop. Tags are tested on the trimmed line; every option
      line appends to the options, whatever its digit. */
  function ReadQuizLine(d: QuizDraft, line: string): QuizDraft {
    var t := Trim(line);
    if StartsWith(t, "Q:") then d.(question := TagValue(t))
    else if IsOptionLine(t) then d.(options := d.options + [OptionValue(t)])
    else if StartsWith(t, "C:") then d.(correctAnswer := TagValue(t))
    else if StartsWith(t, "E:") then d.(explanation := TagValue(t))
    else if StartsWith(t, "D:") then
      match ParseDifficulty(TagValue(t))
      case Some(level) => d.(difficulty := level)
      case None => d
    else d
  }

  /** The draft after reading `lines` in order, starting from `d`. */
  function ReadQuizLines(d: QuizDraft, lines: seq<string>): QuizDraft
    decreases |lines|
  {
    if lines == [] then d
    else ReadQuizLine(ReadQuizLines(d, lines[..|lines| - 1]), lines[|lines| - 1])
  }

  /** The question the lines of one block yield, if any. */
  function QuizOfLines(lines: seq<string>): (r: Option<QuizQuestion>)
    ensures r.Some? ==> IsWellFormed(r.value)
  {
    var d := ReadQuizLines(EmptyQuiz, lines);
    if d.question != [] && |d.options| == OptionCount && d.correctAnswer != [] then
      Some(QuizQuestion(d.question, d.options, d.correctAnswer, d.explanation, d.difficulty))
    else None
  }

  function QuizOfBlock(block: string): (r: Option<QuizQuestion>)
    ensures r.Some? ==> IsWellFormed(r.value)
  {
    QuizOfLines(BlockLines(block))
  }

  /** The questions of a sequence of blocks, in block order, at most one per block. */
  function AcceptedQuestions(blocks: seq<string>): (qs: seq<QuizQuestion>)
    ensures |qs| <= |blocks|
    ensures forall k :: 0 <= k < |qs| ==> IsWellFormed(qs[k])
  {
    AcceptedKeeps(QuizOfBlock, blocks, IsWellFormed);
    Accepted(QuizOfBlock, blocks)
  }

  /** What the decoder returns for the reply `raw` and the requested `numQuestions`:
      the first `numQuestions` accepted questions, in block order. */
  function QuestionsOf(raw: string, numQuestions: int): (qs: seq<QuizQuestion>)
    ensures |qs| <= |AcceptedQuestions(Blocks(raw))| && qs == AcceptedQuestions(Blocks(raw))[..|qs|]
    ensures numQuestions >= 0 ==> |qs| == Min(numQuestions, |AcceptedQuestions(Blocks(raw))|)
    ensures forall k :: 0 <= k < |qs| ==> IsWellFormed(qs[k])
  {
    var accepted := AcceptedQuestions(Blocks(raw));
    var qs := SliceTo(accepted, numQuestions);
    assert forall k :: 0 <= k < |qs| ==> qs[k] == accepted[k];
    qs
  }

  /** The decoding part of `generateQuiz`, applied to the reply text. */
  method ParseQuiz(raw: string, numQuestions: int) returns (questions: seq<QuizQuestion>)
    ensures questions == QuestionsOf(raw, numQuestions)
    ensures numQuestions >= 0 ==> |questions| <= numQuestions
  {
    var blocks := Blocks(raw);
    var accepted := DecodeQuestions(blocks);
    questions := SliceTo(accepted, numQuestions);
  }

  /** The loop over the blocks, pushing the question of every block that has one. */
  method DecodeQuestions(blocks: seq<string>) returns (questions: seq<QuizQuestion>)
    ensures questions == AcceptedQuestions(blocks)
  {
    questions := [];
    for i := 0 to |blocks|
      invariant questions == Accepted(QuizOfBlock, blocks[..i])
    {
      var question := DecodeQuestion(blocks[i]);
      if question.Some? {
        questions := questions + [question.value];
      }
      assert blocks[..i + 1][..i] == blocks[..i];
    }
    assert blocks[..|blocks|] == blocks;
  }

  /** The body of the loop over blocks: the inner loop over the block's lines, which
      keeps the locals `question`, `options`, `correctAnswer`, `explanation` and
      `difficulty`, and the test that decides whether a question is pushed. */
  method DecodeQuestion(block: string) returns (result: Option<QuizQuestion>)
    ensures result == QuizOfBlock(block)
  {
    var lines := BlockLines(block);
    var question, options, correctAnswer, explanation, difficulty := "", [], "", "", DefaultDifficulty;
    for j := 0 to |lines|
      invariant QuizDraft(question, options, correctAnswer, explanation, difficulty)
                == ReadQuizLines(EmptyQuiz, lines[..j])
    {
      var trimmed := Trim(lines[j]);
      if StartsWith(trimmed, "Q:") {
        question := Trim(trimmed[2..]);
      } else if IsOptionLine(trimmed) {
        options := options + [Trim(trimmed[3..])];
      } else if StartsWith(trimmed, "C:") {
        correctAnswer := Trim(trimmed[2..]);
      } else if StartsWith(trimmed, "E:") {
        explanation := Trim(trimmed[2..]);
      } else if StartsWith(trimmed, "D:") {
        var level := ParseDifficulty(Trim(trimmed[2..]));
        if level.Some? {
          difficulty := level.value;
        }
      }
      assert lines[..j + 1][..j] == lines[..j];
    }
    assert lines[..|lines|] == lines;
    if question != [] && |options| == OptionCount && correctAnswer != [] {
      result := Some(QuizQuestion(question, options, correctAnswer, explanation, difficulty));
    } else {
      result := None;
    }
  }

  // ----- Properties of the decoder -----

  lemma ReadQuizLinesSnoc(d: QuizDraft, lines: seq<string>, line: string)
    ensures ReadQuizLines(d, lines + [line]) == ReadQuizLine(ReadQuizLines(d, lines), line)
  {
    assert (lines + [line])[..|lines|] == lines;
  }

  /** The values of the option lines among `lines`, in line order. */
  function OptionValues(lines: seq<string>): seq<string>
    decreases |lines|
  {
    if lines == [] then []
    else OptionValues(lines[..|lines| - 1]) + OptionValuesOf(lines[|lines| - 1])
  }

  function OptionValuesOf(line: string): seq<string> {
    var t := Trim(line);
    if IsOptionLine(t) then [OptionValue(t)] else []
  }

  /** One line adds its own option value, if it has one, to the options. */
  lemma ReadQuizLineOptions(d: QuizDraft, line: string)
    ensures ReadQuizLine(d, line).options == d.options + OptionValuesOf(line)
  {
    var t := Trim(line);
    if IsOptionLine(t) {
      assert t[..2][0] == 'O';
      assert !StartsWith(t, "Q:");
    }
  }

  /** The options of a block are the values of all its option lines, in line order:
      every `O<digit>:` line counts, whatever its digit and however many there are. */
  lemma {:induction false} OptionsInLineOrder(d: QuizDraft, lines: seq<string>)
    ensures ReadQuizLines(d, lines).options == d.options + OptionValues(lines)
    decreases |lines|
  {
    if lines != [] {
      var init := lines[..|lines| - 1];
      OptionsInLineOrder(d, init);
      ReadQuizLineOptions(ReadQuizLines(d, init), lines[|lines| - 1]);
    }
  }

  /** A block is kept only if it holds exactly four option lines; a fifth one, or a
      missing one, drops it. */
  lemma OptionCountDecides(lines: seq<string>)
    ensures |OptionValues(lines)| != OptionCount ==> QuizOfLines(lines) == None
    ensures QuizOfLines(lines).Some? ==> QuizOfLines(lines).value.options == OptionValues(lines)
  {
    OptionsInLineOrder(EmptyQuiz, lines);
  }

  /** Lines none of which is, once trimmed, an `O<digit>:` line carry no options. */
  lemma {:induction false} NoOptionLines(lines: seq<string>)
    requires forall k :: 0 <= k < |lines| ==> !IsOptionLine(Trim(lines[k]))
    ensures OptionValues(lines) == []
    decreases |lines|
  {
    if lines != [] {
      NoOptionLines(lines[..|lines| - 1]);
    }
  }

  /** The text fields a `Q:`, `C:` or `E:` line sets. */
  predicate IsQuizTextTag(tag: string) {
    tag == "Q:" || tag == "C:" || tag == "E:"
  }

  function QuizTextField(d: QuizDraft, tag: string): string
    requires IsQuizTextTag(tag)
  {
    if tag == "Q:" then d.question else if tag == "C:" then d.correctAnswer else d.explanation
  }

  /** A line whose trimmed form lacks `tag` leaves that tag's field alone. */
  lemma ReadQuizLineKeepsField(d: QuizDraft, line: string, tag: string)
    requires IsQuizTextTag(tag) && !StartsWith(Trim(line), tag)
    ensures QuizTextField(ReadQuizLine(d, line), tag) == QuizTextField(d, tag)
  {
  }

  /** A line whose trimmed form carries `tag` sets that tag's field to its value. */
  lemma ReadQuizLineSetsField(d: QuizDraft, line: string, tag: string)
    requires IsQuizTextTag(tag) && StartsWith(Trim(line), tag)
    ensures QuizTextField(ReadQuizLine(d, line), tag) == TagValue(Trim(line))
  {
    assert Trim(line)[..2][0] == tag[0];
  }

  /** A later `Q:`, `C:` or `E:` line overwrites an earlier one: the field holds the
      value of the last line whose trimmed form carries the tag. */
  lemma {:induction false} LastQuizTagWins(d: QuizDraft, lines: seq<string>, tag: string, j: int)
    requires IsQuizTextTag(tag) && 0 <= j < |lines| && StartsWith(Trim(lines[j]), tag)
    requires forall k :: j < k < |lines| ==> !StartsWith(Trim(lines[k]), tag)
    ensures QuizTextField(ReadQuizLines(d, lines), tag) == TagValue(Trim(lines[j]))
    decreases |lines|
  {
    var last := |lines| - 1;
    var before := ReadQuizLines(d, lines[..last]);
    if j == last {
      ReadQuizLineSetsField(before, lines[last], tag);
    } else {
      LastQuizTagWins(d, lines[..last], tag, j);
      ReadQuizLineKeepsField(before, lines[last], tag);
    }
  }

  /** Without any line carrying `tag` the field keeps its starting value ("" for a block). */
  lemma {:induction false} AbsentQuizTagKeeps(d: QuizDraft, lines: seq<string>, tag: string)
    requires IsQuizTextTag(tag)
    requires forall k :: 0 <= k < |lines| ==> !StartsWith(Trim(lines[k]), tag)
    ensures QuizTextField(ReadQuizLines(d, lines), tag) == QuizTextField(d, tag)
    decreases |lines|
  {
    if lines != [] {
      var last := |lines| - 1;
      AbsentQuizTagKeeps(d, lines[..last], tag);
      ReadQuizLineKeepsField(ReadQuizLines(d, lines[..last]), lines[last], tag);
    }
  }

  /** A line whose trimmed form is a `D:` line naming one of the three levels. */
  predicate SetsQuizDifficulty(line: string) {
    var t := Trim(line);
    StartsWith(t, "D:") && ParseDifficulty(TagValue(t)).Some?
  }

  lemma ReadQuizLineDifficulty(d: QuizDraft, line: string)
    ensures SetsQuizDifficulty(line) ==>
      ReadQuizLine(d, line).difficulty == ParseDifficulty(TagValue(Trim(line))).value
    ensures !SetsQuizDifficulty(line) ==> ReadQuizLine(d, line).difficulty == d.difficulty
  {
    var t := Trim(line);
    if StartsWith(t, "D:") {
      assert t[0] == t[..2][0] == 'D';
      assert !StartsWith(t, "Q:") && !IsOptionLine(t) && !StartsWith(t, "C:") && !StartsWith(t, "E:");
    }
  }

  /** The last line is read last. */
  lemma ReadQuizLinesLast(d: QuizDraft, lines: seq<string>)
    requires lines != []
    ensures ReadQuizLines(d, lines) == ReadQuizLine(ReadQuizLines(d, lines[..|lines| - 1]), lines[|lines| - 1])
  {
  }

  /** The difficulty is that of the last valid `D:` line. */
  lemma {:induction false} LastQuizDifficultyWins(d: QuizDraft, lines: seq<string>, j: int)
    requires 0 <= j < |lines| && SetsQuizDifficulty(lines[j])
    requires forall k :: j < k < |lines| ==> !SetsQuizDifficulty(lines[k])
    ensures ReadQuizLines(d, lines).difficulty == ParseDifficulty(TagValue(Trim(lines[j]))).value
    decreases |lines|
  {
    var last := |lines| - 1;
    var before := ReadQuizLines(d, lines[..last]);
    ReadQuizLinesLast(d, lines);
    ReadQuizLineDifficulty(before, lines[last]);
    if j < last {
      LastQuizDifficultyWins(d, lines[..last], j);
      assert lines[..last][j] == lines[j];
    }
  }

  /** Without a valid `D:` line the difficulty keeps its starting value, `medium` for a block. */
  lemma {:induction false} AbsentQuizDifficultyKeeps(d: QuizDraft, lines: seq<string>)
    requires forall k :: 0 <= k < |lines| ==> !SetsQuizDifficulty(lines[k])
    ensures ReadQuizLines(d, lines).difficulty == d.difficulty
    decreases |lines|
  {
    if lines != [] {
      var last := |lines| - 1;
      AbsentQuizDifficultyKeeps(d, lines[..last]);
      ReadQuizLineDifficulty(ReadQuizLines(d, lines[..last]), lines[last]);
    }
  }

  /** A line that, once trimmed, carries none of the tags (or a `D:` tag with an
      unknown level). */
  predicate IsIgnoredQuizLine(line: string) {
    var t := Trim(line);
    !StartsWith(t, "Q:") && !IsOptionLine(t) && !StartsWith(t, "C:") && !StartsWith(t, "E:")
    && !SetsQuizDifficulty(line)
  }

  lemma IgnoredQuizLineKeeps(d: QuizDraft, line: string)
    requires IsIgnoredQuizLine(line)
    ensures ReadQuizLine(d, line) == d
  {
  }

  /** Such a line can be removed from anywhere in a block without changing the result. */
  lemma {:induction false} IgnoredQuizLine(d: QuizDraft, before: seq<string>, line: string, after: seq<string>)
    requires IsIgnoredQuizLine(line)
    ensures ReadQuizLines(d, before + [line] + after) == ReadQuizLines(d, before + after)
    decreases |after|
  {
    if after == [] {
      assert before + [line] + after == before + [line];
      assert before + after == before;
      ReadQuizLinesSnoc(d, before, line);
      IgnoredQuizLineKeeps(ReadQuizLines(d, before), line);
    } else {
      var init, last := after[..|after| - 1], after[|after| - 1];
      assert before + [line] + after == (before + [line] + init) + [last];
      assert before + after == (before + init) + [last];
      IgnoredQuizLine(d, before, line, init);
      ReadQuizLinesSameThen(d, before + [line] + init, before + init, last);
    }
  }

  /** Two line sequences that leave the same draft still do after one more line. */
  lemma ReadQuizLinesSameThen(d: QuizDraft, a: seq<string>, b: seq<string>, line: string)
    requires ReadQuizLines(d, a) == ReadQuizLines(d, b)
    ensures ReadQuizLines(d, a + [line]) == ReadQuizLines(d, b + [line])
  {
    ReadQuizLinesSnoc(d, a, line);
    ReadQuizLinesSnoc(d, b, line);
  }

  // ----- The layout the prompt asks for -----

  /** The option tags the decoder reads: the letter O, a digit and a colon. */
  const OptionTags: seq<string> := ["O1:", "O2:", "O3:", "O4:"]

  /** The option tags the prompt of `generateQuiz` spells out: the digit zero, not
      the letter O. */
  const PromptedOptionTags: seq<string> := ["01:", "02:", "03:", "04:"]

  /** The tags of a question's eight lines, with the given option tags. */
  function QuestionTags(optionTags: seq<string>): seq<string> {
    ["Q:"] + optionTags + ["C:", "E:", "D:"]
  }

  /** The values a question's lines carry, in the order of `QuestionTags`. */
  function QuestionValues(q: QuizQuestion): seq<string> {
    [q.question] + q.options + [q.correctAnswer, q.explanation, DifficultyName(q.difficulty)]
  }

  /** The lines the prompt asks the model to write for a question. */
  function QuestionLines(q: QuizQuestion, optionTags: seq<string>): (lines: seq<string>)
    requires |q.options| == OptionCount && |optionTags| == OptionCount
    ensures |lines| == 8
  {
    TaggedLines(QuestionTags(optionTags), QuestionValues(q))
  }

  /** One question written out as a block. */
  function FormatQuestion(q: QuizQuestion, optionTags: seq<string>): string
    requires |q.options| == OptionCount && |optionTags| == OptionCount
  {
    TaggedBlock(QuestionTags(optionTags), QuestionValues(q))
  }

  /** A reply laid out with the given option tags: the questions' blocks separated by `---`. */
  function FormatQuestions(qs: seq<QuizQuestion>, optionTags: seq<string>): string
    requires forall q <- qs :: |q.options| == OptionCount
    requires |optionTags| == OptionCount
  {
    Join(seq(|qs|, k requires 0 <= k < |qs| => FormatQuestion(qs[k], optionTags)), BlockDelimiter)
  }

  /** A question that the layout can carry: well formed, and no text of it has white
      space at its ends, a line break or the block delimiter. */
  predicate IsWritable(q: QuizQuestion): (b: bool)
    ensures b ==> |q.options| == OptionCount
  {
    IsWellFormed(q)
    && IsWritableText(q.question)
    && (forall k :: 0 <= k < |q.options| ==> IsWritableText(q.options[k]))
    && IsWritableText(q.correctAnswer)
    && IsWritableText(q.explanation)
  }

  /** Every question of a reply can be carried by the layout. */
  predicate AllWritable(qs: seq<QuizQuestion>): (b: bool)
    ensures b ==> forall q <- qs :: |q.options| == OptionCount
  {
    forall q <- qs :: IsWritable(q)
  }

  /** A question's lines, spelled out. */
  lemma QuestionLinesSpelled(q: QuizQuestion, optionTags: seq<string>)
    requires |q.options| == OptionCount && |optionTags| == OptionCount
    ensures QuestionLines(q, optionTags) ==
      [TaggedLine("Q:", q.question),
       TaggedLine(optionTags[0], q.options[0]), TaggedLine(optionTags[1], q.options[1]),
       TaggedLine(optionTags[2], q.options[2]), TaggedLine(optionTags[3], q.options[3]),
       TaggedLine("C:", q.correctAnswer), TaggedLine("E:", q.explanation),
       TaggedLine("D:", DifficultyName(q.difficulty))]
  {
  }

  /** A `Q:`, `C:` or `E:` line sets its field to its value. */
  lemma ReadQuizTextLine(d: QuizDraft, tag: string, v: string)
    requires IsQuizTextTag(tag) && IsTrimmed(v)
    ensures tag == "Q:" ==> ReadQuizLine(d, TaggedLine(tag, v)) == d.(question := v)
    ensures tag == "C:" ==> ReadQuizLine(d, TaggedLine(tag, v)) == d.(correctAnswer := v)
    ensures tag == "E:" ==> ReadQuizLine(d, TaggedLine(tag, v)) == d.(explanation := v)
  {
    TrimmedTaggedLineValue(tag, v);
    assert Trim(TaggedLine(tag, v))[..2][0] == tag[0];
  }

  /** A line with an `O<digit>:` tag appends its value to the options. */
  lemma ReadQuizOptionLine(d: QuizDraft, tag: string, v: string)
    requires |tag| == 3 && IsOptionLine(tag) && IsTrimmed(v)
    ensures ReadQuizLine(d, TaggedLine(tag, v)) == d.(options := d.options + [v])
  {
    TrimmedTaggedLineValue(tag, v);
    var t := Trim(TaggedLine(tag, v));
    assert t[..3] == tag;
    assert t[..2][0] == 'O';
  }

  /** A `D:` line naming a level sets the difficulty to it. */
  lemma ReadQuizDifficultyLine(d: QuizDraft, level: Difficulty)
    ensures ReadQuizLine(d, TaggedLine("D:", DifficultyName(level))) == d.(difficulty := level)
  {
    var name := DifficultyName(level);
    DifficultyNameIsWord(level);
    assert IsTrimmed(name);
    TrimmedTaggedLineValue("D:", name);
    ParseDifficultyName(level);
    ReadQuizValidDifficulty(d, TaggedLine("D:", name), level);
  }

  lemma ReadQuizValidDifficulty(d: QuizDraft, line: string, level: Difficulty)
    requires StartsWith(Trim(line), "D:") && ParseDifficulty(TagValue(Trim(line))) == Some(level)
    ensures ReadQuizLine(d, line) == d.(difficulty := level)
  {
    assert Trim(line)[..2][0] == 'D';
  }

  /** The three steps of reading a block from its start, one line at a time: the
      `k`-th line is a text line, an option line or the difficulty line. */
  lemma ReadQuizTextAt(l: seq<string>, k: nat, d: QuizDraft, tag: string, v: string)
    requires 1 <= k <= |l| && l[k - 1] == TaggedLine(tag, v)
    requires ReadQuizLines(EmptyQuiz, l[..k - 1]) == d && IsQuizTextTag(tag) && IsTrimmed(v)
    ensures tag == "Q:" ==> ReadQuizLines(EmptyQuiz, l[..k]) == d.(question := v)
    ensures tag == "C:" ==> ReadQuizLines(EmptyQuiz, l[..k]) == d.(correctAnswer := v)
    ensures tag == "E:" ==> ReadQuizLines(EmptyQuiz, l[..k]) == d.(explanation := v)
  {
    TakeSnoc(l, k - 1);
    ReadQuizLinesSnoc(EmptyQuiz, l[..k - 1], l[k - 1]);
    ReadQuizTextLine(d, tag, v);
  }

  lemma ReadQuizOptionAt(l: seq<string>, k: nat, d: QuizDraft, tag: string, v: string)
    requires 1 <= k <= |l| && l[k - 1] == TaggedLine(tag, v)
    requires ReadQuizLines(EmptyQuiz, l[..k - 1]) == d && |tag| == 3 && IsOptionLine(tag) && IsTrimmed(v)
    ensures ReadQuizLines(EmptyQuiz, l[..k]) == d.(options := d.options + [v])
  {
    TakeSnoc(l, k - 1);
    ReadQuizLinesSnoc(EmptyQuiz, l[..k - 1], l[k - 1]);
    ReadQuizOptionLine(d, tag, v);
  }

  lemma ReadQuizDifficultyAt(l: seq<string>, k: nat, d: QuizDraft, level: Difficulty)
    requires 1 <= k <= |l| && l[k - 1] == TaggedLine("D:", DifficultyName(level))
    requires ReadQuizLines(EmptyQuiz, l[..k - 1]) == d
    ensures ReadQuizLines(EmptyQuiz, l[..k]) == d.(difficulty := level)
  {
    TakeSnoc(l, k - 1);
    ReadQuizLinesSnoc(EmptyQuiz, l[..k - 1], l[k - 1]);
    ReadQuizDifficultyLine(d, level);
  }

  /** The draft the decoder holds after the first `k` of a question's lines. */
  function DraftAfter(q: QuizQuestion, k: nat): QuizDraft
    requires |q.options| == OptionCount && k <= 8
  {
    QuizDraft(
      if k >= 1 then q.question else "",
      q.options[..if k >= 1 then Min(k - 1, OptionCount) else 0],
      if k >= 6 then q.correctAnswer else "",
      if k >= 7 then q.explanation else "",
      if k >= 8 then q.difficulty else DefaultDifficulty)
  }

  /** Reading the first `k` lines of a question written with the `O1:`..`O4:` option
      tags fills the draft field by field, in line order. */
  lemma {:induction false} QuestionPrefixRead(q: QuizQuestion, k: nat)
    requires IsWritable(q) && k <= 8
    ensures ReadQuizLines(EmptyQuiz, QuestionLines(q, OptionTags)[..k]) == DraftAfter(q, k)
  {
    if k > 0 {
      QuestionPrefixRead(q, k - 1);
      QuestionLineRead(q, k);
    }
  }

  /** The `k`-th line of a question moves the draft from `DraftAfter(q, k - 1)` to
      `DraftAfter(q, k)`. */
  lemma QuestionLineRead(q: QuizQuestion, k: nat)
    requires IsWritable(q) && 1 <= k <= 8
    requires ReadQuizLines(EmptyQuiz, QuestionLines(q, OptionTags)[..k - 1]) == DraftAfter(q, k - 1)
    ensures ReadQuizLines(EmptyQuiz, QuestionLines(q, OptionTags)[..k]) == DraftAfter(q, k)
  {
    if k == 1 || k == 6 || k == 7 {
      QuestionTextLineRead(q, k);
    } else if k <= 5 {
      QuestionOptionLineRead(q, k);
    } else {
      QuestionDifficultyLineRead(q, k);
    }
  }

  lemma QuestionTextLineRead(q: QuizQuestion, k: nat)
    requires IsWritable(q) && (k == 1 || k == 6 || k == 7)
    requires ReadQuizLines(EmptyQuiz, QuestionLines(q, OptionTags)[..k - 1]) == DraftAfter(q, k - 1)
    ensures ReadQuizLines(EmptyQuiz, QuestionLines(q, OptionTags)[..k]) == DraftAfter(q, k)
  {
    var l := QuestionLines(q, OptionTags);
    var d := DraftAfter(q, k - 1);
    var tag, v := QuestionTags(OptionTags)[k - 1], QuestionValues(q)[k - 1];
    assert l[k - 1] == TaggedLine(tag, v);
    if k == 1 {
      ReadQuizTextAt(l, k, d, "Q:", q.question);
    } else if k == 6 {
      ReadQuizTextAt(l, k, d, "C:", q.correctAnswer);
    } else {
      ReadQuizTextAt(l, k, d, "E:", q.explanation);
    }
  }

  lemma QuestionOptionLineRead(q: QuizQuestion, k: nat)
    requires IsWritable(q) && 2 <= k <= 5
    requires ReadQuizLines(EmptyQuiz, QuestionLines(q, OptionTags)[..k - 1]) == DraftAfter(q, k - 1)
    ensures ReadQuizLines(EmptyQuiz, QuestionLines(q, OptionTags)[..k]) == DraftAfter(q, k)
  {
    var l := QuestionLines(q, OptionTags);
    var d := DraftAfter(q, k - 1);
    var tag, v := OptionTags[k - 2], q.options[k - 2];
    assert l[k - 1] == TaggedLine(tag, v);
    ReadQuizOptionAt(l, k, d, tag, v);
    TakeSnoc(q.options, k - 2);
  }

  lemma QuestionDifficultyLineRead(q: QuizQuestion, k: nat)
    requires IsWritable(q) && k == 8
    requires ReadQuizLines(EmptyQuiz, QuestionLines(q, OptionTags)[..k - 1]) == DraftAfter(q, k - 1)
    ensures ReadQuizLines(EmptyQuiz, QuestionLines(q, OptionTags)[..k]) == DraftAfter(q, k)
  {
    var l := QuestionLines(q, OptionTags);
    assert l[k - 1] == TaggedLine("D:", DifficultyName(q.difficulty));
    ReadQuizDifficultyAt(l, k, DraftAfter(q, k - 1), q.difficulty);
  }

  /** The decoder reads a question's eight lines, with the `O1:`..`O4:` option tags,
      back as that question. */
  lemma QuestionLinesRoundTrip(q: QuizQuestion)
    requires IsWritable(q)
    ensures QuizOfLines(QuestionLines(q, OptionTags)) == Some(q)
  {
    var l := QuestionLines(q, OptionTags);
    QuestionPrefixRead(q, 8);
    assert l[..8] == l;
    assert q.options[..OptionCount] == q.options;
  }

  /** With option tags free of line breaks and `-`, the block of a writable question is
      not blank, holds no delimiter, does not end in `-`, and its lines are the
      question's eight lines. */
  lemma FormatQuestionShape(q: QuizQuestion, optionTags: seq<string>)
    requires IsWritable(q) && |optionTags| == OptionCount
    requires forall k :: 0 <= k < |optionTags| ==> '\n' !in optionTags[k] && '-' !in optionTags[k]
    ensures BlockLines(FormatQuestion(q, optionTags)) == QuestionLines(q, optionTags)
    ensures FreeOf(FormatQuestion(q, optionTags), BlockDelimiter)
    ensures Trim(FormatQuestion(q, optionTags)) != []
    ensures FormatQuestion(q, optionTags)[|FormatQuestion(q, optionTags)| - 1] !in BlockDelimiter
  {
    var name := DifficultyName(q.difficulty);
    var tags := QuestionTags(optionTags);
    var values := QuestionValues(q);
    DifficultyNameIsWord(q.difficulty);
    FreeOfFirstChar(name, LineBreak);
    FreeOfFirstChar(name, BlockDelimiter);
    assert IsWritableText(name);
    forall k | 0 <= k < |tags|
      ensures '\n' !in tags[k] && '-' !in tags[k] && IsWritableText(values[k])
    {
      if 1 <= k <= 4 {
        assert tags[k] == optionTags[k - 1] && values[k] == q.options[k - 1];
      }
    }
    TaggedBlockLines(tags, values);
    TaggedBlockTrimmed(tags, values);
    TrimOfTrimmed(FormatQuestion(q, optionTags));
  }

  /** The decoder reads the block of a writable question, written with the
      `O1:`..`O4:` option tags, back as that question. */
  lemma QuestionRoundTrip(q: QuizQuestion)
    requires IsWritable(q)
    ensures QuizOfBlock(FormatQuestion(q, OptionTags)) == Some(q)
  {
    FormatQuestionShape(q, OptionTags);
    QuestionLinesRoundTrip(q);
  }

  /** Decoding a reply whose option lines are tagged `O1:`..`O4:` gives back its
      questions, cut to `numQuestions` as `slice(0, numQuestions)` cuts them. */
  lemma QuestionsRoundTrip(qs: seq<QuizQuestion>, numQuestions: int)
    requires AllWritable(qs)
    ensures QuestionsOf(FormatQuestions(qs, OptionTags), numQuestions) == SliceTo(qs, numQuestions)
  {
    var blocks := seq(|qs|, k requires 0 <= k < |qs| => FormatQuestion(qs[k], OptionTags));
    forall k | 0 <= k < |qs|
      ensures Trim(blocks[k]) != [] && FreeOf(blocks[k], BlockDelimiter)
      ensures blocks[k] != [] && blocks[k][|blocks[k]| - 1] !in BlockDelimiter
      ensures QuizOfBlock(blocks[k]) == Some(qs[k])
    {
      FormatQuestionShape(qs[k], OptionTags);
      QuestionRoundTrip(qs[k]);
    }
    if qs == [] {
      assert Blocks(FormatQuestions(qs, OptionTags)) == [];
    } else {
      SplitOfJoin(blocks, BlockDelimiter);
    }
    NonBlankOfNonBlank(blocks);
    AcceptedAll(QuizOfBlock, blocks, qs);
  }

  /** The questions' blocks on lines of their own with a `---` line between two of
      them, the way replies usually lay the prompt's format out. */
  function FormatQuestionsSpaced(qs: seq<QuizQuestion>, optionTags: seq<string>): string
    requires forall q <- qs :: |q.options| == OptionCount
    requires |optionTags| == OptionCount
  {
    Join(seq(|qs|, k requires 0 <= k < |qs| => FormatQuestion(qs[k], optionTags)), SpacedDelimiter)
  }

  /** A reply with each question on lines of its own between `---` lines, options
      tagged `O1:`..`O4:`, decodes to the same questions, cut to `numQuestions`. */
  lemma QuestionsSpacedRoundTrip(qs: seq<QuizQuestion>, numQuestions: int)
    requires AllWritable(qs)
    ensures QuestionsOf(FormatQuestionsSpaced(qs, OptionTags), numQuestions) == SliceTo(qs, numQuestions)
  {
    var blocks := seq(|qs|, k requires 0 <= k < |qs| => FormatQuestion(qs[k], OptionTags));
    forall k | 0 <= k < |qs|
      ensures IsCarriedBlock(blocks[k]) && QuizOfBlock(blocks[k]) == Some(qs[k])
    {
      FormatQuestionShape(qs[k], OptionTags);
      QuestionRoundTrip(qs[k]);
    }
    SpacedBlocks(blocks);
    var read := Blocks(FormatQuestionsSpaced(qs, OptionTags));
    forall k | 0 <= k < |qs| ensures QuizOfBlock(read[k]) == Some(qs[k]) {
    }
    AcceptedAll(QuizOfBlock, read, qs);
  }

  /** A tagged line whose tag does not start with the letter O is, once trimmed, no
      option line. */
  lemma NotAnOptionLine(tag: string, v: string)
    requires tag != [] && tag[0] != 'O' && IsTrimmed(tag) && IsTrimmed(v)
    ensures !IsOptionLine(Trim(TaggedLine(tag, v)))
  {
    TrimmedTaggedLineValue(tag, v);
    assert Trim(TaggedLine(tag, v))[..|tag|][0] == tag[0];
  }

  /** No line of a question written with the `01:`..`04:` option tags is, once
      trimmed, an option line. */
  lemma PromptedLinesHaveNoOption(q: QuizQuestion)
    requires IsWritable(q)
    ensures forall k :: 0 <= k < 8 ==> !IsOptionLine(Trim(QuestionLines(q, PromptedOptionTags)[k]))
  {
    var l := QuestionLines(q, PromptedOptionTags);
    var tags := QuestionTags(PromptedOptionTags);
    var values := QuestionValues(q);
    DifficultyNameIsWord(q.difficulty);
    forall k | 0 <= k < 8 ensures !IsOptionLine(Trim(l[k])) {
      if 1 <= k <= 4 {
        assert tags[k] == PromptedOptionTags[k - 1] && values[k] == q.options[k - 1];
      }
      NotAnOptionLine(tags[k], values[k]);
    }
  }

  /** The decoder keeps a question whose correct answer is none of its options: the
      block is accepted as it stands. */
  lemma CorrectAnswerNotChecked(q: QuizQuestion)
    requires IsWritable(q) && q.correctAnswer !in q.options
    ensures QuestionsOf(FormatQuestions([q], OptionTags), 1) == [q]
  {
    QuestionsRoundTrip([q], 1);
  }

  /** A block written exactly as the prompt asks, with `01:`..`04:` option lines, has
      no line the decoder takes for an option, so it is dropped. */
  lemma PromptedQuestionDropped(q: QuizQuestion)
    requires IsWritable(q)
    ensures QuizOfBlock(FormatQuestion(q, PromptedOptionTags)) == None
  {
    var l := QuestionLines(q, PromptedOptionTags);
    FormatQuestionShape(q, PromptedOptionTags);
    PromptedLinesHaveNoOption(q);
    NoOptionLines(l);
    OptionCountDecides(l);
  }

  /** Hence a reply laid out as the prompt asks yields no question at all. */
  lemma PromptedRepliesYieldNothing(qs: seq<QuizQuestion>, numQuestions: int)
    requires AllWritable(qs)
    ensures QuestionsOf(FormatQuestions(qs, PromptedOptionTags), numQuestions) == []
  {
    var blocks := seq(|qs|, k requires 0 <= k < |qs| => FormatQuestion(qs[k], PromptedOptionTags));
    forall k | 0 <= k < |qs|
      ensures Trim(blocks[k]) != [] && FreeOf(blocks[k], BlockDelimiter)
      ensures blocks[k] != [] && blocks[k][|blocks[k]| - 1] !in BlockDelimiter
      ensures QuizOfBlock(blocks[k]) == None
    {
      FormatQuestionShape(qs[k], PromptedOptionTags);
      PromptedQuestionDropped(qs[k]);
    }
    if qs == [] {
      assert Blocks(FormatQuestions(qs, PromptedOptionTags)) == [];
    } else {
      SplitOfJoin(blocks, BlockDelimiter);
    }
    NonBlankOfNonBlank(blocks);
    AcceptedNone(QuizOfBlock, blocks);
  }
}
