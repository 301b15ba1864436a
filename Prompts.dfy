/** The prompt side of backend/utils/geminiService.js: the five prompt templates,
    the numbered chunk context of `chatWithContext`, and the wiring of each
    `generate*` function from prompt to model call to decoded result. The model call
    itself is a parameter: for a model name and a prompt, either a thrown error or a
    response whose text may be absent. */
module Prompts {
  import opened Results
  import opened JsText
  import opened ResponseFormat
  import TextChunker
  import FlashcardParser
  import QuizParser

  /** The model every function asks. */
  const ModelName := "gemini-2.5-flash-lite"

  /** How much of the input text each prompt embeds. */
  const FlashcardTextLimit := 15000
  const QuizTextLimit := 15000
  const SummaryTextLimit := 20000
  const ExplainContextLimit := 10000

  /** The indentation the template literals carry on their continuation lines. */
  const Indent := "    "

  // ----- The chat context -----

  const ChunkLabelOpen := "[Chunk "
  const ChunkLabelClose := "]\n "

  /** How `chatWithContext` renders the chunk at position `i`: a label numbered from 1,
      a line break and a space, then the chunk's content. */
  function ChunkEntry(i: nat, content: string): string {
    ChunkLabelOpen + NatToDecimal(i + 1) + ChunkLabelClose + content
  }

  /** `chunks.map((c, i) => ...)`. */
  function ChunkEntries(chunks: seq<TextChunker.Chunk>): (entries: seq<string>)
    ensures |entries| == |chunks|
  {
    seq(|chunks|, i requires 0 <= i < |chunks| => ChunkEntry(i, chunks[i].content))
  }

  /** The context of `chatWithContext`: the entries joined with a blank line. */
  function ChatContext(chunks: seq<TextChunker.Chunk>): string {
    Join(ChunkEntries(chunks), "\n\n")
  }

  /** The number of digits `s` starts with. */
  function LeadingDigits(s: string): (n: nat)
    ensures n <= |s|
    ensures forall k :: 0 <= k < n ==> IsDigit(s[k])
    ensures n < |s| ==> !IsDigit(s[n])
    decreases |s|
  {
    if s != [] && IsDigit(s[0]) then 1 + LeadingDigits(s[1..]) else 0
  }

  /** A numeral followed by something that does not start with a digit: the leading
      digits are the numeral's. */
  lemma {:induction false} LeadingDigitsOf(n: string, rest: string)
    requires IsDecimal(n) && (rest == [] || !IsDigit(rest[0]))
    ensures LeadingDigits(n + rest) == |n|
    decreases |n|
  {
    if n == [] {
      assert n + rest == rest;
    } else {
      assert (n + rest)[1..] == n[1..] + rest;
      LeadingDigitsOf(n[1..], rest);
    }
  }

  /** Reads a rendered entry back: the number in its label and its content; `None`
      for text that is not laid out as an entry. */
  function ReadChunkEntry(e: string): Option<(nat, string)> {
    var open := |ChunkLabelOpen|;
    if !StartsWith(e, ChunkLabelOpen) then None
    else
      var digits := LeadingDigits(e[open..]);
      if digits == 0 || !StartsWith(e[open + digits..], ChunkLabelClose) then None
      else Some((DecimalValue(e[open..open + digits]), e[open + digits + |ChunkLabelClose|..]))
  }

  /** Every entry reads back as its chunk's number, counted from 1, and its content. */
  lemma ChunkEntryRoundTrip(i: nat, content: string)
    ensures ReadChunkEntry(ChunkEntry(i, content)) == Some((i + 1, content))
  {
    var numeral := NatToDecimal(i + 1);
    var e := ChunkEntry(i, content);
    assert e == ChunkLabelOpen + (numeral + (ChunkLabelClose + content));
    assert e[7..] == numeral + (ChunkLabelClose + content);
    LeadingDigitsOf(numeral, ChunkLabelClose + content);
    assert e[7..7 + |numeral|] == numeral;
    assert e[7 + |numeral|..] == ChunkLabelClose + content;
    DecimalRoundTrip(i + 1);
  }

  /** So no two chunks are rendered alike: an entry names its position and content. */
  lemma ChunkEntriesDistinct(i: nat, a: string, j: nat, b: string)
    ensures ChunkEntry(i, a) == ChunkEntry(j, b) <==> i == j && a == b
  {
    ChunkEntryRoundTrip(i, a);
    ChunkEntryRoundTrip(j, b);
  }

  /** The context is empty exactly when there are no chunks. */
  lemma ChatContextEmpty(chunks: seq<TextChunker.Chunk>)
    ensures ChatContext(chunks) == [] <==> chunks == []
  {
    var entries := ChunkEntries(chunks);
    if chunks != [] {
      assert entries[0] == ChunkEntry(0, chunks[0].content);
      assert |Join(entries, "\n\n")| >= |entries[0]|;
    }
  }

  /** One more chunk appends a blank line and its entry, numbered after the others. */
  lemma ChatContextSnoc(chunks: seq<TextChunker.Chunk>, c: TextChunker.Chunk)
    ensures ChatContext(chunks + [c]) ==
      if chunks == [] then ChunkEntry(0, c.content)
      else ChatContext(chunks) + "\n\n" + ChunkEntry(|chunks|, c.content)
  {
    assert ChunkEntries(chunks + [c]) == ChunkEntries(chunks) + [ChunkEntry(|chunks|, c.content)];
    if chunks != [] {
      JoinSnoc(ChunkEntries(chunks), ChunkEntry(|chunks|, c.content), "\n\n");
    }
  }

  /** The entries of the context read back, in order, as each chunk's number and content. */
  lemma ChatContextEntries(chunks: seq<TextChunker.Chunk>)
    ensures forall i :: 0 <= i < |chunks| ==>
      ReadChunkEntry(ChunkEntries(chunks)[i]) == Some((i + 1, chunks[i].content))
  {
    forall i | 0 <= i < |chunks|
      ensures ReadChunkEntry(ChunkEntries(chunks)[i]) == Some((i + 1, chunks[i].content))
    {
      ChunkEntryRoundTrip(i, chunks[i].content);
    }
  }

  // ----- Prompt templates -----

  /** A prompt that ends with the first `limit` characters of `text`. */
  function WithExcerpt(lead: string, text: string, limit: nat): string {
    lead + Prefix(text, limit)
  }

  /** The excerpt is the longest prefix of the text within the limit: all of a short
      text, and nothing past the limit of a long one. */
  lemma ExcerptPrompt(lead: string, text: string, limit: nat)
    ensures WithExcerpt(lead, text, limit) == lead + text[..Min(|text|, limit)]
    ensures |WithExcerpt(lead, text, limit)| <= |lead| + limit
    ensures |text| <= limit ==> WithExcerpt(lead, text, limit) == lead + text
    ensures forall tail :: |text| >= limit ==> WithExcerpt(lead, text + tail, limit) == WithExcerpt(lead, text, limit)
  {
    forall tail | |text| >= limit ensures Prefix(text + tail, limit) == Prefix(text, limit) {
      assert (text + tail)[..limit] == text[..limit];
    }
  }

  /** Two texts give the same prompt exactly when their excerpts agree. */
  lemma ExcerptDecides(lead: string, text: string, other: string, limit: nat)
    ensures WithExcerpt(lead, text, limit) == WithExcerpt(lead, other, limit)
      <==> Prefix(text, limit) == Prefix(other, limit)
  {
    if WithExcerpt(lead, text, limit) == WithExcerpt(lead, other, limit) {
      assert Prefix(text, limit) == WithExcerpt(lead, text, limit)[|lead|..];
      assert Prefix(other, limit) == WithExcerpt(lead, other, limit)[|lead|..];
    }
  }

  /** The reply layout a prompt shows: one indented line per tag, the tag followed by
      a description of its value. */
  function ExampleLines(tags: seq<string>, descriptions: seq<string>): (lines: seq<string>)
    requires |tags| == |descriptions|
    ensures |lines| == |tags|
  {
    seq(|tags|, k requires 0 <= k < |tags| => Indent + TaggedLine(tags[k], descriptions[k]))
  }

  function Example(tags: seq<string>, descriptions: seq<string>): string
    requires |tags| == |descriptions|
  {
    Join(ExampleLines(tags, descriptions), LineBreak)
  }

  const FlashcardDescriptions: seq<string> :=
    ["[Clear, specific question]", "[Concise, accurate answer]", "[Difficulty level: easy, medium, or hard]"]

  /** Everything of the flashcard prompt before the text. */
  function FlashcardLead(count: int): string {
    "Generate exactly " + IntToDecimal(count) + " educational flashcards from the following text.\n"
    + Indent + "Format each flashcard as:\n"
    + Example(FlashcardParser.CardTags, FlashcardDescriptions) + "\n\n"
    + Indent + "Separate each flashcard with \"---\"\n\n"
    + Indent + "Text:\n" + Indent
  }

  /** The flashcard prompt, with the text it is evidently meant to embed. */
  function FlashcardPrompt(text: string, count: int): string {
    WithExcerpt(FlashcardLead(count), text, FlashcardTextLimit)
  }

  const QuizDescriptions: seq<string> :=
    ["[Question]", "[Option 1]", "[Option 2]", "[Option 3]", "[Option 4]",
     "[Correct option - exactly as written above]", "[Brief Explanation]",
     "[Difficulty: easy, medium or hard]"]

  /** The tags of the quiz prompt's layout: the option tags are spelled with the digit zero. */
  function QuizExampleTags(): (tags: seq<string>)
    ensures |tags| == 8
  {
    QuizParser.QuestionTags(QuizParser.PromptedOptionTags)
  }

  /** Everything of the quiz prompt before the text. */
  function QuizLead(numQuestions: int): string {
    "Generate exactly " + IntToDecimal(numQuestions) + " multiple choice questions from the following text.\n"
    + Indent + "Format each question as:\n"
    + Example(QuizExampleTags(), QuizDescriptions) + "\n\n"
    + Indent + "Seperate questions with \"---\"\n\n"
    + Indent + "Text:\n" + Indent
  }

  function QuizPrompt(text: string, numQuestions: int): string {
    WithExcerpt(QuizLead(numQuestions), text, QuizTextLimit)
  }

  const SummaryLead := "Provide a concise summary of the following text, highlighting the key concepts, main ideas, and important points.\n"
    + Indent + "keep the summary clear and structured.\n\n"
    + Indent + "Text: "

  function SummaryPrompt(text: string): string {
    WithExcerpt(SummaryLead, text, SummaryTextLimit)
  }

  const ChatLead := "Based on the following context from a document, Analyse the context and answer the user's questions.\n"
    + Indent + "If the answer is not in the context, say so.\n\n"
    + Indent + "Context:\n" + Indent
  const QuestionMarker := "\n\n" + Indent + "Question: "
  const AnswerMarker := "\n\n" + Indent + "Answer:"

  function ChatPrompt(question: string, chunks: seq<TextChunker.Chunk>): string {
    ChatLead + ChatContext(chunks) + QuestionMarker + question + AnswerMarker
  }

  function ExplainLead(concept: string): string {
    "Explain the concept of \"" + concept + "\" based on the following context.\n"
    + "  Provide a Clear, educational explanation that's easy to understand.\n"
    + "  Includes examples if relevant.\n\n"
    + Indent + "Context:\n" + Indent
  }

  function ExplainPrompt(concept: string, context: string): string {
    WithExcerpt(ExplainLead(concept), context, ExplainContextLimit)
  }

  /** The flashcard prompt embeds at most the first 15000 characters of the text. */
  lemma FlashcardPromptExcerpt(text: string, count: int)
    ensures FlashcardPrompt(text, count) == FlashcardLead(count) + text[..Min(|text|, 15000)]
    ensures forall tail :: |text| >= 15000 ==> FlashcardPrompt(text + tail, count) == FlashcardPrompt(text, count)
  {
    ExcerptPrompt(FlashcardLead(count), text, FlashcardTextLimit);
  }

  /** The quiz prompt embeds at most the first 15000 characters of the text. */
  lemma QuizPromptExcerpt(text: string, numQuestions: int)
    ensures QuizPrompt(text, numQuestions) == QuizLead(numQuestions) + text[..Min(|text|, 15000)]
    ensures forall tail :: |text| >= 15000 ==> QuizPrompt(text + tail, numQuestions) == QuizPrompt(text, numQuestions)
  {
    ExcerptPrompt(QuizLead(numQuestions), text, QuizTextLimit);
  }

  /** The summary prompt embeds at most the first 20000 characters of the text. */
  lemma SummaryPromptExcerpt(text: string)
    ensures SummaryPrompt(text) == SummaryLead + text[..Min(|text|, 20000)]
    ensures forall tail :: |text| >= 20000 ==> SummaryPrompt(text + tail) == SummaryPrompt(text)
  {
    ExcerptPrompt(SummaryLead, text, SummaryTextLimit);
  }

  /** The explain prompt embeds at most the first 10000 characters of the context. */
  lemma ExplainPromptExcerpt(concept: string, context: string)
    ensures ExplainPrompt(concept, context) == ExplainLead(concept) + context[..Min(|context|, 10000)]
    ensures forall tail :: |context| >= 10000 ==> ExplainPrompt(concept, context + tail) == ExplainPrompt(concept, context)
  {
    ExcerptPrompt(ExplainLead(concept), context, ExplainContextLimit);
  }

  /** The chat prompt embeds the whole context and the whole question, uncut, in that order. */
  lemma ChatPromptParts(question: string, chunks: seq<TextChunker.Chunk>)
    ensures var p, context := ChatPrompt(question, chunks), ChatContext(chunks);
      |p| == |ChatLead| + |context| + |QuestionMarker| + |question| + |AnswerMarker|
      && p[|ChatLead|..|ChatLead| + |context|] == context
      && p[|p| - |AnswerMarker| - |question|..|p| - |AnswerMarker|] == question
  {
    var p, context := ChatPrompt(question, chunks), ChatContext(chunks);
    assert p == ChatLead + context + (QuestionMarker + question + AnswerMarker);
    assert p == (ChatLead + context + QuestionMarker) + question + AnswerMarker;
  }

  /** An indented line trims to the line without its indentation. */
  lemma TrimIndented(line: string)
    ensures Trim(Indent + line) == Trim(line)
  {
    assert Indent + line == [' '] + ([' '] + ([' '] + ([' '] + line)));
    TrimSkipsLeadingSpace(' ', [' '] + ([' '] + ([' '] + line)));
    TrimSkipsLeadingSpace(' ', [' '] + ([' '] + line));
    TrimSkipsLeadingSpace(' ', [' '] + line);
    TrimSkipsLeadingSpace(' ', line);
  }

  /** An indented line whose tag does not start with the letter O and whose value is
      bracketed is, once trimmed, no option line. */
  lemma ExampleLineNoOption(tag: string, description: string)
    requires tag != [] && tag[0] != 'O' && IsTrimmed(tag)
    requires description != [] && description[0] == '[' && description[|description| - 1] == ']'
    ensures !QuizParser.IsOptionLine(Trim(Indent + TaggedLine(tag, description)))
  {
    TrimIndented(TaggedLine(tag, description));
    QuizParser.NotAnOptionLine(tag, description);
  }

  /** No line of the quiz prompt's layout is, once trimmed, a line the quiz decoder
      takes for an option. */
  lemma QuizExampleHasNoOptionLine()
    ensures forall k :: 0 <= k < 8 ==>
      !QuizParser.IsOptionLine(Trim(ExampleLines(QuizExampleTags(), QuizDescriptions)[k]))
  {
    var tags := QuizExampleTags();
    assert tags == ["Q:", "01:", "02:", "03:", "04:", "C:", "E:", "D:"];
    var lines := ExampleLines(tags, QuizDescriptions);
    forall k | 0 <= k < 8 ensures !QuizParser.IsOptionLine(Trim(lines[k])) {
      ExampleLineNoOption(tags[k], QuizDescriptions[k]);
    }
  }

  // ----- The generate functions -----

  /** How a generate function fails: a `ReferenceError` thrown before its `try`, or
      the fixed message its `catch` rethrows. */
  datatype GenerationError = ReferenceError(message: string) | GenerationFailed(message: string)

  /** What `await ai.models.generateContent(...)` gives: it throws, or it resolves to a
      response whose `text` may be absent (`undefined`). */
  datatype ModelReply = Threw | Replied(text: Option<string>)

  /** `ai.models.generateContent`: the outcome of asking a model with a prompt. */
  type ModelCall = (string, string) -> ModelReply

  /** A reply that carries text, as `generatedText.split` needs. */
  predicate HasText(reply: ModelReply) {
    reply.Replied? && reply.text.Some?
  }

  /** `generateFlashcards` as written: building the prompt reads `Text`, which no
      scope defines, so the call rejects before the model is asked. */
  function GenerateFlashcardsAsWritten(text: string, count: int, ask: ModelCall): (r: Result<seq<FlashcardParser.Flashcard>, GenerationError>)
    ensures r.Failure? && r.error.ReferenceError?
  {
    Failure(ReferenceError("Text is not defined"))
  }

  /** `generateFlashcards` reading `text`: the prompt goes to the model, a reply is
      decoded into at most `count` well-formed cards. A call that throws, or a reply
      without text (on which `split` throws inside the `try`), becomes the fixed
      message. */
  function GenerateFlashcards(text: string, count: int, ask: ModelCall): (r: Result<seq<FlashcardParser.Flashcard>, GenerationError>)
    ensures r.Failure? <==> !HasText(ask(ModelName, FlashcardPrompt(text, count)))
    ensures r.Failure? ==> r.error == GenerationFailed("failed to generate flashcards")
    ensures r.Success? && count >= 0 ==> |r.value| <= count
    ensures r.Success? ==> forall k :: 0 <= k < |r.value| ==> FlashcardParser.IsWellFormed(r.value[k])
  {
    var reply := ask(ModelName, FlashcardPrompt(text, count));
    if !HasText(reply) then Failure(GenerationFailed("failed to generate flashcards"))
    else Success(FlashcardParser.FlashcardsOf(reply.text.value, count))
  }

  /** A model that answers in the layout the prompt asks for gets its cards back. */
  lemma FlashcardGenerationRoundTrip(text: string, count: int, ask: ModelCall, cards: seq<FlashcardParser.Flashcard>)
    requires forall k :: 0 <= k < |cards| ==> FlashcardParser.IsWritable(cards[k])
    requires ask(ModelName, FlashcardPrompt(text, count)) == Replied(Some(FlashcardParser.FormatCards(cards)))
    ensures GenerateFlashcards(text, count, ask) == Success(SliceTo(cards, count))
  {
    FlashcardParser.FlashcardsRoundTrip(cards, count);
  }

  /** Where the corrected function returns cards, the function as written still
      fails with a `ReferenceError`. */
  lemma FlashcardGenerationAsWrittenFails(text: string, count: int, ask: ModelCall, cards: seq<FlashcardParser.Flashcard>)
    requires cards != [] && count > 0
    requires forall k :: 0 <= k < |cards| ==> FlashcardParser.IsWritable(cards[k])
    requires ask(ModelName, FlashcardPrompt(text, count)) == Replied(Some(FlashcardParser.FormatCards(cards)))
    ensures GenerateFlashcards(text, count, ask).Success? && GenerateFlashcards(text, count, ask).value != []
    ensures GenerateFlashcardsAsWritten(text, count, ask) == Failure(ReferenceError("Text is not defined"))
  {
    FlashcardGenerationRoundTrip(text, count, ask, cards);
  }

  /** `generateQuiz`: the prompt goes to the model, a reply is decoded into at most
      `numQuestions` well-formed questions, a failed call becomes the fixed message. */
  function GenerateQuiz(text: string, numQuestions: int, ask: ModelCall): (r: Result<seq<QuizParser.QuizQuestion>, GenerationError>)
    ensures r.Failure? <==> !HasText(ask(ModelName, QuizPrompt(text, numQuestions)))
    ensures r.Failure? ==> r.error == GenerationFailed("Failed to generate quiz")
    ensures r.Success? && numQuestions >= 0 ==> |r.value| <= numQuestions
    ensures r.Success? ==> forall k :: 0 <= k < |r.value| ==> QuizParser.IsWellFormed(r.value[k])
  {
    var reply := ask(ModelName, QuizPrompt(text, numQuestions));
    if !HasText(reply) then Failure(GenerationFailed("Failed to generate quiz"))
    else Success(QuizParser.QuestionsOf(reply.text.value, numQuestions))
  }

  /** A model that tags its options `O1:`..`O4:`, as the decoder reads them, gets its
      questions back. */
  lemma QuizGenerationRoundTrip(text: string, numQuestions: int, ask: ModelCall, qs: seq<QuizParser.QuizQuestion>)
    requires QuizParser.AllWritable(qs)
    requires ask(ModelName, QuizPrompt(text, numQuestions)) == Replied(Some(QuizParser.FormatQuestions(qs, QuizParser.OptionTags)))
    ensures GenerateQuiz(text, numQuestions, ask) == Success(SliceTo(qs, numQuestions))
  {
    QuizParser.QuestionsRoundTrip(qs, numQuestions);
  }

  /** A model that tags its options `01:`..`04:`, as the prompt shows, gets no
      question back at all. */
  lemma QuizGenerationAsPrompted(text: string, numQuestions: int, ask: ModelCall, qs: seq<QuizParser.QuizQuestion>)
    requires QuizParser.AllWritable(qs)
    requires ask(ModelName, QuizPrompt(text, numQuestions)) == Replied(Some(QuizParser.FormatQuestions(qs, QuizParser.PromptedOptionTags)))
    ensures GenerateQuiz(text, numQuestions, ask) == Success([])
  {
    QuizParser.PromptedRepliesYieldNothing(qs, numQuestions);
  }

  /** `generateSummary`: the model's reply to the summary prompt, unchanged, with an
      absent `text` returned as `undefined` (`None`), or the fixed message when the
      call throws. */
  function GenerateSummary(text: string, ask: ModelCall): (r: Result<Option<string>, GenerationError>)
    ensures r.Success? <==> ask(ModelName, SummaryPrompt(text)).Replied?
    ensures r.Success? ==> ask(ModelName, SummaryPrompt(text)) == Replied(r.value)
    ensures r.Failure? ==> r.error == GenerationFailed("Failed to generate Summary")
  {
    var reply := ask(ModelName, SummaryPrompt(text));
    if reply.Threw? then Failure(GenerationFailed("Failed to generate Summary"))
    else Success(reply.text)
  }

  /** `chatWithContext`: the model's reply to the chat prompt, unchanged, with an
      absent `text` returned as `undefined` (`None`), or the fixed message when the
      call throws. */
  function ChatWithContext(question: string, chunks: seq<TextChunker.Chunk>, ask: ModelCall): (r: Result<Option<string>, GenerationError>)
    ensures r.Success? <==> ask(ModelName, ChatPrompt(question, chunks)).Replied?
    ensures r.Success? ==> ask(ModelName, ChatPrompt(question, chunks)) == Replied(r.value)
    ensures r.Failure? ==> r.error == GenerationFailed("Failed to process chat request")
  {
    var reply := ask(ModelName, ChatPrompt(question, chunks));
    if reply.Threw? then Failure(GenerationFailed("Failed to process chat request"))
    else Success(reply.text)
  }

  /** `explainConcept`: the model's reply to the explain prompt, unchanged, with an
      absent `text` returned as `undefined` (`None`), or the fixed message when the
      call throws. */
  function ExplainConcept(concept: string, context: string, ask: ModelCall): (r: Result<Option<string>, GenerationError>)
    ensures r.Success? <==> ask(ModelName, ExplainPrompt(concept, context)).Replied?
    ensures r.Success? ==> ask(ModelName, ExplainPrompt(concept, context)) == Replied(r.value)
    ensures r.Failure? ==> r.error == GenerationFailed("Failed to explain concept")
  {
    var reply := ask(ModelName, ExplainPrompt(concept, context));
    if reply.Threw? then Failure(GenerationFailed("Failed to explain concept"))
    else Success(reply.text)
  }
}
