# Study-Ai core, modelled in Dafny

Study-Ai is a study assistant. It turns an uploaded document into flashcards, quizzes, summaries, chat answers and explanations, using a Gemini model. This project models the parts of it that are deterministic logic rather than network calls or rendering:

- **The reply decoders** of `generateFlashcards` and `generateQuiz`, in `backend/utils/geminiService.js` (modules `ResponseFormat`, `FlashcardParser`, `QuizParser`).
  - The model's free-text reply is split on `---`, and blank blocks are dropped.
  - Each block is read line by line for tagged fields: `Q:`, `A:`, `D:`, `O<digit>:`, `C:`, `E:`.
  - A record is kept only when its required fields are present.
  - The result is cut to the requested count.
  - Both decoders are imperative methods with loops (`ParseFlashcards`, `ParseQuiz` and their block and line loops). Each is proved equal to a specification function, and the properties are proved about those functions.
- **The prompt side of the same file** (module `Prompts`).
  - The five prompt templates, each embedding a bounded prefix of its input.
  - The numbered chunk context of `chatWithContext`.
  - Each `generate*` function from prompt to decoded result. The model call is a parameter: a function from model name and prompt to `Threw` or to a response `Replied(text)` whose text may be absent.
- **`chunkText`** in `backend/utils/textChunker.js` (module `TextChunker`).
  - The guard, as written.
  - The word windowing that its doc comment promises, as a reference definition.
- **`getPdfURl`** in `frontend/learn-with-ai/src/pages/Documents/DocumentDetailPage.jsx` (module `PdfUrl`). It resolves a stored file path against the API base URL. The configured base URL is a parameter.
- **The card cursor of `FlashcardManager`** in `frontend/learn-with-ai/src/Components/flashcards/FlashcardManager.jsx` (module `FlashcardCarousel`). This is a class holding the selected set and the current card index, with the select, next and previous handlers as methods.

Two support modules hold shared definitions:

- `Results` holds `Option` and `Result`.
- `JsText` holds the JavaScript string built-ins the core uses: `trim`, `split`, `join`, `startsWith`, `substring`, `slice`, ASCII `toLowerCase`, and integer-to-decimal rendering.

## Model

| member | source | states |
|---|---|---|
| JsText.Trim | backend/utils/geminiService.js:47 | `trim` removes white space from both ends: the result has none at either end and is no longer than the input |
| JsText.TrimEmptyIffBlank | backend/utils/textChunker.js:10 | `s.trim().length === 0` holds exactly when every character of `s` is white space |
| JsText.JoinOfSplit | backend/utils/geminiService.js:44 | joining the pieces of `split(sep)` with `sep` gives back the original string, so splitting loses nothing |
| JsText.SplitPiecesFreeOf | backend/utils/geminiService.js:44 | no piece of `split(sep)` contains the separator |
| JsText.SplitOfJoin | backend/utils/geminiService.js:44 | splitting a join of pieces that do not contain the separator, and do not end inside it, gives back exactly those pieces |
| JsText.Prefix | backend/utils/geminiService.js:98 | `substring(0, limit)` is the first `min(length, limit)` characters |
| JsText.SliceTo | backend/utils/geminiService.js:70 | `slice(0, end)` is a prefix, of length `min(end, n)` for a non-negative end, and counts back from the end for a negative one |
| JsText.ToLowerAscii | backend/utils/geminiService.js:58 | `toLowerCase` keeps the length and lower-cases each ASCII letter |
| JsText.NatToDecimal | backend/utils/geminiService.js:189 | `${i + 1}` renders a non-empty decimal numeral without a leading zero |
| JsText.DecimalRoundTrip | backend/utils/geminiService.js:189 | reading a rendered numeral back gives the number |
| ResponseFormat.ParseDifficulty | backend/utils/geminiService.js:58-61 | a `D:` value is accepted exactly when its lower-cased form is one of easy, medium or hard, and the level is that word |
| ResponseFormat.ParseDifficultyName | backend/utils/geminiService.js:59 | each level's own word is read back as that level |
| ResponseFormat.DifficultyNameIsWord | backend/utils/geminiService.js:59 | each level's word is a non-empty run of lower-case letters; a step toward the round-trip lemmas, which need a `D:` line to hold no line break or `---` |
| ResponseFormat.TagValue | backend/utils/geminiService.js:54 | the value after a two-character tag is trimmed |
| ResponseFormat.NonBlank | backend/utils/geminiService.js:44 | the blank filter never makes the sequence longer |
| ResponseFormat.NonBlankKeeps | backend/utils/geminiService.js:44 | membership: every kept part is non-blank and from the input, and every non-blank part is kept |
| ResponseFormat.NonBlankSingle | backend/utils/geminiService.js:44 | one part is kept exactly when it is not blank |
| ResponseFormat.NonBlankAppend | backend/utils/geminiService.js:44 | the filter of a concatenation is the concatenation of the filters; with NonBlankSingle, the result is the non-blank parts in their order, each once |
| ResponseFormat.NonBlankOfNonBlank | backend/utils/geminiService.js:44 | a filter that finds nothing blank keeps every part in order |
| ResponseFormat.Blocks | backend/utils/geminiService.js:109 | a reply has no more candidate blocks than pieces between `---` delimiters |
| ResponseFormat.BlocksAreDelimiterFree | backend/utils/geminiService.js:109 | no candidate block is blank or contains `---`, and the pieces join back into the reply |
| ResponseFormat.UndelimitedResponse | backend/utils/geminiService.js:44 | a reply without `---` is one block, or none when it is blank |
| ResponseFormat.BlockLines | backend/utils/geminiService.js:112 | every block has at least one line; a step toward the decoders' line loops |
| ResponseFormat.SpacedBlocks | backend/utils/geminiService.js:44-47 | a reply whose blocks stand on lines of their own with `---` lines between them (`"\n---\n"`) gives one candidate block per block, with that block's lines |
| ResponseFormat.Accepted | backend/utils/geminiService.js:111-146 | each block yields at most one record |
| ResponseFormat.AcceptedSnoc | backend/utils/geminiService.js:111-146 | one more block appends its own record, if any, after the records of the earlier blocks |
| ResponseFormat.AcceptedAppend | backend/utils/geminiService.js:46-68 | records follow block order: those of `first + second` are those of `first` followed by those of `second` |
| ResponseFormat.AcceptedKeeps | backend/utils/geminiService.js:65-67 | every returned record has any property the block decoder guarantees of each record |
| ResponseFormat.AcceptedAll | backend/utils/geminiService.js:46-68 | when every block decodes, the records are the decoded blocks one for one |
| ResponseFormat.AcceptedNone | backend/utils/geminiService.js:137-145 | when no block decodes, nothing is returned |
| ResponseFormat.TaggedBlockLines | backend/utils/geminiService.js:47 | a block of tagged lines splits back into exactly those lines and contains no `---` |
| ResponseFormat.TaggedBlockTrimmed | backend/utils/geminiService.js:47 | such a block is already trimmed, so `block.trim()` leaves it unchanged |
| ResponseFormat.TaggedLineFree | backend/utils/geminiService.js:44 | a tagged line contains no separator that its tag and value lack |
| ResponseFormat.TaggedLineEnd | backend/utils/geminiService.js:47 | a tagged line with a trimmed value does not end in a line break |
| FlashcardParser.ReadCardLine | backend/utils/geminiService.js:52-63 | one pass of the line loop keeps the question and the answer trimmed |
| FlashcardParser.ReadCardLines | backend/utils/geminiService.js:52-63 | the whole line loop keeps the question and the answer trimmed |
| FlashcardParser.CardOfLines | backend/utils/geminiService.js:65-67 | a block's lines yield a card only with a non-empty question and answer |
| FlashcardParser.CardOfBlock | backend/utils/geminiService.js:46-67 | every card a block yields is well formed |
| FlashcardParser.AcceptedCards | backend/utils/geminiService.js:46-68 | at most one card per block, every card well formed |
| FlashcardParser.FlashcardsOf | backend/utils/geminiService.js:43-70 | the result is the first `min(count, accepted)` accepted cards in block order, and each is well formed |
| FlashcardParser.ParseFlashcards | backend/utils/geminiService.js:43-70 | the imperative decoder returns exactly `FlashcardsOf(raw, count)`, and never more than `count` cards |
| FlashcardParser.DecodeCards | backend/utils/geminiService.js:46-68 | the loop over blocks pushes exactly the accepted cards, in block order |
| FlashcardParser.DecodeCard | backend/utils/geminiService.js:47-67 | the loop over one block's lines yields exactly that block's card |
| FlashcardParser.ReadCardLineKeepsField | backend/utils/geminiService.js:53-56 | a line that does not start with `Q:` (or `A:`) leaves the question (or the answer) alone |
| FlashcardParser.LastTextTagWins | backend/utils/geminiService.js:52-56 | the question (or answer) is the value of the last `Q:` (or `A:`) line, matched on the untrimmed line |
| FlashcardParser.AbsentTextTagKeeps | backend/utils/geminiService.js:48-49 | without such a line the field keeps its starting value |
| FlashcardParser.LastDifficultyWins | backend/utils/geminiService.js:57-61 | the difficulty is that of the last `D:` line naming a valid level |
| FlashcardParser.AbsentDifficultyKeeps | backend/utils/geminiService.js:50 | without a valid `D:` line the difficulty keeps its starting value, `medium` |
| FlashcardParser.IgnoredCardLineKeeps | backend/utils/geminiService.js:52-63 | a line with no known tag, or with an invalid `D:` value, changes nothing |
| FlashcardParser.IgnoredCardLine | backend/utils/geminiService.js:52-63 | such a line can be removed from anywhere in a block without changing the result |
| FlashcardParser.MissingAnswerDropped | backend/utils/geminiService.js:65 | a block without an `A:` line is dropped |
| FlashcardParser.CardLines | backend/utils/geminiService.js:25-27 | the prompt asks for three lines per card; a step toward CardLinesRoundTrip |
| FlashcardParser.CardLinesRoundTrip | backend/utils/geminiService.js:52-67 | a well-formed card's three lines decode back to that card |
| FlashcardParser.FormatCardShape | backend/utils/geminiService.js:44-47 | the block of a writable card splits into its three lines, is not blank and contains no `---` |
| FlashcardParser.CardRoundTrip | backend/utils/geminiService.js:46-67 | a writable card's block decodes back to that card |
| FlashcardParser.FlashcardsRoundTrip | backend/utils/geminiService.js:43-70 | decoding a reply in the prompt's layout gives back its cards, cut by `slice(0, count)` |
| FlashcardParser.FlashcardsSpacedRoundTrip | backend/utils/geminiService.js:43-70 | the same for a reply with each card on lines of its own and a `---` line between cards |
| QuizParser.QuizOfLines | backend/utils/geminiService.js:137-145 | a block's lines yield a question only with a question text, exactly four options and a correct answer |
| QuizParser.QuizOfBlock | backend/utils/geminiService.js:111-145 | every question a block yields is well formed |
| QuizParser.AcceptedQuestions | backend/utils/geminiService.js:111-146 | at most one question per block, each well formed |
| QuizParser.QuestionsOf | backend/utils/geminiService.js:108-148 | the result is the first `min(numQuestion, accepted)` accepted questions in block order, each well formed |
| QuizParser.ParseQuiz | backend/utils/geminiService.js:108-148 | the imperative decoder returns exactly `QuestionsOf(raw, numQuestions)`, and never more than `numQuestions` |
| QuizParser.DecodeQuestions | backend/utils/geminiService.js:111-146 | the loop over blocks pushes exactly the accepted questions, in block order |
| QuizParser.DecodeQuestion | backend/utils/geminiService.js:112-145 | the loop over one block's lines yields exactly that block's question |
| QuizParser.ReadQuizLine | backend/utils/geminiService.js:120-134 | no contract of its own: one pass of the else-if chain on the trimmed line; ReadQuizLineSetsField, ReadQuizLineKeepsField, ReadQuizLineOptions and ReadQuizLineDifficulty pin each branch |
| QuizParser.ReadQuizLines | backend/utils/geminiService.js:119-135 | no contract of its own: the line loop, reading the lines in order; LastQuizTagWins, AbsentQuizTagKeeps, OptionsInLineOrder, LastQuizDifficultyWins and IgnoredQuizLine pin it, and DecodeQuestion's loop is proved equal to it |
| QuizParser.ReadQuizLineOptions | backend/utils/geminiService.js:123-124 | a line adds its option value to the options when its trimmed form matches `O<digit>:`, and otherwise adds nothing |
| QuizParser.OptionsInLineOrder | backend/utils/geminiService.js:119-124 | a block's options are the values of all its option lines, in line order |
| QuizParser.OptionCountDecides | backend/utils/geminiService.js:137 | a block with other than four option lines is dropped, so a fifth option line rejects it, and a kept question's options are its option lines |
| QuizParser.NoOptionLines | backend/utils/geminiService.js:123 | lines none of which matches `O<digit>:` once trimmed carry no option |
| QuizParser.ReadQuizLineKeepsField | backend/utils/geminiService.js:120-128 | a line whose trimmed form lacks `Q:`, `C:` or `E:` leaves that field alone |
| QuizParser.ReadQuizLineSetsField | backend/utils/geminiService.js:120-128 | a line whose trimmed form starts with the tag sets the field to its value |
| QuizParser.LastQuizTagWins | backend/utils/geminiService.js:119-128 | a later `Q:`, `C:` or `E:` line overwrites an earlier one, with tags matched on the trimmed line |
| QuizParser.AbsentQuizTagKeeps | backend/utils/geminiService.js:113-116 | without such a line the field keeps its starting value |
| QuizParser.ReadQuizLineDifficulty | backend/utils/geminiService.js:129-133 | a valid `D:` line sets the difficulty, and any other line keeps it |
| QuizParser.LastQuizDifficultyWins | backend/utils/geminiService.js:129-133 | the difficulty is that of the last valid `D:` line |
| QuizParser.AbsentQuizDifficultyKeeps | backend/utils/geminiService.js:117 | without a valid `D:` line the difficulty stays `medium` |
| QuizParser.IgnoredQuizLineKeeps | backend/utils/geminiService.js:119-135 | a line with no known tag changes nothing |
| QuizParser.IgnoredQuizLine | backend/utils/geminiService.js:119-135 | such a line can be removed from anywhere in a block without changing the result |
| QuizParser.QuestionLinesRoundTrip | backend/utils/geminiService.js:119-145 | a writable question's eight lines, with options tagged `O1:`..`O4:`, decode back to that question |
| QuizParser.FormatQuestionShape | backend/utils/geminiService.js:109-112 | the block of a writable question splits into its eight lines, is not blank and contains no `---` |
| QuizParser.QuestionRoundTrip | backend/utils/geminiService.js:111-145 | that block decodes back to the question |
| QuizParser.QuestionsRoundTrip | backend/utils/geminiService.js:108-148 | decoding a reply whose options are tagged `O1:`..`O4:` gives back its questions, cut by `slice(0, numQuestion)` |
| QuizParser.QuestionsSpacedRoundTrip | backend/utils/geminiService.js:108-148 | the same for a reply with each question on lines of its own and a `---` line between questions |
| QuizParser.CorrectAnswerNotChecked | backend/utils/geminiService.js:137 | a question whose correct answer is none of its options is still kept |
| QuizParser.NotAnOptionLine | backend/utils/geminiService.js:123 | a tagged line whose tag does not start with the letter O is no option line |
| QuizParser.PromptedLinesHaveNoOption | backend/utils/geminiService.js:87-90 | no line of a question written with `01:`..`04:`, as the prompt shows, matches `O<digit>:` |
| QuizParser.PromptedQuestionDropped | backend/utils/geminiService.js:137 | such a block is always dropped |
| QuizParser.PromptedRepliesYieldNothing | backend/utils/geminiService.js:108-148 | a reply laid out as the prompt shows yields no question at all |
| Prompts.ChunkEntry | backend/utils/geminiService.js:189 | no contract of its own: `[Chunk ${i + 1}]\n ${c.content}` for the chunk at position `i`; ChunkEntryRoundTrip and ChunkEntriesDistinct pin it |
| Prompts.ChatContext | backend/utils/geminiService.js:188-190 | no contract of its own: the entries joined with `"\n\n"`; ChatContextEntries, ChatContextEmpty and ChatContextSnoc pin it |
| Prompts.ChunkEntries | backend/utils/geminiService.js:189 | one context entry per chunk |
| Prompts.ChunkEntryRoundTrip | backend/utils/geminiService.js:189 | an entry reads back as its 1-based chunk number and the chunk's content |
| Prompts.ChunkEntriesDistinct | backend/utils/geminiService.js:189 | two entries are equal exactly when their positions and contents are |
| Prompts.ChatContextEntries | backend/utils/geminiService.js:188-190 | the entry at position `i` carries label `i + 1` and chunk `i`'s content, in input order |
| Prompts.ChatContextEmpty | backend/utils/geminiService.js:188-190 | the context is `""` exactly when there are no chunks |
| Prompts.ChatContextSnoc | backend/utils/geminiService.js:190 | one more chunk adds a blank line and its entry at the end |
| Prompts.LeadingDigits | backend/utils/geminiService.js:189 | the count of leading digits is maximal |
| Prompts.ExcerptPrompt | backend/utils/geminiService.js:98 | a prompt embeds the first `min(length, limit)` characters: the whole text when short, and nothing past the limit |
| Prompts.ExcerptDecides | backend/utils/geminiService.js:98 | two inputs give the same prompt exactly when their first `limit` characters agree |
| Prompts.FlashcardPrompt | backend/utils/geminiService.js:23-32 | no contract of its own: the flashcard template with `count` and, corrected to read `text`, its first 15000 characters; FlashcardPromptExcerpt and ExcerptDecides pin it |
| Prompts.QuizPrompt | backend/utils/geminiService.js:84-98 | no contract of its own: the quiz template, its `01:`..`04:` layout included, with the first 15000 characters; QuizPromptExcerpt and QuizExampleHasNoOptionLine pin it |
| Prompts.SummaryPrompt | backend/utils/geminiService.js:162-165 | no contract of its own: the summary template with the first 20000 characters; SummaryPromptExcerpt pins it |
| Prompts.ChatPrompt | backend/utils/geminiService.js:192-200 | no contract of its own: the chat template around the context and the question; ChatPromptParts pins it |
| Prompts.ExplainPrompt | backend/utils/geminiService.js:224-229 | no contract of its own: the explain template with the concept and the first 10000 characters of the context; ExplainPromptExcerpt pins it |
| Prompts.FlashcardPromptExcerpt | backend/utils/geminiService.js:23-32 | the flashcard prompt embeds the first 15000 characters at most |
| Prompts.QuizPromptExcerpt | backend/utils/geminiService.js:84-98 | the quiz prompt embeds the first 15000 characters at most |
| Prompts.SummaryPromptExcerpt | backend/utils/geminiService.js:162-165 | the summary prompt embeds the first 20000 characters at most |
| Prompts.ExplainPromptExcerpt | backend/utils/geminiService.js:224-229 | the explain prompt embeds the first 10000 characters of the context at most |
| Prompts.ChatPromptParts | backend/utils/geminiService.js:192-200 | the chat prompt embeds the whole context and the whole question, uncut, in that order |
| Prompts.TrimIndented | backend/utils/geminiService.js:85-93 | the template's indentation is removed by `trim` |
| Prompts.ExampleLineNoOption | backend/utils/geminiService.js:87-90 | an indented example line whose tag does not start with O is no option line |
| Prompts.QuizExampleTags | backend/utils/geminiService.js:86-93 | the quiz layout has eight tagged lines; a step toward QuizExampleHasNoOptionLine |
| Prompts.QuizExampleHasNoOptionLine | backend/utils/geminiService.js:86-93 | no line of the quiz prompt's own layout is one the quiz decoder takes for an option |
| Prompts.GenerateFlashcardsAsWritten | backend/utils/geminiService.js:22-32 | as written, building the prompt reads the undefined `Text`, so every call fails with a ReferenceError |
| Prompts.GenerateFlashcards | backend/utils/geminiService.js:22-75 | it fails exactly when the model call throws or its response has no text (where `generatedText.split` throws inside the `try`), with message "failed to generate flashcards"; otherwise it returns at most `count` well-formed cards |
| Prompts.FlashcardGenerationRoundTrip | backend/utils/geminiService.js:34-70 | a model answering in the prompt's layout gets its cards back, cut to `count` |
| Prompts.FlashcardGenerationAsWrittenFails | backend/utils/geminiService.js:32 | where the corrected function returns cards, the function as written fails |
| Prompts.GenerateQuiz | backend/utils/geminiService.js:83-153 | it fails exactly when the model call throws or its response has no text (where `generatedText.split` throws inside the `try`), with message "Failed to generate quiz"; otherwise it returns at most `numQuestion` well-formed questions |
| Prompts.QuizGenerationRoundTrip | backend/utils/geminiService.js:100-148 | a model tagging options `O1:`..`O4:` gets its questions back, cut to `numQuestion` |
| Prompts.QuizGenerationAsPrompted | backend/utils/geminiService.js:87-90 | a model tagging options `01:`..`04:`, as the prompt shows, gets no question back |
| Prompts.GenerateSummary | backend/utils/geminiService.js:161-179 | it returns the response text to the summary prompt unchanged, absent text as `undefined` (`None`), and fails exactly when the call throws, with message "Failed to generate Summary" |
| Prompts.ChatWithContext | backend/utils/geminiService.js:187-214 | it returns the response text to the chat prompt unchanged, absent text as `undefined` (`None`), and fails exactly when the call throws, with message "Failed to process chat request" |
| Prompts.ExplainConcept | backend/utils/geminiService.js:223-243 | it returns the response text to the explain prompt unchanged, absent text as `undefined` (`None`), and fails exactly when the call throws, with message "Failed to explain concept" |
| TextChunker.ChunkText | backend/utils/textChunker.js:9-15 | as written, the only array ever returned is the empty one |
| TextChunker.ChunkTextGuard | backend/utils/textChunker.js:10-12 | absent, empty or blank text gives `[]`, and every other text gives `undefined` |
| TextChunker.ChunkTextAgainstContract | backend/utils/textChunker.js:1-15 | the guard agrees with the documented result where it returns, and returns `undefined` exactly where the documentation promises chunks |
| TextChunker.Words | backend/utils/textChunker.js:4 | no contract of its own: the words of a text, in order; WordsSplitText, SpacedByUnique, WordsAreWords and WordsEmptyIffBlank pin it as the maximal runs of non-space characters |
| TextChunker.Gaps | backend/utils/textChunker.js:4 | there is at least one gap: the white-space runs before, between and after the words; WordsSplitText and SpacedByUnique pin it |
| TextChunker.WordsSplitText | backend/utils/textChunker.js:4 | a text is its words with white-space gaps around and between them: gaps and words in turn give the text back, and two words are always parted by at least one white-space character |
| TextChunker.SpacedByUnique | backend/utils/textChunker.js:4 | that split is the only one: any words and white-space gaps making up the text are `Words` and `Gaps`, so the words are exactly the maximal runs of non-space characters |
| TextChunker.WordsAreWords | backend/utils/textChunker.js:4 | every word is non-empty and contains no white space |
| TextChunker.WordsEmptyIffBlank | backend/utils/textChunker.js:10 | a text has no words exactly when it is blank |
| TextChunker.WordsOfJoin | backend/utils/textChunker.js:4 | a window's words joined with single spaces split back into that window |
| TextChunker.Windows | backend/utils/textChunker.js:4-5 | there is at least one window |
| TextChunker.WindowSizes | backend/utils/textChunker.js:4 | every window holds 1 to `chunkSize` words taken from the text, and every window but the last exactly `chunkSize` |
| TextChunker.FirstWindow | backend/utils/textChunker.js:4 | the first window is the first `chunkSize` words |
| TextChunker.WindowsOverlap | backend/utils/textChunker.js:5 | consecutive windows share exactly `overlap` words: the last ones of the earlier window are the first ones of the later |
| TextChunker.UnoverlappedWindows | backend/utils/textChunker.js:4-5 | dropping the shared words from every window but the first leaves the remaining words, in order |
| TextChunker.StitchWindows | backend/utils/textChunker.js:4-5 | stitching the windows back together gives the words again |
| TextChunker.WordWindowsOf | backend/utils/textChunker.js:10 | a text that passes the guard has words, and its windows are those of its words |
| TextChunker.DocumentedChunkText | backend/utils/textChunker.js:6 | each chunk's `chunkIndex` is its 0-based position, and all carry the given `pageNumber` |
| TextChunker.ChunkWords | backend/utils/textChunker.js:4-6 | each documented chunk's content is its window of words |
| TextChunker.DocumentedChunkSizes | backend/utils/textChunker.js:1-12 | blank or absent text gives no chunk and any other text at least one, each with 1 to `chunkSize` words, and every chunk but the last exactly `chunkSize` |
| TextChunker.DocumentedChunkOverlap | backend/utils/textChunker.js:5 | consecutive documented chunks share exactly `overlap` words |
| TextChunker.DocumentedChunksCoverText | backend/utils/textChunker.js:2-5 | the chunks' words, with the shared words dropped, are the text's words: none is lost or repeated |
| TextChunker.FiveWordWindows | backend/utils/textChunker.js:4-5 | five words with windows of two and an overlap of one give four windows |
| PdfUrl.WithoutLeadingSlash | frontend/learn-with-ai/src/pages/Documents/DocumentDetailPage.jsx:45 | dropping a leading `/` never lengthens a path; a step toward RelativePathUnderBase |
| PdfUrl.BaseUrl | frontend/learn-with-ai/src/pages/Documents/DocumentDetailPage.jsx:44 | no contract of its own: `process.env.REACT_APP_API_URL || "http://localhost:8000"`; BaseUrlFallback pins it |
| PdfUrl.PdfUrl | frontend/learn-with-ai/src/pages/Documents/DocumentDetailPage.jsx:35-46 | no contract of its own: `getPdfURl`; NoPathNoUrl, AbsolutePathUnchanged, RelativePathUnderBase, LeadingSlashIrrelevant and ResolveIdempotent pin every branch |
| PdfUrl.NoPathNoUrl | frontend/learn-with-ai/src/pages/Documents/DocumentDetailPage.jsx:36 | there is no address exactly when the file path is missing or empty |
| PdfUrl.BaseUrlFallback | frontend/learn-with-ai/src/pages/Documents/DocumentDetailPage.jsx:44 | the base is `http://localhost:8000` exactly when none, an empty one, or that same one is configured, and it is never empty |
| PdfUrl.AbsolutePathUnchanged | frontend/learn-with-ai/src/pages/Documents/DocumentDetailPage.jsx:40-42 | an `http://` or `https://` path is returned unchanged, whatever the base |
| PdfUrl.RelativePathUnderBase | frontend/learn-with-ai/src/pages/Documents/DocumentDetailPage.jsx:44-45 | a relative path gives base + `/` + the path without its leading `/`: exactly `base + path` with a leading `/` and `base + "/" + path` without one; the base is a prefix and the path a suffix |
| PdfUrl.LeadingSlashIrrelevant | frontend/learn-with-ai/src/pages/Documents/DocumentDetailPage.jsx:45 | a relative path gives the same address with or without a leading `/` |
| PdfUrl.ResolveIdempotent | frontend/learn-with-ai/src/pages/Documents/DocumentDetailPage.jsx:35-46 | with an http(s) base, resolving a resolved address changes nothing |
| PdfUrl.DefaultBaseIsAbsolute | frontend/learn-with-ai/src/pages/Documents/DocumentDetailPage.jsx:44 | the default base is itself an http address |
| FlashcardCarousel.JsRemainder | frontend/learn-with-ai/src/Components/flashcards/FlashcardManager.jsx:54 | JavaScript `%` takes the sign of the dividend and stays below the divisor in magnitude |
| FlashcardCarousel.NextIndex | frontend/learn-with-ai/src/Components/flashcards/FlashcardManager.jsx:53-55 | no contract of its own: `(i + 1) % n` with JavaScript's remainder; StepsWrapAround, StepsStayInRange, StepsUndoEachOther and AdvanceMoves pin it |
| FlashcardCarousel.PrevIndex | frontend/learn-with-ai/src/Components/flashcards/FlashcardManager.jsx:62-65 | no contract of its own: `(i - 1 + n) % n` with JavaScript's remainder; StepsWrapAround, StepsStayInRange and StepsUndoEachOther pin it |
| FlashcardCarousel.StepsWrapAround | frontend/learn-with-ai/src/Components/flashcards/FlashcardManager.jsx:53-64 | next moves to the following card and wraps from the last to the first; previous moves to the preceding card and wraps from the first to the last |
| FlashcardCarousel.StepsStayInRange | frontend/learn-with-ai/src/Components/flashcards/FlashcardManager.jsx:54-64 | from a card of the set, both steps land on a card of the set |
| FlashcardCarousel.StepsUndoEachOther | frontend/learn-with-ai/src/Components/flashcards/FlashcardManager.jsx:54-64 | previous undoes next, and next undoes previous |
| FlashcardCarousel.AdvanceMoves | frontend/learn-with-ai/src/Components/flashcards/FlashcardManager.jsx:54 | `k` presses of next move `k` places round the set |
| FlashcardCarousel.FullCircle | frontend/learn-with-ai/src/Components/flashcards/FlashcardManager.jsx:54 | `n` presses of next return to the starting card |
| FlashcardCarousel.Carousel.constructor | frontend/learn-with-ai/src/Components/flashcards/FlashcardManager.jsx:9-12 | the component starts with no set and index 0 |
| FlashcardCarousel.Carousel.SelectSet | frontend/learn-with-ai/src/Components/flashcards/FlashcardManager.jsx:95-98 | selecting a set stores it and resets the index to 0 |
| FlashcardCarousel.Carousel.NextCard | frontend/learn-with-ai/src/Components/flashcards/FlashcardManager.jsx:50-57 | with a set, the index becomes `(i + 1) % n`; without one it is unchanged; the set is unchanged, and an index on a card stays on a card |
| FlashcardCarousel.Carousel.PrevCard | frontend/learn-with-ai/src/Components/flashcards/FlashcardManager.jsx:59-67 | with a set, the index becomes `(i - 1 + n) % n`; without one it is unchanged; the set is unchanged, and an index on a card stays on a card |

## Left out

- The Gemini client and its network calls (`ai.models.generateContent`) become the `ModelCall` parameter, which either throws or gives a response whose `text` may be absent. What the model replies is not modelled; the round-trip lemmas assume the reply.
- The `dotenv` load, the client construction and the startup API-key check with `process.exit` are process-level effects and are not modelled. The same goes for the `console.error` logging in every `catch`.
- A thrown error is modelled as a `Failure` value that carries its message. Promises and `async` are not modelled.
- Default parameters appear as constants, but callers pass every argument explicitly:
  - `count = 10` and `numQuestion = 5` (`FlashcardParser.DefaultCount`, `QuizParser.DefaultQuestionCount`);
  - `chunkSize = 500` and `overlap = 50` (`TextChunker.DefaultChunkSize`, `TextChunker.DefaultOverlap`).
- Lower-casing covers ASCII letters only. Full Unicode case mapping and UTF-16 code units are not modelled. Only comparison with `easy`, `medium` and `hard` depends on lower-casing.
- TextChunker.DocumentedChunkText requires `overlap < chunkSize`. Otherwise the documented windows would never advance, and the source states no behaviour for that case.
- TextChunker.DocumentedChunkText takes `pageNumber` as a parameter. The source holds no logic for it.
- TextChunker.DocumentedChunkText renders each chunk as its words joined by single spaces. The doc comment does not say how a chunk's content keeps the original spacing.
- TextChunker.Windows stops once a window reaches the last word. It does not emit a further window made only of already-shared words. This keeps "consecutive chunks share exactly `overlap` words" true.
- FlashcardCarousel.Carousel.NextCard and FlashcardCarousel.Carousel.PrevCard require a selected set to have at least one card. With zero cards, the source computes `NaN`.
- The `handleReview` call inside both handlers is an asynchronous service call with a toast, so it is not modelled. The same holds for `fetchFlashcardSets` and `handleGenerateFlashcards`.
- Two handlers are not modelled:
  - `handleToggleStar` and `handleConfirmDelete` have empty bodies.
  - `handleDeleteRequest` reads the undefined `e` and `set`.
- The data fetching, tabs and JSX rendering of `DocumentDetailPage.jsx` and `FlashcardManager.jsx` are not modelled. Neither is `LoginPage.jsx`, which is form state, authentication calls and navigation.
- `getPdfURl` reads `document?.data?.filePath`. The model's `None` stands for a missing document, missing data or missing file path alike.
- The quiz prompt written in the source asks for option tags `01:`..`04:`, spelled with the digit zero. The model follows the code: `Prompts.QuizLead` spells `01:`, and `QuizParser` matches `O<digit>:`.

## Findings

| source | as written | input that shows it | evidently intended | confidence | as-written member | corrected member |
|---|---|---|---|---|---|---|
| backend/utils/textChunker.js:9-15 | after the blank-text guard the arrow function's body ends, so it returns `undefined` | any non-blank text, e.g. `"one two"` | word windows of `chunkSize` words sharing `overlap` words, each `{content, chunkIndex, pageNumber}` | high, not executed | TextChunker.ChunkTextAgainstContract | TextChunker.DocumentedChunkOverlap |
| backend/utils/geminiService.js:32 | the prompt reads `Text.substring(0, 15000)`, and `Text` is defined nowhere, so `generateFlashcards` throws a ReferenceError before its `try` | any call, e.g. `generateFlashcards("abc", 1)` | the prompt embeds `text.substring(0, 15000)` | high, not executed | Prompts.FlashcardGenerationAsWrittenFails | Prompts.FlashcardGenerationRoundTrip |
| backend/utils/geminiService.js:87-90 | the prompt shows option tags `01:`..`04:` (digit zero), but the decoder at line 123 only accepts `O<digit>:` (letter O), so a reply that follows the prompt yields no question | a reply block `Q: a` / `01: b` / `02: c` / `03: d` / `04: e` / `C: b` / `E: f` / `D: easy` | prompt and decoder agree on one option tag, e.g. `O1:`..`O4:` | medium, not executed | Prompts.QuizGenerationAsPrompted | Prompts.QuizGenerationRoundTrip |
