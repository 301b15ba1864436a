/** `chunkText` (backend/utils/textChunker.js): the guard the source implements, and
    the word windowing its doc comment promises. The windowing is a reference
    definition: the source stops after the guard and returns `undefined`. */
module TextChunker {
  import opened Results
  import opened JsText

  /** The defaults of `chunkText(text, chunkSize = 500, overlap = 50)`. */
  const DefaultChunkSize := 500
  const DefaultOverlap := 50

  /** One record of the documented result `{content, chunkIndex, pageNumber}`. */
  datatype Chunk = Chunk(content: string, chunkIndex: nat, pageNumber: nat)

  /** What `chunkText` hands back: an array of chunks, or `undefined` when control
      runs off the end of the arrow function's body. */
  datatype ChunkResult = Chunks(chunks: seq<Chunk>) | Undefined

  // ----- The function as written -----

  /** `chunkText` as written: `[]` for absent, empty or blank text, and nothing after
      the guard, so `undefined` for every other text. `text` is `None` for `null`
      or `undefined`. */
  function ChunkText(text: Option<string>, chunkSize: int, overlap: int): (r: ChunkResult)
    ensures r.Chunks? ==> r.chunks == []
  {
    if text.None? || text.value == [] || |Trim(text.value)| == 0 then Chunks([])
    else Undefined
  }

  /** The guard accepts exactly the absent and the blank texts. */
  lemma ChunkTextGuard(text: Option<string>, chunkSize: int, overlap: int)
    ensures ChunkText(text, chunkSize, overlap) == Chunks([]) <==> text.None? || IsBlank(text.value)
    ensures ChunkText(text, chunkSize, overlap) == Undefined <==> text.Some? && !IsBlank(text.value)
  {
    if text.Some? {
      TrimEmptyIffBlank(text.value);
    }
  }

  // ----- Words -----

  /** A word: a non-empty run of characters none of which is white space. */
  predicate IsWord(w: string) {
    w != [] && forall j :: 0 <= j < |w| ==> !IsJsSpace(w[j])
  }

  /** The length of the run of non-space characters that `s` starts with. */
  function WordLength(s: string): (n: nat)
    ensures n <= |s|
  {
    if s == [] || IsJsSpace(s[0]) then 0 else 1 + WordLength(s[1..])
  }

  lemma {:induction false} WordLengthSpec(s: string)
    ensures forall k :: 0 <= k < WordLength(s) ==> !IsJsSpace(s[k])
    ensures WordLength(s) == |s| || IsJsSpace(s[WordLength(s)])
  {
    if s != [] && !IsJsSpace(s[0]) {
      WordLengthSpec(s[1..]);
    }
  }

  /** The words of `s`, in order: its maximal runs of non-space characters. */
  function Words(s: string): seq<string>
    decreases |s|
  {
    if s == [] then []
    else if IsJsSpace(s[0]) then Words(s[1..])
    else [s[..WordLength(s)]] + Words(s[WordLength(s)..])
  }

  lemma {:induction false} WordsAreWords(s: string)
    ensures forall k :: 0 <= k < |Words(s)| ==> IsWord(Words(s)[k])
    decreases |s|
  {
    if s != [] {
      if IsJsSpace(s[0]) {
        WordsAreWords(s[1..]);
      } else {
        var n := WordLength(s);
        WordLengthSpec(s);
        WordsAreWords(s[n..]);
        assert IsWord(s[..n]);
      }
    }
  }

  /** A text has no words exactly when it is blank. */
  lemma {:induction false} WordsEmptyIffBlank(s: string)
    ensures Words(s) == [] <==> IsBlank(s)
    decreases |s|
  {
    if s != [] && IsJsSpace(s[0]) {
      WordsEmptyIffBlank(s[1..]);
      assert IsBlank(s) <==> IsBlank(s[1..]) by {
        if IsBlank(s[1..]) {
          forall k | 0 <= k < |s| ensures IsJsSpace(s[k]) {
            if k > 0 {
              assert s[k] == s[1..][k - 1];
            }
          }
        }
      }
    }
  }

  /** The white-space runs of `s` around its words: the run before the first word,
      the runs between consecutive words, and the run after the last. */
  function Gaps(s: string): (gaps: seq<string>)
    ensures |gaps| >= 1
    decreases |s|
  {
    if s == [] then [[]]
    else if IsJsSpace(s[0]) then
      var rest := Gaps(s[1..]);
      [[s[0]] + rest[0]] + rest[1..]
    else [[]] + Gaps(s[WordLength(s)..])
  }

  /** Gaps and words taken in turn: gap, word, gap, ..., word, gap. */
  function Interleave(gaps: seq<string>, words: seq<string>): string
    requires |gaps| == |words| + 1
    decreases |words|
  {
    if words == [] then gaps[0] else gaps[0] + words[0] + Interleave(gaps[1..], words[1..])
  }

  /** What a text is made of: white-space gaps and words in turn, the gaps between
      two words non-empty. */
  predicate SpacedBy(s: string, gaps: seq<string>, words: seq<string>) {
    |gaps| == |words| + 1
    && Interleave(gaps, words) == s
    && (forall i :: 0 <= i < |gaps| ==> IsBlank(gaps[i]))
    && (forall i :: 0 < i < |words| ==> gaps[i] != [])
  }

  /** One more white-space character before the text widens the first gap. */
  lemma SpacedByLeadingSpace(s: string, gaps: seq<string>, words: seq<string>)
    requires s != [] && IsJsSpace(s[0]) && SpacedBy(s[1..], gaps, words)
    ensures SpacedBy(s, [[s[0]] + gaps[0]] + gaps[1..], words)
  {
    var g := [[s[0]] + gaps[0]] + gaps[1..];
    assert g[1..] == gaps[1..];
    if words != [] {
      assert Interleave(g, words) == [s[0]] + (gaps[0] + words[0] + Interleave(gaps[1..], words[1..]));
    }
    assert [s[0]] + s[1..] == s;
    forall i | 0 <= i < |g| ensures IsBlank(g[i]) {
      if i == 0 {
        assert forall k :: 0 < k < |g[0]| ==> g[0][k] == gaps[0][k - 1];
      } else {
        assert g[i] == gaps[i];
      }
    }
  }

  /** A word before the text, followed by white space or nothing, adds an empty first
      gap and the word. */
  lemma SpacedByLeadingWord(s: string, n: nat, gaps: seq<string>, words: seq<string>)
    requires 0 < n <= |s| && IsWord(s[..n]) && (n == |s| || IsJsSpace(s[n]))
    requires SpacedBy(s[n..], gaps, words)
    requires words != [] ==> gaps[0] != []
    ensures SpacedBy(s, [[]] + gaps, [s[..n]] + words)
  {
    var g, w := [[]] + gaps, [s[..n]] + words;
    assert g[1..] == gaps && w[1..] == words;
    assert Interleave(g, w) == [] + s[..n] + Interleave(gaps, words);
    assert s[..n] + s[n..] == s;
    forall i | 0 <= i < |g| ensures IsBlank(g[i]) {
      if i > 0 {
        assert g[i] == gaps[i - 1];
      }
    }
    forall i | 0 < i < |w| ensures g[i] != [] {
      assert g[i] == gaps[i - 1];
    }
  }

  /** A text is its words with white space between them: gaps and words in turn
      give the text back, every gap is white space, and two words are always parted
      by at least one white-space character. With WordsAreWords this says the words
      are the text's maximal runs of non-space characters, none lost. */
  lemma {:induction false} WordsSplitText(s: string)
    ensures SpacedBy(s, Gaps(s), Words(s))
    decreases |s|
  {
    if s == [] {
    } else if IsJsSpace(s[0]) {
      WordsSplitText(s[1..]);
      SpacedByLeadingSpace(s, Gaps(s[1..]), Words(s[1..]));
    } else {
      var n := WordLength(s);
      WordLengthSpec(s);
      assert IsWord(s[..n]);
      WordsSplitText(s[n..]);
      if Words(s[n..]) != [] {
        assert s[n..] != [] && IsJsSpace(s[n..][0]);
      }
      SpacedByLeadingWord(s, n, Gaps(s[n..]), Words(s[n..]));
    }
  }

  lemma {:induction false} WordLengthOf(w: string, rest: string)
    requires forall j :: 0 <= j < |w| ==> !IsJsSpace(w[j])
    requires rest == [] || IsJsSpace(rest[0])
    ensures WordLength(w + rest) == |w|
    decreases |w|
  {
    if w != [] {
      assert (w + rest)[1..] == w[1..] + rest;
      WordLengthOf(w[1..], rest);
    } else {
      assert w + rest == rest;
    }
  }

  /** A word followed by white space or by nothing is read as one word. */
  lemma WordsOfWordThen(w: string, rest: string)
    requires IsWord(w)
    requires rest == [] || IsJsSpace(rest[0])
    ensures Words(w + rest) == [w] + Words(rest)
  {
    var s := w + rest;
    WordLengthOf(w, rest);
    assert s[..|w|] == w && s[|w|..] == rest;
  }

  /** Conversely, a text has only one such split into words and gaps: any gaps and
      words of white space and words that make up the text are its Gaps and Words. */
  lemma {:induction false} SpacedByUnique(s: string, gaps: seq<string>, words: seq<string>)
    requires SpacedBy(s, gaps, words)
    requires forall k :: 0 <= k < |words| ==> IsWord(words[k])
    ensures words == Words(s) && gaps == Gaps(s)
    decreases |s|
  {
    if gaps[0] != [] {
      var g := [gaps[0][1..]] + gaps[1..];
      SpacedByDropSpace(s, gaps, words);
      SpacedByUnique(s[1..], g, words);
    } else if words != [] {
      var rest := Interleave(gaps[1..], words[1..]);
      SpacedByDropWord(s, gaps, words);
      SpacedByUnique(rest, gaps[1..], words[1..]);
      SpacedByWordStep(s, gaps, words);
    } else {
      assert s == [];
    }
  }

  /** A split whose first gap is not empty still splits the text after its first
      character, which is white space. */
  lemma SpacedByDropSpace(s: string, gaps: seq<string>, words: seq<string>)
    requires SpacedBy(s, gaps, words) && gaps[0] != []
    ensures s != [] && IsJsSpace(s[0])
    ensures SpacedBy(s[1..], [gaps[0][1..]] + gaps[1..], words)
    ensures gaps == [[s[0]] + gaps[0][1..]] + gaps[1..]
  {
    var g := [gaps[0][1..]] + gaps[1..];
    assert g[1..] == gaps[1..];
    assert s[0] == gaps[0][0];
    if words != [] {
      assert s == [s[0]] + (gaps[0][1..] + words[0] + Interleave(gaps[1..], words[1..]));
    }
    assert IsBlank(g[0]) by {
      assert forall k :: 0 <= k < |g[0]| ==> g[0][k] == gaps[0][k + 1];
    }
    forall i | 0 <= i < |g| ensures IsBlank(g[i]) {
      if i > 0 {
        assert g[i] == gaps[i];
      }
    }
    assert [s[0]] + g[0] == gaps[0];
  }

  /** A split with an empty first gap starts with its first word, and the rest of the
      text is split by the remaining gaps and words. */
  lemma SpacedByDropWord(s: string, gaps: seq<string>, words: seq<string>)
    requires SpacedBy(s, gaps, words) && gaps[0] == [] && words != []
    ensures s == words[0] + Interleave(gaps[1..], words[1..])
    ensures SpacedBy(Interleave(gaps[1..], words[1..]), gaps[1..], words[1..])
  {
    forall i | 0 < i < |words[1..]| ensures gaps[1..][i] != [] {
      assert gaps[1..][i] == gaps[i + 1];
    }
  }

  /** The word step of the uniqueness proof: with the rest of the text split as Gaps
      and Words split it, so is the whole text. */
  lemma SpacedByWordStep(s: string, gaps: seq<string>, words: seq<string>)
    requires SpacedBy(s, gaps, words) && gaps[0] == [] && words != [] && IsWord(words[0])
    requires var rest := Interleave(gaps[1..], words[1..]);
      s == words[0] + rest && SpacedBy(rest, gaps[1..], words[1..])
      && words[1..] == Words(rest) && gaps[1..] == Gaps(rest)
    ensures words == Words(s) && gaps == Gaps(s)
  {
    var rest := Interleave(gaps[1..], words[1..]);
    SpacedByStartsWithSpace(rest, gaps[1..], words[1..]);
    WordsOfWordThen(words[0], rest);
    WordLengthOf(words[0], rest);
    assert s[|words[0]|..] == rest;
    assert words == [words[0]] + words[1..];
    assert gaps == [[]] + gaps[1..];
  }

  /** A text split this way whose first gap is non-empty whenever a word follows is
      empty or starts with white space, as the text after a word does. */
  lemma SpacedByStartsWithSpace(s: string, gaps: seq<string>, words: seq<string>)
    requires SpacedBy(s, gaps, words)
    requires words != [] ==> gaps[0] != []
    ensures s == [] || IsJsSpace(s[0])
  {
    if gaps[0] != [] {
      assert s[0] == gaps[0][0];
    }
  }

  /** Words joined with single spaces are read back as the same words. */
  lemma {:induction false} WordsOfJoin(ws: seq<string>)
    requires forall k :: 0 <= k < |ws| ==> IsWord(ws[k])
    ensures Words(Join(ws, " ")) == ws
    decreases |ws|
  {
    if |ws| == 1 {
      WordsOfWordThen(ws[0], []);
      assert ws[0] + [] == ws[0];
    } else if |ws| > 1 {
      var rest := Join(ws[1..], " ");
      WordsOfJoin(ws[1..]);
      assert (" " + rest)[1..] == rest;
      WordsOfWordThen(ws[0], " " + rest);
      assert Join(ws, " ") == ws[0] + (" " + rest);
      assert ws == [ws[0]] + ws[1..];
    }
  }

  // ----- Windows -----

  /** The windows of `words` starting at word `from`: `size` words each, the next one
      starting `step` words later, until a window reaches the last word. */
  function Windows(words: seq<string>, size: nat, step: nat, from: nat): (wins: seq<seq<string>>)
    requires 0 < step <= size && from < |words|
    ensures |wins| >= 1
    decreases |words| - from
  {
    if from + size >= |words| then [words[from..]]
    else [words[from..from + size]] + Windows(words, size, step, from + step)
  }

  /** Every window holds between one and `size` words, every window but the last
      exactly `size`, and the words of every window are drawn from `words`. */
  predicate WellSized(wins: seq<seq<string>>, words: seq<string>, size: nat) {
    forall i :: 0 <= i < |wins| ==>
      1 <= |wins[i]| <= size
      && (i < |wins| - 1 ==> |wins[i]| == size)
      && forall j :: 0 <= j < |wins[i]| ==> wins[i][j] in words
  }

  /** A full window of words drawn from `words`, in front of well-sized windows, keeps
      them well sized. */
  lemma WellSizedCons(w: seq<string>, rest: seq<seq<string>>, words: seq<string>, size: nat)
    requires |w| == size >= 1 && rest != [] && WellSized(rest, words, size)
    requires forall j :: 0 <= j < |w| ==> w[j] in words
    ensures WellSized([w] + rest, words, size)
  {
    var wins := [w] + rest;
    forall i | 1 <= i < |wins| ensures wins[i] == rest[i - 1] {
    }
  }

  lemma {:induction false} WindowSizes(words: seq<string>, size: nat, step: nat, from: nat)
    requires 0 < step <= size && from < |words|
    ensures WellSized(Windows(words, size, step, from), words, size)
    decreases |words| - from
  {
    if from + size < |words| {
      WindowSizes(words, size, step, from + step);
      var w := words[from..from + size];
      forall j | 0 <= j < |w| ensures w[j] in words {
        assert w[j] == words[from + j];
      }
      WellSizedCons(w, Windows(words, size, step, from + step), words, size);
    } else {
      assert forall j :: 0 <= j < |words[from..]| ==> words[from..][j] == words[from + j];
    }
  }

  /** The first window starts at word `from`. */
  lemma FirstWindow(words: seq<string>, size: nat, step: nat, from: nat)
    requires 0 < step <= size && from < |words|
    ensures Windows(words, size, step, from)[0] == words[from..Min(from + size, |words|)]
  {
  }

  /** `earlier` is a full window of `size` words whose last `size - step` words
      open `later`. */
  predicate Overlapping(earlier: seq<string>, later: seq<string>, size: nat, step: nat)
    requires step <= size
  {
    |earlier| == size && |later| >= size - step && earlier[step..] == later[..size - step]
  }

  /** Consecutive windows share exactly `size - step` words: the last ones of the
      earlier window are the first ones of the later. */
  lemma {:induction false} WindowsOverlap(words: seq<string>, size: nat, step: nat, from: nat)
    requires 0 < step <= size && from < |words|
    ensures var wins := Windows(words, size, step, from);
      forall i :: 1 <= i < |wins| ==> Overlapping(wins[i - 1], wins[i], size, step)
    decreases |words| - from
  {
    if from + size < |words| {
      var wins := Windows(words, size, step, from);
      var rest := Windows(words, size, step, from + step);
      WindowsOverlap(words, size, step, from + step);
      FirstWindow(words, size, step, from + step);
      assert wins[1..] == rest;
      forall i | 1 <= i < |wins| ensures Overlapping(wins[i - 1], wins[i], size, step) {
        if i == 1 {
          assert wins[0] == words[from..from + size];
          assert wins[1][..size - step] == words[from + step..from + size];
        } else {
          assert wins[i - 1] == rest[i - 2] && wins[i] == rest[i - 1];
        }
      }
    }
  }

  /** The words of windows once each window but the first has its first `overlap`
      words removed. */
  function Unoverlapped(wins: seq<seq<string>>, overlap: nat): seq<string>
    decreases |wins|
  {
    if wins == [] then [] else wins[0][Min(overlap, |wins[0]|)..] + Unoverlapped(wins[1..], overlap)
  }

  /** Consecutive windows stitched back together: the first window whole, then each
      later one without the words it shares with the one before. */
  function Stitch(wins: seq<seq<string>>, overlap: nat): seq<string> {
    if wins == [] then [] else wins[0] + Unoverlapped(wins[1..], overlap)
  }

  /** The first window contributes its words after the overlap, then come the others. */
  lemma UnoverlappedCons(w: seq<string>, rest: seq<seq<string>>, overlap: nat)
    ensures Unoverlapped([w] + rest, overlap) == w[Min(overlap, |w|)..] + Unoverlapped(rest, overlap)
  {
    assert ([w] + rest)[1..] == rest;
  }

  /** A full window contributes the words from its overlap to its end, so if the
      windows after it give the words from its end, all of them give the words from
      its overlap. */
  lemma UnoverlappedFullWindow(words: seq<string>, size: nat, step: nat, from: nat)
    requires 0 < step <= size && from + size < |words|
    requires Unoverlapped(Windows(words, size, step, from + step), size - step) == words[from + size..]
    ensures Unoverlapped(Windows(words, size, step, from), size - step) == words[from + (size - step)..]
  {
    var w := words[from..from + size];
    UnoverlappedCons(w, Windows(words, size, step, from + step), size - step);
    assert w[size - step..] == words[from + (size - step)..from + size];
    assert words[from + (size - step)..] == words[from + (size - step)..from + size] + words[from + size..];
  }

  /** The last window contributes the words from its overlap to the end. */
  lemma UnoverlappedLastWindow(words: seq<string>, size: nat, step: nat, from: nat)
    requires 0 < step <= size && from < |words| && from + (size - step) <= |words| && from + size >= |words|
    ensures Unoverlapped(Windows(words, size, step, from), size - step) == words[from + (size - step)..]
  {
    UnoverlappedCons(words[from..], [], size - step);
    assert words[from..][size - step..] == words[from + (size - step)..];
  }

  lemma {:induction false} UnoverlappedWindows(words: seq<string>, size: nat, step: nat, from: nat)
    requires 0 < step <= size && from < |words| && from + (size - step) <= |words|
    ensures Unoverlapped(Windows(words, size, step, from), size - step) == words[from + (size - step)..]
    decreases |words| - from
  {
    if from + size < |words| {
      UnoverlappedWindows(words, size, step, from + step);
      assert from + step + (size - step) == from + size;
      UnoverlappedFullWindow(words, size, step, from);
    } else {
      UnoverlappedLastWindow(words, size, step, from);
    }
  }

  /** Stitching the windows back together gives the words again: no word is lost and
      none is repeated. */
  lemma StitchWindows(words: seq<string>, size: nat, step: nat)
    requires 0 < step <= size && words != []
    ensures Stitch(Windows(words, size, step, 0), size - step) == words
  {
    var wins := Windows(words, size, step, 0);
    if size < |words| {
      UnoverlappedWindows(words, size, step, step);
      assert wins[1..] == Windows(words, size, step, step);
      assert words == words[..size] + words[size..];
    }
  }

  // ----- The documented contract -----

  /** The windows of `text`'s words, `chunkSize` words each, consecutive windows
      sharing `overlap` words. */
  function WordWindows(text: string, chunkSize: nat, overlap: nat): seq<seq<string>>
    requires overlap < chunkSize
  {
    var words := Words(text);
    if words == [] then [] else Windows(words, chunkSize, chunkSize - overlap, 0)
  }

  /** The chunks the doc comment of `chunkText` promises: the guard as written, then
      one chunk per window, its words joined with single spaces, numbered from 0.
      The text carries no page information, so every chunk gets `pageNumber`. */
  function DocumentedChunkText(text: Option<string>, chunkSize: nat, overlap: nat, pageNumber: nat): (chunks: seq<Chunk>)
    requires overlap < chunkSize
    ensures forall i :: 0 <= i < |chunks| ==> chunks[i].chunkIndex == i && chunks[i].pageNumber == pageNumber
  {
    if text.None? || text.value == [] || |Trim(text.value)| == 0 then []
    else
      var wins := WordWindows(text.value, chunkSize, overlap);
      seq(|wins|, i requires 0 <= i < |wins| => Chunk(Join(wins[i], " "), i, pageNumber))
  }

  /** The windows of a text that is not blank are the windows of its words. */
  lemma WordWindowsOf(text: string, chunkSize: nat, overlap: nat)
    requires overlap < chunkSize && !IsBlank(text)
    ensures Words(text) != []
    ensures WordWindows(text, chunkSize, overlap) == Windows(Words(text), chunkSize, chunkSize - overlap, 0)
    ensures |Trim(text)| != 0
  {
    WordsEmptyIffBlank(text);
    TrimEmptyIffBlank(text);
  }

  /** The words of every documented chunk are the words of its window. */
  lemma ChunkWords(text: Option<string>, chunkSize: nat, overlap: nat, pageNumber: nat)
    requires overlap < chunkSize && text.Some? && !IsBlank(text.value)
    ensures var chunks := DocumentedChunkText(text, chunkSize, overlap, pageNumber);
      var wins := WordWindows(text.value, chunkSize, overlap);
      |chunks| == |wins| && forall i :: 0 <= i < |chunks| ==> Words(chunks[i].content) == wins[i]
  {
    var words := Words(text.value);
    WordWindowsOf(text.value, chunkSize, overlap);
    WordsAreWords(text.value);
    WindowSizes(words, chunkSize, chunkSize - overlap, 0);
    var wins := WordWindows(text.value, chunkSize, overlap);
    var chunks := DocumentedChunkText(text, chunkSize, overlap, pageNumber);
    assert |chunks| == |wins|;
    forall i | 0 <= i < |wins| ensures Words(chunks[i].content) == wins[i] {
      forall j | 0 <= j < |wins[i]| ensures IsWord(wins[i][j]) {
        assert wins[i][j] in words;
        var k :| 0 <= k < |words| && words[k] == wins[i][j];
      }
      WordsOfJoin(wins[i]);
      assert chunks[i].content == Join(wins[i], " ");
    }
  }

  /** Blank or absent text gives no chunk, any other text at least one; every chunk
      holds between one and `chunkSize` words, and every chunk but the last exactly
      `chunkSize`. */
  lemma DocumentedChunkSizes(text: Option<string>, chunkSize: nat, overlap: nat, pageNumber: nat)
    requires overlap < chunkSize
    ensures var chunks := DocumentedChunkText(text, chunkSize, overlap, pageNumber);
      (chunks == [] <==> text.None? || IsBlank(text.value))
      && forall i :: 0 <= i < |chunks| ==>
        1 <= |Words(chunks[i].content)| <= chunkSize
        && (i < |chunks| - 1 ==> |Words(chunks[i].content)| == chunkSize)
  {
    var chunks := DocumentedChunkText(text, chunkSize, overlap, pageNumber);
    if text.Some? {
      TrimEmptyIffBlank(text.value);
      if !IsBlank(text.value) {
        var wins := WordWindows(text.value, chunkSize, overlap);
        WordWindowsOf(text.value, chunkSize, overlap);
        ChunkWords(text, chunkSize, overlap, pageNumber);
        WindowSizes(Words(text.value), chunkSize, chunkSize - overlap, 0);
        forall i | 0 <= i < |chunks|
          ensures 1 <= |Words(chunks[i].content)| <= chunkSize
          ensures i < |chunks| - 1 ==> |Words(chunks[i].content)| == chunkSize
        {
          assert Words(chunks[i].content) == wins[i];
        }
      }
    }
  }

  /** Consecutive documented chunks share exactly `overlap` words. */
  lemma DocumentedChunkOverlap(text: Option<string>, chunkSize: nat, overlap: nat, pageNumber: nat)
    requires overlap < chunkSize
    ensures var chunks := DocumentedChunkText(text, chunkSize, overlap, pageNumber);
      forall i :: 1 <= i < |chunks| ==>
        Overlapping(Words(chunks[i - 1].content), Words(chunks[i].content), chunkSize, chunkSize - overlap)
  {
    var chunks := DocumentedChunkText(text, chunkSize, overlap, pageNumber);
    if text.Some? {
      TrimEmptyIffBlank(text.value);
      if !IsBlank(text.value) {
        var wins := WordWindows(text.value, chunkSize, overlap);
        WordWindowsOf(text.value, chunkSize, overlap);
        ChunkWords(text, chunkSize, overlap, pageNumber);
        WindowsOverlap(Words(text.value), chunkSize, chunkSize - overlap, 0);
        forall i | 1 <= i < |chunks|
          ensures Overlapping(Words(chunks[i - 1].content), Words(chunks[i].content), chunkSize, chunkSize - overlap)
        {
          assert Words(chunks[i - 1].content) == wins[i - 1] && Words(chunks[i].content) == wins[i];
        }
      }
    }
  }

  /** Stitching the documented chunks' words back together, dropping the shared
      words, gives the words of the text. */
  lemma DocumentedChunksCoverText(text: Option<string>, chunkSize: nat, overlap: nat, pageNumber: nat)
    requires overlap < chunkSize && text.Some?
    ensures var chunks := DocumentedChunkText(text, chunkSize, overlap, pageNumber);
      Stitch(seq(|chunks|, i requires 0 <= i < |chunks| => Words(chunks[i].content)), overlap) == Words(text.value)
  {
    var chunks := DocumentedChunkText(text, chunkSize, overlap, pageNumber);
    var contents := seq(|chunks|, i requires 0 <= i < |chunks| => Words(chunks[i].content));
    TrimEmptyIffBlank(text.value);
    WordsEmptyIffBlank(text.value);
    if !IsBlank(text.value) {
      WordWindowsOf(text.value, chunkSize, overlap);
      ChunkWords(text, chunkSize, overlap, pageNumber);
      assert contents == WordWindows(text.value, chunkSize, overlap);
      StitchWindows(Words(text.value), chunkSize, chunkSize - overlap);
    }
  }

  /** `chunkText` as written agrees with the documented contract on the texts its
      guard handles, and returns `undefined` where the contract promises chunks. */
  lemma ChunkTextAgainstContract(text: Option<string>, chunkSize: nat, overlap: nat)
    requires overlap < chunkSize
    ensures ChunkText(text, chunkSize, overlap).Chunks? ==>
      ChunkText(text, chunkSize, overlap).chunks == DocumentedChunkText(text, chunkSize, overlap, 0)
    ensures ChunkText(text, chunkSize, overlap).Undefined? ==>
      DocumentedChunkText(text, chunkSize, overlap, 0) != []
  {
    ChunkTextGuard(text, chunkSize, overlap);
    DocumentedChunkSizes(text, chunkSize, overlap, 0);
  }

  /** The five-word case: windows of two words, one shared. */
  lemma FiveWordWindows()
    ensures Windows(["one", "two", "three", "four", "five"], 2, 1, 0)
         == [["one", "two"], ["two", "three"], ["three", "four"], ["four", "five"]]
  {
    var words := ["one", "two", "three", "four", "five"];
    assert words[0..2] == ["one", "two"];
    assert words[1..3] == ["two", "three"];
    assert words[2..4] == ["three", "four"];
    assert words[3..] == ["four", "five"];
  }
}
