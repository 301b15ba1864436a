/** What the flashcard and quiz decoders of backend/utils/geminiService.js share:
    the `---` block delimiter, the blank-block filter, the line split, the value
    after a two-character tag, and the three difficulty levels. */
module ResponseFormat {
  import opened Results
  import opened JsText

  const BlockDelimiter := "---"
  const LineBreak := "\n"

  datatype Difficulty = Easy | Medium | Hard

  /** The level a record has when no `D:` line names a valid one. */
  const DefaultDifficulty := Medium

  /** The lower-case word the model writes for each level. */
  function DifficultyName(d: Difficulty): string {
    match d
    case Easy => "easy"
    case Medium => "medium"
    case Hard => "hard"
  }

  /** Each level's word is a non-empty run of lower-case ASCII letters. */
  lemma DifficultyNameIsWord(d: Difficulty)
    ensures DifficultyName(d) != []
    ensures forall k :: 0 <= k < |DifficultyName(d)| ==> 'a' <= DifficultyName(d)[k] <= 'z'
  {
  }

  /** `["easy", "medium", "hard"].includes(value.toLowerCase())`, returning the level
      that matched. */
  function ParseDifficulty(value: string): (r: Option<Difficulty>)
    ensures r.Some? ==> DifficultyName(r.value) == ToLowerAscii(value)
    ensures r.None? ==> forall d :: ToLowerAscii(value) != DifficultyName(d)
  {
    var lower := ToLowerAscii(value);
    if lower == "easy" then Some(Easy)
    else if lower == "medium" then Some(Medium)
    else if lower == "hard" then Some(Hard)
    else None
  }

  /** Each level's own word is read back as that level. */
  lemma ParseDifficultyName(d: Difficulty)
    ensures ParseDifficulty(DifficultyName(d)) == Some(d)
  {
    var name := DifficultyName(d);
    assert ToLowerAscii(name) == name;
  }

  /** A line as the prompts lay it out: a tag, one space, the value. */
  function TaggedLine(tag: string, v: string): string {
    tag + " " + v
  }

  /** A tagged line `tag + " " + v` lacks a separator that has no space in it when
      the tag lacks its first character and the value lacks the separator. */
  lemma TaggedLineFree(tag: string, v: string, sep: string)
    requires |sep| > 0 && sep[0] !in tag && ' ' !in sep && FreeOf(v, sep)
    ensures FreeOf(TaggedLine(tag, v), sep)
  {
    FreeOfFirstChar(tag, sep);
    FreeOfAround(tag, ' ', v, sep);
    assert tag + [' '] + v == tag + " " + v;
  }

  /** A tagged line with a trimmed value does not end in a line break. */
  lemma TaggedLineEnd(tag: string, v: string)
    requires IsTrimmed(v)
    ensures TaggedLine(tag, v)[|TaggedLine(tag, v)| - 1] !in LineBreak
  {
    var line := TaggedLine(tag, v);
    if v != [] {
      assert line[|line| - 1] == v[|v| - 1];
    }
  }

  /** A value a tagged line can carry and give back: no white space at its ends, no
      line break and no block delimiter. */
  predicate IsWritableText(v: string) {
    IsTrimmed(v) && FreeOf(v, LineBreak) && FreeOf(v, BlockDelimiter)
  }

  /** The tagged lines of a block, one per tag and value. */
  function TaggedLines(tags: seq<string>, values: seq<string>): (lines: seq<string>)
    requires |tags| == |values|
    ensures |lines| == |tags|
  {
    seq(|tags|, k requires 0 <= k < |tags| => TaggedLine(tags[k], values[k]))
  }

  /** The block the tagged lines make, one per line. */
  function TaggedBlock(tags: seq<string>, values: seq<string>): string
    requires |tags| == |values|
  {
    Join(TaggedLines(tags, values), LineBreak)
  }

  /** The lines of a tagged block are its tagged lines, and it holds no block
      delimiter, when no tag holds a line break or a `-` and every value is writable. */
  lemma TaggedBlockLines(tags: seq<string>, values: seq<string>)
    requires |tags| == |values| >= 1
    requires forall k :: 0 <= k < |tags| ==> '\n' !in tags[k] && '-' !in tags[k] && IsWritableText(values[k])
    ensures Split(TaggedBlock(tags, values), LineBreak) == TaggedLines(tags, values)
    ensures FreeOf(TaggedBlock(tags, values), BlockDelimiter)
  {
    var lines := TaggedLines(tags, values);
    forall k | 0 <= k < |lines|
      ensures FreeOf(lines[k], LineBreak) && FreeOf(lines[k], BlockDelimiter)
      ensures lines[k] != [] && lines[k][|lines[k]| - 1] !in LineBreak
    {
      TaggedLineFree(tags[k], values[k], LineBreak);
      TaggedLineFree(tags[k], values[k], BlockDelimiter);
      TaggedLineEnd(tags[k], values[k]);
    }
    SplitOfJoin(lines, LineBreak);
    JoinFreeOf(lines, '\n', BlockDelimiter);
  }

  /** A tagged block whose first tag starts with a visible character and whose last
      value is a non-empty trimmed text is trimmed itself, and ends in that value's
      last character. */
  lemma TaggedBlockTrimmed(tags: seq<string>, values: seq<string>)
    requires |tags| == |values| >= 1
    requires tags[0] != [] && !IsJsSpace(tags[0][0])
    requires values[|values| - 1] != [] && IsTrimmed(values[|values| - 1])
    ensures TaggedBlock(tags, values) != [] && IsTrimmed(TaggedBlock(tags, values))
    ensures var b := TaggedBlock(tags, values); var v := values[|values| - 1];
      b[|b| - 1] == v[|v| - 1]
  {
    var lines := TaggedLines(tags, values);
    var n := |lines| - 1;
    assert lines[0][0] == tags[0][0];
    assert lines[n][|lines[n]| - 1] == values[n][|values[n]| - 1];
    JoinEnds(lines, LineBreak);
  }

  /** `line.substring(2).trim()`: the value after a two-character tag such as `Q:`. */
  function TagValue(line: string): (v: string)
    requires |line| >= 2
    ensures IsTrimmed(v)
  {
    Trim(line[2..])
  }

  /** `parts.filter((b) => b.trim())`: the parts that are not blank, in order. */
  function NonBlank(parts: seq<string>): (r: seq<string>)
    ensures |r| <= |parts|
  {
    if parts == [] then []
    else (if Trim(parts[0]) != [] then [parts[0]] else []) + NonBlank(parts[1..])
  }

  /** The filter keeps exactly the parts that are not blank, in their order: every
      kept part is one of the parts and not blank, and every non-blank part is kept. */
  lemma {:induction false} NonBlankKeeps(parts: seq<string>)
    ensures forall k :: 0 <= k < |NonBlank(parts)| ==> Trim(NonBlank(parts)[k]) != [] && NonBlank(parts)[k] in parts
    ensures forall p :: p in parts && Trim(p) != [] ==> p in NonBlank(parts)
    decreases |parts|
  {
    if parts != [] {
      NonBlankKeeps(parts[1..]);
      assert forall p :: p in parts ==> p == parts[0] || p in parts[1..];
    }
  }

  /** A single part is kept exactly when it is not blank. */
  lemma NonBlankSingle(p: string)
    ensures NonBlank([p]) == if Trim(p) != [] then [p] else []
  {
    assert [p][1..] == [];
  }

  /** The filter works part by part: the kept parts of a concatenation are the kept
      parts of each side, in order. With NonBlankSingle this fixes the result as the
      non-blank parts in their order, each once. */
  lemma {:induction false} NonBlankAppend(a: seq<string>, b: seq<string>)
    ensures NonBlank(a + b) == NonBlank(a) + NonBlank(b)
    decreases |a|
  {
    if a == [] {
      assert a + b == b;
    } else {
      NonBlankAppend(a[1..], b);
      assert a == [a[0]] + a[1..];
      NonBlankAppendStep(a[0], a[1..], b);
    }
  }

  lemma NonBlankCons(p: string, rest: seq<string>)
    ensures NonBlank([p] + rest) == (if Trim(p) != [] then [p] else []) + NonBlank(rest)
  {
    assert ([p] + rest)[0] == p && ([p] + rest)[1..] == rest;
  }

  lemma NonBlankAppendStep(x: string, rest: seq<string>, b: seq<string>)
    requires NonBlank(rest + b) == NonBlank(rest) + NonBlank(b)
    ensures NonBlank([x] + rest + b) == NonBlank([x] + rest) + NonBlank(b)
  {
    var head := if Trim(x) != [] then [x] else [];
    assert [x] + rest + b == [x] + (rest + b);
    NonBlankCons(x, rest + b);
    NonBlankCons(x, rest);
    ConcatAssoc(head, NonBlank(rest), NonBlank(b));
  }

  /** A filter that finds nothing blank keeps everything. */
  lemma {:induction false} NonBlankOfNonBlank(parts: seq<string>)
    requires forall k :: 0 <= k < |parts| ==> Trim(parts[k]) != []
    ensures NonBlank(parts) == parts
    decreases |parts|
  {
    if parts != [] {
      NonBlankOfNonBlank(parts[1..]);
    }
  }

  /** `raw.split("---").filter((b) => b.trim())`: the candidate blocks of a response. */
  function Blocks(raw: string): (blocks: seq<string>)
    ensures |blocks| <= |Split(raw, BlockDelimiter)|
  {
    NonBlank(Split(raw, BlockDelimiter))
  }

  /** No block is blank or contains the delimiter, and the blocks are the response's
      non-blank delimiter-free pieces: joined back with `---` (blank pieces included) they give
      the response again. */
  lemma BlocksAreDelimiterFree(raw: string)
    ensures forall k :: 0 <= k < |Blocks(raw)| ==> Trim(Blocks(raw)[k]) != []
    ensures forall k :: 0 <= k < |Blocks(raw)| ==> FreeOf(Blocks(raw)[k], BlockDelimiter)
    ensures Join(Split(raw, BlockDelimiter), BlockDelimiter) == raw
  {
    NonBlankKeeps(Split(raw, BlockDelimiter));
    SplitPiecesFreeOf(raw, BlockDelimiter);
    JoinOfSplit(raw, BlockDelimiter);
    var parts := Split(raw, BlockDelimiter);
    forall k | 0 <= k < |Blocks(raw)| ensures FreeOf(Blocks(raw)[k], BlockDelimiter) {
      var b := Blocks(raw)[k];
      assert b in parts;
      var m :| 0 <= m < |parts| && parts[m] == b;
    }
  }

  /** The layout replies usually take: each block on lines of its own, with a `---`
      line between two blocks. */
  const SpacedDelimiter := "\n---\n"

  /** Pieces that, once trimmed, are the given blocks. */
  predicate TrimsTo(pieces: seq<string>, blocks: seq<string>) {
    |pieces| == |blocks| && forall k :: 0 <= k < |blocks| ==> Trim(pieces[k]) == blocks[k]
  }

  /** A block a reply can carry: not blank, and without the delimiter. */
  predicate IsCarriedBlock(b: string) {
    Trim(b) != [] && FreeOf(b, BlockDelimiter)
  }

  /** The line break on either side of a block does not survive trimming. */
  lemma TrimAroundBlock(pre: string, b: string, post: string)
    requires pre == [] || pre == LineBreak
    requires post == [] || post == LineBreak
    ensures Trim(pre + b + post) == Trim(b)
  {
    if post == [] {
      assert pre + b + post == pre + b;
    } else {
      assert pre + b + post == (pre + b) + ['\n'];
      TrimSkipsTrailingSpace(pre + b, '\n');
    }
    if pre == [] {
      assert pre + b == b;
    } else {
      assert pre + b == ['\n'] + b;
      TrimSkipsLeadingSpace('\n', b);
    }
  }

  /** A block with a line break on either side still holds no delimiter. */
  lemma FreeAroundBlock(pre: string, b: string, post: string)
    requires pre == [] || pre == LineBreak
    requires post == [] || post == LineBreak
    requires FreeOf(b, BlockDelimiter)
    ensures FreeOf(pre + b + post, BlockDelimiter)
  {
    var inner := b + post;
    if post == [] {
      assert inner == b;
    } else {
      FreeOfAround(b, '\n', [], BlockDelimiter);
      assert b + ['\n'] + [] == inner;
    }
    if pre == [] {
      assert pre + b + post == inner;
    } else {
      FreeOfAround([], '\n', inner, BlockDelimiter);
      assert [] + ['\n'] + inner == pre + b + post;
    }
  }

  lemma TrimsToCons(piece: string, pieces: seq<string>, b: string, blocks: seq<string>)
    requires Trim(piece) == b && TrimsTo(pieces, blocks)
    ensures TrimsTo([piece] + pieces, [b] + blocks)
  {
  }

  /** The first block and the line break after it are the first piece; the rest of
      the pieces are those of what follows the first `---`. */
  lemma SplitSpacedStep(pre: string, blocks: seq<string>)
    requires pre == [] || pre == LineBreak
    requires |blocks| >= 2 && IsCarriedBlock(blocks[0])
    requires TrimsTo(Split(LineBreak + Join(blocks[1..], SpacedDelimiter), BlockDelimiter), Trims(blocks[1..]))
    ensures TrimsTo(Split(pre + Join(blocks, SpacedDelimiter), BlockDelimiter), Trims(blocks))
  {
    var b, rest := blocks[0], blocks[1..];
    var piece := pre + b + LineBreak;
    var after := LineBreak + Join(rest, SpacedDelimiter);
    assert blocks == [b] + rest;
    SpacedJoinCons(pre, b, rest);
    FreeAroundBlock(pre, b, LineBreak);
    SplitAfterPiece(piece, BlockDelimiter, after);
    TrimAroundBlock(pre, b, LineBreak);
    TrimsCons(blocks);
    TrimsToCons(piece, Split(after, BlockDelimiter), Trim(b), Trims(rest));
  }

  /** The first `---` line of the layout comes right after the first block. */
  lemma SpacedJoinCons(pre: string, b: string, rest: seq<string>)
    requires rest != []
    ensures pre + Join([b] + rest, SpacedDelimiter)
      == (pre + b + LineBreak) + BlockDelimiter + (LineBreak + Join(rest, SpacedDelimiter))
  {
    JoinCons(b, rest, SpacedDelimiter);
    Regroup(pre, b, LineBreak, BlockDelimiter, Join(rest, SpacedDelimiter));
  }

  lemma Regroup(pre: string, b: string, x: string, y: string, rest: string)
    ensures pre + (b + (x + y + x) + rest) == (pre + b + x) + y + (x + rest)
  {
  }

  lemma TrimsCons(blocks: seq<string>)
    requires blocks != []
    ensures Trims(blocks) == [Trim(blocks[0])] + Trims(blocks[1..])
  {
  }

  /** A single block, after an optional line break, is a single piece. */
  lemma SplitSpacedLast(pre: string, b: string)
    requires pre == [] || pre == LineBreak
    requires IsCarriedBlock(b)
    ensures TrimsTo(Split(pre + Join([b], SpacedDelimiter), BlockDelimiter), Trims([b]))
  {
    assert Join([b], SpacedDelimiter) == b;
    FreeAroundBlock(pre, b, []);
    assert pre + b + [] == pre + b;
    SplitOfFree(pre + b, BlockDelimiter);
    TrimAroundBlock(pre, b, []);
  }

  /** Splitting blocks laid out with `---` lines between them, after an optional line
      break, gives one piece per block that trims as the block does. */
  lemma {:induction false} SplitSpaced(pre: string, blocks: seq<string>)
    requires pre == [] || pre == LineBreak
    requires blocks != []
    requires forall k :: 0 <= k < |blocks| ==> IsCarriedBlock(blocks[k])
    ensures TrimsTo(Split(pre + Join(blocks, SpacedDelimiter), BlockDelimiter), Trims(blocks))
    decreases |blocks|
  {
    if |blocks| == 1 {
      assert blocks == [blocks[0]];
      SplitSpacedLast(pre, blocks[0]);
    } else {
      SplitSpaced(LineBreak, blocks[1..]);
      SplitSpacedStep(pre, blocks);
    }
  }

  /** The trimmed blocks. */
  function Trims(blocks: seq<string>): (r: seq<string>)
    ensures |r| == |blocks|
  {
    seq(|blocks|, k requires 0 <= k < |blocks| => Trim(blocks[k]))
  }

  /** A reply whose blocks stand on lines of their own between `---` lines is read as
      those blocks: one candidate block each, with the same lines. */
  lemma SpacedBlocks(blocks: seq<string>)
    requires forall k :: 0 <= k < |blocks| ==> IsCarriedBlock(blocks[k])
    ensures |Blocks(Join(blocks, SpacedDelimiter))| == |blocks|
    ensures forall k :: 0 <= k < |blocks| ==> BlockLines(Blocks(Join(blocks, SpacedDelimiter))[k]) == BlockLines(blocks[k])
  {
    var raw := Join(blocks, SpacedDelimiter);
    if blocks == [] {
      assert Blocks(raw) == [];
    } else {
      SplitSpaced([], blocks);
      assert [] + raw == raw;
      var pieces := Split(raw, BlockDelimiter);
      NonBlankOfNonBlank(pieces);
      TrimIdempotentAll(pieces, blocks);
    }
  }

  /** Pieces that trim to the trimmed blocks have the blocks' lines. */
  lemma TrimIdempotentAll(pieces: seq<string>, blocks: seq<string>)
    requires TrimsTo(pieces, Trims(blocks))
    ensures forall k :: 0 <= k < |blocks| ==> BlockLines(pieces[k]) == BlockLines(blocks[k])
  {
    forall k | 0 <= k < |blocks| ensures BlockLines(pieces[k]) == BlockLines(blocks[k]) {
      TrimOfTrimmed(Trim(blocks[k]));
    }
  }

  /** `block.trim().split("\n")`: the lines of one block. */
  function BlockLines(block: string): (lines: seq<string>)
    ensures |lines| >= 1
  {
    Split(Trim(block), LineBreak)
  }

  /** The records a block decoder yields for a sequence of blocks, in block order:
      the loop that pushes a record for every block the decoder accepts and skips
      the others. */
  function Accepted<R>(decode: string -> Option<R>, blocks: seq<string>): (records: seq<R>)
    ensures |records| <= |blocks|
  {
    if blocks == [] then []
    else Accepted(decode, blocks[..|blocks| - 1]) + AsSeq(decode(blocks[|blocks| - 1]))
  }

  lemma AcceptedSnoc<R>(decode: string -> Option<R>, blocks: seq<string>, block: string)
    ensures Accepted(decode, blocks + [block]) == Accepted(decode, blocks) + AsSeq(decode(block))
  {
    assert (blocks + [block])[..|blocks|] == blocks;
  }

  /** The records of `first + second` are those of `first` followed by those of
      `second`: output order is block order. */
  lemma {:induction false} AcceptedAppend<R>(decode: string -> Option<R>, first: seq<string>, second: seq<string>)
    ensures Accepted(decode, first + second) == Accepted(decode, first) + Accepted(decode, second)
    decreases |second|
  {
    if second == [] {
      assert first + second == first;
    } else {
      var init, last := second[..|second| - 1], second[|second| - 1];
      assert second == init + [last];
      AcceptedAppend(decode, first, init);
      AcceptedAppendStep(decode, first, init, last);
    }
  }

  lemma AcceptedAppendStep<R>(decode: string -> Option<R>, first: seq<string>, init: seq<string>, last: string)
    requires Accepted(decode, first + init) == Accepted(decode, first) + Accepted(decode, init)
    ensures Accepted(decode, first + (init + [last])) == Accepted(decode, first) + Accepted(decode, init + [last])
  {
    var tail := AsSeq(decode(last));
    calc {
      Accepted(decode, first + (init + [last]));
      { assert first + (init + [last]) == (first + init) + [last]; }
      Accepted(decode, (first + init) + [last]);
      { AcceptedSnoc(decode, first + init, last); }
      (Accepted(decode, first) + Accepted(decode, init)) + tail;
      { ConcatAssoc(Accepted(decode, first), Accepted(decode, init), tail); }
      Accepted(decode, first) + (Accepted(decode, init) + tail);
      { AcceptedSnoc(decode, init, last); }
      Accepted(decode, first) + Accepted(decode, init + [last]);
    }
  }

  lemma ConcatAssoc<T>(a: seq<T>, b: seq<T>, c: seq<T>)
    ensures (a + b) + c == a + (b + c)
  {
  }

  /** Every record returned has a property the decoder guarantees of each record. */
  lemma {:induction false} AcceptedKeeps<R>(decode: string -> Option<R>, blocks: seq<string>, p: R -> bool)
    requires forall b :: decode(b).Some? ==> p(decode(b).value)
    ensures forall k :: 0 <= k < |Accepted(decode, blocks)| ==> p(Accepted(decode, blocks)[k])
    decreases |blocks|
  {
    if blocks != [] {
      AcceptedKeeps(decode, blocks[..|blocks| - 1], p);
    }
  }

  /** When the decoder accepts every block, the records are the decoded blocks, one
      per block and in block order. */
  lemma {:induction false} AcceptedAll<R>(decode: string -> Option<R>, blocks: seq<string>, records: seq<R>)
    requires |blocks| == |records|
    requires forall k :: 0 <= k < |blocks| ==> decode(blocks[k]) == Some(records[k])
    ensures Accepted(decode, blocks) == records
    decreases |blocks|
  {
    if blocks != [] {
      var n := |blocks| - 1;
      AcceptedAll(decode, blocks[..n], records[..n]);
      assert records == records[..n] + [records[n]];
    }
  }

  /** When the decoder rejects every block, nothing is returned. */
  lemma {:induction false} AcceptedNone<R>(decode: string -> Option<R>, blocks: seq<string>)
    requires forall k :: 0 <= k < |blocks| ==> decode(blocks[k]).None?
    ensures Accepted(decode, blocks) == []
    decreases |blocks|
  {
    if blocks != [] {
      AcceptedNone(decode, blocks[..|blocks| - 1]);
    }
  }

  /** A response without any delimiter is one block, unless it is blank. */
  lemma {:induction false} UndelimitedResponse(raw: string)
    requires FreeOf(raw, BlockDelimiter)
    ensures Blocks(raw) == if Trim(raw) == [] then [] else [raw]
  {
    assert Split(raw, BlockDelimiter) == [raw];
  }
}
