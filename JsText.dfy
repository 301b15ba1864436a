/** The JavaScript string and array built-ins the core relies on, written out on
    `seq<char>`: `trim`, `startsWith`, `split` and `join` with a literal separator,
    `substring(0, n)`, `slice(0, n)`, ASCII lower-casing and the decimal rendering
    of integers that template literals perform. */
module JsText {
  import opened Results

  function Min(a: int, b: int): int { if a <= b then a else b }
  function Max(a: int, b: int): int { if a <= b then b else a }

  /** The WhiteSpace and LineTerminator code points that `String.prototype.trim` removes. */
  predicate IsJsSpace(c: char) {
    c == ' ' || c == '\t' || c == '\n' || c == '\r' || c == '\U{B}' || c == '\U{C}'
    || c == '\U{A0}' || c == '\U{1680}' || ('\U{2000}' <= c <= '\U{200A}')
    || c == '\U{2028}' || c == '\U{2029}' || c == '\U{202F}' || c == '\U{205F}'
    || c == '\U{3000}' || c == '\U{FEFF}'
  }

  /** Every character of `s` is white space (vacuously true of ""). */
  predicate IsBlank(s: string) {
    forall k :: 0 <= k < |s| ==> IsJsSpace(s[k])
  }

  /** `s` with its leading white space removed. */
  function TrimStart(s: string): (r: string)
    ensures |r| <= |s|
    ensures r == [] || !IsJsSpace(r[0])
  {
    if |s| > 0 && IsJsSpace(s[0]) then TrimStart(s[1..]) else s
  }

  lemma {:induction false} TrimStartIsSuffix(s: string)
    ensures TrimStart(s) == s[|s| - |TrimStart(s)|..]
    decreases |s|
  {
    if |s| > 0 && IsJsSpace(s[0]) {
      TrimStartIsSuffix(s[1..]);
    }
  }

  /** `s` with its trailing white space removed. */
  function TrimEnd(s: string): (r: string)
    ensures |r| <= |s|
    ensures r == [] || (!IsJsSpace(r[|r| - 1]) && r[0] == s[0])
  {
    if |s| > 0 && IsJsSpace(s[|s| - 1]) then TrimEnd(s[..|s| - 1]) else s
  }

  lemma {:induction false} TrimEndIsPrefix(s: string)
    ensures TrimEnd(s) == s[..|TrimEnd(s)|]
    decreases |s|
  {
    if |s| > 0 && IsJsSpace(s[|s| - 1]) {
      TrimEndIsPrefix(s[..|s| - 1]);
    }
  }

  /** `String.prototype.trim`: the longest infix of `s` that neither starts nor ends
      with white space. */
  function Trim(s: string): (r: string)
    ensures IsTrimmed(r)
    ensures |r| <= |s|
  {
    TrimEnd(TrimStart(s))
  }

  /** Only the white space that `TrimStart` passes over is dropped from the front. */
  lemma {:induction false} TrimStartDropsSpace(s: string, k: int)
    requires 0 <= k < |s| - |TrimStart(s)|
    ensures IsJsSpace(s[k])
    decreases |s|
  {
    if k > 0 {
      TrimStartDropsSpace(s[1..], k - 1);
    }
  }

  /** Only the white space that `TrimEnd` passes over is dropped from the back. */
  lemma {:induction false} TrimEndDropsSpace(s: string, k: int)
    requires |TrimEnd(s)| <= k < |s|
    ensures IsJsSpace(s[k])
    decreases |s|
  {
    if k < |s| - 1 {
      TrimEndDropsSpace(s[..|s| - 1], k);
    }
  }

  /** `s.trim()` is empty exactly when `s` is all white space, the test the source
      writes as `!s.trim()` or `s.trim().length === 0`. */
  lemma TrimEmptyIffBlank(s: string)
    ensures Trim(s) == [] <==> IsBlank(s)
  {
    var t := TrimStart(s);
    TrimStartIsSuffix(s);
    TrimEndIsPrefix(t);
    if Trim(s) == [] {
      forall k | 0 <= k < |s| ensures IsJsSpace(s[k]) {
        if k < |s| - |t| {
          TrimStartDropsSpace(s, k);
        } else {
          TrimEndDropsSpace(t, k - (|s| - |t|));
          assert s[k] == t[k - (|s| - |t|)];
        }
      }
    } else {
      assert !IsJsSpace(Trim(s)[0]);
      assert t != [] && !IsJsSpace(s[|s| - |t|]);
    }
  }

  /** Trimming a string that already has no white space at either end changes nothing. */
  lemma TrimOfTrimmed(s: string)
    requires IsTrimmed(s)
    ensures Trim(s) == s
  {
  }

  /** Leading white space never survives trimming. */
  lemma TrimSkipsLeadingSpace(c: char, s: string)
    requires IsJsSpace(c)
    ensures Trim([c] + s) == Trim(s)
  {
    assert ([c] + s)[1..] == s;
  }

  /** Trailing white space never survives trimming either. */
  lemma {:induction false} TrimSkipsTrailingSpace(s: string, c: char)
    requires IsJsSpace(c)
    ensures Trim(s + [c]) == Trim(s)
    decreases |s|
  {
    if s == [] {
      assert s + [c] == [c] && [c][1..] == [];
    } else if IsJsSpace(s[0]) {
      assert (s + [c])[1..] == s[1..] + [c];
      TrimSkipsTrailingSpace(s[1..], c);
    } else {
      assert (s + [c])[..|s|] == s;
    }
  }

  /** `s` has no white space at either end, as every result of `Trim` has not. */
  predicate IsTrimmed(s: string) {
    s == [] || (!IsJsSpace(s[0]) && !IsJsSpace(s[|s| - 1]))
  }

  /** `String.prototype.startsWith`. */
  predicate StartsWith(s: string, prefix: string) {
    |prefix| <= |s| && s[..|prefix|] == prefix
  }

  /** `String.prototype.endsWith`. */
  predicate EndsWith(s: string, suffix: string) {
    |suffix| <= |s| && s[|s| - |suffix|..] == suffix
  }

  /** `sep` occurs in `s` starting at index `i`. */
  predicate OccursAt(s: string, sep: string, i: int) {
    0 <= i && i + |sep| <= |s| && s[i..i + |sep|] == sep
  }

  /** `sep` occurs nowhere in `s`. */
  predicate FreeOf(s: string, sep: string) {
    forall i :: 0 <= i <= |s| ==> !OccursAt(s, sep, i)
  }

  /** The first index at or after `from` where `sep` occurs in `s`. */
  function FindFrom(s: string, sep: string, from: nat): (r: Option<nat>)
    requires from <= |s|
    ensures r.Some? ==> from <= r.value && OccursAt(s, sep, r.value)
    decreases |s| - from
  {
    if from + |sep| > |s| then None
    else if s[from..from + |sep|] == sep then Some(from)
    else if from == |s| then None
    else FindFrom(s, sep, from + 1)
  }

  /** The search passes over no occurrence: none lies between `from` and the index
      found, and none at all at or after `from` when nothing is found. */
  lemma {:induction false} FindFromSkips(s: string, sep: string, from: nat)
    requires from <= |s|
    ensures var r := FindFrom(s, sep, from);
      forall k :: from <= k && (r.None? || k < r.value) ==> !OccursAt(s, sep, k)
    decreases |s| - from
  {
    if from + |sep| <= |s| && s[from..from + |sep|] != sep && from < |s| {
      FindFromSkips(s, sep, from + 1);
    }
  }

  /** The search finds the first occurrence at or after `from`. */
  lemma {:induction false} FindFromFinds(s: string, sep: string, from: nat, i: nat)
    requires from <= i && OccursAt(s, sep, i)
    requires forall k :: from <= k < i ==> !OccursAt(s, sep, k)
    ensures FindFrom(s, sep, from) == Some(i)
    decreases i - from
  {
    if from < i {
      assert !OccursAt(s, sep, from);
      FindFromFinds(s, sep, from + 1, i);
    }
  }

  /** `String.prototype.split` with a non-empty literal separator: the pieces between
      successive leftmost occurrences of `sep`, always at least one. */
  function Split(s: string, sep: string): (parts: seq<string>)
    requires |sep| > 0
    ensures |parts| >= 1
    decreases |s|
  {
    var found := FindFrom(s, sep, 0);
    if found.None? then [s]
    else [s[..found.value]] + Split(s[found.value + |sep|..], sep)
  }

  /** `Array.prototype.join`: the pieces with `sep` between each two; "" for none. */
  function Join(parts: seq<string>, sep: string): string {
    if |parts| == 0 then ""
    else if |parts| == 1 then parts[0]
    else parts[0] + sep + Join(parts[1..], sep)
  }

  /** Joining the pieces of a split with the same separator gives back the string. */
  lemma {:induction false} JoinOfSplit(s: string, sep: string)
    requires |sep| > 0
    ensures Join(Split(s, sep), sep) == s
    decreases |s|
  {
    match FindFrom(s, sep, 0)
    case None =>
    case Some(i) =>
      var rest := s[i + |sep|..];
      JoinCons(s[..i], Split(rest, sep), sep);
      JoinOfSplit(rest, sep);
      assert s == s[..i] + s[i..i + |sep|] + rest;
  }

  lemma JoinCons(first: string, rest: seq<string>, sep: string)
    requires |rest| >= 1
    ensures Join([first] + rest, sep) == first + sep + Join(rest, sep)
  {
    assert ([first] + rest)[1..] == rest;
  }

  /** No piece of a split contains the separator. */
  lemma {:induction false} SplitPiecesFreeOf(s: string, sep: string)
    requires |sep| > 0
    ensures forall k :: 0 <= k < |Split(s, sep)| ==> FreeOf(Split(s, sep)[k], sep)
    decreases |s|
  {
    var parts := Split(s, sep);
    FindFromSkips(s, sep, 0);
    match FindFrom(s, sep, 0)
    case None =>
      forall j ensures !OccursAt(s, sep, j) {
        if 0 <= j {
          assert !OccursAt(s, sep, j);
        }
      }
    case Some(i) =>
      var rest := s[i + |sep|..];
      SplitPiecesFreeOf(rest, sep);
      forall j ensures !OccursAt(s[..i], sep, j) {
        if OccursAt(s[..i], sep, j) {
          assert s[..i][j..j + |sep|] == s[j..j + |sep|];
          assert OccursAt(s, sep, j);
        }
      }
      forall k | 0 <= k < |parts| ensures FreeOf(parts[k], sep) {
        if k > 0 {
          assert parts[k] == Split(rest, sep)[k - 1];
        }
      }
  }

  /** A separator cannot straddle a character it does not contain: gluing two
      separator-free strings around such a character keeps them separator-free. */
  lemma FreeOfAround(a: string, c: char, b: string, sep: string)
    requires FreeOf(a, sep) && FreeOf(b, sep) && c !in sep
    ensures FreeOf(a + [c] + b, sep)
  {
    var s := a + [c] + b;
    forall i | 0 <= i <= |s| ensures !OccursAt(s, sep, i) {
      if i + |sep| <= |a| {
        assert a[i..i + |sep|] == s[i..i + |sep|];
        assert !OccursAt(a, sep, i);
      } else if |a| < i && i + |sep| <= |s| {
        assert b[i - |a| - 1..i - |a| - 1 + |sep|] == s[i..i + |sep|];
        assert !OccursAt(b, sep, i - |a| - 1);
      } else if i + |sep| <= |s| {
        assert s[i..i + |sep|][|a| - i] == c;
      }
    }
  }

  /** A string that lacks the first character of a separator lacks the separator. */
  lemma FreeOfFirstChar(s: string, sep: string)
    requires |sep| > 0 && sep[0] !in s
    ensures FreeOf(s, sep)
  {
    forall i | 0 <= i <= |s| ensures !OccursAt(s, sep, i) {
      if i + |sep| <= |s| {
        assert s[i..i + |sep|][0] == s[i];
      }
    }
  }

  /** Lines glued with a character no separator contains stay separator-free. */
  lemma {:induction false} JoinFreeOf(parts: seq<string>, glue: char, sep: string)
    requires forall k :: 0 <= k < |parts| ==> FreeOf(parts[k], sep)
    requires glue !in sep && |sep| > 0
    ensures FreeOf(Join(parts, [glue]), sep)
    decreases |parts|
  {
    if |parts| >= 2 {
      JoinFreeOf(parts[1..], glue, sep);
      FreeOfAround(parts[0], glue, Join(parts[1..], [glue]), sep);
    }
  }

  /** Joining one more piece adds the separator and that piece at the end. */
  lemma {:induction false} JoinSnoc(parts: seq<string>, last: string, sep: string)
    requires parts != []
    ensures Join(parts + [last], sep) == Join(parts, sep) + sep + last
    decreases |parts|
  {
    if |parts| == 1 {
      assert (parts + [last])[1..] == [last];
    } else {
      JoinSnoc(parts[1..], last, sep);
      assert (parts + [last])[1..] == parts[1..] + [last];
    }
  }

  /** The first `i + 1` elements are the first `i` followed by the next one. */
  lemma TakeSnoc<T>(s: seq<T>, i: nat)
    requires i < |s|
    ensures s[..i + 1] == s[..i] + [s[i]]
  {
  }

  /** A join ends with the last character of its last piece, when that piece is not empty. */
  lemma {:induction false} JoinLast(parts: seq<string>, sep: string)
    requires |parts| >= 1 && parts[|parts| - 1] != []
    ensures Join(parts, sep) != []
    ensures Join(parts, sep)[|Join(parts, sep)| - 1] == parts[|parts| - 1][|parts[|parts| - 1]| - 1]
    decreases |parts|
  {
    if |parts| >= 2 {
      JoinLast(parts[1..], sep);
    }
  }

  /** A join starts with the first character of its first piece and ends with the
      last character of its last piece. */
  lemma JoinEnds(parts: seq<string>, sep: string)
    requires |parts| >= 1 && parts[0] != [] && parts[|parts| - 1] != []
    ensures Join(parts, sep) != []
    ensures Join(parts, sep)[0] == parts[0][0]
    ensures Join(parts, sep)[|Join(parts, sep)| - 1] == parts[|parts| - 1][|parts[|parts| - 1]| - 1]
  {
    JoinLast(parts, sep);
  }

  /** Splitting cuts at the first occurrence of the separator. */
  lemma SplitAtFirst(s: string, sep: string, i: nat)
    requires |sep| > 0 && OccursAt(s, sep, i)
    requires forall k :: 0 <= k < i ==> !OccursAt(s, sep, k)
    ensures Split(s, sep) == [s[..i]] + Split(s[i + |sep|..], sep)
  {
    FindFromFinds(s, sep, 0, i);
    SplitAtFound(s, sep);
  }

  lemma SplitAtFound(s: string, sep: string)
    requires |sep| > 0 && FindFrom(s, sep, 0).Some?
    ensures var i := FindFrom(s, sep, 0).value; Split(s, sep) == [s[..i]] + Split(s[i + |sep|..], sep)
  {
  }

  /** A string without the separator splits into itself alone. */
  lemma SplitOfFree(s: string, sep: string)
    requires |sep| > 0 && FreeOf(s, sep)
    ensures Split(s, sep) == [s]
  {
    var r := FindFrom(s, sep, 0);
    assert r.Some? ==> OccursAt(s, sep, r.value);
  }

  /** Splitting a join gives back the pieces, when none of them contains the
      separator or ends in one of its characters (so no occurrence can straddle
      a piece and the separator that follows it). */
  lemma {:induction false} SplitOfJoin(parts: seq<string>, sep: string)
    requires |sep| > 0 && |parts| >= 1
    requires forall k :: 0 <= k < |parts| ==> FreeOf(parts[k], sep)
    requires forall k :: 0 <= k < |parts| ==> parts[k] != [] && parts[k][|parts[k]| - 1] !in sep
    ensures Split(Join(parts, sep), sep) == parts
    decreases |parts|
  {
    if |parts| == 1 {
      SplitOfFree(parts[0], sep);
    } else {
      SplitAfterPiece(parts[0], sep, Join(parts[1..], sep));
      SplitOfJoin(parts[1..], sep);
    }
  }

  /** A first piece free of the separator, and not ending in one of its characters,
      is split off whole. */
  lemma SplitAfterPiece(p: string, sep: string, rest: string)
    requires |sep| > 0 && FreeOf(p, sep) && p != [] && p[|p| - 1] !in sep
    ensures Split(p + sep + rest, sep) == [p] + Split(rest, sep)
  {
    var s := p + sep + rest;
    FirstOccurrenceAfter(p, sep, rest);
    SplitAtFirst(s, sep, |p|);
    assert s[..|p|] == p && s[|p| + |sep|..] == rest;
  }

  /** In `p + sep + rest` the separator first occurs right after `p`, when `p` does
      not contain it and does not end in one of its characters. */
  lemma FirstOccurrenceAfter(p: string, sep: string, rest: string)
    requires FreeOf(p, sep) && p != [] && p[|p| - 1] !in sep
    ensures OccursAt(p + sep + rest, sep, |p|)
    ensures forall k :: 0 <= k < |p| ==> !OccursAt(p + sep + rest, sep, k)
  {
    var s := p + sep + rest;
    assert s[|p|..|p| + |sep|] == sep;
    forall k | 0 <= k < |p| ensures !OccursAt(s, sep, k) {
      if k + |sep| <= |p| {
        assert p[k..k + |sep|] == s[k..k + |sep|];
        assert !OccursAt(p, sep, k);
      } else if k + |sep| <= |s| {
        assert s[k..k + |sep|][|p| - 1 - k] == p[|p| - 1];
      }
    }
  }

  /** The line `tag + " " + v` carries `tag`, and the value after the tag reads back
      as `v`. */
  lemma TaggedLineValue(tag: string, v: string)
    requires IsTrimmed(v)
    ensures StartsWith(tag + " " + v, tag) && Trim((tag + " " + v)[|tag|..]) == v
  {
    var line := tag + " " + v;
    assert line[..|tag|] == tag;
    assert line[|tag|..] == [' '] + v;
    TrimSkipsLeadingSpace(' ', v);
    TrimOfTrimmed(v);
  }

  /** The same holds of the trimmed line, when the tag has no white space at its ends. */
  lemma TrimmedTaggedLineValue(tag: string, v: string)
    requires tag != [] && IsTrimmed(tag) && IsTrimmed(v)
    ensures StartsWith(Trim(tag + " " + v), tag) && Trim(Trim(tag + " " + v)[|tag|..]) == v
  {
    var line := tag + " " + v;
    TaggedLineValue(tag, v);
    if v == [] {
      assert line == tag + [' '];
      assert TrimStart(line) == line;
      assert line[..|line| - 1] == tag;
      assert TrimEnd(line) == TrimEnd(tag);
      TrimOfTrimmed(tag);
      assert Trim(line) == tag;
    } else {
      assert IsTrimmed(line);
      TrimOfTrimmed(line);
    }
  }

  /** `String.prototype.substring(0, limit)` for a non-negative limit. */
  function Prefix(s: string, limit: nat): (r: string)
    ensures |r| == Min(|s|, limit) && r == s[..|r|]
  {
    if |s| <= limit then s else s[..limit]
  }

  /** `Array.prototype.slice(0, end)`: a negative `end` counts back from the end. */
  function SliceTo<T>(s: seq<T>, end: int): (r: seq<T>)
    ensures |r| == (if end >= 0 then Min(end, |s|) else Max(|s| + end, 0))
    ensures r == s[..|r|]
  {
    if end >= 0 then (if end <= |s| then s[..end] else s)
    else if |s| + end >= 0 then s[..|s| + end]
    else []
  }

  /** Lower-casing of the ASCII letters; other characters are left as they are. */
  function LowerAscii(c: char): char {
    if 'A' <= c <= 'Z' then (c as int - 'A' as int + 'a' as int) as char else c
  }

  /** `String.prototype.toLowerCase`, restricted to ASCII letters. */
  function ToLowerAscii(s: string): (r: string)
    ensures |r| == |s|
    ensures forall k :: 0 <= k < |s| ==> r[k] == LowerAscii(s[k])
  {
    seq(|s|, k requires 0 <= k < |s| => LowerAscii(s[k]))
  }

  predicate IsDigit(c: char) {
    '0' <= c <= '9'
  }

  predicate IsDecimal(s: string) {
    forall k :: 0 <= k < |s| ==> IsDigit(s[k])
  }

  function DigitChar(d: nat): (c: char)
    requires d < 10
    ensures IsDigit(c)
  {
    ('0' as int + d) as char
  }

  function DigitValue(c: char): (d: nat)
    requires IsDigit(c)
    ensures d < 10 && DigitChar(d) == c
  {
    c as int - '0' as int
  }

  /** The decimal numeral of `n`, as `${n}` renders a non-negative integer: digits only,
      with no leading zero. */
  function NatToDecimal(n: nat): (r: string)
    ensures r != [] && IsDecimal(r)
    ensures |r| > 1 ==> r[0] != '0'
    decreases n
  {
    if n < 10 then [DigitChar(n)] else NatToDecimal(n / 10) + [DigitChar(n % 10)]
  }

  /** The value of a decimal numeral (0 for the empty one). */
  function DecimalValue(s: string): nat
    requires IsDecimal(s)
  {
    if s == [] then 0 else 10 * DecimalValue(s[..|s| - 1]) + DigitValue(s[|s| - 1])
  }

  /** Reading back a rendered numeral gives the number. */
  lemma {:induction false} DecimalRoundTrip(n: nat)
    ensures DecimalValue(NatToDecimal(n)) == n
    decreases n
  {
    var r := NatToDecimal(n);
    if n >= 10 {
      DecimalRoundTrip(n / 10);
      assert r[..|r| - 1] == NatToDecimal(n / 10);
    }
  }

  /** `${i}` for an integer `i`. */
  function IntToDecimal(i: int): (r: string)
    ensures r != []
    ensures i < 0 <==> r[0] == '-'
  {
    if i < 0 then "-" + NatToDecimal(-i) else NatToDecimal(i)
  }
}
