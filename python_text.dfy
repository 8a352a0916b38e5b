/**
 * The handful of Python `str` operations the extractors rely on, with
 * Python's semantics: `strip()`, `split('\n')`, `'\n'.join(...)`,
 * `readlines()` and slicing of the split result.  Strings are `seq<char>`
 * as produced by text-mode I/O (universal newlines already applied).
 */
module PyText {

  /** Python's `str.isspace()` for one character: the characters that the
      argument-less `strip()` removes. */
  predicate IsSpace(c: char) {
    || c == ' ' || c == '\t' || c == '\n' || c == '\r' || c == '\U{0B}' || c == '\U{0C}'
    || ('\U{1C}' <= c <= '\U{1F}')
    || c == '\U{85}' || c == '\U{A0}' || c == '\U{1680}'
    || ('\U{2000}' <= c <= '\U{200A}')
    || c == '\U{2028}' || c == '\U{2029}' || c == '\U{202F}' || c == '\U{205F}' || c == '\U{3000}'
  }

  predicate AllSpace(s: string) {
    forall k :: 0 <= k < |s| ==> IsSpace(s[k])
  }

  /** `str.lstrip()`: drops the whitespace prefix and nothing else. */
  function TrimStart(s: string): (r: string)
    ensures |r| <= |s| && r == s[|s| - |r|..]
    ensures AllSpace(s[..|s| - |r|])
    ensures r == [] || !IsSpace(r[0])
  {
    if s != [] && IsSpace(s[0]) then TrimStart(s[1..]) else s
  }

  /** `str.rstrip()`: drops the whitespace suffix and nothing else. */
  function TrimEnd(s: string): (r: string)
    ensures |r| <= |s| && r == s[..|r|]
    ensures AllSpace(s[|r|..])
    ensures r == [] || !IsSpace(r[|r| - 1])
  {
    if s != [] && IsSpace(s[|s| - 1]) then TrimEnd(s[..|s| - 1]) else s
  }

  /** `str.strip()`: the result is the slice of `s` left after removing
      whitespace on both sides; it neither starts nor ends in whitespace. */
  function Strip(s: string): (r: string)
    ensures Padded(s, r)
    ensures r == [] || (!IsSpace(r[0]) && !IsSpace(r[|r| - 1]))
  {
    var t := TrimStart(s);
    var r := TrimEnd(t);
    TrimmedSlice(s, t, r);
    r
  }

  /** `s` is `r` with whitespace (possibly none) added on both sides. */
  predicate Padded(s: string, r: string) {
    exists i :: 0 <= i <= |s| - |r| && r == s[i..i + |r|] && AllSpace(s[..i]) && AllSpace(s[i + |r|..])
  }

  /** Removing whitespace first at the front, then at the back, leaves a
      slice of `s` with whitespace on both sides of it. */
  lemma {:induction false} TrimmedSlice(s: string, t: string, r: string)
    requires |t| <= |s| && t == s[|s| - |t|..] && AllSpace(s[..|s| - |t|])
    requires |r| <= |t| && r == t[..|r|] && AllSpace(t[|r|..])
    requires t == [] || !IsSpace(t[0])
    requires r == [] || !IsSpace(r[|r| - 1])
    ensures r == [] || (!IsSpace(r[0]) && !IsSpace(r[|r| - 1]))
    ensures Padded(s, r)
  {
    var i := |s| - |t|;
    assert t[|r|..] == s[i + |r|..];
    assert r == s[i..i + |r|] && AllSpace(s[..i]) && AllSpace(s[i + |r|..]);
  }

  lemma {:induction false} TrimStartOfTrimmed(s: string)
    requires s == [] || !IsSpace(s[0])
    ensures TrimStart(s) == s
  {
  }

  /** Stripping twice is stripping once. */
  lemma {:induction false} StripIdempotent(s: string)
    ensures Strip(Strip(s)) == Strip(s)
  {
    var r := Strip(s);
    TrimStartOfTrimmed(r);
  }

  /** A string strips to "" exactly when it is all whitespace: this is how a
      blank line of the commands file becomes an empty entry. */
  lemma {:induction false} StripEmptyIffBlank(s: string)
    ensures Strip(s) == [] <==> AllSpace(s)
  {
    if AllSpace(s) {
      if s != [] {
        assert AllSpace(s[1..]) by {
          forall k | 0 <= k < |s[1..]| ensures IsSpace(s[1..][k]) { assert s[1..][k] == s[k + 1]; }
        }
        StripEmptyIffBlank(s[1..]);
      }
    }
  }

  /** A trailing line break never survives `strip()`. */
  lemma {:induction false} StripDropsNewline(s: string)
    ensures Strip(s + "\n") == Strip(s)
  {
    TrimStartAppendNewline(s);
    var t := TrimStart(s);
    if t != [] {
      var u := t + "\n";
      assert IsSpace(u[|u| - 1]);
      assert u[..|u| - 1] == t;
      assert TrimEnd(u) == TrimEnd(t);
    }
  }

  lemma {:induction false} TrimStartAppendNewline(s: string)
    ensures TrimStart(s + "\n") == if TrimStart(s) == [] then [] else TrimStart(s) + "\n"
    decreases |s|
  {
    if s == [] {
    } else if IsSpace(s[0]) {
      assert (s + "\n")[1..] == s[1..] + "\n";
      TrimStartAppendNewline(s[1..]);
    } else {
      assert (s + "\n")[0] == s[0];
    }
  }

  /** Number of occurrences of `c` in `s`. */
  function Count(s: string, c: char): (n: nat)
    ensures n <= |s|
    ensures n == 0 <==> c !in s
  {
    if s == [] then 0 else (if s[0] == c then 1 else 0) + Count(s[1..], c)
  }

  lemma {:induction false} CountAppend(a: string, b: string, c: char)
    ensures Count(a + b, c) == Count(a, c) + Count(b, c)
  {
    if a == [] {
      assert a + b == b;
    } else {
      assert (a + b)[0] == a[0];
      assert (a + b)[1..] == a[1..] + b;
      CountAppend(a[1..], b, c);
    }
  }

  /** Index of the first `c` in `s`, or `|s|` when there is none. */
  function IndexOf(s: string, c: char): (i: nat)
    ensures i <= |s|
    ensures c !in s[..i]
    ensures i < |s| ==> s[i] == c
  {
    if s == [] then 0
    else if s[0] == c then 0
    else
      var j := IndexOf(s[1..], c);
      assert s[..j + 1] == [s[0]] + s[1..][..j];
      j + 1
  }

  /** An occurrence with no earlier one is the one `IndexOf` finds. */
  lemma {:induction false} IndexOfFirst(s: string, c: char, j: nat)
    requires j < |s| && s[j] == c && c !in s[..j]
    ensures IndexOf(s, c) == j
  {
    if j > 0 {
      assert s[0] == s[..j][0];
      assert s[1..][..j - 1] == s[..j][1..];
      IndexOfFirst(s[1..], c, j - 1);
    }
  }

  /** With no occurrence at all, `IndexOf` runs to the end. */
  lemma {:induction false} IndexOfNone(s: string, c: char)
    requires c !in s
    ensures IndexOf(s, c) == |s|
  {
    if s != [] {
      assert s[1..][..] == s[1..];
      IndexOfNone(s[1..], c);
    }
  }

  /** `sep.join(parts)` for a one-character separator. */
  function Join(parts: seq<string>, sep: char): string
  {
    if |parts| == 0 then ""
    else if |parts| == 1 then parts[0]
    else parts[0] + [sep] + Join(parts[1..], sep)
  }

  /** `s.split(sep)` for a one-character separator: never empty (Python gives
      `[""]` for `""`), no piece contains the separator, the pieces joined
      back give `s`, and there is one more piece than separators. */
  function Split(s: string, sep: char): (pieces: seq<string>)
    ensures |pieces| >= 1
    ensures forall k :: 0 <= k < |pieces| ==> sep !in pieces[k]
    ensures Join(pieces, sep) == s
    ensures |pieces| == Count(s, sep) + 1
    decreases |s|
  {
    var i := IndexOf(s, sep);
    if i == |s| then
      [s]
    else
      var rest := Split(s[i + 1..], sep);
      SplitStep(s, sep, i, rest);
      [s[..i]] + rest
  }

  lemma {:induction false} SplitStep(s: string, sep: char, i: nat, rest: seq<string>)
    requires i < |s| && s[i] == sep && sep !in s[..i]
    requires |rest| >= 1 && Join(rest, sep) == s[i + 1..] && |rest| == Count(s[i + 1..], sep) + 1
    ensures Join([s[..i]] + rest, sep) == s
    ensures |[s[..i]] + rest| == Count(s, sep) + 1
  {
    assert s == s[..i] + [sep] + s[i + 1..];
    JoinCons(s[..i], rest, sep);
    CountAround(s[..i], s[i + 1..], sep);
  }

  /** Joining a first piece in front of others puts one separator after it. */
  lemma {:induction false} JoinCons(p: string, rest: seq<string>, sep: char)
    requires |rest| >= 1
    ensures Join([p] + rest, sep) == p + [sep] + Join(rest, sep)
  {
    assert ([p] + rest)[0] == p;
    assert ([p] + rest)[1..] == rest;
  }

  /** A separator between two texts, the first of them free of it, adds one
      to the count of the second. */
  lemma {:induction false} CountAround(a: string, b: string, sep: char)
    requires sep !in a
    ensures Count(a + [sep] + b, sep) == Count(b, sep) + 1
  {
    assert [sep][1..] == [];
    assert Count([sep], sep) == 1;
    CountAppend(a, [sep], sep);
    CountAppend(a + [sep], b, sep);
  }

  /** The other half of the round trip: splitting a join of separator-free
      pieces gives the pieces back. */
  lemma {:induction false} SplitJoin(parts: seq<string>, sep: char)
    requires |parts| >= 1
    requires forall k :: 0 <= k < |parts| ==> sep !in parts[k]
    ensures Split(Join(parts, sep), sep) == parts
  {
    var s := Join(parts, sep);
    if |parts| == 1 {
      IndexOfNone(s, sep);
    } else {
      var p := parts[0];
      var tail := Join(parts[1..], sep);
      assert s == p + [sep] + tail;
      assert s[..|p|] == p;
      IndexOfFirst(s, sep, |p|);
      assert s[|p| + 1..] == tail;
      SplitJoin(parts[1..], sep);
    }
  }

  /** Joining one more piece puts one separator before it. */
  lemma {:induction false} JoinSnoc(parts: seq<string>, q: string, sep: char)
    requires |parts| >= 1
    ensures Join(parts + [q], sep) == Join(parts, sep) + [sep] + q
  {
    if |parts| == 1 {
      assert parts + [q] == [parts[0], q];
      assert [parts[0], q][1..] == [q];
    } else {
      assert (parts + [q])[0] == parts[0];
      assert (parts + [q])[1..] == parts[1..] + [q];
      JoinSnoc(parts[1..], q, sep);
    }
  }

  /** Joining separator-free pieces puts exactly one separator between
      neighbours. */
  lemma {:induction false} JoinCount(parts: seq<string>, sep: char)
    requires |parts| >= 1
    requires forall k :: 0 <= k < |parts| ==> sep !in parts[k]
    ensures Count(Join(parts, sep), sep) == |parts| - 1
  {
    SplitJoin(parts, sep);
  }

  /** Whatever the pieces, a join of two or more of them holds a separator. */
  lemma {:induction false} JoinHasSeparator(parts: seq<string>, sep: char)
    requires |parts| >= 2
    ensures sep in Join(parts, sep)
  {
    assert Join(parts, sep)[|parts[0]|] == sep;
  }

  /** Joining a leading slice of the pieces gives a prefix of the whole join,
      followed there by a separator when pieces were left out. */
  lemma {:induction false} JoinPrefix(parts: seq<string>, k: nat, sep: char)
    requires 1 <= k <= |parts|
    ensures Join(parts[..k], sep) <= Join(parts, sep)
    ensures k < |parts| ==> |Join(parts[..k], sep)| < |Join(parts, sep)|
                            && Join(parts, sep)[|Join(parts[..k], sep)|] == sep
  {
    if k == |parts| {
      assert parts[..k] == parts;
    } else if k == 1 {
      assert parts[..1] == [parts[0]];
      assert Join(parts, sep) == parts[0] + ([sep] + Join(parts[1..], sep));
    } else {
      assert parts[..k][0] == parts[0];
      assert parts[..k][1..] == parts[1..][..k - 1];
      JoinPrefix(parts[1..], k - 1, sep);
      var rest := Join(parts[1..], sep);
      var front := Join(parts[1..][..k - 1], sep);
      assert rest == front + rest[|front|..];
      assert Join(parts, sep) == parts[0] + [sep] + front + rest[|front|..];
    }
  }

  /** `'\n'.join(s.split('\n')[:n])` for `n >= 1`: the first `n` lines of `s`.
      The result has fewer than `n` line breaks, is a prefix of `s`, and is
      all of `s` when `s` already has fewer than `n` line breaks. */
  function FirstLines(s: string, n: nat): (r: string)
    requires n >= 1
    ensures Count(r, '\n') < n
    ensures r <= s
    ensures Count(s, '\n') < n ==> r == s
    ensures Count(s, '\n') >= n ==> Count(r, '\n') == n - 1 && |r| < |s| && s[|r|] == '\n'
  {
    var lines := Split(s, '\n');
    var k := if n < |lines| then n else |lines|;
    assert forall j :: 0 <= j < k ==> '\n' !in lines[..k][j];
    JoinCount(lines[..k], '\n');
    JoinPrefix(lines, k, '\n');
    assert k == |lines| ==> lines[..k] == lines;
    Join(lines[..k], '\n')
  }

  /** `s.split('\n')[0]`: the first line holds no line break, is a prefix of
      `s`, runs up to the first line break of `s` when there is one, and is
      all of `s` otherwise. */
  function FirstLine(s: string): (r: string)
    ensures '\n' !in r
    ensures r <= s
    ensures '\n' in s ==> |r| < |s| && s[|r|] == '\n'
    ensures '\n' !in s ==> r == s
  {
    var lines := Split(s, '\n');
    JoinPrefix(lines, 1, '\n');
    assert lines[..1] == [lines[0]];
    lines[0]
  }

  /** The list comprehension `[x for x in lines if x and x != name]`. */
  function Keep(lines: seq<string>, name: string): (kept: seq<string>)
    ensures |kept| <= |lines|
    ensures forall x :: x in kept <==> x in lines && x != "" && x != name
  {
    if lines == [] then []
    else (if lines[0] != "" && lines[0] != name then [lines[0]] else []) + Keep(lines[1..], name)
  }

  /** The filter keeps order: filtering a concatenation is concatenating the
      filtered parts. */
  lemma {:induction false} KeepAppend(a: seq<string>, b: seq<string>, name: string)
    ensures Keep(a + b, name) == Keep(a, name) + Keep(b, name)
  {
    if a == [] {
      assert a + b == b;
    } else {
      assert (a + b)[0] == a[0];
      assert (a + b)[1..] == a[1..] + b;
      KeepAppend(a[1..], b, name);
    }
  }

  /** `s` consists of separators only (the empty string included). */
  predicate OnlySeparators(s: string, sep: char) {
    forall i :: 0 <= i < |s| ==> s[i] == sep
  }

  /** Joining empty pieces leaves only separators. */
  lemma {:induction false} JoinBlanks(parts: seq<string>, sep: char)
    requires forall k :: 0 <= k < |parts| ==> parts[k] == ""
    ensures OnlySeparators(Join(parts, sep), sep)
  {
    if |parts| >= 2 {
      JoinBlanks(parts[1..], sep);
      assert Join(parts, sep) == [sep] + Join(parts[1..], sep);
    }
  }

  /** In a string of separators only, every character counts. */
  lemma {:induction false} CountOnlySeparators(p: string, sep: char)
    requires OnlySeparators(p, sep)
    ensures Count(p, sep) == |p|
  {
    if p != [] {
      assert p[0] == sep;
      assert OnlySeparators(p[1..], sep) by {
        forall i | 0 <= i < |p[1..]| ensures p[1..][i] == sep { assert p[1..][i] == p[i + 1]; }
      }
      CountOnlySeparators(p[1..], sep);
    }
  }

  /** Separator-free pieces whose join is separators only are all empty. */
  lemma {:induction false} JoinOnlySeparators(parts: seq<string>, sep: char)
    requires forall k :: 0 <= k < |parts| ==> sep !in parts[k]
    requires OnlySeparators(Join(parts, sep), sep)
    ensures forall k :: 0 <= k < |parts| ==> parts[k] == ""
  {
    if |parts| == 1 {
      CountOnlySeparators(parts[0], sep);
    } else if |parts| >= 2 {
      var rest := Join(parts[1..], sep);
      var whole := Join(parts, sep);
      assert whole == parts[0] + [sep] + rest;
      assert forall i :: 0 <= i < |parts[0]| ==> parts[0][i] == whole[i];
      CountOnlySeparators(parts[0], sep);
      assert forall i :: 0 <= i < |rest| ==> rest[i] == whole[|parts[0]| + 1 + i];
      JoinOnlySeparators(parts[1..], sep);
      assert forall k :: 1 <= k < |parts| ==> parts[k] == parts[1..][k - 1];
    }
  }

  /** Every piece is the empty string. */
  predicate AllBlank(parts: seq<string>) {
    forall k :: 0 <= k < |parts| ==> parts[k] == ""
  }

  /** Every piece of `s.split(sep)` is empty exactly when `s` is made of
      separators only. */
  lemma {:induction false} BlankPieces(s: string, sep: char)
    ensures AllBlank(Split(s, sep)) <==> OnlySeparators(s, sep)
  {
    var pieces := Split(s, sep);
    if AllBlank(pieces) {
      JoinBlanks(pieces, sep);
    }
    if OnlySeparators(s, sep) {
      JoinOnlySeparators(pieces, sep);
    }
  }

  /** `f.readlines()`: the lines of `s` with their terminating `'\n'` kept;
      a final line without one is kept as it is, and `""` has no lines. */
  function ReadLines(s: string): (lines: seq<string>)
    ensures Concat(lines) == s
    ensures forall k :: 0 <= k < |lines| ==> lines[k] != ""
    decreases |s|
  {
    if s == [] then []
    else
      var i := IndexOf(s, '\n');
      if i == |s| then
        assert Concat([s][1..]) == "";
        [s]
      else
        var first, rest := s[..i + 1], ReadLines(s[i + 1..]);
        assert ([first] + rest)[1..] == rest;
        assert s == first + s[i + 1..];
        [first] + rest
  }

  function Concat(parts: seq<string>): string {
    if parts == [] then "" else parts[0] + Concat(parts[1..])
  }

  /** What `readlines()` promises: the lines concatenate back to the text,
      none is empty, and each is one piece of `s.split('\n')`, with its
      `'\n'` unless it is the unterminated last line. */
  lemma {:induction false} ReadLinesSplit(s: string)
    ensures Concat(ReadLines(s)) == s
    ensures |ReadLines(s)| == if s == [] || s[|s| - 1] == '\n' then Count(s, '\n') else Count(s, '\n') + 1
    ensures forall k :: 0 <= k < |ReadLines(s)| ==>
              ReadLines(s)[k] != ""
              && (ReadLines(s)[k] == Split(s, '\n')[k] + "\n"
                  || (k == |ReadLines(s)| - 1 && ReadLines(s)[k] == Split(s, '\n')[k]))
  {
    ReadLinesCount(s);
    ReadLinesPieces(s);
  }

  /** One step of `readlines()`: a text with a line break at `i`, the first
      one, starts with the line up to and including it. */
  lemma {:induction false} ReadLinesStep(s: string, i: nat)
    requires i < |s| && i == IndexOf(s, '\n')
    ensures ReadLines(s) == [s[..i + 1]] + ReadLines(s[i + 1..])
    ensures s == s[..i + 1] + s[i + 1..]
    ensures s[..i + 1] == s[..i] + "\n"
  {
    assert s != [];
    assert s[i] == '\n';
    assert s[..i + 1] == s[..i] + [s[i]];
  }

  lemma {:induction false} ReadLinesCount(s: string)
    ensures |ReadLines(s)| == if s == [] || s[|s| - 1] == '\n' then Count(s, '\n') else Count(s, '\n') + 1
    decreases |s|
  {
    if s != [] {
      var i := IndexOf(s, '\n');
      if i == |s| {
        assert Count(s, '\n') == 0;
      } else {
        var rest := s[i + 1..];
        ReadLinesStep(s, i);
        ReadLinesCount(rest);
        CountAppend(s[..i], "\n", '\n');
        CountAppend(s[..i + 1], rest, '\n');
        assert Count(s[..i], '\n') == 0;
        assert rest != [] ==> s[|s| - 1] == rest[|rest| - 1];
      }
    }
  }

  lemma {:induction false} ReadLinesPieces(s: string)
    ensures |ReadLines(s)| <= |Split(s, '\n')|
    ensures forall k :: 0 <= k < |ReadLines(s)| ==>
              ReadLines(s)[k] != ""
              && (ReadLines(s)[k] == Split(s, '\n')[k] + "\n"
                  || (k == |ReadLines(s)| - 1 && ReadLines(s)[k] == Split(s, '\n')[k]))
    decreases |s|
  {
    if s != [] {
      var i := IndexOf(s, '\n');
      if i == |s| {
        assert ReadLines(s) == [s];
        assert Split(s, '\n') == [s];
      } else {
        var rest := s[i + 1..];
        ReadLinesStep(s, i);
        ReadLinesPieces(rest);
        var lines := ReadLines(s);
        assert lines[1..] == ReadLines(rest);
        assert Split(s, '\n') == [s[..i]] + Split(rest, '\n');
        forall k | 0 <= k < |lines|
          ensures lines[k] != ""
          ensures lines[k] == Split(s, '\n')[k] + "\n"
                  || (k == |lines| - 1 && lines[k] == Split(s, '\n')[k])
        {
          if k > 0 {
            assert lines[k] == ReadLines(rest)[k - 1];
            assert Split(s, '\n')[k] == Split(rest, '\n')[k - 1];
          }
        }
      }
    }
  }
}
