/**
 * The Python `str` operations that the wrapper relies on, modelled on
 * `seq<char>`: `splitlines()`, `split()`, `split(sep)`, `replace`,
 * `endswith`, the `in` substring test, `int(text)` and `str(n)`.
 */
module PyStr {
  import opened Results

  /** `c.isspace()`: the characters Python treats as whitespace. */
  predicate IsSpace(c: char) {
    || c == ' '
    || ('\t' <= c <= '\r')
    || ('\U{1c}' <= c <= '\U{1f}')
    || c == '\U{85}' || c == '\U{a0}' || c == '\U{1680}'
    || ('\U{2000}' <= c <= '\U{200a}')
    || c == '\U{2028}' || c == '\U{2029}' || c == '\U{202f}' || c == '\U{205f}' || c == '\U{3000}'
  }

  /** The line boundaries recognised by `str.splitlines()`. */
  predicate IsLineBreak(c: char) {
    || c == '\n' || c == '\r' || c == '\U{b}' || c == '\U{c}'
    || ('\U{1c}' <= c <= '\U{1e}')
    || c == '\U{85}' || c == '\U{2028}' || c == '\U{2029}'
  }

  predicate IsDigit(c: char) {
    '0' <= c <= '9'
  }

  /** No character of `s` satisfies `p`. */
  ghost predicate NoneIn(s: string, p: char -> bool) {
    forall i :: 0 <= i < |s| ==> !p(s[i])
  }

  /** Length of the longest prefix of `s` with no character satisfying `stop`. */
  function Span(s: string, stop: char -> bool): (n: nat)
    ensures n <= |s|
    ensures NoneIn(s[..n], stop)
    ensures n < |s| ==> stop(s[n])
  {
    if s == [] || stop(s[0]) then 0 else 1 + Span(s[1..], stop)
  }

  lemma {:induction false} SpanOfPrefix(w: string, t: string, stop: char -> bool)
    requires NoneIn(w, stop)
    requires t != [] && stop(t[0])
    ensures Span(w + t, stop) == |w|
  {
    if w != [] {
      assert (w + t)[1..] == w[1..] + t;
      SpanOfPrefix(w[1..], t, stop);
    }
  }

  /** A text with no stop character is spanned whole. */
  lemma {:induction false} SpanOfWhole(w: string, stop: char -> bool)
    requires NoneIn(w, stop)
    ensures Span(w, stop) == |w|
    decreases |w|
  {
    if w != [] {
      SpanOfWhole(w[1..], stop);
    }
  }

  // ---------------------------------------------------------------------
  // Substring tests

  predicate StartsWith(s: string, prefix: string) {
    |prefix| <= |s| && s[..|prefix|] == prefix
  }

  /** `s.endswith(suffix)` */
  predicate EndsWith(s: string, suffix: string) {
    |suffix| <= |s| && s[|s| - |suffix|..] == suffix
  }

  /** `s.endswith(suffix)` holds exactly when `s` is some text followed by `suffix`. */
  lemma EndsWithAppended(s: string, suffix: string)
    ensures EndsWith(s, suffix) <==> exists front :: s == front + suffix
  {
    if EndsWith(s, suffix) {
      assert s == s[..|s| - |suffix|] + suffix;
    }
  }

  /** `pattern in s` */
  predicate Contains(s: string, pattern: string)
    decreases |s|
  {
    StartsWith(s, pattern) || (s != [] && Contains(s[1..], pattern))
  }

  /** `pattern in s` holds exactly when `pattern` occurs in `s` at some offset. */
  lemma {:induction false} ContainsAtOffset(s: string, pattern: string)
    ensures Contains(s, pattern) <==> exists i :: 0 <= i && i + |pattern| <= |s| && StartsWith(s[i..], pattern)
    decreases |s|
  {
    assert s[0..] == s;
    if s != [] {
      ContainsAtOffset(s[1..], pattern);
      if Contains(s[1..], pattern) {
        var i :| 0 <= i && i + |pattern| <= |s[1..]| && StartsWith(s[1..][i..], pattern);
        assert s[1..][i..] == s[i + 1..];
      }
      if i :| 0 < i && i + |pattern| <= |s| && StartsWith(s[i..], pattern) {
        assert s[1..][i - 1..] == s[i..];
      }
    }
  }

  // ---------------------------------------------------------------------
  // str.splitlines()

  /** `s.splitlines()`: the lines of `s` without their line boundaries;
      "\r\n" counts as one boundary and a final boundary opens no new line. */
  function SplitLines(s: string): (lines: seq<string>)
    ensures forall i :: 0 <= i < |lines| ==> NoneIn(lines[i], IsLineBreak)
    decreases |s|
  {
    if s == [] then []
    else
      var n := Span(s, IsLineBreak);
      if n == |s| then [s]
      else
        var width := if s[n] == '\r' && n + 1 < |s| && s[n + 1] == '\n' then 2 else 1;
        [s[..n]] + SplitLines(s[n + width..])
  }

  /** A line ended by a boundary other than "\r" is split off as it is. */
  lemma SplitLinesOfLine(line: string, brk: char, rest: string)
    requires NoneIn(line, IsLineBreak)
    requires IsLineBreak(brk) && brk != '\r'
    ensures SplitLines(line + [brk] + rest) == [line] + SplitLines(rest)
  {
    var s := line + [brk] + rest;
    assert s == line + ([brk] + rest);
    SpanOfPrefix(line, [brk] + rest, IsLineBreak);
    var n := Span(s, IsLineBreak);
    assert n == |line| && s[n] == brk;
    assert s[..n] == line;
    assert s[n + 1..] == rest;
  }

  /** A line ended by "\r\n" is split off as it is: the pair is one boundary. */
  lemma SplitLinesOfCRLF(line: string, rest: string)
    requires NoneIn(line, IsLineBreak)
    ensures SplitLines(line + "\r\n" + rest) == [line] + SplitLines(rest)
  {
    var s := line + "\r\n" + rest;
    assert s == line + ("\r\n" + rest);
    SpanOfPrefix(line, "\r\n" + rest, IsLineBreak);
    var n := Span(s, IsLineBreak);
    assert n == |line| && s[n] == '\r' && s[n + 1] == '\n';
    assert s[..n] == line;
    assert s[n + 2..] == rest;
  }

  /** A line ended by a '\r' that no '\n' follows is split off as it is. */
  lemma SplitLinesOfCR(line: string, rest: string)
    requires NoneIn(line, IsLineBreak)
    requires rest == [] || rest[0] != '\n'
    ensures SplitLines(line + ['\r'] + rest) == [line] + SplitLines(rest)
  {
    var s := line + ['\r'] + rest;
    assert s == line + (['\r'] + rest);
    SpanOfPrefix(line, ['\r'] + rest, IsLineBreak);
    var n := Span(s, IsLineBreak);
    assert n == |line| && s[n] == '\r';
    assert s[..n] == line;
    assert s[n + 1..] == rest;
  }

  /** Lines joined with "\n" split back into the same lines, when none of
      them holds a boundary and the last one is not empty (an empty last
      line would be the final boundary, which opens no line). */
  lemma {:induction false} SplitLinesJoinOn(lines: seq<string>)
    requires |lines| >= 1 && lines[|lines| - 1] != []
    requires forall i :: 0 <= i < |lines| ==> NoneIn(lines[i], IsLineBreak)
    ensures SplitLines(JoinOn(lines, '\n')) == lines
  {
    if |lines| == 1 {
      SpanOfWhole(lines[0], IsLineBreak);
    } else {
      SplitLinesJoinOn(lines[1..]);
      SplitLinesOfLine(lines[0], '\n', JoinOn(lines[1..], '\n'));
    }
  }

  // ---------------------------------------------------------------------
  // str.split() and str.split(sep)

  /** `s.split()`: the maximal runs of non-whitespace characters, in order. */
  function Split(s: string): (words: seq<string>)
    ensures forall i :: 0 <= i < |words| ==> words[i] != [] && NoneIn(words[i], IsSpace)
    decreases |s|
  {
    if s == [] then []
    else if IsSpace(s[0]) then Split(s[1..])
    else
      var n := Span(s, IsSpace);
      [s[..n]] + Split(s[n..])
  }

  /** A word followed by whitespace is the first element of `split()`. */
  lemma SplitOfWord(word: string, space: char, rest: string)
    requires word != [] && NoneIn(word, IsSpace)
    requires IsSpace(space)
    ensures Split(word + [space] + rest) == [word] + Split(rest)
  {
    var s := word + [space] + rest;
    assert s == word + ([space] + rest);
    SpanOfPrefix(word, [space] + rest, IsSpace);
    var n := Span(s, IsSpace);
    assert n == |word|;
    assert s[..n] == word;
    assert s[n..] == [space] + rest;
    assert s[n..][1..] == rest;
  }

  /** Leading whitespace adds no word. */
  lemma {:induction false} SplitSkipsSpace(ws: string, s: string)
    requires forall i :: 0 <= i < |ws| ==> IsSpace(ws[i])
    ensures Split(ws + s) == Split(s)
    decreases |ws|
  {
    if ws != [] {
      assert (ws + s)[0] == ws[0] && (ws + s)[1..] == ws[1..] + s;
      SplitSkipsSpace(ws[1..], s);
    } else {
      assert ws + s == s;
    }
  }

  /** A word followed by any run of whitespace is the first element of
      `split()`; the run, however long, separates it from the rest. */
  lemma SplitOfWordRun(word: string, ws: string, rest: string)
    requires word != [] && NoneIn(word, IsSpace)
    requires ws != [] && forall i :: 0 <= i < |ws| ==> IsSpace(ws[i])
    ensures Split(word + ws + rest) == [word] + Split(rest)
  {
    assert word + ws + rest == word + [ws[0]] + (ws[1..] + rest);
    SplitOfWord(word, ws[0], ws[1..] + rest);
    SplitSkipsSpace(ws[1..], rest);
  }

  /** A word with no whitespace splits into itself. */
  lemma LastWord(word: string)
    requires word != [] && NoneIn(word, IsSpace)
    ensures Split(word) == [word]
  {
    SpanOfWhole(word, IsSpace);
    assert word[..|word|] == word && word[|word|..] == [];
  }

  /** Words joined with single spaces split back into the same words. */
  lemma {:induction false} SplitJoinOn(words: seq<string>)
    requires |words| >= 1
    requires forall i :: 0 <= i < |words| ==> words[i] != [] && NoneIn(words[i], IsSpace)
    ensures Split(JoinOn(words, ' ')) == words
  {
    if |words| == 1 {
      LastWord(words[0]);
    } else {
      SplitJoinOn(words[1..]);
      SplitOfWord(words[0], ' ', JoinOn(words[1..], ' '));
    }
  }

  /** `s.split(sep)` for a one-character separator: always at least one part,
      empty parts kept. */
  function SplitOn(s: string, sep: char): (parts: seq<string>)
    ensures |parts| >= 1
    ensures forall i :: 0 <= i < |parts| ==> sep !in parts[i]
    decreases |s|
  {
    if s == [] then [""]
    else
      var rest := SplitOn(s[1..], sep);
      if s[0] == sep then [""] + rest
      else [[s[0]] + rest[0]] + rest[1..]
  }

  /** `sep.join(parts)` */
  function JoinOn(parts: seq<string>, sep: char): string
    requires |parts| >= 1
  {
    if |parts| == 1 then parts[0] else parts[0] + [sep] + JoinOn(parts[1..], sep)
  }

  /** Joining the parts back with the separator gives the original text. */
  lemma {:induction false} JoinOnSplitOn(s: string, sep: char)
    ensures JoinOn(SplitOn(s, sep), sep) == s
    decreases |s|
  {
    if s != [] {
      var rest := SplitOn(s[1..], sep);
      JoinOnSplitOn(s[1..], sep);
      if s[0] != sep {
        if |rest| > 1 {
          assert ([[s[0]] + rest[0]] + rest[1..])[1..] == rest[1..];
        }
      }
    }
  }

  lemma {:induction false} SplitOnFree(part: string, sep: char)
    requires sep !in part
    ensures SplitOn(part, sep) == [part]
    decreases |part|
  {
    if part != [] {
      SplitOnFree(part[1..], sep);
      assert [part[0]] + part[1..] == part;
    }
  }

  lemma {:induction false} SplitOnSeparated(part: string, sep: char, rest: string)
    requires sep !in part
    ensures SplitOn(part + [sep] + rest, sep) == [part] + SplitOn(rest, sep)
    decreases |part|
  {
    if part != [] {
      var s := part + [sep] + rest;
      assert s[0] == part[0] && s[1..] == part[1..] + [sep] + rest;
      SplitOnSeparated(part[1..], sep, rest);
      assert [part[0]] + part[1..] == part;
    } else {
      assert ([sep] + rest)[1..] == rest;
    }
  }

  /** Splitting a join of separator-free parts gives the parts back. */
  lemma {:induction false} SplitOnJoinOn(parts: seq<string>, sep: char)
    requires |parts| >= 1
    requires forall i :: 0 <= i < |parts| ==> sep !in parts[i]
    ensures SplitOn(JoinOn(parts, sep), sep) == parts
    decreases |parts|
  {
    if |parts| == 1 {
      SplitOnFree(parts[0], sep);
    } else {
      SplitOnJoinOn(parts[1..], sep);
      SplitOnSeparated(parts[0], sep, JoinOn(parts[1..], sep));
    }
  }

  /** `s.replace(from, to)` for one-character `from` and `to`. */
  function Replace(s: string, from: char, to: char): (r: string)
    ensures |r| == |s|
    ensures forall i :: 0 <= i < |s| ==> r[i] == (if s[i] == from then to else s[i])
  {
    if s == [] then [] else [if s[0] == from then to else s[0]] + Replace(s[1..], from, to)
  }

  // ---------------------------------------------------------------------
  // int(text) and str(n)

  /** A base-10 numeral as `int()` accepts it: ASCII digits, with single
      underscores allowed between digits. */
  predicate IsNumeral(s: string) {
    && |s| > 0 && IsDigit(s[0]) && IsDigit(s[|s| - 1])
    && (forall i :: 0 <= i < |s| ==> IsDigit(s[i]) || s[i] == '_')
    && (forall i :: 0 <= i < |s| - 1 ==> s[i] != '_' || s[i + 1] != '_')
  }

  function DigitValue(c: char): (v: nat)
    requires IsDigit(c)
    ensures v < 10
  {
    c as int - '0' as int
  }

  function NumeralValue(s: string): nat
    requires forall i :: 0 <= i < |s| ==> IsDigit(s[i]) || s[i] == '_'
  {
    if s == [] then 0
    else if s[|s| - 1] == '_' then NumeralValue(s[..|s| - 1])
    else 10 * NumeralValue(s[..|s| - 1]) + DigitValue(s[|s| - 1])
  }

  /** `int(text)` on a text without surrounding whitespace: an optional sign
      followed by a numeral; `None` stands for the `ValueError`. */
  function ParseInt(text: string): (r: Option<int>)
  {
    var signed := |text| > 0 && (text[0] == '+' || text[0] == '-');
    var digits := if signed then text[1..] else text;
    if !IsNumeral(digits) then None
    else
      var v := NumeralValue(digits);
      Some(if signed && text[0] == '-' then -(v as int) else v)
  }

  /** A text `int()` accepts ends in a digit and holds nothing but digits,
      `_` and a leading sign. */
  lemma ParseIntAccepts(text: string)
    requires ParseInt(text).Some?
    ensures IsDigit(text[|text| - 1])
    ensures forall k :: 0 <= k < |text| ==>
              IsDigit(text[k]) || text[k] == '_' || (k == 0 && (text[k] == '+' || text[k] == '-'))
  {
    var signed := text[0] == '+' || text[0] == '-';
    var digits := if signed then text[1..] else text;
    assert IsNumeral(digits);
    forall k | 0 <= k < |text|
      ensures IsDigit(text[k]) || text[k] == '_' || (k == 0 && (text[k] == '+' || text[k] == '-'))
    {
      if signed && k > 0 {
        assert text[k] == digits[k - 1];
      }
    }
  }

  /** An underscore between two numerals groups digits and does not change
      the value. */
  lemma NumeralGroups(a: string, b: string)
    requires IsNumeral(a) && IsNumeral(b)
    ensures IsNumeral(a + "_" + b)
    ensures NumeralValue(a + "_" + b) == NumeralValue(a + b)
  {
    var s := a + "_" + b;
    assert s == a + ['_'] + b;
    forall i | 0 <= i < |s| - 1 ensures s[i] != '_' || s[i + 1] != '_' {
      if i < |a| - 1 {
        assert s[i] == a[i] && s[i + 1] == a[i + 1];
      } else if i == |a| - 1 {
        assert s[i] == a[|a| - 1];
      } else if i == |a| {
        assert s[i + 1] == b[0];
      } else {
        assert s[i] == b[i - |a| - 1] && s[i + 1] == b[i - |a|];
      }
    }
    NumeralSkipsUnderscore(a, b);
  }

  lemma {:induction false} NumeralSkipsUnderscore(a: string, b: string)
    requires forall i :: 0 <= i < |a| ==> IsDigit(a[i]) || a[i] == '_'
    requires forall i :: 0 <= i < |b| ==> IsDigit(b[i]) || b[i] == '_'
    ensures NumeralValue(a + ['_'] + b) == NumeralValue(a + b)
    decreases |b|
  {
    if b == [] {
      assert (a + ['_'] + b)[..|a|] == a && a + b == a;
    } else {
      var front := b[..|b| - 1];
      NumeralSkipsUnderscore(a, front);
      assert (a + ['_'] + b)[..|a + ['_'] + b| - 1] == a + ['_'] + front;
      assert (a + b)[..|a + b| - 1] == a + front;
    }
  }

  /** `int()` rejects a leading, a trailing and a doubled underscore, and
      a sign alone. */
  lemma UnderscoresRejected()
    ensures ParseInt("_1") == None && ParseInt("1_") == None
    ensures ParseInt("1__2") == None && ParseInt("-") == None
  {
    var double := "1__2";
    assert double[1] == '_' && double[2] == '_';
  }

  function DigitChar(d: nat): (c: char)
    requires d < 10
    ensures IsDigit(c) && DigitValue(c) == d
  {
    ('0' as int + d) as char
  }

  /** `str(n)` for a non-negative integer: its decimal digits, no leading zero. */
  function NatToString(n: nat): (s: string)
    ensures |s| >= 1
    ensures forall i :: 0 <= i < |s| ==> IsDigit(s[i])
    ensures s[0] == '0' ==> n == 0
  {
    if n < 10 then [DigitChar(n)] else NatToString(n / 10) + [DigitChar(n % 10)]
  }

  /** `str(i)`: the digits of a negative number follow a minus sign. */
  function IntToString(i: int): (s: string)
    ensures |s| >= 1
    ensures forall k :: 0 <= k < |s| ==> IsDigit(s[k]) || (k == 0 && s[k] == '-')
  {
    if i < 0 then "-" + NatToString(-i) else NatToString(i)
  }

  /** `int(str(i)) == i`, negative numbers included. */
  lemma ParseIntIntToString(i: int)
    ensures ParseInt(IntToString(i)) == Some(i)
  {
    if i < 0 {
      ParseIntNegativeToString(i);
    } else {
      assert IntToString(i) == NatToString(i);
      ParseIntNatToString(i);
    }
  }

  lemma ParseIntNegativeToString(i: int)
    requires i < 0
    ensures ParseInt(IntToString(i)) == Some(i)
  {
    var s, digits := IntToString(i), NatToString(-i);
    ParseIntNatToString(-i);
    assert s == "-" + digits;
    assert s[0] == '-' && s[1..] == digits;
    ParseIntNegative(s, digits);
  }

  /** `int("-" + digits)` is minus the value of the digits. */
  lemma ParseIntNegative(text: string, digits: string)
    requires |text| > 0 && text[0] == '-' && text[1..] == digits && IsNumeral(digits)
    ensures ParseInt(text) == Some(-(NumeralValue(digits) as int))
  {
  }

  /** `int(str(n)) == n` */
  lemma {:induction false} ParseIntNatToString(n: nat)
    ensures IsNumeral(NatToString(n))
    ensures NumeralValue(NatToString(n)) == n
    ensures ParseInt(NatToString(n)) == Some(n)
  {
    var s := NatToString(n);
    if n >= 10 {
      ParseIntNatToString(n / 10);
      assert s[..|s| - 1] == NatToString(n / 10);
    }
  }

  /** Equal texts with the same prefix and suffix have the same middle. */
  lemma SameMiddle(prefix: string, a: string, b: string, suffix: string)
    requires prefix + a + suffix == prefix + b + suffix
    ensures a == b
  {
    var s := prefix + a + suffix;
    assert |a| == |b|;
    assert a == s[|prefix|..|prefix| + |a|];
    assert b == (prefix + b + suffix)[|prefix|..|prefix| + |b|];
  }

  /** Distinct numbers print differently. */
  lemma NatToStringInjective(m: nat, n: nat)
    requires NatToString(m) == NatToString(n)
    ensures m == n
  {
    ParseIntNatToString(m);
    ParseIntNatToString(n);
  }
}
