/**
 * The parsing half of `_get_video_duration`: find the first line of the
 * tool's `-info` report that mentions "Duration", take its second
 * whitespace-separated word, read it as four integer fields
 * hours, minutes, seconds and milliseconds separated by '.' or ':', and
 * give the total. The model counts in whole milliseconds.
 */
module Duration {
  import opened Results
  import opened PyStr

  /** The Python exceptions the parse can raise. */
  datatype ParseError =
    | IndexError   // the duration line has fewer than two words
    | ValueError   // the word is not four integer fields

  const Marker := "Duration"

  /** Index of the first line containing `pattern`, or `|lines|` when none does
      (the `next(..., None)` over a generator). */
  function FirstContaining(lines: seq<string>, pattern: string): (k: nat)
    ensures k <= |lines|
    ensures forall j :: 0 <= j < k ==> !Contains(lines[j], pattern)
    ensures k < |lines| ==> Contains(lines[k], pattern)
  {
    if lines == [] then 0
    else if Contains(lines[0], pattern) then 0
    else 1 + FirstContaining(lines[1..], pattern)
  }

  /** Hours, minutes, seconds and milliseconds, in milliseconds. */
  function ClockMs(hours: int, minutes: int, seconds: int, millis: int): int {
    hours * 3600000 + minutes * 60000 + seconds * 1000 + millis
  }

  /** The word `HH:MM:SS.mmm`: '.' becomes ':', and the fields it splits into are read. */
  function ParseClock(word: string): (r: Result<int, ParseError>)
    ensures r.Failure? ==> r.error == ValueError
  {
    ParseFields(SplitOn(Replace(word, '.', ':'), ':'))
  }

  /** Unpacking into hours, minutes, seconds and milliseconds: exactly four
      fields, each accepted by `int()`. */
  function ParseFields(fields: seq<string>): (r: Result<int, ParseError>)
    ensures r.Success? <==> |fields| == 4 && forall i :: 0 <= i < 4 ==> ParseInt(fields[i]).Some?
    ensures r.Failure? ==> r.error == ValueError
    ensures r.Success? ==> r.value == ClockMs(ParseInt(fields[0]).value, ParseInt(fields[1]).value,
                                              ParseInt(fields[2]).value, ParseInt(fields[3]).value)
  {
    if |fields| != 4 then Failure(ValueError)
    else
      var h, m, s, ms := ParseInt(fields[0]), ParseInt(fields[1]), ParseInt(fields[2]), ParseInt(fields[3]);
      if h.None? || m.None? || s.None? || ms.None? then Failure(ValueError)
      else Success(ClockMs(h.value, m.value, s.value, ms.value))
  }

  /** The duration on the marker line: its second word, parsed. */
  function DurationOfLine(line: string): (r: Result<int, ParseError>)
    ensures r == Failure(IndexError) <==> |Split(line)| < 2
  {
    var words := Split(line);
    if |words| < 2 then Failure(IndexError) else ParseClock(words[1])
  }

  /** The duration, in milliseconds, that the report `output` gives: zero
      when no line mentions the marker, otherwise what the first such line
      says. */
  function DurationMs(output: string): (r: Result<int, ParseError>)
    ensures (forall j :: 0 <= j < |SplitLines(output)| ==> !Contains(SplitLines(output)[j], Marker)) ==> r == Success(0)
  {
    var lines := SplitLines(output);
    var k := FirstContaining(lines, Marker);
    if k == |lines| then Success(0) else DurationOfLine(lines[k])
  }

  /** The first line that contains `pattern` is the one `FirstContaining` finds. */
  lemma FirstContainingIsFirst(lines: seq<string>, pattern: string, j: nat)
    requires j < |lines| && Contains(lines[j], pattern)
    requires forall i :: 0 <= i < j ==> !Contains(lines[i], pattern)
    ensures FirstContaining(lines, pattern) == j
  {
  }

  /** When line `j` of the report is the first to mention the marker, the
      duration is what line `j` says (and its errors are the duration's). */
  lemma DurationOfFirstMarkerLine(output: string, j: nat)
    requires j < |SplitLines(output)| && Contains(SplitLines(output)[j], Marker)
    requires forall i :: 0 <= i < j ==> !Contains(SplitLines(output)[i], Marker)
    ensures DurationMs(output) == DurationOfLine(SplitLines(output)[j])
  {
    FirstContainingIsFirst(SplitLines(output), Marker, j);
  }

  /** A separator the parser accepts between clock fields. */
  predicate IsClockSeparator(c: char) {
    c == '.' || c == ':'
  }

  /** A field `int()` accepts holds no separator. */
  lemma FieldHasNoSeparator(field: string)
    requires ParseInt(field).Some?
    ensures '.' !in field && ':' !in field
  {
    ParseIntAccepts(field);
  }

  lemma ReplaceFree(s: string)
    requires '.' !in s
    ensures Replace(s, '.', ':') == s
  {
  }

  lemma ReplaceAppend(a: string, b: string)
    ensures Replace(a + b, '.', ':') == Replace(a, '.', ':') + Replace(b, '.', ':')
  {
  }

  lemma ParseIntNumeral(s: string)
    requires IsNumeral(s)
    ensures ParseInt(s) == Some(NumeralValue(s))
  {
  }

  lemma ReplaceSeparated(front: string, c: char, field: string)
    requires IsClockSeparator(c) && '.' !in field
    ensures Replace(front + [c] + field, '.', ':') == Replace(front, '.', ':') + [':'] + field
  {
    ReplaceAppend(front + [c], field);
    ReplaceAppend(front, [c]);
    ReplaceFree(field);
  }

  lemma ReplaceClock(h: string, m: string, s: string, ms: string, c1: char, c2: char, c3: char)
    requires '.' !in h && '.' !in m && '.' !in s && '.' !in ms
    requires IsClockSeparator(c1) && IsClockSeparator(c2) && IsClockSeparator(c3)
    ensures Replace(h + [c1] + m + [c2] + s + [c3] + ms, '.', ':') == h + [':'] + m + [':'] + s + [':'] + ms
  {
    ReplaceFree(h);
    ReplaceSeparated(h, c1, m);
    ReplaceSeparated(h + [c1] + m, c2, s);
    ReplaceSeparated(h + [c1] + m + [c2] + s, c3, ms);
  }

  lemma SplitField(field: string, rest: string, fields: seq<string>)
    requires ':' !in field
    requires SplitOn(rest, ':') == fields
    ensures SplitOn(field + [':'] + rest, ':') == [field] + fields
  {
    SplitOnSeparated(field, ':', rest);
  }

  lemma Regroup(h: string, m: string, s: string, ms: string)
    ensures h + [':'] + m + [':'] + s + [':'] + ms == h + [':'] + (m + [':'] + (s + [':'] + ms))
  {
  }

  lemma SplitClock(h: string, m: string, s: string, ms: string)
    requires ':' !in h && ':' !in m && ':' !in s && ':' !in ms
    ensures SplitOn(h + [':'] + m + [':'] + s + [':'] + ms, ':') == [h, m, s, ms]
  {
    var t2 := s + [':'] + ms;
    var t1 := m + [':'] + t2;
    SplitOnFree(ms, ':');
    SplitField(s, ms, [ms]);
    SplitField(m, t2, [s, ms]);
    SplitField(h, t1, [m, s, ms]);
    Regroup(h, m, s, ms);
  }

  /** Four separator-free fields joined by '.' or ':' split back, after the
      '.' to ':' rewrite, into exactly those four fields. */
  lemma ClockFields(h: string, m: string, s: string, ms: string, c1: char, c2: char, c3: char)
    requires '.' !in h && '.' !in m && '.' !in s && '.' !in ms
    requires ':' !in h && ':' !in m && ':' !in s && ':' !in ms
    requires IsClockSeparator(c1) && IsClockSeparator(c2) && IsClockSeparator(c3)
    ensures SplitOn(Replace(h + [c1] + m + [c2] + s + [c3] + ms, '.', ':'), ':') == [h, m, s, ms]
  {
    ReplaceClock(h, m, s, ms, c1, c2, c3);
    SplitClock(h, m, s, ms);
  }

  /**
   * Four fields `int()` accepts, separated by '.' or ':' (as in
   * "01:02:03.004"), parse to `ClockMs` of their values; signs, leading
   * zeros and `_` digit groups are accepted as `int()` accepts them.
   */
  lemma ParseClockOfFields(h: string, m: string, s: string, ms: string, c1: char, c2: char, c3: char)
    requires ParseInt(h).Some? && ParseInt(m).Some? && ParseInt(s).Some? && ParseInt(ms).Some?
    requires IsClockSeparator(c1) && IsClockSeparator(c2) && IsClockSeparator(c3)
    ensures ParseClock(h + [c1] + m + [c2] + s + [c3] + ms)
            == Success(ClockMs(ParseInt(h).value, ParseInt(m).value, ParseInt(s).value, ParseInt(ms).value))
  {
    FieldHasNoSeparator(h); FieldHasNoSeparator(m); FieldHasNoSeparator(s); FieldHasNoSeparator(ms);
    ClockFields(h, m, s, ms, c1, c2, c3);
  }

  /** Four separated fields of which `int()` rejects one are a `ValueError`. */
  lemma ParseClockRejectsField(h: string, m: string, s: string, ms: string, c1: char, c2: char, c3: char)
    requires '.' !in h && '.' !in m && '.' !in s && '.' !in ms
    requires ':' !in h && ':' !in m && ':' !in s && ':' !in ms
    requires IsClockSeparator(c1) && IsClockSeparator(c2) && IsClockSeparator(c3)
    requires ParseInt(h).None? || ParseInt(m).None? || ParseInt(s).None? || ParseInt(ms).None?
    ensures ParseClock(h + [c1] + m + [c2] + s + [c3] + ms) == Failure(ValueError)
  {
    ClockFields(h, m, s, ms, c1, c2, c3);
    var fields := [h, m, s, ms];
    assert ParseInt(fields[0]).None? || ParseInt(fields[1]).None?
        || ParseInt(fields[2]).None? || ParseInt(fields[3]).None?;
  }

  /** Any other number of fields is a `ValueError`. */
  lemma ParseClockFieldCount(word: string)
    requires |SplitOn(Replace(word, '.', ':'), ':')| != 4
    ensures ParseClock(word) == Failure(ValueError)
  {
  }

  /**
   * Conversely, every word that parses is four fields `int()` accepts,
   * joined by three separators '.' or ':', and its value is `ClockMs` of
   * theirs: the parser accepts nothing else.
   */
  lemma ParseClockSound(word: string)
    requires ParseClock(word).Success?
    ensures var f := SplitOn(Replace(word, '.', ':'), ':');
            |f| == 4 && forall i :: 0 <= i < 4 ==> ParseInt(f[i]).Some?
    ensures var f := SplitOn(Replace(word, '.', ':'), ':');
            var p1 := |f[0]|;
            var p2 := p1 + 1 + |f[1]|;
            var p3 := p2 + 1 + |f[2]|;
            |word| == p3 + 1 + |f[3]|
            && IsClockSeparator(word[p1]) && IsClockSeparator(word[p2]) && IsClockSeparator(word[p3])
            && word == f[0] + [word[p1]] + f[1] + [word[p2]] + f[2] + [word[p3]] + f[3]
    ensures var f := SplitOn(Replace(word, '.', ':'), ':');
            ParseClock(word).value
            == ClockMs(ParseInt(f[0]).value, ParseInt(f[1]).value, ParseInt(f[2]).value, ParseInt(f[3]).value)
  {
    var r := Replace(word, '.', ':');
    JoinOnSplitOn(r, ':');
    ClockShape(word, SplitOn(r, ':'));
  }

  /** A word whose rewrite is four ':'-free fields joined by ':' is those
      fields joined by '.' or ':'. */
  lemma ClockShape(word: string, f: seq<string>)
    requires |f| == 4 && forall i :: 0 <= i < 4 ==> ':' !in f[i]
    requires Replace(word, '.', ':') == JoinOn(f, ':')
    ensures var p1 := |f[0]|;
            var p2 := p1 + 1 + |f[1]|;
            var p3 := p2 + 1 + |f[2]|;
            |word| == p3 + 1 + |f[3]|
            && IsClockSeparator(word[p1]) && IsClockSeparator(word[p2]) && IsClockSeparator(word[p3])
            && word == f[0] + [word[p1]] + f[1] + [word[p2]] + f[2] + [word[p3]] + f[3]
  {
    var f0, f1, f2, f3 := f[0], f[1], f[2], f[3];
    assert ':' !in f0 && ':' !in f1 && ':' !in f2 && ':' !in f3 by {
      assert f0 == f[0] && f1 == f[1] && f2 == f[2] && f3 == f[3];
    }
    var t2 := f2 + [':'] + f3;
    var t1 := f1 + [':'] + t2;
    JoinOnFour(f, ':');
    Unreplace(word, f0, t1);
    var w1 := word[|f0| + 1..];
    Unreplace(w1, f1, t2);
    var w2 := w1[|f1| + 1..];
    Unreplace(w2, f2, f3);
    var w3 := w2[|f2| + 1..];
    Unreplaced(w3, f3);
    Reassemble(word, f0, f1, f2, f3);
  }

  lemma JoinOnFour(f: seq<string>, sep: char)
    requires |f| == 4
    ensures JoinOn(f, sep) == f[0] + [sep] + (f[1] + [sep] + (f[2] + [sep] + f[3]))
  {
    assert JoinOn(f[3..], sep) == f[3];
    assert JoinOn(f[2..], sep) == f[2] + [sep] + f[3] by {
      assert f[2..][1..] == f[3..];
    }
    assert JoinOn(f[1..], sep) == f[1] + [sep] + (f[2] + [sep] + f[3]) by {
      assert f[1..][1..] == f[2..];
    }
  }

  /** Undoing the rewrite in front of the first ':' of the rewritten word. */
  lemma Unreplace(word: string, a: string, b: string)
    requires Replace(word, '.', ':') == a + [':'] + b
    requires ':' !in a
    ensures |word| == |a| + 1 + |b|
    ensures word[..|a|] == a && IsClockSeparator(word[|a|])
    ensures Replace(word[|a| + 1..], '.', ':') == b
  {
    var n := |a|;
    assert |word| == |a| + 1 + |b|;
    var x, c, y := word[..n], word[n], word[n + 1..];
    AroundIndex(word, n);
    ReplaceAppend(x + [c], y);
    ReplaceAppend(x, [c]);
    var rx, rc, ry := Replace(x, '.', ':'), Replace([c], '.', ':'), Replace(y, '.', ':');
    assert rx + rc + ry == a + [':'] + b;
    SplitEqual(rx, rc, ry, a, [':'], b);
    Unreplaced(x, a);
    assert rc[0] == ':';
  }

  lemma AroundIndex(s: string, n: nat)
    requires n < |s|
    ensures s == s[..n] + [s[n]] + s[n + 1..]
  {
  }

  lemma SplitEqual(x: string, y: string, z: string, a: string, b: string, c: string)
    requires x + y + z == a + b + c
    requires |x| == |a| && |y| == |b|
    ensures x == a && y == b && z == c
  {
    assert x == (x + y + z)[..|x|];
    assert a == (a + b + c)[..|a|];
    assert y == (x + y + z)[|x|..|x| + |y|];
    assert b == (a + b + c)[|a|..|a| + |b|];
    assert z == (x + y + z)[|x| + |y|..];
    assert c == (a + b + c)[|a| + |b|..];
  }

  /** A rewritten word with no ':' was never rewritten. */
  lemma Unreplaced(word: string, a: string)
    requires Replace(word, '.', ':') == a && ':' !in a
    ensures word == a
  {
    forall k | 0 <= k < |a| ensures word[k] == a[k] {
      assert Replace(word, '.', ':')[k] == a[k];
    }
  }

  lemma Reassemble(word: string, f0: string, f1: string, f2: string, f3: string)
    requires |word| == |f0| + 1 + |f1| + 1 + |f2| + 1 + |f3|
    requires word[..|f0|] == f0
    requires word[|f0| + 1..][..|f1|] == f1
    requires word[|f0| + 1..][|f1| + 1..][..|f2|] == f2
    requires word[|f0| + 1..][|f1| + 1..][|f2| + 1..] == f3
    ensures var p1 := |f0|;
            var p2 := p1 + 1 + |f1|;
            var p3 := p2 + 1 + |f2|;
            word == f0 + [word[p1]] + f1 + [word[p2]] + f2 + [word[p3]] + f3
  {
    var p1 := |f0|;
    var p2 := p1 + 1 + |f1|;
    var p3 := p2 + 1 + |f2|;
    assert word[p1 + 1..][..|f1|] == word[p1 + 1..p2];
    assert word[p1 + 1..][|f1| + 1..] == word[p2 + 1..];
    assert word[p2 + 1..][..|f2|] == word[p2 + 1..p3];
    assert word[p2 + 1..][|f2| + 1..] == word[p3 + 1..];
    assert word == word[..p1] + [word[p1]] + word[p1 + 1..p2] + [word[p2]] + word[p2 + 1..p3] + [word[p3]] + word[p3 + 1..];
  }

  /** A line "<tag> <clock> ...", with any whitespace before the tag and
      any run of whitespace between tag and clock, gives the clock's value. */
  lemma DurationOfLabelledLine(ws0: string, tag: string, ws1: string, clock: string, rest: string)
    requires forall i :: 0 <= i < |ws0| ==> IsSpace(ws0[i])
    requires tag != [] && NoneIn(tag, IsSpace)
    requires ws1 != [] && forall i :: 0 <= i < |ws1| ==> IsSpace(ws1[i])
    requires clock != [] && NoneIn(clock, IsSpace)
    requires rest == [] || IsSpace(rest[0])
    ensures DurationOfLine(ws0 + tag + ws1 + clock + rest) == ParseClock(clock)
  {
    assert ws0 + tag + ws1 + clock + rest == ws0 + (tag + ws1 + (clock + rest));
    SplitSkipsSpace(ws0, tag + ws1 + (clock + rest));
    SplitOfWordRun(tag, ws1, clock + rest);
    FirstWord(clock, rest);
  }

  /** A word followed by nothing or by whitespace is the first word. */
  lemma FirstWord(word: string, rest: string)
    requires word != [] && NoneIn(word, IsSpace)
    requires rest == [] || IsSpace(rest[0])
    ensures Split(word + rest) != [] && Split(word + rest)[0] == word
  {
    if rest == [] {
      assert word + rest == word;
      LastWord(word);
    } else {
      SplitOfWord(word, rest[0], rest[1..]);
      assert word + rest == word + [rest[0]] + rest[1..];
    }
  }

  lemma TwoDigitNumeral(a: char, b: char)
    requires IsDigit(a) && IsDigit(b)
    ensures IsNumeral([a, b]) && NumeralValue([a, b]) == 10 * DigitValue(a) + DigitValue(b)
  {
    assert [a, b][..1] == [a];
    assert [a][..0] == [];
    assert NumeralValue([a]) == DigitValue(a);
    assert b != '_';
  }

  lemma ThreeDigitNumeral(a: char, b: char, c: char)
    requires IsDigit(a) && IsDigit(b) && IsDigit(c)
    ensures IsNumeral([a, b, c]) && NumeralValue([a, b, c]) == 100 * DigitValue(a) + 10 * DigitValue(b) + DigitValue(c)
  {
    assert [a, b, c][..2] == [a, b];
    TwoDigitNumeral(a, b);
    assert c != '_';
  }

  /** "01.02.03.004" is one hour, two minutes, three seconds and four milliseconds. */
  lemma ExampleClock()
    ensures ParseClock("01.02.03.004") == Success(3723004)
  {
    var h, m, s, ms := ['0', '1'], ['0', '2'], ['0', '3'], ['0', '0', '4'];
    ExampleFieldValues();
    ParseClockOfFields(h, m, s, ms, '.', '.', '.');
    ExampleClockText();
  }

  lemma ExampleFieldValues()
    ensures ParseInt(['0', '1']) == Some(1) && ParseInt(['0', '2']) == Some(2)
    ensures ParseInt(['0', '3']) == Some(3) && ParseInt(['0', '0', '4']) == Some(4)
  {
    TwoDigitNumeral('0', '1');
    TwoDigitNumeral('0', '2');
    TwoDigitNumeral('0', '3');
    ThreeDigitNumeral('0', '0', '4');
    ParseIntNumeral(['0', '1']); ParseIntNumeral(['0', '2']);
    ParseIntNumeral(['0', '3']); ParseIntNumeral(['0', '0', '4']);
  }

  lemma ExampleClockText()
    ensures "01.02.03.004" == ['0', '1'] + ['.'] + ['0', '2'] + ['.'] + ['0', '3'] + ['.'] + ['0', '0', '4']
  {
  }

  /** "00:01:xx.000" has a field `int()` rejects: a `ValueError`. */
  lemma ExampleRejectedClock()
    ensures ParseClock("00:01:xx.000") == Failure(ValueError)
  {
    var h, m, s, ms := ['0', '0'], ['0', '1'], ['x', 'x'], ['0', '0', '0'];
    assert "00:01:xx.000" == h + [':'] + m + [':'] + s + ['.'] + ms;
    assert ParseInt(s).None?;
    ParseClockRejectsField(h, m, s, ms, ':', ':', '.');
  }

  /** A marker line of a single word has no second word: an `IndexError`. */
  lemma DurationOfOneWordLine(line: string)
    requires NoneIn(line, IsSpace)
    ensures DurationOfLine(line) == Failure(IndexError)
  {
    if line != [] {
      LastWord(line);
    }
  }
}
