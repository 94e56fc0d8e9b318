/** The pieces of Python's `str` behaviour the broker relies on when it reads
    its peer roster and its command line: `str.strip()`, `str.split(sep)`,
    `file.readlines()` and `int(text)` in base 10. */
module PyText {
  import opened Wrappers

  /** Python's `str.isspace()` for one character: the characters `strip()`
      removes. `int()` tolerates all of them around a number except the four
      information separators (see `IsInfoSeparator`). */
  predicate IsSpace(c: char) {
    || c == ' '
    || ('\t' <= c <= '\r')
    || ('\U{1c}' <= c <= '\U{1f}')
    || c == '\U{85}' || c == '\U{a0}' || c == '\U{1680}'
    || ('\U{2000}' <= c <= '\U{200a}')
    || c == '\U{2028}' || c == '\U{2029}' || c == '\U{202f}'
    || c == '\U{205f}' || c == '\U{3000}'
  }

  predicate AllSpace(s: string) {
    forall i :: 0 <= i < |s| ==> IsSpace(s[i])
  }

  /** Neither end of `s` is whitespace (vacuously true of the empty string). */
  predicate Trimmed(s: string) {
    |s| == 0 || (!IsSpace(s[0]) && !IsSpace(s[|s| - 1]))
  }

  function StripLeading(s: string): (r: string)
  {
    if |s| > 0 && IsSpace(s[0]) then StripLeading(s[1..]) else s
  }

  function StripTrailing(s: string): (r: string)
  {
    if |s| > 0 && IsSpace(s[|s| - 1]) then StripTrailing(s[..|s| - 1]) else s
  }

  /** `s.strip()`: whitespace removed from both ends. */
  function Strip(s: string): (r: string)
  {
    StripTrailing(StripLeading(s))
  }

  lemma {:induction false} StripLeadingShape(s: string)
    ensures var r := StripLeading(s);
      |r| <= |s| && r == s[|s| - |r|..] && AllSpace(s[..|s| - |r|]) && (|r| == 0 || !IsSpace(r[0]))
    decreases |s|
  {
    if |s| > 0 && IsSpace(s[0]) {
      var t := s[1..];
      StripLeadingShape(t);
      var r := StripLeading(t);
      assert StripLeading(s) == r;
      assert s[|s| - |r|..] == t[|t| - |r|..];
      forall j | 1 <= j < |s| - |r|
        ensures IsSpace(s[j])
      {
        assert s[j] == t[..|t| - |r|][j - 1];
      }
    }
  }

  lemma {:induction false} StripTrailingShape(s: string)
    ensures var r := StripTrailing(s);
      |r| <= |s| && r == s[..|r|] && AllSpace(s[|r|..]) && (|r| == 0 || !IsSpace(r[|r| - 1]))
    decreases |s|
  {
    if |s| > 0 && IsSpace(s[|s| - 1]) {
      var t := s[..|s| - 1];
      StripTrailingShape(t);
      var r := StripTrailing(t);
      assert StripTrailing(s) == r;
      assert s[..|r|] == t[..|r|];
      forall i | |r| <= i < |t|
        ensures IsSpace(s[i])
      {
        assert s[i] == t[|r|..][i - |r|];
      }
    }
  }

  /** `strip()` cuts `s` into a whitespace margin, a trimmed middle that it
      returns, and a whitespace margin. */
  lemma StripShape(s: string)
    ensures var i := |s| - |StripLeading(s)|;
      var j := i + |Strip(s)|;
      && 0 <= i <= j <= |s|
      && Strip(s) == s[i..j]
      && Trimmed(Strip(s))
      && AllSpace(s[..i])
      && AllSpace(s[j..])
  {
    var l := StripLeading(s);
    StripLeadingShape(s);
    StripTrailingShape(l);
    var r := StripTrailing(l);
    var i := |s| - |l|;
    assert Trimmed(r) by {
      if |r| > 0 {
        assert r[0] == l[0];
      }
    }
    assert s[i + |r|..] == l[|r|..];
    assert s[i..i + |r|] == l[..|r|];
  }

  lemma {:induction false} StripLeadingOf(w: string, t: string)
    requires AllSpace(w)
    requires |t| == 0 || !IsSpace(t[0])
    ensures StripLeading(w + t) == t
    decreases |w|
  {
    if |w| == 0 {
      assert w + t == t;
    } else {
      assert (w + t)[1..] == w[1..] + t;
      StripLeadingOf(w[1..], t);
    }
  }

  lemma {:induction false} StripTrailingOf(t: string, w: string)
    requires AllSpace(w)
    requires |t| == 0 || !IsSpace(t[|t| - 1])
    ensures StripTrailing(t + w) == t
    decreases |w|
  {
    if |w| == 0 {
      assert t + w == t;
    } else {
      assert (t + w)[..|t + w| - 1] == t + w[..|w| - 1];
      StripTrailingOf(t, w[..|w| - 1]);
    }
  }

  /** `strip()` returns exactly the text between the whitespace margins:
      whatever surrounds a trimmed string with whitespace, stripping gives the
      string back. */
  lemma StripOf(w1: string, a: string, w2: string)
    requires AllSpace(w1) && AllSpace(w2) && Trimmed(a)
    ensures Strip(w1 + a + w2) == a
  {
    if |a| == 0 {
      assert w1 + a + w2 == (w1 + w2) + [];
      StripLeadingOf(w1 + w2, []);
    } else {
      assert w1 + a + w2 == w1 + (a + w2);
      StripLeadingOf(w1, a + w2);
      StripTrailingOf(a, w2);
    }
  }

  // ---------------------------------------------------------------------
  // str.split(sep) with an explicit one-character separator

  /** The inverse of `split`: `sep.join(parts)`. */
  function Join(parts: seq<string>, sep: char): string
    requires |parts| >= 1
  {
    if |parts| == 1 then parts[0] else parts[0] + [sep] + Join(parts[1..], sep)
  }

  /** `s.split(sep)`: the maximal separator-free pieces of `s`, in order.
      Like Python it returns one empty piece for the empty string and keeps
      empty pieces between adjacent separators. */
  function Split(s: string, sep: char): (parts: seq<string>)
    ensures |parts| >= 1
    ensures Join(parts, sep) == s
    decreases |s|
  {
    if |s| == 0 then [[]]
    else
      var rest := Split(s[1..], sep);
      if s[0] == sep then
        assert ([[]] + rest)[1..] == rest;
        [[]] + rest
      else
        var parts := [[s[0]] + rest[0]] + rest[1..];
        assert s == [s[0]] + s[1..];
        assert |rest| > 1 ==> parts[1..] == rest[1..];
        assert |rest| > 1 ==> Join(rest, sep) == rest[0] + [sep] + Join(rest[1..], sep);
        parts
  }

  /** No piece of a split contains the separator. */
  lemma {:induction false} SplitPiecesFree(s: string, sep: char)
    ensures forall i :: 0 <= i < |Split(s, sep)| ==> sep !in Split(s, sep)[i]
    decreases |s|
  {
    if |s| > 0 {
      SplitPiecesFree(s[1..], sep);
      var rest := Split(s[1..], sep);
      if s[0] != sep {
        assert forall i :: 1 <= i < |Split(s, sep)| ==> Split(s, sep)[i] == rest[i];
      } else {
        assert forall i :: 1 <= i < |Split(s, sep)| ==> Split(s, sep)[i] == rest[i - 1];
      }
    }
  }

  lemma {:induction false} SplitPrefix(a: string, t: string, sep: char)
    requires sep !in a
    ensures Split(a + t, sep) == [a + Split(t, sep)[0]] + Split(t, sep)[1..]
    decreases |a|
  {
    if |a| > 0 {
      assert (a + t)[1..] == a[1..] + t;
      assert (a + t)[0] == a[0];
      SplitPrefix(a[1..], t, sep);
      assert [a[0]] + (a[1..] + Split(t, sep)[0]) == a + Split(t, sep)[0];
    } else {
      var parts := Split(t, sep);
      assert a + t == t;
      assert a + parts[0] == parts[0];
      assert parts == [parts[0]] + parts[1..];
    }
  }

  /** Splitting undoes joining: pieces free of the separator come back
      unchanged from `split`. */
  lemma {:induction false} SplitJoin(parts: seq<string>, sep: char)
    requires |parts| >= 1
    requires forall i :: 0 <= i < |parts| ==> sep !in parts[i]
    ensures Split(Join(parts, sep), sep) == parts
    decreases |parts|
  {
    if |parts| == 1 {
      SplitPrefix(parts[0], [], sep);
      assert parts[0] + [] == parts[0];
    } else {
      var rest := Join(parts[1..], sep);
      SplitJoin(parts[1..], sep);
      assert parts[0] + [sep] + rest == parts[0] + ([sep] + rest);
      SplitPrefix(parts[0], [sep] + rest, sep);
      assert ([sep] + rest)[1..] == rest;
      assert Split([sep] + rest, sep) == [[]] + parts[1..];
      assert parts[0] + [] == parts[0];
      assert parts == [parts[0]] + parts[1..];
    }
  }

  /** Unpacking `a, b = s.split(sep)` succeeds with `a` and `b` exactly when
      `s` is `a`, one separator, and `b`. */
  lemma SplitTwo(s: string, sep: char, a: string, b: string)
    ensures Split(s, sep) == [a, b] <==> (s == a + [sep] + b && sep !in a && sep !in b)
  {
    if s == a + [sep] + b && sep !in a && sep !in b {
      assert [a, b][1..] == [b];
      SplitJoin([a, b], sep);
    }
    if Split(s, sep) == [a, b] {
      SplitPiecesFree(s, sep);
      assert [a, b][1..] == [b];
      assert Join([a, b], sep) == a + [sep] + b;
      assert sep !in [a, b][0] && sep !in [a, b][1];
    }
  }

  // ---------------------------------------------------------------------
  // file.readlines()

  function Concat(lines: seq<string>): string {
    if |lines| == 0 then [] else lines[0] + Concat(lines[1..])
  }

  /** `readlines()` on a text: each line keeps its terminating newline, the
      last line may lack one, and a final newline does not start an empty
      line. */
  function ReadLines(text: string): (lines: seq<string>)
    ensures Concat(lines) == text
    ensures forall i :: 0 <= i < |lines| ==> |lines[i]| > 0
    decreases |text|
  {
    if |text| == 0 then []
    else
      var rest := ReadLines(text[1..]);
      assert text == [text[0]] + text[1..];
      if text[0] == '\n' || |rest| == 0 then
        assert ([[text[0]]] + rest)[1..] == rest;
        [[text[0]]] + rest
      else
        var lines := [[text[0]] + rest[0]] + rest[1..];
        assert lines[1..] == rest[1..];
        assert ([text[0]] + rest[0])[1..] == rest[0];
        assert Concat(rest) == rest[0] + Concat(rest[1..]);
        lines
  }

  /** A newline-free prefix followed by a newline is read as the first line. */
  lemma {:induction false} ReadLinesCons(a: string, rest: string)
    requires '\n' !in a
    ensures ReadLines(a + "\n" + rest) == [a + "\n"] + ReadLines(rest)
    decreases |a|
  {
    if |a| == 0 {
      assert a + "\n" + rest == "\n" + rest;
      assert ("\n" + rest)[1..] == rest;
    } else {
      assert (a + "\n" + rest)[1..] == a[1..] + "\n" + rest;
      ReadLinesCons(a[1..], rest);
      assert [a[0]] + (a[1..] + "\n") == a + "\n";
    }
  }

  /** A text without a newline is one line, the unterminated last line of a
      file. */
  lemma {:induction false} ReadLinesNoBreak(a: string)
    requires |a| > 0 && '\n' !in a
    ensures ReadLines(a) == [a]
    decreases |a|
  {
    if |a| > 1 {
      assert '\n' !in a[1..] by {
        forall i | 0 <= i < |a[1..]|
          ensures a[1..][i] != '\n'
        {
          assert a[1..][i] == a[i + 1];
        }
      }
      ReadLinesNoBreak(a[1..]);
      assert a[0] != '\n';
      assert [a[0]] + a[1..] == a;
      assert ReadLines(a) == [[a[0]] + a[1..]] + [a[1..]][1..];
    } else {
      assert [a[0]] == a;
    }
  }

  /** Lines break exactly at newlines: every line but the last ends with
      one, and no line holds one before its last character. */
  predicate BrokenAtNewlines(lines: seq<string>) {
    forall i :: 0 <= i < |lines| ==>
      && |lines[i]| > 0
      && '\n' !in lines[i][..|lines[i]| - 1]
      && (i < |lines| - 1 ==> lines[i][|lines[i]| - 1] == '\n')
  }

  /** Together with `Concat(ReadLines(text)) == text`, this pins
      `readlines()` down: the text is cut after every newline and nowhere
      else. */
  lemma {:induction false} ReadLinesBreaks(text: string)
    ensures BrokenAtNewlines(ReadLines(text))
    decreases |text|
  {
    if |text| > 0 {
      ReadLinesBreaks(text[1..]);
      var rest := ReadLines(text[1..]);
      var lines := ReadLines(text);
      if text[0] == '\n' || |rest| == 0 {
        assert lines == [[text[0]]] + rest;
        forall i | 0 <= i < |lines|
          ensures '\n' !in lines[i][..|lines[i]| - 1]
          ensures i < |lines| - 1 ==> lines[i][|lines[i]| - 1] == '\n'
        {
          if i > 0 {
            assert lines[i] == rest[i - 1];
          }
        }
      } else {
        var first := [text[0]] + rest[0];
        assert lines == [first] + rest[1..];
        assert first[..|first| - 1] == [text[0]] + rest[0][..|rest[0]| - 1];
        forall i | 0 <= i < |lines|
          ensures '\n' !in lines[i][..|lines[i]| - 1]
          ensures i < |lines| - 1 ==> lines[i][|lines[i]| - 1] == '\n'
        {
          if i > 0 {
            assert lines[i] == rest[i];
          } else if i < |lines| - 1 {
            assert first[|first| - 1] == rest[0][|rest[0]| - 1];
          }
        }
      }
    }
  }

  // ---------------------------------------------------------------------
  // int(text) in base 10

  predicate IsDigit(c: char) {
    '0' <= c <= '9'
  }

  predicate AllDigits(s: string) {
    forall i :: 0 <= i < |s| ==> IsDigit(s[i])
  }

  /** The value of a digit, and 0 for anything else. */
  function DigitValue(c: char): nat {
    if IsDigit(c) then (c as int) - ('0' as int) else 0
  }

  /** Python's grammar for the digits of a base-10 integer: digits, where a
      single underscore may separate two digits. */
  predicate IsDigitPart(t: string)
    decreases |t|
  {
    && |t| > 0
    && IsDigit(t[0])
    && (|t| == 1 || (if t[1] == '_' then IsDigitPart(t[2..]) else IsDigitPart(t[1..])))
  }

  /** The decimal value of a digit part, underscores skipped. */
  function DigitPartValue(t: string): nat {
    if |t| == 0 then 0
    else if t[|t| - 1] == '_' then DigitPartValue(t[..|t| - 1])
    else DigitPartValue(t[..|t| - 1]) * 10 + DigitValue(t[|t| - 1])
  }

  /** `int(text)` once the whitespace is gone: an optional sign, then the
      digit part. */
  function ParseSigned(t: string): Option<int> {
    if |t| > 0 && (t[0] == '+' || t[0] == '-') then
      if IsDigitPart(t[1..]) then
        Some(if t[0] == '-' then -(DigitPartValue(t[1..]) as int) else DigitPartValue(t[1..]))
      else None
    else if IsDigitPart(t) then Some(DigitPartValue(t))
    else None
  }

  /** U+001C to U+001F: whitespace to `str.isspace()`, but not to `int()`.
      CPython maps only non-ASCII whitespace to a blank before parsing and
      then skips only the ASCII blanks `" \t\n\v\f\r"`, so these four
      characters are never skipped around a number. */
  predicate IsInfoSeparator(c: char) {
    '\U{1c}' <= c <= '\U{1f}'
  }

  predicate HasInfoSeparator(s: string) {
    exists i :: 0 <= i < |s| && IsInfoSeparator(s[i])
  }

  /** `int(text)`: surrounding whitespace is ignored, then an optional sign,
      then the digit part; anything else raises `ValueError` (`None` here).
      An information separator is never skipped and is no digit, so it
      makes the conversion fail wherever it stands. */
  function ParseInt(text: string): Option<int> {
    if HasInfoSeparator(text) then None else ParseSigned(Strip(text))
  }

  /** The characters of a digit part are digits and underscores. */
  lemma {:induction false} DigitPartChars(t: string)
    requires IsDigitPart(t)
    ensures forall i :: 0 <= i < |t| ==> IsDigit(t[i]) || t[i] == '_'
    decreases |t|
  {
    if |t| > 1 {
      if t[1] == '_' {
        if |t| > 2 {
          DigitPartChars(t[2..]);
          assert forall i :: 2 <= i < |t| ==> t[i] == t[2..][i - 2];
        }
      } else {
        DigitPartChars(t[1..]);
        assert forall i :: 1 <= i < |t| ==> t[i] == t[1..][i - 1];
      }
    }
  }

  /** A text `ParseSigned` accepts holds no information separator. */
  lemma ParseSignedNoInfoSeparator(t: string)
    requires ParseSigned(t).Some?
    ensures !HasInfoSeparator(t)
  {
    if |t| > 0 && (t[0] == '+' || t[0] == '-') {
      DigitPartChars(t[1..]);
      assert forall i :: 1 <= i < |t| ==> t[i] == t[1..][i - 1];
    } else {
      DigitPartChars(t);
    }
  }

  /** `int()` of a trimmed text between whitespace margins: it fails when a
      margin holds an information separator, and otherwise reads the middle
      as a signed digit part and nothing else. */
  lemma ParseIntMeaning(w1: string, t: string, w2: string)
    requires AllSpace(w1) && AllSpace(w2) && Trimmed(t)
    ensures ParseInt(w1 + t + w2) ==
              if HasInfoSeparator(w1) || HasInfoSeparator(w2) then None else ParseSigned(t)
  {
    var s := w1 + t + w2;
    StripOf(w1, t, w2);
    if HasInfoSeparator(w1) {
      var i :| 0 <= i < |w1| && IsInfoSeparator(w1[i]);
      assert s[i] == w1[i];
    } else if HasInfoSeparator(w2) {
      var i :| 0 <= i < |w2| && IsInfoSeparator(w2[i]);
      assert s[|w1| + |t| + i] == w2[i];
    } else if HasInfoSeparator(t) {
      var i :| 0 <= i < |t| && IsInfoSeparator(t[i]);
      assert s[|w1| + i] == t[i];
      if ParseSigned(t).Some? {
        ParseSignedNoInfoSeparator(t);
      }
    } else {
      assert !HasInfoSeparator(s) by {
        forall i | 0 <= i < |s|
          ensures !IsInfoSeparator(s[i])
        {
          if i < |w1| {
            assert s[i] == w1[i];
          } else if i < |w1| + |t| {
            assert s[i] == t[i - |w1|];
          } else {
            assert s[i] == w2[i - |w1| - |t|];
          }
        }
      }
    }
  }

  /** The difference from `strip()`: a leading U+001C is stripped, but it
      makes `int()` fail. */
  lemma ParseIntInfoSeparator()
    ensures Strip("\U{1c}5") == "5"
    ensures ParseInt("\U{1c}5") == None
  {
    var s := "\U{1c}5";
    assert IsInfoSeparator(s[0]);
    StripOf("\U{1c}", "5", "");
    assert "\U{1c}" + "5" + "" == s;
  }

  /** `str(n)` for an integer: the partner of `ParseInt`. */
  function ShowNat(n: nat): (s: string)
    ensures |s| > 0 && AllDigits(s)
  {
    if n < 10 then [('0' as int + n) as char]
    else ShowNat(n / 10) + [('0' as int + n % 10) as char]
  }

  function ShowInt(n: int): (s: string)
    ensures |s| > 0 && IsDigit(s[|s| - 1])
    ensures forall i :: 0 <= i < |s| ==> IsDigit(s[i]) || (i == 0 && s[i] == '-')
  {
    if n < 0 then "-" + ShowNat(-n) else ShowNat(n)
  }

  lemma ShowIntTrimmed(n: int)
    ensures Strip(ShowInt(n)) == ShowInt(n)
  {
    var s := ShowInt(n);
    assert Trimmed(s);
    StripOf([], s, []);
    assert [] + s + [] == s;
  }

  lemma {:induction false} AllDigitsIsDigitPart(s: string)
    requires |s| > 0 && AllDigits(s)
    ensures IsDigitPart(s)
    decreases |s|
  {
    if |s| > 1 {
      AllDigitsIsDigitPart(s[1..]);
    }
  }

  lemma {:induction false} ShowNatValue(n: nat)
    ensures DigitPartValue(ShowNat(n)) == n
  {
    if n >= 10 {
      ShowNatValue(n / 10);
      var s := ShowNat(n);
      assert s[..|s| - 1] == ShowNat(n / 10);
    }
  }

  /** The digits of a natural number read back as that number. */
  lemma ShowNatDigitPart(n: nat)
    ensures IsDigitPart(ShowNat(n))
    ensures DigitPartValue(ShowNat(n)) == n
  {
    AllDigitsIsDigitPart(ShowNat(n));
    ShowNatValue(n);
  }

  lemma ParseShowNat(n: int)
    requires n >= 0
    ensures ParseInt(ShowInt(n)) == Some(n)
  {
    ShowIntTrimmed(n);
    ShowNatDigitPart(n);
    var s := ShowNat(n);
    assert s[0] != '+' && s[0] != '-';
  }

  lemma ParseSignedNegative(n: int)
    requires n < 0
    ensures ParseSigned(ShowInt(n)) == Some(n)
  {
    var m: nat := -n;
    ShowNatDigitPart(m);
    var s := "-" + ShowNat(m);
    assert s[1..] == ShowNat(m);
    assert ShowInt(n) == s;
  }

  lemma ParseShowNegative(n: int)
    requires n < 0
    ensures ParseInt(ShowInt(n)) == Some(n)
  {
    ShowIntTrimmed(n);
    ParseSignedNegative(n);
  }

  /** `int(str(n)) == n` for every integer. */
  lemma ParseShowInt(n: int)
    ensures ParseInt(ShowInt(n)) == Some(n)
  {
    if n < 0 {
      ParseShowNegative(n);
    } else {
      ParseShowNat(n);
    }
  }
}
