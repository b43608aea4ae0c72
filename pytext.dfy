/** The Python string built-ins the client relies on: `str.strip()`,
    `str.lower()`, `str.upper()`, `str.split(sep)` and `int(text)`, each
    modelled on `seq<char>` for the cases the client can reach. */
module PyText {
  import opened Wrappers

  // ---------------------------------------------------------------------
  // str.isspace() and str.strip()
  // ---------------------------------------------------------------------

  /** The characters for which Python's `str.isspace()` holds: the ASCII
      controls TAB..CR and FS..US, the space, and the Unicode separators. */
  predicate IsSpace(c: char)
  {
    ('\t' <= c <= '\r') || ('\U{1c}' <= c <= ' ') || c == '\U{85}' || c == '\U{a0}'
    || c == '\U{1680}' || ('\U{2000}' <= c <= '\U{200a}') || c == '\U{2028}'
    || c == '\U{2029}' || c == '\U{202f}' || c == '\U{205f}' || c == '\U{3000}'
  }

  predicate AllSpace(s: string)
  {
    forall i :: 0 <= i < |s| ==> IsSpace(s[i])
  }

  /** `s.lstrip()`: the suffix of `s` left after dropping leading whitespace. */
  function LStrip(s: string): (r: string)
    ensures |r| <= |s| && r == s[|s| - |r|..]
    ensures forall i :: 0 <= i < |s| - |r| ==> IsSpace(s[i])
    ensures r == [] || !IsSpace(r[0])
  {
    if |s| > 0 && IsSpace(s[0]) then
      var r := LStrip(s[1..]);
      assert s[1..][|s| - 1 - |r|..] == s[|s| - |r|..];
      assert forall i :: 1 <= i < |s| ==> s[i] == s[1..][i - 1];
      r
    else s
  }

  /** `s.rstrip()`: the prefix of `s` left after dropping trailing whitespace. */
  function RStrip(s: string): (r: string)
    ensures |r| <= |s| && r == s[..|r|]
    ensures forall i :: |r| <= i < |s| ==> IsSpace(s[i])
    ensures r == [] || !IsSpace(r[|r| - 1])
  {
    if |s| > 0 && IsSpace(s[|s| - 1]) then
      var r := RStrip(s[..|s| - 1]);
      assert s[..|s| - 1][..|r|] == s[..|r|];
      assert forall i :: 0 <= i < |s| - 1 ==> s[i] == s[..|s| - 1][i];
      r
    else s
  }

  /** `s.strip()`: `s` without leading and trailing whitespace. The result is
      the middle of `s` between two runs of whitespace, has no whitespace at
      either end, and is empty exactly when `s` is all whitespace. */
  function Strip(s: string): (r: string)
    ensures r == [] || (!IsSpace(r[0]) && !IsSpace(r[|r| - 1]))
    ensures r == [] <==> AllSpace(s)
  {
    var l := LStrip(s);
    var r := RStrip(l);
    StripMiddle(s, l, r);
    r
  }

  /** `t` occurs in `s` at `k` with nothing but whitespace before and after it. */
  predicate Surrounded(s: string, k: int, t: string)
  {
    0 <= k <= |s| - |t| && t == s[k..k + |t|] && AllSpace(s[..k]) && AllSpace(s[k + |t|..])
  }

  /** `Strip(s)` is `s` with its leading and trailing whitespace removed:
      a run of `s` with only whitespace before and after it. */
  lemma StripIsMiddle(s: string)
    ensures exists k :: Surrounded(s, k, Strip(s))
  {
    var l := LStrip(s);
    StripsSurround(s, l, RStrip(l));
    assert Surrounded(s, |s| - |l|, Strip(s));
  }

  /** What `RStrip` leaves of what `LStrip` leaves sits between the whitespace they drop. */
  lemma StripsSurround(s: string, l: string, r: string)
    requires |l| <= |s| && l == s[|s| - |l|..]
    requires forall i :: 0 <= i < |s| - |l| ==> IsSpace(s[i])
    requires |r| <= |l| && r == l[..|r|]
    requires forall i :: |r| <= i < |l| ==> IsSpace(l[i])
    ensures Surrounded(s, |s| - |l|, r)
  {
    var k := |s| - |l|;
    assert AllSpace(s[..k]) by {
      forall i | 0 <= i < k ensures IsSpace(s[..k][i]) { assert s[..k][i] == s[i]; }
    }
    var tail := s[k + |r|..];
    assert AllSpace(tail) by {
      forall i | 0 <= i < |tail| ensures IsSpace(tail[i]) {
        assert tail[i] == l[|r| + i];
      }
    }
  }

  /** What is left between the whitespace `LStrip` and `RStrip` remove. */
  lemma StripMiddle(s: string, l: string, r: string)
    requires |l| <= |s| && l == s[|s| - |l|..]
    requires forall i :: 0 <= i < |s| - |l| ==> IsSpace(s[i])
    requires |r| <= |l| && r == l[..|r|]
    requires forall i :: |r| <= i < |l| ==> IsSpace(l[i])
    ensures r == [] ==> AllSpace(s)
    ensures r != [] ==> r[0] == s[|s| - |l|]
  {
    if r == [] {
      forall i | 0 <= i < |s| ensures IsSpace(s[i]) {
        if i >= |s| - |l| { assert s[i] == l[i - (|s| - |l|)]; }
      }
    }
  }

  /** Each character of `s` is either whitespace or a character of `Strip(s)`. */
  lemma {:induction false} StripKeepsNonSpace(s: string, i: nat)
    requires i < |s| && !IsSpace(s[i])
    ensures s[i] in Strip(s)
  {
    var l := LStrip(s);
    var r := RStrip(l);
    var k := |s| - |l|;
    assert k <= i;
    assert l[i - k] == s[i];
    assert i - k < |r|;
    assert r[i - k] == s[i];
  }

  /** Text without whitespace at either end is left as it is. */
  lemma StripNoEdgeSpace(s: string)
    requires s == [] || (!IsSpace(s[0]) && !IsSpace(s[|s| - 1]))
    ensures Strip(s) == s
  {
    assert LStrip(s) == s;
    assert RStrip(s) == s;
  }

  /** Stripping twice changes nothing. */
  lemma StripIdempotent(s: string)
    ensures Strip(Strip(s)) == Strip(s)
  {
    StripNoEdgeSpace(Strip(s));
  }

  // ---------------------------------------------------------------------
  // str.lower() and str.upper() on ASCII letters
  // ---------------------------------------------------------------------

  predicate IsAsciiLetter(c: char)
  {
    'a' <= c <= 'z' || 'A' <= c <= 'Z'
  }

  function LowerChar(c: char): char
  {
    if 'A' <= c <= 'Z' then (c as int + 32) as char else c
  }

  function UpperChar(c: char): char
  {
    if 'a' <= c <= 'z' then (c as int - 32) as char else c
  }

  function Lower(s: string): (r: string)
    ensures |r| == |s|
  {
    seq(|s|, i requires 0 <= i < |s| => LowerChar(s[i]))
  }

  function Upper(s: string): (r: string)
    ensures |r| == |s|
  {
    seq(|s|, i requires 0 <= i < |s| => UpperChar(s[i]))
  }

  /** Two characters are the same letter up to ASCII case. */
  predicate SameLetterIgnoringCase(c: char, d: char)
  {
    c == d || (IsAsciiLetter(c) && IsAsciiLetter(d) && (c as int - d as int == 32 || d as int - c as int == 32))
  }

  /** `a` and `b` spell the same text up to ASCII case: the relation a
      case-insensitive comparison is meant to decide. */
  predicate SameIgnoringCase(a: string, b: string)
  {
    |a| == |b| && forall i :: 0 <= i < |a| ==> SameLetterIgnoringCase(a[i], b[i])
  }

  /** Lower-casing decides case-insensitive equality with lower-case text. */
  lemma LowerMatchesIgnoringCase(s: string, lit: string)
    requires forall i :: 0 <= i < |lit| ==> 'a' <= lit[i] <= 'z'
    ensures Lower(s) == lit <==> SameIgnoringCase(s, lit)
  {
    if Lower(s) == lit {
      forall i | 0 <= i < |s| ensures SameLetterIgnoringCase(s[i], lit[i]) {
        assert Lower(s)[i] == LowerChar(s[i]);
      }
    }
    if SameIgnoringCase(s, lit) {
      forall i | 0 <= i < |s| ensures Lower(s)[i] == lit[i] {
        assert SameLetterIgnoringCase(s[i], lit[i]);
      }
    }
  }

  /** Upper-casing decides case-insensitive equality with upper-case text. */
  lemma UpperMatchesIgnoringCase(s: string, lit: string)
    requires forall i :: 0 <= i < |lit| ==> 'A' <= lit[i] <= 'Z'
    ensures Upper(s) == lit <==> SameIgnoringCase(s, lit)
  {
    if Upper(s) == lit {
      forall i | 0 <= i < |s| ensures SameLetterIgnoringCase(s[i], lit[i]) {
        assert Upper(s)[i] == UpperChar(s[i]);
      }
    }
    if SameIgnoringCase(s, lit) {
      forall i | 0 <= i < |s| ensures Upper(s)[i] == lit[i] {
        assert SameLetterIgnoringCase(s[i], lit[i]);
      }
    }
  }

  // ---------------------------------------------------------------------
  // str.split(sep) for a one-character separator
  // ---------------------------------------------------------------------

  function Count(s: string, c: char): nat
  {
    if |s| == 0 then 0 else (if s[0] == c then 1 else 0) + Count(s[1..], c)
  }

  /** The pieces joined back with `sep` between them (`sep.join(parts)`). */
  function Join(parts: seq<string>, sep: char): string
    requires |parts| >= 1
  {
    if |parts| == 1 then parts[0] else parts[0] + [sep] + Join(parts[1..], sep)
  }

  /** `s.split(sep)`: the pieces between occurrences of `sep`. There is one
      piece more than there are separators, no piece contains `sep`, and
      joining the pieces with `sep` gives `s` back. */
  function Split(s: string, sep: char): (parts: seq<string>)
    ensures |parts| == Count(s, sep) + 1
    ensures forall i :: 0 <= i < |parts| ==> sep !in parts[i]
    ensures Join(parts, sep) == s
  {
    if |s| == 0 then [""]
    else
      var rest := Split(s[1..], sep);
      if s[0] == sep then
        assert s == [sep] + s[1..];
        [""] + rest
      else
        var parts := [[s[0]] + rest[0]] + rest[1..];
        assert parts[1..] == rest[1..];
        assert s == [s[0]] + s[1..];
        parts
  }

  /** Two pieces join around one separator. */
  lemma JoinTwo(a: string, b: string, sep: char)
    ensures Join([a, b], sep) == a + [sep] + b
  {
    assert [a, b][1..] == [b];
  }

  /** Text that splits into two pieces is the first, the separator, the
      second. */
  lemma SplitInTwo(s: string, sep: char)
    requires |Split(s, sep)| == 2
    ensures var parts := Split(s, sep);
            s == parts[0] + [sep] + parts[1] && forall i :: 0 <= i < |parts[0]| ==> parts[0][i] == s[i]
  {
    var parts := Split(s, sep);
    assert parts == [parts[0], parts[1]];
    JoinTwo(parts[0], parts[1], sep);
  }

  /** Text with exactly one separator splits into the text before it and
      the text after it. */
  lemma {:induction false} SplitAtSoleSeparator(a: string, b: string, sep: char)
    requires sep !in a && sep !in b
    ensures Split(a + [sep] + b, sep) == [a, b]
  {
    var s := a + [sep] + b;
    if |a| == 0 {
      assert s[1..] == b;
      SplitNoSeparator(b, sep);
    } else {
      assert s[1..] == a[1..] + [sep] + b;
      SplitAtSoleSeparator(a[1..], b, sep);
      assert [a[0]] + a[1..] == a;
    }
  }

  /** Text without the separator is a single piece. */
  lemma {:induction false} SplitNoSeparator(s: string, sep: char)
    requires sep !in s
    ensures Split(s, sep) == [s]
  {
    if |s| > 0 {
      assert sep !in s[1..];
      SplitNoSeparator(s[1..], sep);
      assert [s[0]] + s[1..] == s;
    }
  }

  // ---------------------------------------------------------------------
  // int(text) in base 10, and str(n)
  // ---------------------------------------------------------------------

  predicate IsDigit(c: char)
  {
    '0' <= c <= '9'
  }

  predicate AllDigits(s: string)
  {
    forall i :: 0 <= i < |s| ==> IsDigit(s[i])
  }

  function DigitValue(c: char): nat
    requires IsDigit(c)
  {
    c as int - '0' as int
  }

  function DigitChar(d: nat): (c: char)
    requires d < 10
    ensures IsDigit(c) && DigitValue(c) == d
  {
    ('0' as int + d) as char
  }

  /** The number a string of decimal digits denotes (leading zeros allowed). */
  function DecimalValue(ds: string): nat
    requires AllDigits(ds)
  {
    if |ds| == 0 then 0 else DecimalValue(ds[..|ds| - 1]) * 10 + DigitValue(ds[|ds| - 1])
  }

  /** `str(n)` for a natural number: its shortest decimal digits. */
  function DecimalString(n: nat): (s: string)
    ensures |s| > 0 && AllDigits(s)
  {
    if n < 10 then [DigitChar(n)] else DecimalString(n / 10) + [DigitChar(n % 10)]
  }

  /** `str(n)` for any integer. */
  function IntString(n: int): string
  {
    if n < 0 then "-" + DecimalString(-n) else DecimalString(n)
  }

  /** Digits as `int()` accepts them: decimal digits, with single underscores
      allowed between two digits (`1_000`). */
  predicate IsDigitGroups(s: string)
  {
    |s| > 0 &&
    (forall i :: 0 <= i < |s| ==> IsDigit(s[i]) || s[i] == '_') &&
    (forall i {:trigger s[i]} :: 0 <= i < |s| && s[i] == '_' ==>
       0 < i < |s| - 1 && IsDigit(s[i - 1]) && IsDigit(s[i + 1]))
  }

  /** The digits of a digit-group string, underscores dropped. */
  function DigitsOf(s: string): (ds: string)
    requires forall i :: 0 <= i < |s| ==> IsDigit(s[i]) || s[i] == '_'
    ensures AllDigits(ds)
  {
    if |s| == 0 then [] else (if s[0] == '_' then [] else [s[0]]) + DigitsOf(s[1..])
  }

  /** A character `int()` can accept somewhere in its argument. */
  predicate IsIntChar(c: char)
  {
    IsDigit(c) || c == '_' || c == '+' || c == '-' || IsSpace(c)
  }

  /** An integer literal as `int()` reads it once whitespace is stripped:
      an optional sign, then digit groups. */
  function IntLiteralValue(t: string): Option<int>
  {
    var signed := |t| > 0 && (t[0] == '+' || t[0] == '-');
    var body := if signed then t[1..] else t;
    if IsDigitGroups(body) then
      var v: int := DecimalValue(DigitsOf(body));
      Some(if signed && t[0] == '-' then -v else v)
    else
      None
  }

  /** The ASCII information separators FS, GS, RS and US. `str.isspace()`
      holds for them, but `int()` skips only the ASCII whitespace space,
      TAB, LF, VT, FF and CR (and maps non-ASCII whitespace to a space), so
      one of these anywhere in its argument makes `int()` raise. */
  predicate IsInfoSeparator(c: char)
  {
    '\U{1c}' <= c <= '\U{1f}'
  }

  predicate NoInfoSeparator(s: string)
  {
    forall i :: 0 <= i < |s| ==> !IsInfoSeparator(s[i])
  }

  /** `int(text)` in base 10: surrounding whitespace, an optional sign, then
      digit groups. `None` stands for the ValueError Python raises. */
  function PyInt(s: string): (r: Option<int>)
    ensures r.Some? ==> NoInfoSeparator(s) && Strip(s) != []
  {
    if NoInfoSeparator(s) then IntLiteralValue(Strip(s)) else None
  }

  /** Only characters `IsIntChar` admits occur in a literal that converts. */
  lemma LiteralChars(t: string)
    requires IntLiteralValue(t).Some?
    ensures forall i :: 0 <= i < |t| ==> IsIntChar(t[i])
  {
    var signed := |t| > 0 && (t[0] == '+' || t[0] == '-');
    var body := if signed then t[1..] else t;
    forall i | 0 <= i < |t| ensures IsIntChar(t[i]) {
      if signed && i > 0 { assert t[i] == body[i - 1]; }
    }
  }

  /** Only characters `IsIntChar` admits occur in a text `int()` converts:
      a letter, a dot or any other character makes it raise. */
  lemma PyIntChars(s: string)
    requires PyInt(s).Some?
    ensures forall i :: 0 <= i < |s| ==> IsIntChar(s[i]) && !IsInfoSeparator(s[i])
  {
    LiteralChars(Strip(s));
    forall i | 0 <= i < |s| ensures IsIntChar(s[i]) && !IsInfoSeparator(s[i]) {
      if !IsSpace(s[i]) { StripKeepsNonSpace(s, i); }
    }
  }

  /** `int()` ignores surrounding whitespace, and blank text is not an
      integer. */
  lemma PyIntOfStripped(s: string)
    ensures NoInfoSeparator(s) ==> PyInt(Strip(s)) == PyInt(s)
    ensures Strip(s) == [] ==> PyInt(s) == None
  {
    StripIdempotent(s);
    if NoInfoSeparator(s) {
      StripKeepsSeparators(s);
    }
  }

  /** Stripping removes characters and adds none, so it adds no information
      separator. */
  lemma StripKeepsSeparators(s: string)
    requires NoInfoSeparator(s)
    ensures NoInfoSeparator(Strip(s))
  {
    StripIsMiddle(s);
    var t := Strip(s);
    var k :| Surrounded(s, k, t);
    forall i | 0 <= i < |t| ensures !IsInfoSeparator(t[i]) {
      assert t[i] == s[k + i];
    }
  }

  /** Plain digits have no underscore to drop. */
  lemma {:induction false} DigitsOfPlainDigits(ds: string)
    requires AllDigits(ds)
    ensures DigitsOf(ds) == ds
  {
    if |ds| > 0 {
      DigitsOfPlainDigits(ds[1..]);
      assert [ds[0]] + ds[1..] == ds;
    }
  }

  lemma PlainDigitsAreGroups(ds: string)
    requires |ds| > 0 && AllDigits(ds)
    ensures IsDigitGroups(ds)
  {
  }

  /** Digits are not whitespace, so stripping leaves them alone. */
  lemma StripOfDigits(ds: string)
    requires |ds| > 0 && AllDigits(ds)
    ensures Strip(ds) == ds
  {
    assert IsDigit(ds[0]) && IsDigit(ds[|ds| - 1]);
    StripNoEdgeSpace(ds);
  }

  /** A literal of plain digits has the value the digits spell. */
  lemma LiteralOfDigits(ds: string)
    requires |ds| > 0 && AllDigits(ds)
    ensures IntLiteralValue(ds) == Some(DecimalValue(ds) as int)
  {
    PlainDigitsAreGroups(ds);
    DigitsOfPlainDigits(ds);
    assert IsDigit(ds[0]);
  }

  /** A non-empty string of decimal digits converts to the number it spells. */
  lemma PyIntOfDigits(ds: string)
    requires |ds| > 0 && AllDigits(ds)
    ensures PyInt(ds) == Some(DecimalValue(ds) as int)
  {
    StripOfDigits(ds);
    LiteralOfDigits(ds);
  }

  /** A literal of a minus sign and digits has the negated value. */
  lemma {:induction false} LiteralOfNegatedDigits(ds: string)
    requires |ds| > 0 && AllDigits(ds)
    ensures IntLiteralValue("-" + ds) == Some(-(DecimalValue(ds) as int))
  {
    var t := "-" + ds;
    assert t[0] == '-' && t[1..] == ds;
    PlainDigitsAreGroups(ds);
    DigitsOfPlainDigits(ds);
  }

  /** A minus sign before decimal digits gives the negated value. */
  lemma {:induction false} PyIntOfNegatedDigits(ds: string, v: int)
    requires |ds| > 0 && AllDigits(ds) && DecimalValue(ds) as int == v
    ensures PyInt("-" + ds) == Some(-v)
  {
    NegatedDigitsUnstripped(ds);
    LiteralOfNegatedDigits(ds);
  }

  /** A minus sign and digits hold no whitespace at either end and no
      information separator. */
  lemma NegatedDigitsUnstripped(ds: string)
    requires |ds| > 0 && AllDigits(ds)
    ensures Strip("-" + ds) == "-" + ds && NoInfoSeparator("-" + ds)
  {
    var s := "-" + ds;
    assert s[|s| - 1] == ds[|ds| - 1] && IsDigit(ds[|ds| - 1]);
    StripNoEdgeSpace(s);
    forall i | 0 <= i < |s| ensures !IsInfoSeparator(s[i]) {
      if i > 0 { assert s[i] == ds[i - 1]; }
    }
  }

  /** `str(n)` read back: its digits denote `n`. */
  lemma {:induction false} DecimalStringValue(n: nat)
    ensures DecimalValue(DecimalString(n)) == n
  {
    if n >= 10 {
      var s := DecimalString(n);
      assert s[..|s| - 1] == DecimalString(n / 10);
      DecimalStringValue(n / 10);
    }
  }

  /** `int(str(n)) == n` for every integer `n`. */
  lemma PyIntOfIntString(n: int)
    ensures PyInt(IntString(n)) == Some(n)
  {
    if n >= 0 {
      var ds := DecimalString(n);
      DecimalStringValue(n);
      PyIntOfDigits(ds);
    } else {
      PyIntOfNegativeIntString(n);
    }
  }

  lemma PyIntOfNegativeIntString(n: int)
    requires n < 0
    ensures PyInt(IntString(n)) == Some(n)
  {
    var ds := DecimalString(-n);
    assert IntString(n) == "-" + ds;
    DecimalStringValue(-n);
    PyIntOfNegatedDigits(ds, -n);
  }

}
