/** The string operations of JavaScript that the scheduler relies on:
    `trim`, `split` on one character, `toUpperCase` (as far as it matters
    when a value is compared with "TRUE"), `String(n)` for a non-negative
    integer and `padStart(2, '0')`. */
module Text {

  // ---------------------------------------------------------------------
  // Whitespace and trim
  // ---------------------------------------------------------------------

  /** The characters `String.prototype.trim` removes: the WhiteSpace and
      LineTerminator code points of ECMAScript (section 12.2 and 12.3 of
      ECMA-262): tab, vertical tab, form feed, space, no-break space, the
      byte order mark, the space separators of Unicode and the four line
      terminators. */
  predicate IsJsSpace(c: char) {
    || c == '\t' || c == '\n' || c == '\U{B}' || c == '\U{C}' || c == '\r' || c == ' '
    || c == '\U{A0}' || c == '\U{1680}' || ('\U{2000}' <= c <= '\U{200A}')
    || c == '\U{2028}' || c == '\U{2029}' || c == '\U{202F}' || c == '\U{205F}'
    || c == '\U{3000}' || c == '\U{FEFF}'
  }

  /** The string without the whitespace that starts it. */
  function TrimStart(s: string): string {
    if |s| > 0 && IsJsSpace(s[0]) then TrimStart(s[1..]) else s
  }

  /** The string without the whitespace that ends it. */
  function TrimEnd(s: string): string {
    if |s| > 0 && IsJsSpace(s[|s| - 1]) then TrimEnd(s[..|s| - 1]) else s
  }

  /** `s.trim()`: the string without its leading and trailing whitespace. */
  function Trim(s: string): string {
    TrimEnd(TrimStart(s))
  }

  /** `r` stands at offset `a` of `s` and everything around it is whitespace. */
  predicate TrimmedAt(s: string, r: string, a: int) {
    && 0 <= a <= |s| - |r| && r == s[a..a + |r|]
    && (forall j :: 0 <= j < a ==> IsJsSpace(s[j]))
    && (forall j :: a + |r| <= j < |s| ==> IsJsSpace(s[j]))
  }

  /** `TrimStart` drops a run of whitespace and stops at a character that
      is not whitespace. */
  lemma {:induction false} TrimStartMeaning(s: string)
    ensures var r := TrimStart(s);
      && |r| <= |s| && r == s[|s| - |r|..]
      && (forall j :: 0 <= j < |s| - |r| ==> IsJsSpace(s[j]))
      && (r == [] || !IsJsSpace(r[0]))
  {
    if |s| > 0 && IsJsSpace(s[0]) {
      TrimStartMeaning(s[1..]);
    }
  }

  /** `TrimEnd` drops a run of whitespace at the end and stops at a
      character that is not whitespace. */
  lemma {:induction false} TrimEndMeaning(s: string)
    ensures var r := TrimEnd(s);
      && |r| <= |s| && r == s[..|r|]
      && (forall j :: |r| <= j < |s| ==> IsJsSpace(s[j]))
      && (r == [] || !IsJsSpace(r[|r| - 1]))
  {
    if |s| > 0 && IsJsSpace(s[|s| - 1]) {
      TrimEndMeaning(s[..|s| - 1]);
    }
  }

  /** The trimmed string sits inside `s` with only whitespace around it,
      and neither starts nor ends with whitespace. */
  lemma TrimMeaning(s: string)
    ensures var r := Trim(s);
      && (r == [] || (!IsJsSpace(r[0]) && !IsJsSpace(r[|r| - 1])))
      && exists a :: TrimmedAt(s, r, a)
  {
    var t := TrimStart(s);
    TrimStartMeaning(s);
    TrimEndMeaning(t);
    var r := Trim(s);
    var a := |s| - |t|;
    assert r == s[a..a + |r|];
    assert TrimmedAt(s, r, a);
  }

  /** A string with no whitespace at either end is its own trim. */
  lemma TrimKeepsUnspaced(s: string)
    requires s == [] || (!IsJsSpace(s[0]) && !IsJsSpace(s[|s| - 1]))
    ensures Trim(s) == s
  {
  }

  /** Trimming twice is trimming once. */
  lemma TrimIdempotent(s: string)
    ensures Trim(Trim(s)) == Trim(s)
  {
    TrimMeaning(s);
    TrimKeepsUnspaced(Trim(s));
  }

  // ---------------------------------------------------------------------
  // split and join on one separator character
  // ---------------------------------------------------------------------

  /** `s.split(sep)` for a one-character separator: the maximal pieces
      between separators, an empty piece between two adjacent separators,
      and `[""]` for the empty string. */
  function Split(s: string, sep: char): (parts: seq<string>)
    ensures |parts| >= 1
    ensures forall p :: p in parts ==> sep !in p
    decreases |s|
  {
    if |s| == 0 then [""]
    else
      var rest := Split(s[1..], sep);
      if s[0] == sep then [""] + rest
      else
        assert rest[0] in rest;
        [[s[0]] + rest[0]] + rest[1..]
  }

  /** `parts.join(sep)`. */
  function Join(parts: seq<string>, sep: char): string
    requires |parts| >= 1
  {
    if |parts| == 1 then parts[0] else parts[0] + [sep] + Join(parts[1..], sep)
  }

  /** Splitting loses nothing: joining the pieces gives the string back. */
  lemma {:induction false} JoinSplit(s: string, sep: char)
    ensures Join(Split(s, sep), sep) == s
    decreases |s|
  {
    if |s| > 0 {
      var rest := Split(s[1..], sep);
      JoinSplit(s[1..], sep);
      if s[0] == sep {
        assert Split(s, sep) == [""] + rest;
        assert s == [sep] + s[1..];
      } else {
        var parts := Split(s, sep);
        assert parts == [[s[0]] + rest[0]] + rest[1..];
        if |rest| == 1 {
          assert s == [s[0]] + s[1..];
        } else {
          assert Join(rest, sep) == rest[0] + [sep] + Join(rest[1..], sep);
          assert parts[1..] == rest[1..];
          assert s == [s[0]] + s[1..];
        }
      }
    }
  }

  /** A prefix without separators becomes the front of the first piece. */
  lemma {:induction false} SplitUnseparatedPrefix(p: string, t: string, sep: char)
    requires sep !in p
    ensures Split(p + t, sep) == [p + Split(t, sep)[0]] + Split(t, sep)[1..]
    decreases |p|
  {
    if p == [] {
      var st := Split(t, sep);
      assert p + t == t && p + st[0] == st[0];
      assert st == [st[0]] + st[1..];
    } else {
      var tail := p[1..];
      assert forall c :: c in tail ==> c in p;
      SplitUnseparatedPrefix(tail, t, sep);
      var st := Split(t, sep);
      var rest := Split(tail + t, sep);
      assert rest == [tail + st[0]] + st[1..];
      assert (p + t)[1..] == tail + t;
      assert (p + t)[0] == p[0] && p[0] != sep;
      assert Split(p + t, sep) == [[p[0]] + rest[0]] + rest[1..];
      assert [p[0]] + (tail + st[0]) == p + st[0];
    }
  }

  /** Joining pieces that contain no separator and splitting again gives
      the same pieces back. */
  lemma {:induction false} SplitJoin(parts: seq<string>, sep: char)
    requires |parts| >= 1
    requires forall p :: p in parts ==> sep !in p
    ensures Split(Join(parts, sep), sep) == parts
    decreases |parts|
  {
    if |parts| == 1 {
      SplitUnseparatedPrefix(parts[0], "", sep);
      assert parts[0] + "" == parts[0];
    } else {
      var j := Join(parts[1..], sep);
      assert forall p :: p in parts[1..] ==> p in parts;
      SplitJoin(parts[1..], sep);
      SplitUnseparatedPrefix(parts[0], [sep] + j, sep);
      assert Join(parts, sep) == parts[0] + ([sep] + j);
      var sj := Split([sep] + j, sep);
      assert ([sep] + j)[1..] == j;
      assert sj == [""] + Split(j, sep);
      assert sj[0] == "" && sj[1..] == parts[1..];
      assert parts[0] + sj[0] == parts[0];
      assert parts == [parts[0]] + parts[1..];
    }
  }

  // ---------------------------------------------------------------------
  // Upper case
  // ---------------------------------------------------------------------

  /** Upper case of one character, for the letters a to z. */
  function UpperAscii(c: char): char {
    if 'a' <= c <= 'z' then (c as int - 32) as char else c
  }

  /** `s.toUpperCase()` restricted to the ASCII letters. */
  function ToUpper(s: string): string
  {
    seq(|s|, i requires 0 <= i < |s| => UpperAscii(s[i]))
  }

  /** The strings whose upper case is "TRUE" are exactly the sixteen
      spellings of "true" in any mix of cases. */
  lemma UpperIsTrue(s: string)
    ensures ToUpper(s) == "TRUE" <==>
      |s| == 4 && s[0] in "tT" && s[1] in "rR" && s[2] in "uU" && s[3] in "eE"
  {
    if ToUpper(s) == "TRUE" {
      assert ToUpper(s)[0] == 'T' && ToUpper(s)[1] == 'R';
      assert ToUpper(s)[2] == 'U' && ToUpper(s)[3] == 'E';
    }
  }

  // ---------------------------------------------------------------------
  // Decimal digits
  // ---------------------------------------------------------------------

  predicate IsDigit(c: char) { '0' <= c <= '9' }

  predicate AllDigits(s: string) { forall i :: 0 <= i < |s| ==> IsDigit(s[i]) }

  function DigitChar(n: nat): (c: char)
    requires n < 10
    ensures IsDigit(c)
  {
    ('0' as int + n) as char
  }

  function DigitOf(c: char): (n: nat)
    requires IsDigit(c)
    ensures n < 10
  {
    c as int - '0' as int
  }

  /** `String(n)` for a non-negative integer: its decimal digits, no
      leading zero. */
  function Decimal(n: nat): string
  {
    if n < 10 then [DigitChar(n)] else Decimal(n / 10) + [DigitChar(n % 10)]
  }

  /** The number a string of decimal digits denotes. */
  function DigitsValue(s: string): nat
    requires AllDigits(s)
  {
    if s == [] then 0 else DigitsValue(s[..|s| - 1]) * 10 + DigitOf(s[|s| - 1])
  }

  /** Reading back the decimal digits of `n` gives `n`. */
  lemma {:induction false} DecimalRoundTrip(n: nat)
    ensures AllDigits(Decimal(n)) && DigitsValue(Decimal(n)) == n
  {
    if n >= 10 {
      DecimalRoundTrip(n / 10);
      var s := Decimal(n);
      assert s[..|s| - 1] == Decimal(n / 10);
    }
  }

  /** A run of digits ended by a character that is not a digit can be told
      apart from what follows it: equal texts of that shape have equal
      digits and equal rests. */
  lemma DigitsBeforeMark(x: string, y: string, c: char, s: string, t: string)
    requires AllDigits(x) && AllDigits(y) && !IsDigit(c)
    requires x + [c] + s == y + [c] + t
    ensures x == y && s == t
  {
    var u := x + [c] + s;
    var k := if |x| <= |y| then |x| else |y|;
    assert u[k] == c;
    assert forall i :: 0 <= i < |x| ==> u[i] == x[i];
    assert forall i :: 0 <= i < |y| ==> u[i] == y[i];
    assert x + ([c] + s) == u == y + ([c] + t);
    SplitEqual(x, [c] + s, y, [c] + t);
    assert s == ([c] + s)[1..];
  }

  /** Two joins of pieces of the same length are equal piece by piece. */
  lemma SplitEqual(a1: string, b1: string, a2: string, b2: string)
    requires |a1| == |a2| && a1 + b1 == a2 + b2
    ensures a1 == a2 && b1 == b2
  {
    assert a1 == (a1 + b1)[..|a1|];
    assert b1 == (a1 + b1)[|a1|..];
  }

  /** Decimal texts ended by a non-digit mark determine the number and
      the rest. */
  lemma DecimalBeforeMark(a: nat, b: nat, c: char, s: string, t: string)
    requires !IsDigit(c)
    requires Decimal(a) + [c] + s == Decimal(b) + [c] + t
    ensures a == b && s == t
  {
    DecimalRoundTrip(a);
    DecimalRoundTrip(b);
    DigitsBeforeMark(Decimal(a), Decimal(b), c, s, t);
  }

  /** `String(n).padStart(2, '0')`. */
  function Pad2(n: nat): string {
    var s := Decimal(n);
    if |s| < 2 then "0" + s else s
  }

  /** For 0 to 99 the padded form has exactly two digits and denotes `n`. */
  lemma Pad2RoundTrip(n: nat)
    requires n < 100
    ensures |Pad2(n)| == 2 && AllDigits(Pad2(n)) && DigitsValue(Pad2(n)) == n
  {
    DecimalRoundTrip(n);
    if n >= 10 {
      assert Decimal(n / 10) == [DigitChar(n / 10)];
    } else {
      var s := Pad2(n);
      assert s[..1] == "0";
    }
  }

  /** A year from 1000 to 9999 is written with exactly four digits. */
  lemma Decimal4(n: nat)
    requires 1000 <= n <= 9999
    ensures |Decimal(n)| == 4 && AllDigits(Decimal(n)) && DigitsValue(Decimal(n)) == n
  {
    DecimalRoundTrip(n);
    assert Decimal(n / 1000) == [DigitChar(n / 1000)];
    assert |Decimal(n / 100)| == 2;
    assert |Decimal(n / 10)| == 3;
  }

  /** A number from 100 to 999 is written with exactly three digits. */
  lemma Decimal3(n: nat)
    requires 100 <= n <= 999
    ensures |Decimal(n)| == 3
  {
    assert Decimal(n / 100) == [DigitChar(n / 100)];
    assert |Decimal(n / 10)| == 2;
  }
}
