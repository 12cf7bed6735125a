/**
  The few Python string operations the core relies on: str.upper(), str.lower(),
  str.isalpha(), str.isspace(), str.strip(), str.split(','), ','.join(...),
  int(...) and the formats "{n}" and "{n:04d}".

  Python defines the character methods on all of Unicode. Here they are defined on
  Latin-1 (U+0000..U+00FF), which holds every letter of French names, plus the two
  capitals outside Latin-1 that Latin-1 letters upper-case to (U+0178 and U+039C).
*/
module Text {
  import opened Wrappers

  // ---------------------------------------------------------------------------
  // Character classes
  // ---------------------------------------------------------------------------

  predicate IsAsciiLower(c: char) { 'a' <= c <= 'z' }
  predicate IsAsciiUpper(c: char) { 'A' <= c <= 'Z' }
  predicate IsDigit(c: char) { '0' <= c <= '9' }

  /** string.ascii_letters + string.digits */
  predicate IsAsciiAlnum(c: char) { IsAsciiLower(c) || IsAsciiUpper(c) || IsDigit(c) }

  /** str.isalpha() */
  predicate IsAlpha(c: char) {
    || IsAsciiUpper(c) || IsAsciiLower(c)
    || c == '\U{00AA}' || c == '\U{00B5}' || c == '\U{00BA}'
    || ('\U{00C0}' <= c <= '\U{00FF}' && c != '\U{00D7}' && c != '\U{00F7}')
    || c == '\U{0178}' || c == '\U{039C}'
  }

  /** str.isspace() */
  predicate IsSpace(c: char) {
    c == ' ' || '\t' <= c <= '\r' || '\U{001C}' <= c <= '\U{001F}' || c == '\U{0085}' || c == '\U{00A0}'
  }

  // ---------------------------------------------------------------------------
  // Case mapping
  // ---------------------------------------------------------------------------

  /** str.upper() of one character; 'ß' becomes the two letters "SS". */
  function UpperChar(c: char): string {
    if IsAsciiLower(c) || ('\U{00E0}' <= c <= '\U{00FE}' && c != '\U{00F7}') then [(c as int - 32) as char]
    else if c == '\U{00B5}' then ['\U{039C}']
    else if c == '\U{00DF}' then "SS"
    else if c == '\U{00FF}' then ['\U{0178}']
    else [c]
  }

  /** str.lower() of one character. */
  function LowerChar(c: char): char {
    if IsAsciiUpper(c) || ('\U{00C0}' <= c <= '\U{00DE}' && c != '\U{00D7}') then (c as int + 32) as char
    else if c == '\U{0178}' then '\U{00FF}'
    else if c == '\U{039C}' then '\U{03BC}'
    else c
  }

  function Upper(s: string): string {
    if s == [] then [] else UpperChar(s[0]) + Upper(s[1..])
  }

  function Lower(s: string): string {
    seq(|s|, i requires 0 <= i < |s| => LowerChar(s[i]))
  }

  /** The characters of s for which str.isalpha() holds, in order. */
  function KeepAlpha(s: string): string {
    if s == [] then [] else (if IsAlpha(s[0]) then [s[0]] else []) + KeepAlpha(s[1..])
  }

  /** Upper-casing a letter gives letters that upper-casing leaves alone;
      any other character is left alone. */
  lemma UpperCharFacts(c: char)
    ensures IsAlpha(c) ==> |UpperChar(c)| >= 1
    ensures IsAlpha(c) ==> forall i :: 0 <= i < |UpperChar(c)| ==> IsAlpha(UpperChar(c)[i]) && UpperChar(UpperChar(c)[i]) == [UpperChar(c)[i]]
    ensures !IsAlpha(c) ==> UpperChar(c) == [c]
  {
  }

  lemma {:induction false} KeepAlphaAppend(a: string, b: string)
    ensures KeepAlpha(a + b) == KeepAlpha(a) + KeepAlpha(b)
  {
    if a == [] {
      assert a + b == b;
    } else {
      var h := if IsAlpha(a[0]) then [a[0]] else [];
      assert (a + b)[0] == a[0] && (a + b)[1..] == a[1..] + b;
      KeepAlphaAppend(a[1..], b);
      assert KeepAlpha(a + b) == h + KeepAlpha(a[1..] + b);
      assert KeepAlpha(a) == h + KeepAlpha(a[1..]);
    }
  }

  lemma {:induction false} KeepAlphaOfLetters(s: string)
    requires forall i :: 0 <= i < |s| ==> IsAlpha(s[i])
    ensures KeepAlpha(s) == s
  {
    if s != [] {
      KeepAlphaOfLetters(s[1..]);
    }
  }

  lemma {:induction false} UpperAppend(a: string, b: string)
    ensures Upper(a + b) == Upper(a) + Upper(b)
  {
    if a == [] {
      assert a + b == b;
    } else {
      assert (a + b)[1..] == a[1..] + b;
      UpperAppend(a[1..], b);
    }
  }

  // ---------------------------------------------------------------------------
  // Whitespace
  // ---------------------------------------------------------------------------

  function StripLeft(s: string): string {
    if s != [] && IsSpace(s[0]) then StripLeft(s[1..]) else s
  }

  function StripRight(s: string): string {
    if s != [] && IsSpace(s[|s| - 1]) then StripRight(s[..|s| - 1]) else s
  }

  /** str.strip() */
  function Strip(s: string): string {
    StripRight(StripLeft(s))
  }

  lemma {:induction false} StripLeftFacts(s: string)
    ensures var k := |s| - |StripLeft(s)|;
      0 <= k <= |s| && StripLeft(s) == s[k..]
      && (forall i :: 0 <= i < k ==> IsSpace(s[i]))
      && (StripLeft(s) == [] || !IsSpace(StripLeft(s)[0]))
  {
    if s != [] && IsSpace(s[0]) {
      StripLeftFacts(s[1..]);
    }
  }

  lemma {:induction false} StripRightFacts(s: string)
    ensures var k := |StripRight(s)|;
      k <= |s| && StripRight(s) == s[..k]
      && (forall i :: k <= i < |s| ==> IsSpace(s[i]))
      && (StripRight(s) == [] || !IsSpace(StripRight(s)[k - 1]))
  {
    if s != [] && IsSpace(s[|s| - 1]) {
      StripRightFacts(s[..|s| - 1]);
    }
  }

  /** Strip removes exactly the leading and the trailing whitespace. */
  lemma StripCharacterized(s: string)
    ensures exists i, j ::
              && 0 <= i <= j <= |s| && Strip(s) == s[i..j]
              && (forall k :: 0 <= k < i ==> IsSpace(s[k]))
              && (forall k :: j <= k < |s| ==> IsSpace(s[k]))
    ensures Strip(s) == [] || (!IsSpace(Strip(s)[0]) && !IsSpace(Strip(s)[|Strip(s)| - 1]))
  {
    StripLeftFacts(s);
    var i := |s| - |StripLeft(s)|;
    var t := StripLeft(s);
    StripRightFacts(t);
    var j := i + |StripRight(t)|;
    assert Strip(s) == s[i..j];
    forall k | j <= k < |s| ensures IsSpace(s[k]) {
      assert s[k] == t[k - i];
    }
  }

  /** A string with no whitespace at either end is its own strip(). */
  lemma StripTrimmed(s: string)
    requires s == [] || (!IsSpace(s[0]) && !IsSpace(s[|s| - 1]))
    ensures Strip(s) == s
  {
  }

  /** A string without whitespace is its own strip(). */
  lemma StripNoSpace(s: string)
    requires forall i :: 0 <= i < |s| ==> !IsSpace(s[i])
    ensures Strip(s) == s
  {
  }

  // ---------------------------------------------------------------------------
  // Decimal numerals
  // ---------------------------------------------------------------------------

  function DigitChar(d: nat): char
    requires d < 10
  {
    ('0' as int + d) as char
  }

  function DigitValue(c: char): nat
    requires IsDigit(c)
  {
    c as int - '0' as int
  }

  predicate AllDigits(s: string) {
    forall i :: 0 <= i < |s| ==> IsDigit(s[i])
  }

  /** f"{n}" for a non-negative integer. */
  function Decimal(n: nat): string
    decreases n
  {
    if n < 10 then [DigitChar(n)] else Decimal(n / 10) + [DigitChar(n % 10)]
  }

  /** The value of a string of decimal digits (leading zeros allowed). */
  function DigitsValue(s: string): nat
    requires AllDigits(s)
  {
    if s == [] then 0 else 10 * DigitsValue(s[..|s| - 1]) + DigitValue(s[|s| - 1])
  }

  /** Reading back a formatted number gives the number; there is no leading zero. */
  lemma {:induction false} DecimalRoundTrip(n: nat)
    ensures |Decimal(n)| >= 1 && AllDigits(Decimal(n))
    ensures DigitsValue(Decimal(n)) == n
    ensures n > 0 ==> Decimal(n)[0] != '0'
    decreases n
  {
    if n >= 10 {
      DecimalRoundTrip(n / 10);
      var s := Decimal(n);
      assert s[..|s| - 1] == Decimal(n / 10);
    }
  }

  lemma DecimalInjective(a: nat, b: nat)
    requires Decimal(a) == Decimal(b)
    ensures a == b
  {
    DecimalRoundTrip(a);
    DecimalRoundTrip(b);
  }

  /** f"{n}" has one digit below 10 and two below 100. */
  lemma DecimalLengthBelow100(n: nat)
    requires n < 100
    ensures |Decimal(n)| == if n < 10 then 1 else 2
  {
  }

  function Pow10(k: nat): nat {
    if k == 0 then 1 else 10 * Pow10(k - 1)
  }

  lemma {:induction false} Pow10AtLeast10(k: nat)
    requires k >= 1
    ensures Pow10(k) >= 10
  {
    if k > 1 {
      Pow10AtLeast10(k - 1);
    }
  }

  /** f"{n}" has at most k + 1 digits exactly when n < 10^(k+1). */
  lemma {:induction false} DecimalLength(n: nat, k: nat)
    ensures |Decimal(n)| <= k + 1 <==> n < Pow10(k + 1)
    decreases n
  {
    Pow10AtLeast10(k + 1);
    if n >= 10 {
      if k > 0 {
        DecimalLength(n / 10, k - 1);
      } else {
        assert |Decimal(n)| == |Decimal(n / 10)| + 1;
      }
    }
  }

  lemma {:induction false} DigitsValueLeadingZero(s: string)
    requires AllDigits(s)
    ensures AllDigits("0" + s) && DigitsValue("0" + s) == DigitsValue(s)
    decreases |s|
  {
    if s != [] {
      var t := "0" + s;
      assert t[..|t| - 1] == "0" + s[..|s| - 1];
      DigitsValueLeadingZero(s[..|s| - 1]);
    }
  }

  function ZeroPad(s: string, width: nat): string
    decreases width - |s|
  {
    if |s| >= width then s else ZeroPad("0" + s, width)
  }

  /** f"{n:04d}" for a non-negative integer. */
  function Pad4(n: nat): string {
    ZeroPad(Decimal(n), 4)
  }

  lemma {:induction false} ZeroPadFacts(s: string, width: nat)
    requires AllDigits(s)
    ensures |ZeroPad(s, width)| == if |s| >= width then |s| else width
    ensures AllDigits(ZeroPad(s, width)) && DigitsValue(ZeroPad(s, width)) == DigitsValue(s)
    decreases width - |s|
  {
    if |s| < width {
      DigitsValueLeadingZero(s);
      ZeroPadFacts("0" + s, width);
    }
  }

  /** f"{n:04d}" is all digits, reads back as n, and is four long exactly when n < 10000. */
  lemma Pad4Facts(n: nat)
    ensures AllDigits(Pad4(n)) && DigitsValue(Pad4(n)) == n
    ensures |Pad4(n)| >= 4
    ensures |Pad4(n)| == 4 <==> n < 10000
  {
    DecimalRoundTrip(n);
    DecimalLength(n, 3);
    assert Pow10(4) == 10000;
    ZeroPadFacts(Decimal(n), 4);
  }

  // ---------------------------------------------------------------------------
  // int() on a token that carries no surrounding whitespace
  // ---------------------------------------------------------------------------

  /** Digits, with single underscores allowed between two digits. */
  predicate DigitGroups(u: string) {
    && |u| >= 1 && IsDigit(u[0]) && IsDigit(u[|u| - 1])
    && (forall i :: 0 <= i < |u| ==> IsDigit(u[i]) || u[i] == '_')
    && (forall i :: 0 <= i < |u| - 1 ==> u[i] == '_' ==> u[i + 1] != '_')
  }

  function DropUnderscores(u: string): (r: string)
    requires forall i :: 0 <= i < |u| ==> IsDigit(u[i]) || u[i] == '_'
    ensures AllDigits(r)
  {
    if u == [] then [] else (if u[0] == '_' then [] else [u[0]]) + DropUnderscores(u[1..])
  }

  /** sys.get_int_max_str_digits() by default: int() refuses a decimal string with more
      digits than this. */
  const MaxStrDigits: nat := 4300

  /** int(t): an optional sign, then digit groups of at most MaxStrDigits digits in all;
      anything else raises ValueError (None). */
  function ParseInt(t: string): Option<int> {
    var signed := |t| > 0 && (t[0] == '+' || t[0] == '-');
    var body := if signed then t[1..] else t;
    if !DigitGroups(body) || |DropUnderscores(body)| > MaxStrDigits then None
    else
      var v: int := DigitsValue(DropUnderscores(body));
      Some(if signed && t[0] == '-' then -v else v)
  }

  lemma {:induction false} DropUnderscoresOfDigits(u: string)
    requires AllDigits(u)
    ensures DropUnderscores(u) == u
  {
    if u != [] {
      DropUnderscoresOfDigits(u[1..]);
    }
  }

  /** int(f"{n}") == n, for every n whose digits int() accepts. */
  lemma ParseDecimal(n: nat)
    requires |Decimal(n)| <= MaxStrDigits
    ensures ParseInt(Decimal(n)) == Some(n)
  {
    DecimalRoundTrip(n);
    DropUnderscoresOfDigits(Decimal(n));
  }

  // ---------------------------------------------------------------------------
  // str.split(sep) and sep.join(parts)
  // ---------------------------------------------------------------------------

  function Split(s: string, sep: char): (r: seq<string>)
    ensures |r| >= 1
  {
    if s == [] then [""]
    else
      var rest := Split(s[1..], sep);
      if s[0] == sep then [""] + rest else [[s[0]] + rest[0]] + rest[1..]
  }

  function Join(parts: seq<string>, sep: char): string {
    if parts == [] then ""
    else if |parts| == 1 then parts[0]
    else parts[0] + [sep] + Join(parts[1..], sep)
  }

  lemma {:induction false} SplitNoSep(a: string, sep: char)
    requires sep !in a
    ensures Split(a, sep) == [a]
  {
    if a != [] {
      SplitNoSep(a[1..], sep);
      assert [a[0]] + a[1..] == a;
    }
  }

  lemma {:induction false} SplitAtSep(a: string, b: string, sep: char)
    requires sep !in a
    ensures Split(a + [sep] + b, sep) == [a] + Split(b, sep)
  {
    if a == [] {
      assert a + [sep] + b == [sep] + b;
      assert ([sep] + b)[1..] == b;
    } else {
      assert (a + [sep] + b)[1..] == a[1..] + [sep] + b;
      SplitAtSep(a[1..], b, sep);
      assert [a[0]] + a[1..] == a;
    }
  }

  /** Splitting what join produced gives the parts back, when no part holds the separator. */
  lemma {:induction false} SplitJoin(parts: seq<string>, sep: char)
    requires |parts| >= 1
    requires forall k :: 0 <= k < |parts| ==> sep !in parts[k]
    ensures Split(Join(parts, sep), sep) == parts
  {
    if |parts| == 1 {
      SplitNoSep(parts[0], sep);
    } else {
      SplitJoin(parts[1..], sep);
      SplitAtSep(parts[0], Join(parts[1..], sep), sep);
    }
  }
}
