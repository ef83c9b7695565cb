/** The JavaScript string built-ins the calendar code relies on, on
    `string = seq<char>`: `String(n)` for integers, `padStart`, `split`
    on one character, `trim`, `startsWith`, `endsWith` and
    `parseInt(s, 10)`. Each is written out as the ECMAScript definition
    states it, restricted to the cases the calendar code reaches. */
module JsText {

  import opened Optional

  predicate IsDigit(c: char) {
    '0' <= c <= '9'
  }

  predicate AllDigits(s: string) {
    forall i :: 0 <= i < |s| ==> IsDigit(s[i])
  }

  /** A string of digits holds no other character, such as a separator. */
  lemma NotInDigits(s: string, c: char)
    requires AllDigits(s) && !IsDigit(c)
    ensures c !in s
  {
    forall i | 0 <= i < |s| ensures s[i] != c {
      assert IsDigit(s[i]);
    }
  }

  function DigitChar(n: nat): (c: char)
    requires n < 10
    ensures IsDigit(c)
  {
    ('0' as int + n) as char
  }

  function DigitValue(c: char): (n: nat)
    requires IsDigit(c)
    ensures n < 10 && DigitChar(n) == c
  {
    c as int - '0' as int
  }

  // ---------------------------------------------------------------------
  // String(n) and its inverse on digit strings

  /** Decimal rendering of a non-negative integer, without leading zeros. */
  function NatToString(n: nat): (s: string)
    ensures 1 <= |s|
    ensures n < 10 <==> |s| == 1
    ensures 10 <= n < 100 <==> |s| == 2
    decreases n
  {
    if n < 10 then [DigitChar(n)] else NatToString(n / 10) + [DigitChar(n % 10)]
  }

  /** Every character of the rendering is a decimal digit. */
  lemma {:induction false} NatToStringDigits(n: nat)
    ensures AllDigits(NatToString(n))
    decreases n
  {
    if 10 <= n {
      NatToStringDigits(n / 10);
    }
  }

  /** `String(n)` for an integer `n`: a minus sign before a negative number. */
  function IntToString(n: int): (s: string)
    ensures 1 <= |s|
    ensures n < 0 ==> 2 <= |s| && s[0] == '-'
  {
    if n < 0 then "-" + NatToString(-n) else NatToString(n)
  }

  /** A non-negative number renders as digits only. */
  lemma IntToStringDigits(n: int)
    requires 0 <= n
    ensures AllDigits(IntToString(n))
  {
    NatToStringDigits(n);
  }

  /** The number a string of decimal digits denotes (leading zeros allowed). */
  function DigitsValue(s: string): nat
    requires AllDigits(s)
  {
    if s == [] then 0 else DigitsValue(s[..|s| - 1]) * 10 + DigitValue(s[|s| - 1])
  }

  lemma {:induction false} NatToStringValue(n: nat)
    ensures AllDigits(NatToString(n)) && DigitsValue(NatToString(n)) == n
    decreases n
  {
    NatToStringDigits(n);
    if 10 <= n {
      var s := NatToString(n);
      assert s[..|s| - 1] == NatToString(n / 10);
      NatToStringValue(n / 10);
    }
  }

  function Repeat(c: char, k: nat): (s: string)
    ensures |s| == k
  {
    seq(k, _ => c)
  }

  lemma {:induction false} LeadingZerosValue(k: nat, s: string)
    requires AllDigits(s)
    ensures AllDigits(Repeat('0', k) + s)
    ensures DigitsValue(Repeat('0', k) + s) == DigitsValue(s)
    decreases |s|
  {
    var z := Repeat('0', k) + s;
    if s == [] {
      ZerosValue(k);
      assert z == Repeat('0', k);
    } else {
      assert z[..|z| - 1] == Repeat('0', k) + s[..|s| - 1];
      LeadingZerosValue(k, s[..|s| - 1]);
    }
  }

  lemma {:induction false} ZerosValue(k: nat)
    ensures DigitsValue(Repeat('0', k)) == 0
  {
    if k > 0 {
      assert Repeat('0', k)[..k - 1] == Repeat('0', k - 1);
      ZerosValue(k - 1);
    }
  }

  // ---------------------------------------------------------------------
  // padStart

  /** `s.padStart(width, fill)` with a one-character fill string. */
  function PadStart(s: string, width: nat, fill: char): (r: string)
    ensures |r| == if |s| >= width then |s| else width
  {
    if |s| >= width then s else Repeat(fill, width - |s|) + s
  }

  /** The padded string ends with the original and is filled in front:
      `padStart` never truncates and only prepends the fill character. */
  lemma PadStartSpec(s: string, width: nat, fill: char)
    ensures var r := PadStart(s, width, fill);
            && r[|r| - |s|..] == s
            && forall i :: 0 <= i < |r| - |s| ==> r[i] == fill
  {
  }

  /** `String(n).padStart(2, "0")`, as the calendar code writes month and day numbers. */
  function Pad2(n: int): string {
    PadStart(IntToString(n), 2, '0')
  }

  /** A two-character digit string, the shape `Pad2` gives every number in 0..99. */
  predicate TwoDigits(s: string) {
    |s| == 2 && AllDigits(s)
  }

  lemma Pad2Shape(n: int)
    ensures 0 <= n < 100 <==> TwoDigits(Pad2(n))
    ensures n < 0 ==> Pad2(n)[0] == '-'
    ensures 2 <= |Pad2(n)|
  {
    if 0 <= n {
      NatToStringDigits(n);
    }
    if n < 0 {
      assert Pad2(n) == IntToString(n);
    } else if n < 10 {
      assert Pad2(n) == Repeat('0', 1) + NatToString(n);
    } else {
      assert Pad2(n) == NatToString(n);
    }
  }

  lemma Pad2Value(n: int)
    requires 0 <= n
    ensures AllDigits(Pad2(n)) && DigitsValue(Pad2(n)) == n
  {
    NatToStringValue(n);
    if n < 10 {
      assert Pad2(n) == Repeat('0', 1) + NatToString(n);
      LeadingZerosValue(1, NatToString(n));
    }
  }

  /** `Pad2` is undone by reading the two digits back. */
  lemma {:induction false} Pad2OfTwoDigits(s: string)
    requires TwoDigits(s)
    ensures Pad2(DigitsValue(s)) == s
  {
    var v := DigitsValue(s);
    assert DigitsValue(s[..1]) == DigitValue(s[0]) by {
      assert s[..1][..0] == [];
    }
    assert v == DigitValue(s[0]) * 10 + DigitValue(s[1]);
    if DigitValue(s[0]) == 0 {
      assert Pad2(v) == "0" + [DigitChar(DigitValue(s[1]))];
    } else {
      assert NatToString(v) == NatToString(v / 10) + [DigitChar(v % 10)];
      assert v / 10 == DigitValue(s[0]) && v % 10 == DigitValue(s[1]);
    }
  }

  // ---------------------------------------------------------------------
  // split on a single character

  /** `s.split(sep)` for a one-character separator: the maximal
      separator-free pieces, including empty ones; `""` splits into `[""]`. */
  function Split(s: string, sep: char): (parts: seq<string>)
    ensures |parts| >= 1
    ensures forall i :: 0 <= i < |parts| ==> sep !in parts[i]
  {
    if s == [] then [[]]
    else
      var rest := Split(s[1..], sep);
      if s[0] == sep then [[]] + rest else [[s[0]] + rest[0]] + rest[1..]
  }

  /** `parts.join(sep)`. */
  function Join(parts: seq<string>, sep: char): string
    requires |parts| >= 1
  {
    if |parts| == 1 then parts[0] else parts[0] + [sep] + Join(parts[1..], sep)
  }

  /** `Join` of one more piece in front. */
  lemma JoinCons(head: string, tail: seq<string>, joined: string, sep: char)
    requires |tail| >= 1 && Join(tail, sep) == joined
    ensures Join([head] + tail, sep) == head + [sep] + joined
  {
    assert ([head] + tail)[1..] == tail;
  }

  /** Joining the pieces again gives back the string that was split. */
  lemma {:induction false} JoinSplit(s: string, sep: char)
    ensures Join(Split(s, sep), sep) == s
  {
    if s != [] {
      var rest := Split(s[1..], sep);
      JoinSplit(s[1..], sep);
      if s[0] != sep && |rest| > 1 {
        assert Join(rest, sep) == rest[0] + [sep] + Join(rest[1..], sep);
        var parts := Split(s, sep);
        assert parts[1..] == rest[1..];
      }
    }
  }

  /** Splitting pieces that hold no separator, once joined, gives the pieces back. */
  lemma {:induction false} SplitJoin(parts: seq<string>, sep: char)
    requires |parts| >= 1 && forall i :: 0 <= i < |parts| ==> sep !in parts[i]
    ensures Split(Join(parts, sep), sep) == parts
    decreases |parts|
  {
    if |parts| == 1 {
      SplitNoSeparator(parts[0], sep);
    } else {
      SplitJoin(parts[1..], sep);
      SplitAtSeparator(parts[0], sep, Join(parts[1..], sep));
      assert parts == [parts[0]] + parts[1..];
    }
  }

  lemma {:induction false} SplitNoSeparator(s: string, sep: char)
    requires sep !in s
    ensures Split(s, sep) == [s]
  {
    if s != [] {
      SplitNoSeparator(s[1..], sep);
      assert [s[0]] + s[1..] == s;
    }
  }

  lemma {:induction false} SplitAtSeparator(a: string, sep: char, b: string)
    requires sep !in a
    ensures Split(a + [sep] + b, sep) == [a] + Split(b, sep)
    decreases |a|
  {
    var s := a + [sep] + b;
    if a == [] {
      assert s[1..] == b;
    } else {
      assert s[1..] == a[1..] + [sep] + b;
      SplitAtSeparator(a[1..], sep, b);
      assert [a[0]] + a[1..] == a;
    }
  }

  /** Three separator-free pieces joined by the separator split back into
      exactly those three pieces. */
  lemma SplitThree(a: string, b: string, c: string, sep: char)
    requires sep !in a && sep !in b && sep !in c
    ensures Split(a + [sep] + b + [sep] + c, sep) == [a, b, c]
  {
    assert a + [sep] + b + [sep] + c == a + [sep] + (b + [sep] + c);
    SplitAtSeparator(a, sep, b + [sep] + c);
    SplitAtSeparator(b, sep, c);
    SplitNoSeparator(c, sep);
  }

  // ---------------------------------------------------------------------
  // startsWith, endsWith, trim

  predicate StartsWith(s: string, prefix: string) {
    |prefix| <= |s| && s[..|prefix|] == prefix
  }

  predicate EndsWith(s: string, c: char) {
    |s| > 0 && s[|s| - 1] == c
  }

  /** The characters `String.prototype.trim` and `parseInt` strip: the
      ECMAScript WhiteSpace and LineTerminator code points. */
  predicate IsJsWhitespace(c: char) {
    c == '\t' || c == '\n' || c == '\U{B}' || c == '\U{C}' || c == '\r' || c == ' '
    || c == '\U{A0}' || c == '\U{1680}' || ('\U{2000}' <= c <= '\U{200A}')
    || c == '\U{2028}' || c == '\U{2029}' || c == '\U{202F}' || c == '\U{205F}'
    || c == '\U{3000}' || c == '\U{FEFF}'
  }

  function TrimStart(s: string): string {
    if s != [] && IsJsWhitespace(s[0]) then TrimStart(s[1..]) else s
  }

  function TrimEnd(s: string): string {
    if s != [] && IsJsWhitespace(s[|s| - 1]) then TrimEnd(s[..|s| - 1]) else s
  }

  /** `s.trim()`. */
  function Trim(s: string): string {
    TrimEnd(TrimStart(s))
  }

  // ---------------------------------------------------------------------
  // parseInt(s, 10)

  /** The longest prefix of `s` made of decimal digits. */
  function DigitPrefix(s: string): (d: string)
    ensures AllDigits(d)
  {
    if s == [] || !IsDigit(s[0]) then [] else [s[0]] + DigitPrefix(s[1..])
  }

  /** `parseInt(s, 10)`: leading white space is skipped, then an optional
      sign, then the longest run of decimal digits; with no digit the
      result is `NaN`, here `None`. Anything after the digits is ignored. */
  function ParseInt(s: string): Option<int> {
    ParseSigned(TrimStart(s))
  }

  /** What `parseInt` does once the leading white space is gone. */
  function ParseSigned(t: string): Option<int> {
    var negative := |t| > 0 && t[0] == '-';
    var body := if |t| > 0 && (t[0] == '-' || t[0] == '+') then t[1..] else t;
    var digits := DigitPrefix(body);
    var v: int := DigitsValue(digits);
    if digits == [] then None
    else if negative then Some(-v)
    else Some(v)
  }

  lemma TrimStartNothing(s: string)
    requires s == [] || !IsJsWhitespace(s[0])
    ensures TrimStart(s) == s
  {
  }

  lemma TrimEndNothing(s: string)
    requires s == [] || !IsJsWhitespace(s[|s| - 1])
    ensures TrimEnd(s) == s
  {
  }

  /** The start of `trim` only removes white space: what remains is a
      suffix of the input that does not start with white space, and all
      that was removed is white space. */
  lemma {:induction false} TrimStartSpec(s: string)
    ensures var r := TrimStart(s);
            |r| <= |s| && r == s[|s| - |r|..] && (r == [] || !IsJsWhitespace(r[0]))
            && forall i :: 0 <= i < |s| - |r| ==> IsJsWhitespace(s[i])
  {
    if s != [] && IsJsWhitespace(s[0]) {
      var t := s[1..];
      TrimStartSpec(t);
      var r := TrimStart(t);
      assert TrimStart(s) == r;
      assert t[|t| - |r|..] == s[|s| - |r|..];
      forall i | 0 <= i < |s| - |r| ensures IsJsWhitespace(s[i]) {
        if i > 0 {
          assert s[i] == t[i - 1];
        }
      }
    }
  }

  /** The end of `trim` only removes white space: what remains is a
      prefix of the input that does not end with white space, and all
      that was removed is white space. */
  lemma {:induction false} TrimEndSpec(s: string)
    ensures var r := TrimEnd(s);
            |r| <= |s| && r == s[..|r|] && (r == [] || !IsJsWhitespace(r[|r| - 1]))
            && forall i :: |r| <= i < |s| ==> IsJsWhitespace(s[i])
  {
    if s != [] && IsJsWhitespace(s[|s| - 1]) {
      var t := s[..|s| - 1];
      TrimEndSpec(t);
      var r := TrimEnd(t);
      assert TrimEnd(s) == r;
      assert t[..|r|] == s[..|r|];
      forall i | |r| <= i < |s| ensures IsJsWhitespace(s[i]) {
        if i < |s| - 1 {
          assert s[i] == t[i];
        }
      }
    }
  }

  /** `trim` keeps a contiguous slice of the input that neither starts nor
      ends with white space, and removes only white space around it. */
  lemma TrimSpec(s: string)
    ensures exists a, b ::
              && 0 <= a <= b <= |s| && Trim(s) == s[a..b]
              && (Trim(s) == [] || (!IsJsWhitespace(Trim(s)[0]) && !IsJsWhitespace(Trim(s)[|Trim(s)| - 1])))
              && (forall i :: 0 <= i < a ==> IsJsWhitespace(s[i]))
              && (forall i :: b <= i < |s| ==> IsJsWhitespace(s[i]))
  {
    var t := TrimStart(s);
    TrimStartSpec(s);
    TrimEndSpec(t);
    var r := TrimEnd(t);
    var a := |s| - |t|;
    var b := a + |r|;
    assert r == s[a..b];
    forall i | b <= i < |s| ensures IsJsWhitespace(s[i]) {
      assert s[i] == t[i - a];
    }
    if r != [] {
      assert r[0] == t[0];
    }
  }

  lemma {:induction false} DigitPrefixOfDigits(s: string, rest: string)
    requires AllDigits(s)
    requires rest == [] || !IsDigit(rest[0])
    ensures DigitPrefix(s + rest) == s
    decreases |s|
  {
    if s != [] {
      assert (s + rest)[1..] == s[1..] + rest;
      DigitPrefixOfDigits(s[1..], rest);
    }
  }

  lemma DigitIsNotWhitespace(c: char)
    requires IsDigit(c) || c == '-'
    ensures !IsJsWhitespace(c)
  {
  }

  lemma ParseSignedDigits(s: string, rest: string)
    requires 1 <= |s| && AllDigits(s)
    requires rest == [] || !IsDigit(rest[0])
    ensures ParseSigned(s + rest) == Some(DigitsValue(s))
  {
    assert (s + rest)[0] == s[0];
    DigitPrefixOfDigits(s, rest);
  }

  lemma ParseSignedNegative(t: string)
    requires 2 <= |t| && t[0] == '-' && AllDigits(t[1..])
    ensures ParseSigned(t) == Some(0 - DigitsValue(t[1..]))
  {
    DigitPrefixOfDigits(t[1..], []);
    assert t[1..] + [] == t[1..];
  }

  /** A digit string followed by something that does not start with a
      digit reads back as its value; this covers `parseInt` on the day
      and key parts the calendar code produces. */
  lemma ParseIntDigits(s: string, rest: string)
    requires 1 <= |s| && AllDigits(s)
    requires rest == [] || !IsDigit(rest[0])
    ensures ParseInt(s + rest) == Some(DigitsValue(s))
  {
    assert (s + rest)[0] == s[0];
    DigitIsNotWhitespace(s[0]);
    TrimStartNothing(s + rest);
    ParseSignedDigits(s, rest);
  }

  /** `parseInt(String(n), 10) == n` for every integer `n`. */
  lemma ParseIntToString(n: int)
    ensures ParseInt(IntToString(n)) == Some(n)
  {
    if n < 0 {
      ParseIntNegative(-n);
    } else {
      var s := NatToString(n);
      NatToStringDigits(n);
      ParseIntDigits(s, []);
      assert s + [] == s;
      NatToStringValue(n);
    }
  }

  lemma ParseIntNegative(k: nat)
    requires 0 < k
    ensures ParseInt("-" + NatToString(k)) == Some(0 - k)
  {
    var s := "-" + NatToString(k);
    assert s[0] == '-';
    DigitIsNotWhitespace('-');
    TrimStartNothing(s);
    assert s[1..] == NatToString(k);
    NatToStringDigits(k);
    ParseSignedNegative(s);
    NatToStringValue(k);
  }

  /** `parseInt` reads the zero-padded form of a non-negative number back. */
  lemma ParseIntPad2(n: int)
    requires 0 <= n
    ensures ParseInt(Pad2(n)) == Some(n)
  {
    Pad2Value(n);
    ParseIntDigits(Pad2(n), []);
    assert Pad2(n) + [] == Pad2(n);
  }

  /** `parseInt("12x", 10)` is 12: what follows the digits is ignored. */
  lemma ParseIntTrailingText()
    ensures ParseInt("12x") == Some(12)
  {
    ParseIntDigits("12", "x");
    assert "12" + "x" == "12x";
    assert DigitsValue("12") == 12 by { assert "12"[..1] == "1"; }
  }

  /** A string with no digit before other text, or no digit at all, is `NaN`. */
  lemma ParseIntNaN()
    ensures ParseInt("x12") == None
    ensures ParseInt("") == None
    ensures ParseInt("+") == None
  {
    TrimStartNothing("x12");
    TrimStartNothing("+");
    assert "+"[1..] == [];
  }

  /** White space and a sign are accepted before the digits. */
  lemma ParseIntLeadingSpaceAndSign()
    ensures ParseInt(" -7") == Some(-7)
  {
    assert TrimStart(" -7") == "-7" by {
      assert " -7"[1..] == "-7";
      DigitIsNotWhitespace('-');
      TrimStartNothing("-7");
    }
    ParseSignedNegative("-7");
    assert "-7"[1..] == "7";
  }
}
