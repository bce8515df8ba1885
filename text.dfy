/** The string handling the picker borrows from JavaScript: decimal numerals
    (`Number.prototype.toString`, `parseInt`), `padStart(2, '0')` and
    `split` on a one-character separator. Strings are sequences of characters. */
module Text {
  import opened Wrappers

  /** An ASCII decimal digit: what `\d` matches in a regular expression
      without the `u` flag, and what `parseInt` reads in base 10. */
  predicate IsDigit(c: char) {
    '0' <= c <= '9'
  }

  predicate AllDigits(s: string) {
    forall i :: 0 <= i < |s| ==> IsDigit(s[i])
  }

  /** JavaScript white space and line terminators: what `parseInt` skips at
      the start of its argument, and what `\s` matches. */
  predicate IsSpace(c: char) {
    || c == '\t' || c == '\n' || c == '\U{000B}' || c == '\U{000C}' || c == '\r'
    || c == ' ' || c == '\U{00A0}' || c == '\U{1680}'
    || ('\U{2000}' <= c <= '\U{200A}')
    || c == '\U{2028}' || c == '\U{2029}' || c == '\U{202F}' || c == '\U{205F}'
    || c == '\U{3000}' || c == '\U{FEFF}'
  }

  function DigitValue(c: char): (d: nat)
    requires IsDigit(c)
    ensures d < 10
  {
    (c as int) - ('0' as int)
  }

  function DigitChar(d: nat): (c: char)
    requires d < 10
    ensures IsDigit(c) && DigitValue(c) == d
  {
    (('0' as int) + d) as char
  }

  /** The value of a decimal numeral, most significant digit first. */
  function DigitsValue(s: string): nat
    requires AllDigits(s)
  {
    if s == [] then 0 else DigitsValue(s[..|s| - 1]) * 10 + DigitValue(s[|s| - 1])
  }

  /** `n.toString()` for a non-negative integer: its decimal digits without
      leading zeros ("0" for zero). */
  function NatToString(n: nat): (s: string)
    ensures 1 <= |s|
  {
    if n < 10 then [DigitChar(n)] else NatToString(n / 10) + [DigitChar(n % 10)]
  }

  /** `i.toString()` for any integer. */
  function IntToString(i: int): (s: string)
    ensures 1 <= |s|
  {
    if i < 0 then "-" + NatToString(-i) else NatToString(i)
  }

  /** `toString` of a non-negative integer prints only digits. */
  lemma {:induction false} NatToStringDigits(n: nat)
    ensures AllDigits(NatToString(n))
    ensures AllDigits(IntToString(n))
  {
    if n >= 10 {
      NatToStringDigits(n / 10);
    }
  }

  /** `toString` of a negative integer prints a minus sign and then only
      digits; of any other integer, only digits. */
  lemma IntToStringSign(i: int)
    ensures i < 0 ==> IntToString(i)[0] == '-' && AllDigits(IntToString(i)[1..])
    ensures i >= 0 ==> AllDigits(IntToString(i))
  {
    if i < 0 {
      NatToStringDigits(-i);
      assert IntToString(i)[1..] == NatToString(-i);
    } else {
      NatToStringDigits(i);
    }
  }

  /** `s.padStart(2, '0')`: zeros in front up to length two; longer strings
      are left as they are. */
  function PadTwo(s: string): string {
    if |s| >= 2 then s else if |s| == 1 then "0" + s else "00"
  }

  /** Reading a numeral back gives the number printed. */
  lemma {:induction false} NatToStringValue(n: nat)
    ensures AllDigits(NatToString(n)) && DigitsValue(NatToString(n)) == n
  {
    NatToStringDigits(n);
    if n >= 10 {
      var s := NatToString(n);
      assert s[..|s| - 1] == NatToString(n / 10);
      NatToStringValue(n / 10);
    }
  }

  /** The numeral of a number below 100 has at most two digits, and of a
      number from 1000 to 9999 exactly four. */
  lemma NatToStringLength(n: nat)
    ensures n < 10 ==> |NatToString(n)| == 1
    ensures 10 <= n < 100 ==> |NatToString(n)| == 2
    ensures 1000 <= n < 10000 ==> |NatToString(n)| == 4
  {
    if 1000 <= n < 10000 {
      assert |NatToString(n / 1000)| == 1;
      assert n / 10 / 10 / 10 == n / 1000;
      assert |NatToString(n / 100)| == 2;
      assert n / 10 / 10 == n / 100;
      assert |NatToString(n / 10)| == 3;
    }
  }

  /** A leading zero does not change the value of a numeral. */
  lemma {:induction false} LeadingZeroValue(s: string)
    requires AllDigits(s)
    ensures DigitsValue("0" + s) == DigitsValue(s)
  {
    if s != [] {
      var t := "0" + s;
      assert t[..|t| - 1] == "0" + s[..|s| - 1];
      LeadingZeroValue(s[..|s| - 1]);
    }
  }

  /** A number below 100, printed and padded to two digits, is a two-digit
      numeral that reads back as the number. */
  lemma TwoDigitNumeral(n: nat)
    requires n < 100
    ensures |PadTwo(NatToString(n))| == 2
    ensures AllDigits(PadTwo(NatToString(n)))
    ensures DigitsValue(PadTwo(NatToString(n))) == n
  {
    NatToStringLength(n);
    NatToStringValue(n);
    if n < 10 {
      LeadingZeroValue(NatToString(n));
    }
  }

  /** What `parseInt` skips: the leading white space. */
  function TrimStart(s: string): (t: string)
    ensures |t| <= |s|
  {
    if s != [] && IsSpace(s[0]) then TrimStart(s[1..]) else s
  }

  /** What is left after the white space is the rest of the text, and does
      not start with white space. */
  lemma {:induction false} TrimStartSuffix(s: string)
    ensures var t := TrimStart(s);
      && t == s[|s| - |t|..]
      && (t == [] || !IsSpace(t[0]))
  {
    if s != [] && IsSpace(s[0]) {
      TrimStartSuffix(s[1..]);
      assert s[1..][|s| - 1 - |TrimStart(s)|..] == s[|s| - |TrimStart(s)|..];
    }
  }

  /** The longest run of digits at the start of `s`. */
  function TakeDigits(s: string): (d: string)
    ensures AllDigits(d) && |d| <= |s|
  {
    if s != [] && IsDigit(s[0]) then [s[0]] + TakeDigits(s[1..]) else []
  }

  /** The run is a prefix of the text and stops at its first non-digit. */
  lemma {:induction false} TakeDigitsPrefix(s: string)
    ensures var d := TakeDigits(s);
      && d <= s
      && (|d| < |s| ==> !IsDigit(s[|d|]))
  {
    if s != [] && IsDigit(s[0]) {
      TakeDigitsPrefix(s[1..]);
    }
  }

  /** `parseInt(s)` without a radix, in base 10: leading white space, an
      optional sign, then the longest run of digits; whatever follows is
      ignored. `None` is `NaN`: there is no digit where one is needed. */
  function ParseInt(s: string): Option<int> {
    var t := TrimStart(s);
    var signed := t != [] && (t[0] == '-' || t[0] == '+');
    var digits := TakeDigits(if signed then t[1..] else t);
    if digits == [] then None
    else
      var magnitude: int := DigitsValue(digits);
      if signed && t[0] == '-' then Some(-magnitude) else Some(magnitude)
  }

  lemma {:induction false} TakeDigitsOfNumeral(d: string, rest: string)
    requires AllDigits(d)
    requires rest == [] || !IsDigit(rest[0])
    ensures TakeDigits(d + rest) == d
  {
    if d != [] {
      assert (d + rest)[1..] == d[1..] + rest;
      TakeDigitsOfNumeral(d[1..], rest);
    }
  }

  lemma ParseIntOfDigits(d: string, rest: string)
    requires d != [] && AllDigits(d)
    requires rest == [] || !IsDigit(rest[0])
    ensures ParseInt(d + rest) == Some(DigitsValue(d))
  {
    assert (d + rest)[0] == d[0];
    assert TrimStart(d + rest) == d + rest;
    TakeDigitsOfNumeral(d, rest);
  }

  lemma ParseIntOfNegativeDigits(d: string, rest: string)
    requires d != [] && AllDigits(d)
    requires rest == [] || !IsDigit(rest[0])
    ensures ParseInt("-" + d + rest) == Some(-(DigitsValue(d) as int))
  {
    var s := "-" + d + rest;
    assert s[1..] == d + rest;
    TakeDigitsOfNumeral(d, rest);
    ParseIntOfMinus(s);
  }

  lemma ParseIntOfMinus(s: string)
    requires s != [] && s[0] == '-'
    ensures var digits := TakeDigits(s[1..]);
      ParseInt(s) == if digits == [] then None else Some(-(DigitsValue(digits) as int))
  {
    assert !IsSpace('-');
    assert TrimStart(s) == s;
  }

  /** `parseInt` reads back what `toString` printed, whatever non-digit text
      follows it: `parseInt("2024abc")` is 2024. */
  lemma ParseIntOfNumeral(i: int, rest: string)
    requires rest == [] || !IsDigit(rest[0])
    ensures ParseInt(IntToString(i) + rest) == Some(i)
  {
    if i < 0 {
      var d := NatToString(-i);
      assert IntToString(i) == "-" + d;
      NatToStringValue(-i);
      ParseIntOfNegativeDigits(d, rest);
    } else {
      var d := NatToString(i);
      assert IntToString(i) == d;
      NatToStringValue(i);
      ParseIntOfDigits(d, rest);
    }
  }

  /** Text without a single digit is not a number. */
  lemma ParseIntWithoutDigits(s: string)
    requires forall i :: 0 <= i < |s| ==> !IsDigit(s[i])
    ensures ParseInt(s) == None
  {
    var t := TrimStart(s);
    TrimStartSuffix(s);
    if t != [] && (t[0] == '-' || t[0] == '+') {
      assert |t| < 2 || !IsDigit(t[1..][0]);
    }
  }

  /** The position of the first `c` in `s`. */
  function IndexOf(s: string, c: char): (k: nat)
    requires c in s
    ensures k < |s| && s[k] == c
  {
    if s[0] == c then 0 else 1 + IndexOf(s[1..], c)
  }

  /** No `c` comes before the one `IndexOf` finds. */
  lemma {:induction false} IndexOfNoEarlier(s: string, c: char)
    requires c in s
    ensures c !in s[..IndexOf(s, c)]
  {
    if s[0] != c {
      var k := IndexOf(s, c);
      IndexOfNoEarlier(s[1..], c);
      assert s[..k] == [s[0]] + s[1..][..k - 1];
    }
  }

  /** `IndexOf` finds the first `c`: a position holding `c` with no `c`
      before it is the one it gives. */
  lemma {:induction false} IndexOfFirst(s: string, c: char, k: nat)
    requires k < |s| && s[k] == c && c !in s[..k]
    ensures IndexOf(s, c) == k
  {
    if k > 0 {
      assert s[0] == s[..k][0];
      assert s[1..][..k - 1] == s[..k][1..];
      IndexOfFirst(s[1..], c, k - 1);
    }
  }

  /** `s.split(sep)` for a one-character separator: the pieces between the
      separators, in order; there is always at least one. */
  function Split(s: string, sep: char): (parts: seq<string>)
    ensures |parts| >= 1
    decreases |s|
  {
    if sep in s then
      var k := IndexOf(s, sep);
      [s[..k]] + Split(s[k + 1..], sep)
    else
      [s]
  }

  /** No field of a split contains the separator. */
  lemma {:induction false} SplitFieldsFree(s: string, sep: char)
    ensures forall i :: 0 <= i < |Split(s, sep)| ==> sep !in Split(s, sep)[i]
    decreases |s|
  {
    if sep in s {
      var k := IndexOf(s, sep);
      IndexOfNoEarlier(s, sep);
      SplitFieldsFree(s[k + 1..], sep);
    }
  }

  /** `parts.join(sep)`: the inverse of `Split`. */
  function Join(parts: seq<string>, sep: char): string
    requires |parts| >= 1
  {
    if |parts| == 1 then parts[0] else parts[0] + [sep] + Join(parts[1..], sep)
  }

  /** Splitting loses nothing: joining the pieces gives the text back. */
  lemma {:induction false} JoinSplit(s: string, sep: char)
    ensures Join(Split(s, sep), sep) == s
    decreases |s|
  {
    if sep in s {
      var k := IndexOf(s, sep);
      var parts, rest := Split(s, sep), Split(s[k + 1..], sep);
      assert parts == [s[..k]] + rest;
      assert parts[0] == s[..k] && parts[1..] == rest;
      JoinSplit(s[k + 1..], sep);
      assert Join(parts, sep) == s[..k] + [sep] + Join(rest, sep);
      assert s == s[..k] + [sep] + s[k + 1..];
    }
  }

  /** Pieces without the separator are exactly what splitting their join
      gives back. */
  lemma {:induction false} SplitJoin(parts: seq<string>, sep: char)
    requires |parts| >= 1
    requires forall i :: 0 <= i < |parts| ==> sep !in parts[i]
    ensures Split(Join(parts, sep), sep) == parts
  {
    if |parts| > 1 {
      var rest := Join(parts[1..], sep);
      assert Join(parts, sep) == parts[0] + [sep] + rest;
      SplitAtFirst(parts[0], rest, sep);
      SplitJoin(parts[1..], sep);
    }
  }

  /** A separator with none before it ends the first piece. */
  lemma SplitAtFirst(p: string, rest: string, sep: char)
    requires sep !in p
    ensures Split(p + [sep] + rest, sep) == [p] + Split(rest, sep)
  {
    var s := p + [sep] + rest;
    assert s[|p|] == sep && s[..|p|] == p;
    IndexOfFirst(s, sep, |p|);
    assert s[|p| + 1..] == rest;
  }
}
