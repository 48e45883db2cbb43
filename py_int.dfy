/** Python's `int(s, base)` on a string, as CPython parses it: surrounding
    whitespace is stripped, one sign is allowed, a base-16 (8, 2) string may
    carry a `0x` (`0o`, `0b`) prefix followed by at most one underscore, and
    the digits may be separated by single underscores. Digits are ASCII only;
    `None` stands for the `ValueError` that `int()` raises. */
module PyInt {
  import opened Python

  /** The characters CPython strips around an integer literal: the ASCII
      whitespace `\t \n \v \f \r` and space, and every character above ASCII
      that `str.isspace` accepts (those are first turned into spaces). The
      ASCII separators U+001C to U+001F, which `str.isspace` also accepts, are
      left in place and make the literal invalid. */
  predicate IsSpace(c: char) {
    var n := c as int;
    (9 <= n <= 13) || n == 32 || n == 0x85 || n == 0xA0 || n == 0x1680
    || (0x2000 <= n <= 0x200A) || n == 0x2028 || n == 0x2029 || n == 0x202F
    || n == 0x205F || n == 0x3000
  }

  /** The value of an ASCII digit or letter (`a`/`A` is 10, ..., `z`/`Z` is 35); 36 for any other character. */
  function DigitValue(c: char): (v: nat)
    ensures v <= 36
  {
    if '0' <= c <= '9' then (c as int - '0' as int)
    else if 'a' <= c <= 'z' then (c as int - 'a' as int) + 10
    else if 'A' <= c <= 'Z' then (c as int - 'A' as int) + 10
    else 36
  }

  /** The characters besides digits that can occur in an integer literal are
      digits of no base; the prefix letters are digits from base 12, 25 and 34 on. */
  lemma SymbolValues()
    ensures DigitValue('+') == DigitValue('-') == DigitValue('_') == DigitValue('.') == 36
    ensures DigitValue('0') == 0
    ensures DigitValue('b') == DigitValue('B') == 11
    ensures DigitValue('o') == DigitValue('O') == 24
    ensures DigitValue('x') == DigitValue('X') == 33
  {
  }

  predicate IsDigit(c: char, base: nat) {
    DigitValue(c) < base
  }

  /** Drops leading whitespace. */
  function TrimStart(s: string): string {
    if |s| > 0 && IsSpace(s[0]) then TrimStart(s[1..]) else s
  }

  /** Drops trailing whitespace. */
  function TrimEnd(s: string): string {
    if |s| > 0 && IsSpace(s[|s| - 1]) then TrimEnd(s[..|s| - 1]) else s
  }

  function Strip(s: string): string {
    TrimEnd(TrimStart(s))
  }

  /** The letter of the prefix that `int(s, base)` skips, if the base has one. */
  function PrefixLetter(base: nat): Option<char> {
    if base == 16 then Some('x') else if base == 8 then Some('o') else if base == 2 then Some('b') else None
  }

  predicate HasPrefix(u: string, base: nat) {
    PrefixLetter(base).Some? && |u| >= 2 && u[0] == '0'
    && (u[1] == PrefixLetter(base).value || u[1] == PrefixLetter(base).value - 'a' + 'A')
  }

  /** A non-empty run of digits in which each underscore sits between two digits:
      it starts and ends with a digit, holds nothing but digits and underscores,
      and no two underscores are adjacent. */
  predicate IsDigitRun(d: string, base: nat) {
    && |d| > 0
    && IsDigit(d[0], base)
    && IsDigit(d[|d| - 1], base)
    && (forall i :: 0 <= i < |d| ==> IsDigit(d[i], base) || d[i] == '_')
    && (forall i, j :: 0 <= i < |d| && 0 <= j < |d| && j == i + 1 ==> d[i] != '_' || d[j] != '_')
  }

  /** The number a digit run denotes, underscores ignored. */
  function Value(d: string, base: nat): nat {
    if d == [] then 0
    else if d[|d| - 1] == '_' then Value(d[..|d| - 1], base)
    else Value(d[..|d| - 1], base) * base + DigitValue(d[|d| - 1])
  }

  /** The part of the stripped string after the sign. */
  function Unsigned(t: string): string {
    if |t| > 0 && (t[0] == '+' || t[0] == '-') then t[1..] else t
  }

  /** The part of the unsigned string after the base prefix and its one optional underscore. */
  function Body(u: string, base: nat): string {
    if HasPrefix(u, base) then
      (if |u| > 2 && u[2] == '_' then u[3..] else u[2..])
    else u
  }

  /** `int(s, base)`: Some(value), or None where Python raises ValueError. */
  function Parse(s: string, base: nat): (r: Option<int>)
    requires 2 <= base <= 36
    ensures r.Some? ==> |s| > 0
    ensures r.Some? && r.value < 0 ==> '-' in s
  {
    TrimStartIsSuffix(s);
    TrimEndIsPrefix(TrimStart(s));
    var t := Strip(s);
    assert |t| > 0 ==> t[0] == s[|s| - |TrimStart(s)|];
    ParseStripped(t, base)
  }

  /** The parse of a string with the surrounding whitespace already removed. */
  function ParseStripped(t: string, base: nat): (r: Option<int>)
    ensures r.Some? ==> |t| > 0
    ensures r.Some? && r.value < 0 ==> t[0] == '-'
  {
    var d := Body(Unsigned(t), base);
    var v: int := Value(d, base);
    if !IsDigitRun(d, base) then None
    else if |t| > 0 && t[0] == '-' then Some(-v)
    else Some(v)
  }

  /** The character for a digit value below 36 (lower case, as Python prints). */
  function DigitChar(v: nat): (c: char)
    requires v < 36
    ensures DigitValue(c) == v
  {
    if v < 10 then ('0' as int + v) as char else ('a' as int + v - 10) as char
  }

  /** The digits of n in the given base, most significant first, without leading zeros. */
  function Digits(n: nat, base: nat): (d: string)
    requires 2 <= base <= 36
    ensures |d| > 0 && forall i :: 0 <= i < |d| ==> IsDigit(d[i], base)
    ensures |d| > 1 ==> d[0] != '0'
  {
    if n < base then [DigitChar(n)]
    else
      DivMod(n, base);
      var high := Digits(n / base, base);
      assert |high| == 1 ==> high[0] != '0' by {
        assert DigitValue('0') == 0;
      }
      high + [DigitChar(n % base)]
  }

  /** How Python renders an integer in a base (`str(i)` for base 10, `format(i, 'x')` for 16). */
  function Format(i: int, base: nat): (s: string)
    requires 2 <= base <= 36
    ensures |s| > 0 && (s[0] == '-' <==> i < 0)
  {
    SymbolValues();
    if i < 0 then "-" + Digits(-i, base) else Digits(i, base)
  }

  /** A character that can appear somewhere in a string `int(s, base)` accepts. */
  predicate MayAppear(c: char, base: nat) {
    IsSpace(c) || c == '+' || c == '-' || c == '_' || IsDigit(c, base)
    || (PrefixLetter(base).Some? && (c == PrefixLetter(base).value || c == PrefixLetter(base).value - 'a' + 'A'))
  }

  lemma {:induction false} TrimStartKeeps(s: string, c: char)
    requires c in s && !IsSpace(c)
    ensures c in TrimStart(s)
  {
    if |s| > 0 && IsSpace(s[0]) {
      assert s == [s[0]] + s[1..];
      TrimStartKeeps(s[1..], c);
    }
  }

  lemma {:induction false} TrimEndKeeps(s: string, c: char)
    requires c in s && !IsSpace(c)
    ensures c in TrimEnd(s)
  {
    if |s| > 0 && IsSpace(s[|s| - 1]) {
      assert s == s[..|s| - 1] + [s[|s| - 1]];
      TrimEndKeeps(s[..|s| - 1], c);
    }
  }

  /** Trimming the start leaves a suffix of the string that does not start with whitespace. */
  lemma {:induction false} TrimStartIsSuffix(s: string)
    ensures |TrimStart(s)| <= |s| && TrimStart(s) == s[|s| - |TrimStart(s)|..]
    ensures |TrimStart(s)| > 0 ==> !IsSpace(TrimStart(s)[0])
  {
    if |s| > 0 && IsSpace(s[0]) {
      TrimStartIsSuffix(s[1..]);
    }
  }

  /** Trimming the end leaves a prefix of the string that does not end with whitespace. */
  lemma {:induction false} TrimEndIsPrefix(s: string)
    ensures |TrimEnd(s)| <= |s| && TrimEnd(s) == s[..|TrimEnd(s)|]
    ensures |TrimEnd(s)| > 0 ==> !IsSpace(TrimEnd(s)[|TrimEnd(s)| - 1])
  {
    if |s| > 0 && IsSpace(s[|s| - 1]) {
      TrimEndIsPrefix(s[..|s| - 1]);
    }
  }

  /** A string whose ends are not whitespace is left alone by the strip. */
  lemma StripUnchanged(s: string)
    requires |s| > 0 && !IsSpace(s[0]) && !IsSpace(s[|s| - 1])
    ensures Strip(s) == s
  {
  }

  /** A value that underscores and the digits' own value agree on: appending one digit. */
  lemma ValueAppend(d: string, c: char, base: nat)
    requires DigitValue(c) < 36
    ensures Value(d + [c], base) == Value(d, base) * base + DigitValue(c)
  {
    assert (d + [c])[..|d|] == d;
  }

  /** Rendering then parsing gives the number back, and the parse reads exactly those digits. */
  lemma {:induction false} DigitsValue(n: nat, base: nat)
    requires 2 <= base <= 36
    ensures Value(Digits(n, base), base) == n
  {
    if n < base {
      ValueAppend([], DigitChar(n), base);
      assert [] + [DigitChar(n)] == [DigitChar(n)];
    } else {
      var q, r := n / base, n % base;
      DivMod(n, base);
      assert Digits(n, base) == Digits(q, base) + [DigitChar(r)];
      DigitsValue(q, base);
      AppendDigit(Digits(q, base), q, r, base);
    }
  }

  lemma AppendDigit(d: string, q: nat, r: nat, base: nat)
    requires r < base <= 36 && Value(d, base) == q
    ensures Value(d + [DigitChar(r)], base) == q * base + r
  {
    ValueAppend(d, DigitChar(r), base);
  }

  lemma DivMod(n: nat, base: nat)
    requires 2 <= base
    ensures n == (n / base) * base + n % base
    ensures 0 <= n % base < base && (n >= base ==> 0 < n / base < n)
  {
  }

  /** No prefix letter is a digit of its own base, so a run of digits has no prefix. */
  lemma PrefixNotDigits(d: string, base: nat)
    requires 2 <= base <= 36
    requires forall i :: 0 <= i < |d| ==> IsDigit(d[i], base)
    ensures !HasPrefix(d, base)
  {
    if |d| >= 2 {
      assert IsDigit(d[1], base);
      SymbolValues();
    }
  }

  /** The decomposition `int()` performs: a stripped string whose body, after
      the sign and the prefix, is a digit run parses to the run's value, negated
      after a minus sign. */
  lemma RunParses(t: string, d: string, base: nat)
    requires 2 <= base <= 36
    requires |t| > 0 && !IsSpace(t[0]) && !IsSpace(t[|t| - 1])
    requires Body(Unsigned(t), base) == d && IsDigitRun(d, base)
    ensures Parse(t, base) == Some(if t[0] == '-' then -(Value(d, base) as int) else Value(d, base))
  {
    StripUnchanged(t);
  }

  lemma UnsignedWithoutSign(t: string)
    requires |t| > 0 && t[0] != '+' && t[0] != '-'
    ensures Unsigned(t) == t
  {
  }

  /** A run of plain digits, with nothing around it, parses to its value. */
  lemma PlainDigitsParse(s: string, base: nat)
    requires 2 <= base <= 36
    requires |s| > 0 && forall i :: 0 <= i < |s| ==> IsDigit(s[i], base)
    ensures Parse(s, base) == Some(Value(s, base))
  {
    SymbolValues();
    assert DigitValue(s[0]) < 36 && DigitValue(s[|s| - 1]) < 36;
    assert s[0] != '+' && s[0] != '-';
    UnsignedWithoutSign(s);
    assert Body(s, base) == s by {
      PrefixNotDigits(s, base);
    }
    assert IsDigitRun(s, base) by {
      DigitsAreRun(s, base);
    }
    RunParses(s, s, base);
  }

  /** A minus sign in front of a run of plain digits negates the value. */
  lemma NegatedDigitsParse(d: string, base: nat)
    requires 2 <= base <= 36
    requires |d| > 0 && forall i :: 0 <= i < |d| ==> IsDigit(d[i], base)
    ensures Parse("-" + d, base) == Some(-(Value(d, base) as int))
  {
    var s := "-" + d;
    assert !IsSpace(s[|s| - 1]) by {
      assert s[|s| - 1] == d[|d| - 1];
      assert DigitValue(d[|d| - 1]) < 36;
    }
    assert s[0] == '-' && Unsigned(s) == d by {
      assert s[1..] == d;
    }
    assert Body(d, base) == d by {
      PrefixNotDigits(d, base);
    }
    assert IsDigitRun(d, base) by {
      DigitsAreRun(d, base);
    }
    RunParses(s, d, base);
  }

  lemma DigitsAreRun(d: string, base: nat)
    requires base <= 36
    requires |d| > 0 && forall i :: 0 <= i < |d| ==> IsDigit(d[i], base)
    ensures IsDigitRun(d, base)
  {
    SymbolValues();
  }

  /** A `0x` prefix in front of a run of hex digits is skipped by `int(s, 16)`. */
  lemma HexPrefixedDigitsParse(d: string)
    requires |d| > 0 && forall i :: 0 <= i < |d| ==> IsDigit(d[i], 16)
    ensures Parse("0x" + d, 16) == Some(Value(d, 16))
  {
    var s := "0x" + d;
    assert !IsSpace(s[|s| - 1]) by {
      assert s[|s| - 1] == d[|d| - 1];
      assert DigitValue(d[|d| - 1]) < 36;
    }
    assert s[0] == '0';
    UnsignedWithoutSign(s);
    assert Body(s, 16) == d by {
      assert s[1] == 'x' && s[2..] == d;
      assert HasPrefix(s, 16);
      assert d[0] != '_' by { SymbolValues(); }
    }
    assert IsDigitRun(d, 16) by {
      DigitsAreRun(d, 16);
    }
    RunParses(s, d, 16);
  }

  /** Round trip: `int(format(i, base), base) == i` for every integer. */
  lemma FormatThenParse(i: int, base: nat)
    requires 2 <= base <= 36
    ensures Parse(Format(i, base), base) == Some(i)
  {
    if i < 0 {
      assert Format(i, base) == "-" + Digits(-i, base);
      NegativeRoundTrip(-i, base);
    } else {
      assert Format(i, base) == Digits(i, base);
      NaturalRoundTrip(i, base);
    }
  }

  lemma NaturalRoundTrip(n: nat, base: nat)
    requires 2 <= base <= 36
    ensures Parse(Digits(n, base), base) == Some(n as int)
  {
    var d := Digits(n, base);
    assert Value(d, base) == n by {
      DigitsValue(n, base);
    }
    PlainDigitsParse(d, base);
  }

  lemma NegativeRoundTrip(n: nat, base: nat)
    requires 2 <= base <= 36 && n > 0
    ensures Parse("-" + Digits(n, base), base) == Some(-(n as int))
  {
    DigitsValue(n, base);
    NegatedValueParse(Digits(n, base), n, base);
  }

  /** Kept apart from `NegativeRoundTrip` so that `Digits` does not unfold in
      the parsing argument. */
  lemma NegatedValueParse(d: string, n: nat, base: nat)
    requires 2 <= base <= 36
    requires |d| > 0 && forall i :: 0 <= i < |d| ==> IsDigit(d[i], base)
    requires Value(d, base) == n
    ensures Parse("-" + d, base) == Some(-(n as int))
  {
    NegatedDigitsParse(d, base);
  }

  lemma UnsignedKeeps(t: string, c: char)
    requires c in t && c != '+' && c != '-'
    ensures c in Unsigned(t)
  {
    if |t| > 0 && (t[0] == '+' || t[0] == '-') {
      assert t == [t[0]] + t[1..];
    }
  }

  lemma BodyKeeps(u: string, base: nat, c: char)
    requires c in u && c != '_' && c != '0'
    requires PrefixLetter(base).Some? ==> c != PrefixLetter(base).value && c != PrefixLetter(base).value - 'a' + 'A'
    ensures c in Body(u, base)
  {
    if HasPrefix(u, base) {
      if |u| > 2 && u[2] == '_' {
        assert u == u[..3] + u[3..];
      } else {
        assert u == u[..2] + u[2..];
      }
    }
  }

  lemma StrangerBreaksRun(d: string, base: nat, j: nat)
    requires j < |d| && !IsDigit(d[j], base) && d[j] != '_'
    ensures !IsDigitRun(d, base)
  {
  }

  /** A character that no accepted string contains makes `int()` fail, wherever it sits. */
  lemma ForeignCharRejected(s: string, base: nat, k: nat)
    requires 2 <= base <= 36
    requires k < |s| && !MayAppear(s[k], base)
    ensures Parse(s, base) == None
  {
    var c := s[k];
    TrimStartKeeps(s, c);
    TrimEndKeeps(TrimStart(s), c);
    UnsignedKeeps(Strip(s), c);
    assert DigitValue('0') == 0;
    BodyKeeps(Unsigned(Strip(s)), base, c);
    var d := Body(Unsigned(Strip(s)), base);
    var j :| 0 <= j < |d| && d[j] == c;
    StrangerBreaksRun(d, base, j);
  }

  /** The ASCII separators U+001C to U+001F are not stripped: one anywhere in
      the string makes `int()` raise `ValueError`, even at either end. */
  lemma SeparatorRejected(s: string, base: nat, k: nat)
    requires 2 <= base <= 36
    requires k < |s| && 0x1C <= s[k] as int <= 0x1F
    ensures Parse(s, base) == None
  {
    assert !MayAppear(s[k], base) by {
      assert DigitValue(s[k]) == 36;
      SymbolValues();
    }
    ForeignCharRejected(s, base, k);
  }
}
