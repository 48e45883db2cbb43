/** `validate_address`: the shape check on an address string, which must be
    `0x` followed by a body that `int(body, 16)` accepts, 42 characters in all. */
module AddressValidation {
  import opened Python
  import PyInt

  /** `s.startswith(prefix)`. */
  predicate StartsWith(s: string, prefix: string) {
    |prefix| <= |s| && s[..|prefix|] == prefix
  }

  /** True for a `str` that starts with `0x`, is 42 characters long, and whose
      remaining 40 characters `int(..., 16)` accepts; false otherwise, never raising. */
  function ValidateAddress(address: Value): (valid: bool)
    ensures valid ==> address.Str? && |address.s| == 42 && address.s[..2] == "0x"
  {
    if !address.Str? then false
    else if !StartsWith(address.s, "0x") then false
    else if |address.s| != 42 then false
    else PyInt.Parse(address.s[2..], 16).Some?
  }

  predicate IsHexDigit(c: char) {
    '0' <= c <= '9' || 'a' <= c <= 'f' || 'A' <= c <= 'F'
  }

  lemma HexDigitIsDigit(c: char)
    ensures IsHexDigit(c) <==> PyInt.IsDigit(c, 16)
  {
  }

  /** `0x` followed by exactly 40 hex digits, in either case, is a valid address. */
  lemma StrictHexAccepted(s: string)
    requires |s| == 42 && s[..2] == "0x"
    requires forall i :: 2 <= i < 42 ==> IsHexDigit(s[i])
    ensures ValidateAddress(Str(s))
  {
    var body := s[2..];
    forall i | 0 <= i < |body| ensures PyInt.IsDigit(body[i], 16) {
      HexDigitIsDigit(s[i + 2]);
    }
    PyInt.PlainDigitsParse(body, 16);
  }

  /** A body character that `int(..., 16)` never accepts (anything but hex digits,
      whitespace, a sign, `_`, `x` or `X`) makes the address invalid, wherever it sits. */
  lemma ForeignCharacterRejected(s: string, k: nat)
    requires 2 <= k < |s| && !PyInt.MayAppear(s[k], 16)
    ensures !ValidateAddress(Str(s))
  {
    if |s| == 42 && StartsWith(s, "0x") {
      PyInt.ForeignCharRejected(s[2..], 16, k - 2);
    }
  }

  /** In particular a `g` or `G` anywhere in the body is rejected. */
  lemma LetterGRejected(s: string, k: nat)
    requires 2 <= k < |s| && (s[k] == 'g' || s[k] == 'G')
    ensures !ValidateAddress(Str(s))
  {
    assert !PyInt.MayAppear(s[k], 16) by {
      assert PyInt.DigitValue('g') == PyInt.DigitValue('G') == 16;
    }
    ForeignCharacterRejected(s, k);
  }

  /** An ASCII separator (U+001C to U+001F) in the body is not stripped by
      `int()`, so the address is rejected even when it stands at an end. */
  lemma SeparatorInBodyRejected(h: string, k: nat)
    requires |h| == 40 && k < 40 && 0x1C <= h[k] as int <= 0x1F
    ensures !ValidateAddress(Str("0x" + h))
  {
    var s := "0x" + h;
    assert s[2..] == h;
    PyInt.SeparatorRejected(h, 16, k);
  }

  /** The body is read by Python's lenient `int()`: a minus sign and 39 hex digits pass. */
  lemma SignedBodyAccepted(h: string)
    requires |h| == 39 && forall i :: 0 <= i < 39 ==> IsHexDigit(h[i])
    ensures ValidateAddress(Str("0x-" + h))
  {
    var s := "0x-" + h;
    assert s[..2] == "0x" && s[2..] == "-" + h;
    forall i | 0 <= i < |h| ensures PyInt.IsDigit(h[i], 16) {
      HexDigitIsDigit(h[i]);
    }
    PyInt.NegatedDigitsParse(h, 16);
  }

  /** ... and so does a second `0x` followed by 38 hex digits. */
  lemma DoublePrefixAccepted(h: string)
    requires |h| == 38 && forall i :: 0 <= i < 38 ==> IsHexDigit(h[i])
    ensures ValidateAddress(Str("0x0x" + h))
  {
    var s := "0x0x" + h;
    assert s[..2] == "0x" && s[2..] == "0x" + h;
    forall i | 0 <= i < |h| ensures PyInt.IsDigit(h[i], 16) {
      HexDigitIsDigit(h[i]);
    }
    PyInt.HexPrefixedDigitsParse(h);
  }
}
