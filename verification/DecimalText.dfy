/** The decimal text form of an ID: String, MarshalText and UnmarshalText, with
    strconv's base-10 formatting and parsing written out. */
module DecimalText {
  import opened Int64
  import opened Common

  function DigitChar(d: nat): char
    requires d < 10
  {
    '0' + d as char
  }

  predicate IsDigit(c: char) {
    '0' <= c <= '9'
  }

  predicate AllDigits(s: string) {
    forall i :: 0 <= i < |s| ==> IsDigit(s[i])
  }

  /** strconv.FormatInt on a magnitude. */
  function FormatNat(n: nat): string {
    if n < 10 then [DigitChar(n)] else FormatNat(n / 10) + [DigitChar(n % 10)]
  }

  function Abs(x: int): nat {
    if x < 0 then -x else x
  }

  function String(id: int64): string {
    (if id < 0 then "-" else "") + FormatNat(Abs(id))
  }

  /** The value of a run of digits. */
  function Magnitude(s: string): nat
    requires AllDigits(s)
  {
    if s == "" then 0
    else 10 * Magnitude(s[..|s| - 1]) + (s[|s| - 1] as int - '0' as int)
  }

  /** strconv.ParseInt(s, 10, 64); None is a syntax error or a range error. */
  function ParseInt(s: string): Option<int64> {
    var negative := s != "" && s[0] == '-';
    var digits := if s != "" && (s[0] == '+' || s[0] == '-') then s[1..] else s;
    Signed(negative, digits)
  }

  function Signed(negative: bool, digits: string): Option<int64> {
    if digits == "" || !AllDigits(digits) then None
    else
      var m := Magnitude(digits);
      if !negative && m >= TWO63 then None
      else if negative && m > TWO63 then None
      else Some(if negative then 0 - m else m)
  }

  lemma {:induction false} FormatNatShape(n: nat)
    ensures FormatNat(n) != "" && AllDigits(FormatNat(n))
    ensures Magnitude(FormatNat(n)) == n
    ensures n > 0 ==> FormatNat(n)[0] != '0'
  {
    if n < 10 {
      assert FormatNat(n)[..0] == "";
    } else {
      FormatNatShape(n / 10);
      assert FormatNat(n)[..|FormatNat(n)| - 1] == FormatNat(n / 10);
    }
  }

  /** A digit run without a leading zero is what formatting its value prints. */
  lemma {:induction false} FormatOfMagnitude(s: string)
    requires s != "" && AllDigits(s) && (s[0] != '0' || |s| == 1)
    ensures FormatNat(Magnitude(s)) == s
    ensures s[0] != '0' ==> Magnitude(s) > 0
  {
    var init, d := s[..|s| - 1], s[|s| - 1] as int - '0' as int;
    if init == "" {
      assert s == [s[0]];
    } else {
      FormatOfMagnitude(init);
      assert Magnitude(s) / 10 == Magnitude(init) && Magnitude(s) % 10 == d;
    }
  }

  // ---- Which text, and which value ----

  lemma DigitIs(d: nat)
    requires d < 10
    ensures DigitChar(d) == "0123456789"[d]
  {
  }

  lemma FormatDigits(k: nat, d: nat)
    requires d < 10
    ensures FormatNat(10 * k + d) == (if k == 0 then "" else FormatNat(k)) + ["0123456789"[d]]
  {
    DigitIs(d);
    assert (10 * k + d) / 10 == k && (10 * k + d) % 10 == d;
  }

  /** The text, digit by digit from the left. */
  lemma StringDigits(k: nat, d: nat)
    requires d < 10 && 10 * k + d < TWO63
    ensures String(10 * k + d) == (if k == 0 then "" else String(k)) + ["0123456789"[d]]
  {
    FormatDigits(k, d);
  }

  /** And of a negative value, after the minus sign. */
  lemma NegativeDigits(k: nat, d: nat)
    requires d < 10 && 0 < 10 * k + d <= TWO63
    ensures String(0 - (10 * k + d)) == (if k == 0 then "-" else String(0 - k)) + ["0123456789"[d]]
  {
    FormatDigits(k, d);
    Assoc("-", if k == 0 then "" else FormatNat(k), ["0123456789"[d]]);
  }

  /** An optional sign and at least one digit. */
  predicate IsNumber(s: string) {
    var digits := if s != "" && (s[0] == '+' || s[0] == '-') then s[1..] else s;
    digits != "" && OnlyDigits(digits)
  }

  predicate OnlyDigits(s: string) {
    forall c :: c in s ==> c in "0123456789"
  }

  function StripZeros(digits: string): string {
    if |digits| > 1 && digits[0] == '0' then StripZeros(digits[1..]) else digits
  }

  /** Without a plus sign, without leading zeros, and without the sign of a zero. */
  function Normalised(s: string): string {
    if s != "" && s[0] == '+' then StripZeros(s[1..])
    else if s != "" && s[0] == '-' then
      if StripZeros(s[1..]) == "0" then "0" else "-" + StripZeros(s[1..])
    else StripZeros(s)
  }

  lemma DigitsAre(s: string)
    ensures AllDigits(s) <==> OnlyDigits(s)
  {
    forall c: char
      ensures IsDigit(c) <==> c in "0123456789"
    {
      DigitOf(c);
    }
  }

  lemma DigitOf(c: char)
    ensures IsDigit(c) <==> c in "0123456789"
  {
    if IsDigit(c) {
      assert "0123456789"[c as int - '0' as int] == c;
    }
  }

  lemma {:induction false} LeadingZero(s: string)
    requires AllDigits(s) && s != "" && s[0] == '0'
    ensures AllDigits(s[1..]) && Magnitude(s) == Magnitude(s[1..])
  {
    var init := s[..|s| - 1];
    if init != "" {
      LeadingZero(init);
      assert s[1..][..|s[1..]| - 1] == init[1..];
    }
  }

  /** Stripping keeps the value and leaves what formatting it prints. */
  lemma {:induction false} StripKeepsValue(digits: string)
    requires AllDigits(digits) && digits != ""
    ensures AllDigits(StripZeros(digits)) && Magnitude(StripZeros(digits)) == Magnitude(digits)
    ensures StripZeros(digits) == FormatNat(Magnitude(digits))
    ensures StripZeros(digits) == "0" <==> Magnitude(digits) == 0
  {
    if |digits| > 1 && digits[0] == '0' {
      LeadingZero(digits);
      StripKeepsValue(digits[1..]);
    } else {
      FormatOfMagnitude(digits);
      FormatNatShape(0);
    }
  }

  lemma FormatInjective(m: nat, n: nat)
    ensures FormatNat(m) == FormatNat(n) <==> m == n
    ensures FormatNat(m) != "-" + FormatNat(n)
  {
    FormatNatShape(m);
    FormatNatShape(n);
    assert ("-" + FormatNat(n))[0] == '-';
  }

  lemma SignedTexts(m: nat, n: nat)
    ensures "-" + FormatNat(m) == "-" + FormatNat(n) <==> m == n
  {
    FormatInjective(m, n);
    assert ("-" + FormatNat(m))[1..] == FormatNat(m) && ("-" + FormatNat(n))[1..] == FormatNat(n);
  }

  /** The normal form of a sign and digits of magnitude m, against the text of v. */
  lemma SignedNormal(negative: bool, digits: string, v: int64)
    requires digits != "" && AllDigits(digits)
    ensures var normal, m := StripZeros(digits), Magnitude(digits);
      (if negative && normal != "0" then "-" + normal else normal) == String(v) <==> v == if negative then 0 - m else m
  {
    var m := Magnitude(digits);
    StripKeepsValue(digits);
    FormatInjective(m, Abs(v));
    FormatInjective(Abs(v), m);
    SignedTexts(m, Abs(v));
  }

  /** Exactly which texts parse, and to what: numbers whose normal form is the text
      of an int64, which is then the value. Anything else is an error. */
  lemma ParsesIff(s: string, v: int64)
    ensures ParseInt(s) == Some(v) <==> IsNumber(s) && Normalised(s) == String(v)
  {
    var negative := s != "" && s[0] == '-';
    var digits := if s != "" && (s[0] == '+' || s[0] == '-') then s[1..] else s;
    DigitsAre(digits);
    if IsNumber(s) {
      SignedNormal(negative, digits, v);
    }
  }

  /** A plus sign changes nothing. */
  lemma SignsAre(digits: string)
    requires digits != "" && OnlyDigits(digits)
    ensures ParseInt("+" + digits) == ParseInt(digits) == Signed(false, digits)
    ensures ParseInt("-" + digits) == Signed(true, digits)
  {
    assert ("+" + digits)[1..] == digits && ("-" + digits)[1..] == digits;
    assert digits[0] in "0123456789";
  }

  lemma ZeroIgnored(negative: bool, digits: string)
    requires digits != "" && OnlyDigits(digits)
    ensures OnlyDigits("0" + digits) && Signed(negative, "0" + digits) == Signed(negative, digits)
  {
    DigitsAre(digits);
    DigitsAre("0" + digits);
    LeadingZero("0" + digits);
    assert ("0" + digits)[1..] == digits;
  }

  /** Nor does a leading zero, after a sign or without one. */
  lemma LeadingZeroIgnored(digits: string)
    requires digits != "" && OnlyDigits(digits)
    ensures ParseInt("0" + digits) == ParseInt(digits)
    ensures ParseInt("-" + ("0" + digits)) == ParseInt("-" + digits)
  {
    ZeroIgnored(false, digits);
    ZeroIgnored(true, digits);
    SignsAre(digits);
    SignsAre("0" + digits);
  }

  /** Every int64, 2^53 and beyond and the negative ones too, survives the text. */
  lemma TextRoundTrip(id: int64)
    ensures ParseInt(String(id)) == Some(id)
  {
    FormatNatShape(Abs(id));
    DigitsAre(FormatNat(Abs(id)));
    SignsAre(FormatNat(Abs(id)));
    assert "" + FormatNat(Abs(id)) == FormatNat(Abs(id));
  }

  /** Text with no plus sign, no redundant leading zero and no minus zero. */
  predicate Canonical(s: string) {
    var digits := if s != "" && s[0] == '-' then s[1..] else s;
    digits != "" && digits[0] != '+' && (digits[0] == '0' ==> s == "0")
  }

  /** The other direction: of all texts that parse, exactly the canonical ones
      are reproduced by String. */
  lemma ReprintIff(s: string)
    requires ParseInt(s).Some?
    ensures String(ParseInt(s).value) == s <==> Canonical(s)
  {
    var id := ParseInt(s).value;
    FormatNatShape(Abs(id));
    if Canonical(s) {
      var digits := if s[0] == '-' then s[1..] else s;
      FormatOfMagnitude(digits);
    }
  }

  /** An ID variable, as UnmarshalText's pointer receiver sees it. */
  class IdCell {
    var value: int64

    constructor ()
      ensures value == 0
    {
      value := 0;
    }

    /** The one text without anything superfluous that parses to the value. */
    function MarshalText(): (text: string)
      reads this
      ensures ParseInt(text) == Some(value) && Canonical(text)
    {
      TextRoundTrip(value);
      ReprintIff(String(value));
      String(value)
    }

    /** Writes through the pointer only when the text parses: when it is a number
        with the normal form of some int64, the one written. */
    method UnmarshalText(text: string) returns (ok: bool)
      modifies this
      ensures ok <==> ParseInt(text).Some?
      ensures value == if ok then ParseInt(text).value else old(value)
      ensures ok <==> IsNumber(text) && Normalised(text) == String(value)
    {
      if ParseInt(text).Some? {
        ParsesIff(text, ParseInt(text).value);
      } else {
        ParsesIff(text, value);
      }
      match ParseInt(text)
      case None =>
        ok := false;
      case Some(v) =>
        value := v;
        ok := true;
    }
  }

  /** What encoding one ID and decoding it into another variable does. */
  method CopyThroughText(source: IdCell, target: IdCell) returns (ok: bool)
    modifies target
    ensures ok && target.value == old(source.value)
  {
    ok := target.UnmarshalText(source.MarshalText());
  }
}
