/** Identities as text, "device:inode" in decimal. */
module IdentityText {
  import opened Bytes
  import opened Wrappers

  function Digit(c: char): (r: int)
    ensures r >= 0 ==> r < 10
  {
    if '0' <= c <= '9' then c as int - '0' as int else -1
  }

  predicate Digits(text: string) {
    text != "" && forall c | c in text :: Digit(c) >= 0
  }

  function FromDecimal(digits: string): (r: nat)
    requires forall c | c in digits :: Digit(c) >= 0
  {
    if digits == "" then 0 else FromDecimal(digits[..|digits| - 1]) * 10 + Digit(digits[|digits| - 1])
  }

  function ToDecimal(n: nat): (r: string)
    ensures Digits(r)
  {
    if n < 10 then ['0' + n as char] else ToDecimal(n / 10) + ['0' + (n % 10) as char]
  }

  lemma {:induction false} DecimalDecodesEncoding(n: nat)
    ensures FromDecimal(ToDecimal(n)) == n
  {
    var text := ToDecimal(n);
    if n >= 10 {
      DecimalDecodesEncoding(n / 10);
      assert text[..|text| - 1] == ToDecimal(n / 10);
    } else {
      assert text[..|text| - 1] == "";
    }
  }

  /** An unsigned 64-bit number in text: an optional plus sign, then digits, leading zeros included. */
  function ParseU64(text: string): (r: Option<U64>) {
    var digits := if |text| > 1 && text[0] == '+' then text[1..] else text;
    if !Digits(digits) || FromDecimal(digits) > U64_MAX then None else Some(FromDecimal(digits))
  }

  function FirstColon(text: string): (r: nat)
    ensures r <= |text| && ':' !in text[..r] && (r < |text| ==> text[r] == ':')
  {
    if text == "" || text[0] == ':' then 0
    else
      assert forall r | 0 < r <= |text| :: text[..r] == [text[0]] + text[1..][..r - 1];
      1 + FirstColon(text[1..])
  }

  function ParseIdentity(text: string): (r: Option<(U64, U64)>) {
    var colon := FirstColon(text);
    if colon == |text| then None
    else
      var device, inode := text[..colon], text[colon + 1..];
      if device == "" || inode == "" || ':' in inode then None
      else if ParseU64(device).None? || ParseU64(inode).None? then None
      else Some((ParseU64(device).value, ParseU64(inode).value))
  }

  function FormatIdentity(device: U64, inode: U64): (r: string) {
    ToDecimal(device) + ":" + ToDecimal(inode)
  }

  lemma NumeralParses(n: U64)
    ensures ParseU64(ToDecimal(n)) == Some(n)
  {
    DecimalDecodesEncoding(n);
    assert ToDecimal(n)[0] in ToDecimal(n);
  }

  lemma {:induction false} ZerosInFrontCountNothing(zeros: nat, digits: string)
    requires forall c | c in digits :: Digit(c) >= 0
    ensures forall c | c in seq(zeros, _ => '0') + digits :: Digit(c) >= 0
    ensures FromDecimal(seq(zeros, _ => '0') + digits) == FromDecimal(digits)
    decreases |digits|, zeros
  {
    var text := seq(zeros, _ => '0') + digits;
    if digits != "" {
      var n := |digits| - 1;
      assert text[..|text| - 1] == seq(zeros, _ => '0') + digits[..n];
      ZerosInFrontCountNothing(zeros, digits[..n]);
    } else if zeros > 0 {
      assert text[..|text| - 1] == seq((zeros - 1) as nat, _ => '0') + digits;
      ZerosInFrontCountNothing(zeros - 1, digits);
    }
  }

  /** A numeral may carry a plus sign and zeros in front; the number it stands for is the same. */
  lemma SignedNumeralParses(zeros: nat, n: U64)
    ensures var digits := seq(zeros, _ => '0') + ToDecimal(n);
      ParseU64(digits) == Some(n) && ParseU64("+" + digits) == Some(n)
  {
    var digits := seq(zeros, _ => '0') + ToDecimal(n);
    DecimalDecodesEncoding(n);
    ZerosInFrontCountNothing(zeros, ToDecimal(n));
    assert ("+" + digits)[1..] == digits && digits[0] in digits;
  }

  /** A colon-free text in front of a colon is what the first colon splits off. */
  lemma {:induction false} SplitsAtColon(device: string, inode: string)
    requires ':' !in device
    ensures var text := device + ":" + inode;
      FirstColon(text) == |device| && text[..|device|] == device && text[|device| + 1..] == inode
  {
    var text := device + ":" + inode;
    if device != "" {
      SplitsAtColon(device[1..], inode);
      assert text[1..] == device[1..] + ":" + inode;
    }
  }

  /** Every identity an inventory writes is read back as the same two numbers. */
  lemma IdentityRoundTrips(device: U64, inode: U64)
    ensures ParseIdentity(FormatIdentity(device, inode)) == Some((device, inode))
  {
    NumeralParses(device);
    NumeralParses(inode);
    NumeralHasNoColon(ToDecimal(device));
    NumeralHasNoColon(ToDecimal(inode));
    SplitsAtColon(ToDecimal(device), ToDecimal(inode));
  }

  /** The text is an identity exactly when it is two 64-bit numerals with a colon between them. */
  lemma IdentityTextIs(text: string)
    ensures ParseIdentity(text).Some? <==> exists device: string, inode: string :: TextOf(device, inode, text)
  {
    var colon := FirstColon(text);
    if ParseIdentity(text).Some? {
      assert text == text[..colon] + ":" + text[colon + 1..];
      assert TextOf(text[..colon], text[colon + 1..], text);
    }
    if device: string, inode: string :| TextOf(device, inode, text) {
      NumeralHasNoColon(device);
      NumeralHasNoColon(inode);
      SplitsAtColon(device, inode);
    }
  }

  predicate TextOf(device: string, inode: string, text: string) {
    text == device + ":" + inode && ParseU64(device).Some? && ParseU64(inode).Some?
  }

  lemma NumeralHasNoColon(text: string)
    requires ParseU64(text).Some?
    ensures text != "" && ':' !in text
  {
    if |text| > 1 && text[0] == '+' {
      assert text == [text[0]] + text[1..];
    }
  }
}
