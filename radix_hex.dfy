/**
 * The two conversions between addresses and hexadecimal text that the filter
 * relies on: `usize::from_str_radix(_, 16)` for the address group of a line,
 * on a 64-bit target, and the `{:x}` format of an address in an output line.
 * Both are Rust standard-library behaviour, written out here.
 */
module RadixHex {
  import opened Wrappers

  /** 2^64: the first value a 64-bit `usize` cannot hold. */
  const UsizeLimit: nat := 0x1_0000_0000_0000_0000

  /** `char::to_digit(16)`: 0-9, a-f and A-F, nothing else. */
  function DigitValue(c: char): (r: Option<nat>)
    ensures r.Some? ==> r.value < 16
  {
    if '0' <= c <= '9' then Some(c as nat - '0' as nat)
    else if 'a' <= c <= 'f' then Some(c as nat - 'a' as nat + 10)
    else if 'A' <= c <= 'F' then Some(c as nat - 'A' as nat + 10)
    else None
  }

  predicate IsHexDigit(c: char) { DigitValue(c).Some? }

  predicate AllHexDigits(s: string) { forall i :: 0 <= i < |s| ==> IsHexDigit(s[i]) }

  /** The number a string of hex digits denotes, most significant digit first. */
  function HexValue(s: string): nat
    requires AllHexDigits(s)
    decreases |s|
  {
    if s == [] then 0 else HexValue(s[..|s| - 1]) * 16 + DigitValue(s[|s| - 1]).value
  }

  /** The ways `from_str_radix` can fail (`IntErrorKind` in Rust). */
  datatype IntErrorKind = Empty | InvalidDigit | PosOverflow

  /**
   * The digit loop of `from_str_radix`: for each character in turn, a
   * character that is not a digit is `InvalidDigit`, and a step whose
   * `acc * 16 + digit` does not fit the 64-bit result is `PosOverflow`.
   */
  function AccumulateDigits(s: string, i: nat, acc: nat): Result<nat, IntErrorKind>
    requires i <= |s| && acc < UsizeLimit
    decreases |s| - i
  {
    if i == |s| then Ok(acc)
    else match DigitValue(s[i])
      case None => Err(InvalidDigit)
      case Some(d) =>
        if acc * 16 + d >= UsizeLimit then Err(PosOverflow)
        else AccumulateDigits(s, i + 1, acc * 16 + d)
  }

  /** Extending a string of hex digits by one digit multiplies its value by 16 and adds the digit. */
  lemma HexValueSnoc(s: string, i: nat)
    requires i < |s| && AllHexDigits(s[..i + 1])
    ensures AllHexDigits(s[..i])
    ensures HexValue(s[..i + 1]) == HexValue(s[..i]) * 16 + DigitValue(s[i]).value
  {
    assert s[..i + 1][..i] == s[..i];
    assert forall p :: 0 <= p < i ==> s[..i][p] == s[..i + 1][p];
  }

  /** Appending a digit multiplies the value by 16 and adds the digit. */
  lemma HexValueAppend(s: string, c: char)
    requires AllHexDigits(s) && IsHexDigit(c)
    ensures AllHexDigits(s + [c]) && HexValue(s + [c]) == HexValue(s) * 16 + DigitValue(c).value
  {
    assert (s + [c])[..|s|] == s;
  }

  /** A longer string of hex digits never denotes a smaller value than its prefix. */
  lemma {:induction false} HexValuePrefixMonotone(s: string, i: nat)
    requires i <= |s| && AllHexDigits(s)
    ensures AllHexDigits(s[..i]) && HexValue(s[..i]) <= HexValue(s)
    decreases |s| - i
  {
    assert forall p :: 0 <= p < i ==> s[..i][p] == s[p];
    if i < |s| {
      HexValuePrefixMonotone(s, i + 1);
      HexValueSnoc(s, i);
    } else {
      assert s[..i] == s;
    }
  }

  /**
   * From position i, with acc the value of the digits before i, the loop
   * yields the value of the whole string when it is all digits and fits,
   * reports overflow when it is all digits and does not fit, and fails
   * whenever some character is not a digit.
   */
  lemma {:induction false} AccumulateDigitsCorrect(s: string, i: nat)
    requires i <= |s| && AllHexDigits(s[..i]) && HexValue(s[..i]) < UsizeLimit
    ensures var r := AccumulateDigits(s, i, HexValue(s[..i]));
      && (r.Ok? <==> AllHexDigits(s) && HexValue(s) < UsizeLimit)
      && (r.Ok? ==> r.value == HexValue(s))
      && (AllHexDigits(s) && HexValue(s) >= UsizeLimit ==> r == Err(PosOverflow))
      && r != Err(Empty)
    decreases |s| - i
  {
    if i == |s| {
      assert s[..i] == s;
    } else {
      var acc := HexValue(s[..i]);
      match DigitValue(s[i])
      case None =>
      case Some(d) =>
        assert AllHexDigits(s[..i + 1]) by {
          assert forall p :: 0 <= p < i ==> s[..i + 1][p] == s[..i][p];
        }
        HexValueSnoc(s, i);
        if acc * 16 + d >= UsizeLimit {
          if AllHexDigits(s) {
            HexValuePrefixMonotone(s, i + 1);
          }
        } else {
          AccumulateDigitsCorrect(s, i + 1);
        }
    }
  }

  /**
   * `usize::from_str_radix(s, 16)` for text without a leading sign: `Ok`
   * exactly when s is a non-empty string of hex digits whose value fits in
   * 64 bits, and then the value is that of the digits.
   */
  function FromStrRadix16(s: string): (r: Result<nat, IntErrorKind>)
    ensures r.Ok? <==> |s| > 0 && AllHexDigits(s) && HexValue(s) < UsizeLimit
    ensures r.Ok? ==> r.value == HexValue(s) && r.value < UsizeLimit
    ensures r == Err(Empty) <==> s == []
    ensures |s| > 0 && AllHexDigits(s) && HexValue(s) >= UsizeLimit ==> r == Err(PosOverflow)
  {
    if s == [] then Err(Empty)
    else
      assert s[..0] == [];
      AccumulateDigitsCorrect(s, 0);
      AccumulateDigits(s, 0, 0)
  }

  /** The lowercase digit `{:x}` prints for d. */
  function LowerHexDigit(d: nat): (c: char)
    requires d < 16
    ensures DigitValue(c) == Some(d)
    ensures '0' <= c <= '9' || 'a' <= c <= 'f'
  {
    if d < 10 then (48 + d) as char else (87 + d) as char
  }

  /** Text that `{:x}` can print: lowercase hex digits, and no leading zero unless the text is "0". */
  predicate IsCanonicalLowerHex(s: string) {
    && |s| > 0
    && (forall i :: 0 <= i < |s| ==> '0' <= s[i] <= '9' || 'a' <= s[i] <= 'f')
    && (s[0] == '0' ==> |s| == 1)
  }

  /** `format!("{:x}", n)`: n in lowercase hexadecimal, without padding. */
  function ToLowerHex(n: nat): (r: string)
    ensures IsCanonicalLowerHex(r)
    ensures n == 0 <==> r == "0"
    decreases n
  {
    if n < 16 then [LowerHexDigit(n)] else ToLowerHex(n / 16) + [LowerHexDigit(n % 16)]
  }

  /** The printed text denotes the printed number. */
  lemma {:induction false} ToLowerHexValue(n: nat)
    ensures AllHexDigits(ToLowerHex(n)) && HexValue(ToLowerHex(n)) == n
    decreases n
  {
    var r := ToLowerHex(n);
    assert AllHexDigits(r) by {
      forall i | 0 <= i < |r| ensures IsHexDigit(r[i]) {
        assert '0' <= r[i] <= '9' || 'a' <= r[i] <= 'f';
      }
    }
    if n >= 16 {
      ToLowerHexValue(n / 16);
      assert r[..|r| - 1] == ToLowerHex(n / 16);
    }
  }

  /** Reading back what `{:x}` printed, with `from_str_radix`, yields the number again. */
  lemma FormatThenParse(n: nat)
    requires n < UsizeLimit
    ensures FromStrRadix16(ToLowerHex(n)) == Ok(n)
  {
    ToLowerHexValue(n);
  }

  /** Hex text denotes at least its first digit, and at least 16 when it has two or more digits and no leading zero. */
  lemma {:induction false} LeadingDigitBound(s: string)
    requires |s| > 0 && AllHexDigits(s)
    ensures HexValue(s) >= DigitValue(s[0]).value
    ensures |s| > 1 && DigitValue(s[0]).value > 0 ==> HexValue(s) >= 16
    decreases |s|
  {
    if |s| > 1 {
      var t := s[..|s| - 1];
      assert AllHexDigits(t) by {
        assert forall p :: 0 <= p < |t| ==> t[p] == s[p];
      }
      assert t[0] == s[0];
      LeadingDigitBound(t);
    }
  }

  /** A lowercase hex digit is the one `{:x}` prints for its value. */
  lemma LowerHexDigitOfValue(c: char)
    requires '0' <= c <= '9' || 'a' <= c <= 'f'
    ensures DigitValue(c).Some? && LowerHexDigit(DigitValue(c).value) == c
  {
  }

  /** Dividing q * 16 + d by 16 gives back q, with remainder d. */
  lemma DivModSixteen(q: nat, d: nat)
    requires d < 16
    ensures (q * 16 + d) / 16 == q && (q * 16 + d) % 16 == d
  {
  }

  /** `{:x}` is the only canonical spelling of a number: printing the value of canonical text gives the text back. */
  lemma {:induction false} CanonicalTextIsPrinted(s: string)
    requires IsCanonicalLowerHex(s)
    ensures AllHexDigits(s) && ToLowerHex(HexValue(s)) == s
    decreases |s|
  {
    var last := s[|s| - 1];
    if |s| == 1 {
      LowerHexDigitOfValue(last);
      var d := DigitValue(last).value;
      assert HexValue(s) == HexValue([]) * 16 + d;
      assert [LowerHexDigit(d)] == s;
    } else {
      var t := s[..|s| - 1];
      assert IsCanonicalLowerHex(t) by {
        assert forall p :: 0 <= p < |t| ==> t[p] == s[p];
      }
      CanonicalTextIsPrinted(t);
      LeadingDigitBound(t);
      LowerHexDigitOfValue(t[0]);
      assert s == t + [last];
      PrintAppendedDigit(t, last);
    }
  }

  /** Printing the value of printed text extended by a digit, when that text is not "0", gives the extended text. */
  lemma PrintAppendedDigit(t: string, c: char)
    requires AllHexDigits(t) && HexValue(t) >= 1 && ToLowerHex(HexValue(t)) == t
    requires '0' <= c <= '9' || 'a' <= c <= 'f'
    ensures AllHexDigits(t + [c]) && ToLowerHex(HexValue(t + [c])) == t + [c]
  {
    LowerHexDigitOfValue(c);
    HexValueAppend(t, c);
    var q := HexValue(t);
    var d := DigitValue(c).value;
    DivModSixteen(q, d);
    assert ToLowerHex(q * 16 + d) == ToLowerHex(q) + [LowerHexDigit(d)];
  }
}
