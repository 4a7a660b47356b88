/**
 * The operations of Rust's standard library on text that the process crate
 * relies on: `str::find` and `str::rfind` with a `char` pattern, decimal
 * formatting of an integer (`format!("{}", n)`), and lossy decoding of bytes.
 *
 * A `string` here holds one character per byte of the Rust `String`, so an
 * index into it is the byte index Rust's `find`, `rfind` and slicing use.
 */
module Text {
  import opened Wrappers

  newtype u8 = x: int | 0 <= x < 0x100

  /** The terminator of a C string. */
  const Nul: u8 := 0

  // ---------------------------------------------------------------------------
  // Searching for a character

  /** `str::find(c)`: the index of the first occurrence of `c`, if any. */
  function Find(s: string, c: char): (r: Option<nat>)
    ensures r.None? <==> c !in s
    ensures r.Some? ==> r.value < |s| && s[r.value] == c && c !in s[..r.value]
  {
    if s == [] then None
    else if s[0] == c then Some(0)
    else
      match Find(s[1..], c)
      case None =>
        assert s == [s[0]] + s[1..];
        None
      case Some(i) =>
        assert s[..i + 1] == [s[0]] + s[1..][..i];
        Some(i + 1)
  }

  /** `str::rfind(c)`: the index of the last occurrence of `c`, if any. */
  function RFind(s: string, c: char): (r: Option<nat>)
    ensures r.None? <==> c !in s
    ensures r.Some? ==> r.value < |s| && s[r.value] == c && c !in s[r.value + 1..]
  {
    if s == [] then None
    else if s[|s| - 1] == c then Some(|s| - 1)
    else
      var init := s[..|s| - 1];
      assert s == init + [s[|s| - 1]];
      match RFind(init, c)
      case None => None
      case Some(i) =>
        assert s[i + 1..] == init[i + 1..] + [s[|s| - 1]];
        Some(i)
  }

  // ---------------------------------------------------------------------------
  // Reference definitions: the text before the first and after the last `c`

  /** The longest prefix of `s` in which `c` does not occur, built letter by letter. */
  function PrefixBefore(s: string, c: char): (r: string)
    ensures r <= s && c !in r
    ensures |r| < |s| ==> s[|r|] == c
  {
    if s == [] || s[0] == c then []
    else
      var rest := PrefixBefore(s[1..], c);
      assert [s[0]] + rest <= s by {
        assert s == [s[0]] + s[1..];
      }
      [s[0]] + rest
  }

  /** The longest suffix of `s` in which `c` does not occur, built letter by letter from the end. */
  function SuffixAfter(s: string, c: char): (r: string)
    ensures |r| <= |s| && r == s[|s| - |r|..] && c !in r
    ensures |r| < |s| ==> s[|s| - |r| - 1] == c
  {
    if s == [] || s[|s| - 1] == c then []
    else
      var init := s[..|s| - 1];
      var rest := SuffixAfter(init, c);
      assert s[|s| - |rest| - 1..] == init[|init| - |rest|..] + [s[|s| - 1]];
      rest + [s[|s| - 1]]
  }

  /** A prefix of `s` that avoids `c` and stops only at a `c` is the one PrefixBefore gives. */
  lemma PrefixBeforeUnique(s: string, c: char, r: string)
    requires r <= s && c !in r
    requires |r| < |s| ==> s[|r|] == c
    ensures r == PrefixBefore(s, c)
  {
  }

  /** A suffix of `s` that avoids `c` and starts only after a `c` is the one SuffixAfter gives. */
  lemma SuffixAfterUnique(s: string, c: char, r: string)
    requires |r| <= |s| && r == s[|s| - |r|..] && c !in r
    requires |r| < |s| ==> s[|s| - |r| - 1] == c
    ensures r == SuffixAfter(s, c)
  {
  }

  // ---------------------------------------------------------------------------
  // Bytes to text

  /**
   * `String::from_utf8_lossy`, with each byte standing for the character of
   * the same code (see README: UTF-8 validation is not modelled).
   */
  function DecodeLossy(bytes: seq<u8>): (s: string)
    ensures |s| == |bytes|
    ensures forall i :: 0 <= i < |bytes| ==> (s[i] == '\0' <==> bytes[i] == Nul)
  {
    seq(|bytes|, i requires 0 <= i < |bytes| => (bytes[i] as int) as char)
  }

  // ---------------------------------------------------------------------------
  // Decimal formatting of integers

  function DigitChar(d: nat): (c: char)
    requires d < 10
    ensures '0' <= c <= '9'
  {
    ('0' as int + d) as char
  }

  function DigitValue(c: char): nat
  {
    if '0' <= c <= '9' then c as int - '0' as int else 0
  }

  /** The decimal digits of `n`, as `{}` formats an unsigned integer: no sign, no leading zero. */
  function NatToDecimal(n: nat): (s: string)
    ensures |s| >= 1 && (|s| > 1 ==> s[0] != '0')
    ensures forall i :: 0 <= i < |s| ==> '0' <= s[i] <= '9'
    decreases n
  {
    if n < 10 then [DigitChar(n)] else NatToDecimal(n / 10) + [DigitChar(n % 10)]
  }

  /** `format!("{}", n)` for a signed integer: a '-' before the digits of a negative number. */
  function IntToDecimal(n: int): string
  {
    if n < 0 then "-" + NatToDecimal(-n) else NatToDecimal(n)
  }

  /** Reads a run of decimal digits back as a number. */
  function DecimalToNat(s: string): nat
  {
    if s == [] then 0 else DecimalToNat(s[..|s| - 1]) * 10 + DigitValue(s[|s| - 1])
  }

  /** Reads an optional '-' followed by decimal digits back as a number. */
  function DecimalToInt(s: string): int
  {
    if |s| > 0 && s[0] == '-' then -(DecimalToNat(s[1..]) as int) else DecimalToNat(s)
  }

  lemma {:induction false} NatDecimalRoundTrip(n: nat)
    ensures DecimalToNat(NatToDecimal(n)) == n
    decreases n
  {
    var s := NatToDecimal(n);
    if n >= 10 {
      NatDecimalRoundTrip(n / 10);
      assert s[..|s| - 1] == NatToDecimal(n / 10);
    }
  }

  /** The text `{}` produces for an integer reads back as that integer. */
  lemma IntDecimalRoundTrip(n: int)
    ensures DecimalToInt(IntToDecimal(n)) == n
  {
    if n < 0 {
      NatDecimalRoundTrip(-n);
      assert IntToDecimal(n)[1..] == NatToDecimal(-n);
    } else {
      NatDecimalRoundTrip(n);
    }
  }
}
