/**
 * The integer text forms the typed getters and setters of keyvalues.go rely on:
 * `strconv.ParseInt(s, 0, 64)` and `strconv.ParseUint(s, 0, 64)` (base taken
 * from the prefix) on the reading side, `fmt.Sprint` of an int64 and
 * `fmt.Sprintf("0x%x", ...)` of a uint64 on the writing side.
 */
module Numbers {
  import opened Wrappers

  const MaxUint64: int := 0xFFFF_FFFF_FFFF_FFFF
  const MinInt64: int := -0x8000_0000_0000_0000
  const MaxInt64: int := 0x7FFF_FFFF_FFFF_FFFF

  type Int64 = x: int | MinInt64 <= x <= MaxInt64
  type Uint64 = x: int | 0 <= x <= MaxUint64

  /** strconv's `lower`: sets bit 0x20, which lower-cases ASCII letters. */
  function LowerAscii(c: char): char {
    if 'A' <= c <= 'Z' then (c as int + 32) as char else c
  }

  /** The value of one digit character: 0-9, then a-z (either case) as 10-35. */
  function DigitValue(c: char): Option<nat> {
    if '0' <= c <= '9' then Some(c as int - '0' as int)
    else if 'a' <= LowerAscii(c) <= 'z' then Some(LowerAscii(c) as int - 'a' as int + 10)
    else None
  }

  /** The value of a digit string in `base`, most significant digit first; None on a bad digit. */
  function DigitsValue(s: string, base: nat): Option<nat>
    decreases |s|
  {
    if s == [] then Some(0)
    else match DigitsValue(s[..|s| - 1], base)
      case None => None
      case Some(high) =>
        match DigitValue(s[|s| - 1])
        case None => None
        case Some(d) => if d < base then Some(high * base + d) else None
  }

  /**
   * `strconv.ParseUint(s, 0, 64)`: a "0x", "0o" or "0b" prefix (any case) followed by at
   * least one digit selects base 16, 8 or 2; any other leading "0" selects base 8; otherwise
   * base 10. The value must fit in 64 bits.
   */
  function ParseUint(s: string): (r: Option<Uint64>)
    ensures s == [] ==> r == None
  {
    if s == [] then None
    else
      var digits :=
        if s[0] != '0' then DigitsValue(s, 10)
        else if |s| >= 3 && LowerAscii(s[1]) == 'x' then DigitsValue(s[2..], 16)
        else if |s| >= 3 && LowerAscii(s[1]) == 'o' then DigitsValue(s[2..], 8)
        else if |s| >= 3 && LowerAscii(s[1]) == 'b' then DigitsValue(s[2..], 2)
        else DigitsValue(s[1..], 8);
      match digits
      case None => None
      case Some(v) => if v <= MaxUint64 then Some(v) else None
  }

  /**
   * `strconv.ParseInt(s, 0, 64)`: an optional sign, then what ParseUint accepts, within
   * the int64 range.
   */
  function ParseInt(s: string): (r: Option<Int64>)
    ensures s == [] ==> r == None
  {
    if s == [] then None
    else
      var negative := s[0] == '-';
      var magnitude := if s[0] == '+' || s[0] == '-' then s[1..] else s;
      match ParseUint(magnitude)
      case None => None
      case Some(u) =>
        if !negative && u >= 0x8000_0000_0000_0000 then None
        else if negative && u > 0x8000_0000_0000_0000 then None
        else Some(if negative then -(u as int) else u as int)
  }

  function DigitChar(d: nat): char
    requires d < 16
  {
    if d < 10 then ('0' as int + d) as char else ('a' as int + d - 10) as char
  }

  /** The two bases the setters write in. */
  predicate WrittenBase(base: nat) {
    base == 10 || base == 16
  }

  lemma DivMod(n: nat, base: nat)
    requires WrittenBase(base) && n >= base
    ensures 1 <= n / base < n && n % base < base
    ensures (n / base) * base + n % base == n
  {
  }

  lemma DigitCharValue(d: nat)
    requires d < 16
    ensures DigitValue(DigitChar(d)) == Some(d)
  {
  }

  /** The digits of `n` in `base` without leading zeros ("0" for zero), lower-case letters. */
  function Digits(n: nat, base: nat): (s: string)
    requires WrittenBase(base)
    ensures |s| >= 1
    ensures s[0] != '+' && s[0] != '-'
    ensures n > 0 ==> s[0] != '0'
    ensures n == 0 ==> s == "0"
    decreases n
  {
    if n < base then [DigitChar(n)]
    else DivMod(n, base); Digits(n / base, base) + [DigitChar(n % base)]
  }

  /** `fmt.Sprint(v)` for an int64: base 10, with a minus sign when negative. */
  function FormatInt(v: Int64): string {
    if v < 0 then "-" + Digits(-(v as int), 10) else Digits(v, 10)
  }

  /** `fmt.Sprintf("0x%x", v)` for a uint64. */
  function FormatHex(v: Uint64): string {
    "0x" + Digits(v, 16)
  }

  /** Reading back the digits written in either base the writer uses, 10 or 16, gives the number. */
  lemma {:induction false} DigitsRoundTrip(n: nat, base: nat)
    requires WrittenBase(base)
    ensures DigitsValue(Digits(n, base), base) == Some(n)
    decreases n
  {
    var s := Digits(n, base);
    if n < base {
      DigitCharValue(n);
      assert s[..|s| - 1] == [];
    } else {
      DigitCharValue(n % base);
      DivMod(n, base);
      DigitsRoundTrip(n / base, base);
      assert s[..|s| - 1] == Digits(n / base, base);
    }
  }

  /** `ParseInt` reads back what `FormatInt` writes: the round trip behind SetValueInt then Int. */
  lemma FormatIntRoundTrip(v: Int64)
    ensures ParseInt(FormatInt(v)) == Some(v)
  {
    if v < 0 {
      NegativeRoundTrip(v);
    } else {
      DecimalRoundTrip(v);
    }
  }

  /** A decimal numeral without sign reads back, through ParseUint, as its value. */
  lemma DecimalRoundTrip(n: nat)
    requires n <= MaxUint64
    ensures ParseUint(Digits(n, 10)) == Some(n)
  {
    DigitsRoundTrip(n, 10);
    if n == 0 {
      assert Digits(n, 10)[1..] == [];
    }
  }

  /** A negative value is printed as '-' and its magnitude, which reads back as the magnitude. */
  lemma NegativeRoundTrip(v: Int64)
    requires v < 0
    ensures ParseInt(FormatInt(v)) == Some(v)
  {
    var s := FormatInt(v);
    DecimalRoundTrip(-(v as int));
    assert s[1..] == Digits(-(v as int), 10);
  }

  /** `ParseUint` reads back what `FormatHex` writes: the round trip behind SetValueUint64 then Uint64. */
  lemma FormatHexRoundTrip(v: Uint64)
    ensures ParseUint(FormatHex(v)) == Some(v)
  {
    DigitsRoundTrip(v, 16);
    assert FormatHex(v)[2..] == Digits(v, 16);
  }

  /** The text forms of the two booleans, "1" and "0", read back as 1 and 0. */
  lemma BoolTextsParse()
    ensures ParseInt("1") == Some(1) && ParseInt("0") == Some(0)
  {
    assert "1"[..0] == [] && "0"[1..] == [];
  }
}
