/** `ParamValue`, the value type of runtime parameters and of option keys
    (src/param.rs). The decimal (`f64`) variant is not part of this model. */
module Param {
  import opened Wrappers
  import opened Digits

  const MinI64: int := -0x8000_0000_0000_0000
  const MaxI64: int := 0x7FFF_FFFF_FFFF_FFFF

  type I64 = x: int | MinI64 <= x <= MaxI64

  /** `ParamValue` wraps `ParamValueInner`; the wrapper adds nothing, so the
      variants stand here directly. Equality is structural, as derived. */
  datatype ParamValue = Int(n: I64) | Str(s: string)

  datatype Locale = Locale(tag: string)

  /** The locale's decimal formatter (`FixedDecimalFormatter::format_to_string`),
      an external collaborator. */
  type DecimalFormat = (Locale, int) -> string

  /** An optional sign followed by at least one ASCII digit: the integer
      syntax accepted by Rust's `str::parse`, without a range check. */
  function ParseSignedDigits(s: string): (r: Option<int>)
    ensures r.Some? <==> (s != [] && AllDigits(s)) || (|s| > 1 && s[0] in "+-" && AllDigits(s[1..]))
    ensures s != [] && AllDigits(s) ==> r == Some(DigitsValue(s) as int)
    ensures |s| > 1 && s[0] == '+' && AllDigits(s[1..]) ==> r == Some(DigitsValue(s[1..]) as int)
    ensures |s| > 1 && s[0] == '-' && AllDigits(s[1..]) ==> r == Some(-(DigitsValue(s[1..]) as int))
  {
    if |s| > 0 && (s[0] == '+' || s[0] == '-') then
      var digits := s[1..];
      if digits != [] && AllDigits(digits) then
        var magnitude: int := DigitsValue(digits);
        Some(if s[0] == '-' then -magnitude else magnitude)
      else None
    else if s != [] && AllDigits(s) then Some(DigitsValue(s))
    else None
  }

  /** `s.parse::<i64>()`: the integer syntax, and the value must fit in 64 bits. */
  function ParseI64(s: string): (r: Option<I64>)
    ensures r.Some? <==> ParseSignedDigits(s).Some? && MinI64 <= ParseSignedDigits(s).value <= MaxI64
    ensures r.Some? ==> r.value == ParseSignedDigits(s).value
  {
    match ParseSignedDigits(s)
    case Some(v) => if MinI64 <= v <= MaxI64 then Some(v) else None
    case None => None
  }

  /** `ParamValue::parse_number`: an `Int` whenever the text is an i64.
      The decimal fallback is not modelled, so other text gives None. */
  function ParseNumber(s: string): (r: Option<ParamValue>)
    ensures r.Some? <==> ParseI64(s).Some?
    ensures r.Some? ==> r.value == Int(ParseI64(s).value)
  {
    match ParseI64(s)
    case Some(n) => Some(Int(n))
    case None => None
  }

  /** `format_with_locale`: numbers go through the locale's formatter,
      text is returned unchanged. */
  function FormatWithLocale(v: ParamValue, locale: Locale, fdf: DecimalFormat): (r: string)
    ensures v.Str? ==> r == v.s
    ensures v.Int? ==> r == fdf(locale, v.n)
  {
    match v
    case Int(n) => fdf(locale, n)
    case Str(s) => s
  }

  /** `as_decimal`: always a number for `Int`; for `Str` only when the text
      parses (here: as an integer, of any size, as an `f64` parse would read it). */
  function AsDecimal(v: ParamValue): (r: Option<int>)
    ensures v.Int? ==> r == Some(v.n)
    ensures v.Str? ==> r == ParseSignedDigits(v.s)
  {
    match v
    case Int(n) => Some(n)
    case Str(s) => ParseSignedDigits(s)
  }

  /** `Display`: integers in decimal, text verbatim. */
  function Display(v: ParamValue): (r: string)
    ensures v.Str? ==> r == v.s
    ensures v.Int? ==> ParseSignedDigits(r) == Some(v.n)
  {
    match v
    case Int(n) =>
      ParseSignedDigitsOfIntToString(n);
      IntToString(n)
    case Str(s) => s
  }

  /** The integer types that have a `From` conversion. */
  datatype IntegerType = I64 | I32 | I16 | I8 | U32 | U16 | U8

  function MinOf(t: IntegerType): int {
    match t
    case I64 => MinI64
    case I32 => -0x8000_0000
    case I16 => -0x8000
    case I8 => -0x80
    case U32 | U16 | U8 => 0
  }

  function MaxOf(t: IntegerType): int {
    match t
    case I64 => MaxI64
    case I32 => 0x7FFF_FFFF
    case I16 => 0x7FFF
    case I8 => 0x7F
    case U32 => 0xFFFF_FFFF
    case U16 => 0xFFFF
    case U8 => 0xFF
  }

  /** `From<i64>`, ..., `From<u8>`: a lossless widening into `Int`. */
  function FromInteger(t: IntegerType, x: int): (r: ParamValue)
    requires MinOf(t) <= x <= MaxOf(t)
    ensures r.Int? && AsDecimal(r) == Some(x)
    ensures ParseNumber(Display(r)) == Some(r)
  {
    ParseNumberOfDisplay(x);
    Int(x)
  }

  /** `From<String>` and `From<&str>`: the text as a `Str` value. */
  function FromString(s: string): (r: ParamValue)
    ensures r.Str? && Display(r) == s
    ensures forall l, fdf :: FormatWithLocale(r, l, fdf) == s
  {
    Str(s)
  }

  lemma ParseSignedDigitsOfIntToString(n: int)
    ensures ParseSignedDigits(IntToString(n)) == Some(n)
  {
    var t := IntToString(n);
    if n < 0 {
      var digits := NatToString(-n);
      assert t == "-" + digits;
      assert t[0] == '-' && t[1..] == digits;
      DigitsValueOfNatToString(-n);
      assert ParseSignedDigits(t) == Some(-(DigitsValue(digits) as int));
    } else {
      assert t == NatToString(n);
      assert IsDigit(t[0]);
      DigitsValueOfNatToString(n);
      assert ParseSignedDigits(t) == Some(DigitsValue(t));
    }
  }

  /** `parse_number` reads back what `Display` writes for every i64. */
  lemma ParseNumberOfDisplay(n: I64)
    ensures ParseNumber(Display(Int(n))) == Some(Int(n))
  {
    ParseSignedDigitsOfIntToString(n);
  }

  /** Values of different variants are never equal, even when they print
      alike: `Int(1) != Str("1")` although both display as "1". */
  lemma VariantsDiffer(n: I64)
    ensures Display(Int(n)) == Display(Str(IntToString(n)))
    ensures Int(n) != Str(IntToString(n))
  {
  }
}
