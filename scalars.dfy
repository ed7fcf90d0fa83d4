/** The scalar codecs `to_raw_value` / `from_raw_value`: bool, the integral
    types (through the widened `long long` / `unsigned long long`), text and
    raw pass-through. The compile-time overload dispatch becomes the `Kind`
    tag of the value. */
module Scalars {
  import opened Transcode

  // ---------------------------------------------------------------------
  // Integral widths.
  // ---------------------------------------------------------------------

  /** The integral types other than `bool`, with the sizes of an LP64
      platform where plain `char` is signed. */
  datatype Width =
    | Char | SignedChar | UChar | Short | UShort | Int | UInt
    | Long | ULong | LongLong | ULongLong

  predicate IsUnsigned(w: Width)
  {
    w.UChar? || w.UShort? || w.UInt? || w.ULong? || w.ULongLong?
  }

  /** 2 to the number of bits of the type. */
  function Modulus(w: Width): nat
  {
    match w
    case Char | SignedChar | UChar => 0x100
    case Short | UShort => 0x1_0000
    case Int | UInt => 0x1_0000_0000
    case Long | ULong | LongLong | ULongLong => 0x1_0000_0000_0000_0000
  }

  /** `std::numeric_limits<T>::min()`. */
  function Min(w: Width): int
  {
    if IsUnsigned(w) then 0 else -(Modulus(w) / 2)
  }

  /** `std::numeric_limits<T>::max()`. */
  function Max(w: Width): int
  {
    Min(w) + Modulus(w) - 1
  }

  /** The values of the type `w`. */
  predicate InRange(w: Width, v: int)
  {
    Min(w) <= v <= Max(w)
  }

  /** The widened type the codec converts through: `unsigned long long`
      for unsigned types, `long long` otherwise. */
  function Widened(w: Width): Width
  {
    if IsUnsigned(w) then ULongLong else LongLong
  }

  /** `static_cast<T>(v)` from the widened type: reduction modulo 2^bits
      into the range of `w`. */
  function Narrow(w: Width, v: int): (r: int)
    ensures InRange(w, r)
    ensures InRange(w, v) ==> r == v
  {
    (v - Min(w)) % Modulus(w) + Min(w)
  }

  // ---------------------------------------------------------------------
  // Decimal text.
  // ---------------------------------------------------------------------

  predicate IsDigit(c: char)
  {
    '0' <= c <= '9'
  }

  function DigitChar(d: nat): (c: char)
    requires d < 10
    ensures IsDigit(c)
  {
    ('0' as int + d) as char
  }

  /** Decimal digits of `n`, no leading zero (what `operator<<` writes). */
  function ShowNat(n: nat): (r: string)
    ensures |r| > 0
    ensures forall i :: 0 <= i < |r| ==> IsDigit(r[i])
  {
    if n < 10 then [DigitChar(n)] else ShowNat(n / 10) + [DigitChar(n % 10)]
  }

  /** `oss << v` for an integer. */
  function ShowInt(v: int): string
  {
    if v < 0 then "-" + ShowNat(-v) else ShowNat(v)
  }

  /** The value of a run of decimal digits. */
  function DigitsValue(s: string): nat
    requires forall i :: 0 <= i < |s| ==> IsDigit(s[i])
  {
    if s == [] then 0
    else
      assert IsDigit(s[|s| - 1]);
      DigitsValue(s[..|s| - 1]) * 10 + (s[|s| - 1] as int - '0' as int)
  }

  /** The number of consecutive digits of `s` starting at `from`. */
  function DigitRun(s: string, from: nat): (k: nat)
    requires from <= |s|
    ensures from + k <= |s|
    ensures forall i :: from <= i < from + k ==> IsDigit(s[i])
    ensures from + k == |s| || !IsDigit(s[from + k])
    decreases |s| - from
  {
    if from == |s| || !IsDigit(s[from]) then 0 else 1 + DigitRun(s, from + 1)
  }

  /** `iss >> v` into the widened type: an optional minus sign (signed
      types only) and the longest run of digits that follows; no digit reads
      as 0, and a value beyond the widened range reads as that range's
      nearest bound. */
  function ReadWide(unsigned: bool, raw: string): (r: int)
    ensures InRange(if unsigned then ULongLong else LongLong, r)
  {
    var wide := if unsigned then ULongLong else LongLong;
    var neg := !unsigned && |raw| > 0 && raw[0] == '-';
    var start := if neg then 1 else 0;
    var k := DigitRun(raw, start);
    if k == 0 then 0
    else
      var magnitude: int := DigitsValue(raw[start..start + k]);
      var v := if neg then -magnitude else magnitude;
      if v < Min(wide) then Min(wide) else if v > Max(wide) then Max(wide) else v
  }

  /** `to_raw_value` of an integral value. */
  function EncodeInt(w: Width, v: int): string
    requires InRange(w, v)
  {
    ShowInt(v)
  }

  /** `from_raw_value<T>` for an integral `T`: read wide, then narrow. */
  function DecodeInt(w: Width, raw: string): (r: int)
    ensures InRange(w, r)
  {
    Narrow(w, ReadWide(IsUnsigned(w), raw))
  }

  lemma {:induction false} DigitsOfShowNat(n: nat)
    ensures DigitsValue(ShowNat(n)) == n
  {
    var s := ShowNat(n);
    if n >= 10 {
      DigitsOfShowNat(n / 10);
      assert s[..|s| - 1] == ShowNat(n / 10);
    }
  }

  lemma DigitRunToEnd(s: string, from: nat)
    requires from <= |s|
    requires forall i :: from <= i < |s| ==> IsDigit(s[i])
    ensures DigitRun(s, from) == |s| - from
  {
  }

  predicate AllDigits(s: string)
  {
    forall i :: 0 <= i < |s| ==> IsDigit(s[i])
  }

  /** Reading a run of digits with nothing in front. */
  lemma ReadDigits(unsigned: bool, raw: string)
    requires raw != [] && AllDigits(raw)
    ensures var wide := if unsigned then ULongLong else LongLong;
      InRange(wide, DigitsValue(raw)) ==> ReadWide(unsigned, raw) == DigitsValue(raw)
  {
    DigitRunToEnd(raw, 0);
    assert raw[0..|raw|] == raw;
  }

  /** Reading a minus sign followed by a run of digits, into `long long`. */
  lemma ReadNegativeDigits(raw: string)
    requires |raw| >= 2 && raw[0] == '-' && AllDigits(raw[1..])
    ensures var v := -(DigitsValue(raw[1..]) as int);
      InRange(LongLong, v) ==> ReadWide(false, raw) == v
  {
    DigitRunToEnd(raw, 1);
    assert raw[1..1 + (|raw| - 1)] == raw[1..];
  }

  /** Integer round trip, for every width and every value of it
      (its minimum, maximum and zero included). */
  lemma IntRoundTrip(w: Width, v: int)
    requires InRange(w, v)
    ensures DecodeInt(w, EncodeInt(w, v)) == v
  {
    if v < 0 {
      NegativeRoundTrip(w, v);
    } else {
      NonNegativeRoundTrip(w, v);
    }
  }

  lemma NegativeRoundTrip(w: Width, v: int)
    requires InRange(w, v) && v < 0
    ensures ReadWide(IsUnsigned(w), ShowInt(v)) == v
  {
    assert !IsUnsigned(w) && InRange(LongLong, v);
    var raw := "-" + ShowNat(-v);
    assert raw[1..] == ShowNat(-v);
    DigitsOfShowNat(-v);
    ReadNegativeDigits(raw);
  }

  lemma NonNegativeRoundTrip(w: Width, v: int)
    requires InRange(w, v) && v >= 0
    ensures ReadWide(IsUnsigned(w), ShowInt(v)) == v
  {
    assert InRange(if IsUnsigned(w) then ULongLong else LongLong, v);
    DigitsOfShowNat(v);
    ReadDigits(IsUnsigned(w), ShowNat(v));
  }

  /** Text without a digit reads as 0, whatever the width. */
  lemma UnparseableIntIsZero(w: Width, raw: string)
    requires forall i :: 0 <= i < |raw| ==> !IsDigit(raw[i])
    ensures DecodeInt(w, raw) == 0
  {
    var start := if !IsUnsigned(w) && |raw| > 0 && raw[0] == '-' then 1 else 0;
    assert DigitRun(raw, start) == 0 by {
      if start < |raw| {
        assert !IsDigit(raw[start]);
      }
    }
  }

  // ---------------------------------------------------------------------
  // Bool.
  // ---------------------------------------------------------------------

  /** `from_raw_value<bool>`: true exactly for the text `true`. */
  function DecodeBool(raw: string): bool
  {
    raw == "true"
  }

  /** `to_raw_value(bool)`. */
  function EncodeBool(b: bool): (r: string)
    ensures r == "true" || r == "false"
    ensures DecodeBool(r) == b
  {
    if b then "true" else "false"
  }

  /** Only the exact text `true`, which is what `true` encodes to, reads as
      true: `1`, `True` and ` true` read as false, like any other text. */
  lemma StrictBool(raw: string)
    ensures DecodeBool(raw) <==> raw == EncodeBool(true)
    ensures !DecodeBool("1") && !DecodeBool("True") && !DecodeBool(" true")
  {
  }

  // ---------------------------------------------------------------------
  // Tagged scalars.
  // ---------------------------------------------------------------------

  /** The value categories the overloads dispatch on. */
  datatype Kind = BoolKind | IntKind(width: Width) | TextKind | RawKind

  /** A value of one of those categories; `RawVal` is `utils::Raw<>`. */
  datatype Scalar =
    | BoolVal(b: bool)
    | IntVal(w: Width, i: int)
    | TextVal(s: string)
    | RawVal(raw: string)

  /** An integral value lies in the range of its type. */
  predicate WellTyped(v: Scalar)
  {
    v.IntVal? ==> InRange(v.w, v.i)
  }

  function KindOf(v: Scalar): Kind
  {
    match v
    case BoolVal(_) => BoolKind
    case IntVal(w, _) => IntKind(w)
    case TextVal(_) => TextKind
    case RawVal(_) => RawKind
  }

  /** The values the round trip is proved for: texts free of backslashes. (A
      backslash before `t`, `n`, `r` or a quote, or at the end, is lost.) */
  predicate Lossless(v: Scalar)
  {
    v.TextVal? ==> NoBackslash(v.s)
  }

  /** `to_raw_value(v)`. Only a raw value can encode to the empty text. */
  function Encode(v: Scalar): (r: string)
    requires WellTyped(v)
    ensures v.RawVal? || r != []
  {
    match v
    case BoolVal(b) => EncodeBool(b)
    case IntVal(w, i) => EncodeInt(w, i)
    case TextVal(s) => EncodeText(s)
    case RawVal(raw) => raw
  }

  /** `from_raw_value<T>(raw)` for the `T` that `k` stands for. */
  function Decode(k: Kind, raw: string): (r: Scalar)
    ensures KindOf(r) == k && WellTyped(r)
  {
    match k
    case BoolKind => BoolVal(DecodeBool(raw))
    case IntKind(w) => IntVal(w, DecodeInt(w, raw))
    case TextKind => TextVal(DecodeText(raw))
    case RawKind => RawVal(raw)
  }

  /** Scalar round trip: every lossless value decodes back from its encoding. */
  lemma ScalarRoundTrip(v: Scalar)
    requires WellTyped(v) && Lossless(v)
    ensures Decode(KindOf(v), Encode(v)) == v
  {
    match v
    case IntVal(w, i) => IntRoundTrip(w, i);
    case TextVal(s) => TextRoundTrip(s);
    case _ =>
  }

  /** `to_raw_value(v)`, running the in-place transcoder for texts. */
  method ToRawValue(v: Scalar) returns (r: string)
    requires WellTyped(v)
    ensures r == Encode(v)
  {
    match v
    case TextVal(s) => r := TranscodeText(s, true);
    case _ => r := Encode(v);
  }

  /** `from_raw_value<T>(raw)`, running the in-place transcoder for texts. */
  method FromRawValue(k: Kind, raw: string) returns (r: Scalar)
    ensures r == Decode(k, raw)
  {
    match k
    case TextKind =>
      var s := TranscodeText(raw, false);
      r := TextVal(s);
    case _ => r := Decode(k, raw);
  }
}
