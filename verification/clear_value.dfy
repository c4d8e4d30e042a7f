/**
  Display of a decrypted clear value on the Diet Tracker page.

  A decrypted value is absent, a boolean, a bigint, or a numeric text. An
  integer is read in two ways, as a 32-bit two's complement word and as an
  offset from 2^31, and the reading with the smaller magnitude is shown,
  the two's complement one winning a tie.
 */
module ClearValue {
  import opened Wrappers
  import opened Decimal

  const MOD_32: int := 0x1_0000_0000   // 2^32
  const PIVOT: int := 0x8000_0000      // 2^31
  const MAX_INT32: int := 0x7FFF_FFFF  // 2^31 - 1

  /** A quarter of the 32-bit range, 2^30: where the two readings trade places. */
  const QUARTER: int := 0x4000_0000

  /** A clear value as the decryption results hold it; Absent stands for both `undefined` and `null`. */
  datatype Clear = Absent | Bool(b: bool) | BigInt(v: int) | Text(s: string)

  /** The magnitude of an integer. */
  function Abs(x: int): (m: nat)
    ensures m == x || m == -x
  {
    if x < 0 then -x else x
  }

  /** The raw value read as a 32-bit two's complement word. */
  function TwosComplement(v: int): (r: int)
    ensures 0 <= v < MOD_32 ==> -PIVOT <= r < PIVOT && (v - r) % MOD_32 == 0
  {
    if v > MAX_INT32 then v - MOD_32 else v
  }

  /** The raw value read as an offset from 2^31. */
  function Centered(v: int): (r: int)
    ensures 0 <= v < MOD_32 ==> -PIVOT <= r < PIVOT
  {
    v - PIVOT
  }

  /** The reading of smaller magnitude, two's complement on a tie. */
  function DecodeSigned(v: int): (r: int)
    ensures r == TwosComplement(v) || r == Centered(v)
    ensures Abs(r) <= Abs(TwosComplement(v)) && Abs(r) <= Abs(Centered(v))
    ensures Abs(TwosComplement(v)) == Abs(Centered(v)) ==> r == TwosComplement(v)
  {
    var tc := TwosComplement(v);
    var centered := Centered(v);
    if Abs(tc) <= Abs(centered) then tc else centered
  }

  /** The integer a clear value stands for, if any: a bigint, or a text that `BigInt` accepts. */
  function Numeric(value: Clear): (r: Option<int>)
    ensures r.Some? <==> value.BigInt? || (value.Text? && ParseBigInt(value.s).Some?)
    ensures value.BigInt? ==> r == Some(value.v)
  {
    match value
    case BigInt(v) => Some(v)
    case Text(s) => ParseBigInt(s)
    case _ => None
  }

  /**
    The text shown for a clear value: "N/A" when absent, "true"/"false" for a
    boolean, a non-numeric text as it is, and otherwise the decimal rendering
    of the decoded integer.
   */
  function FormatClearValue(value: Clear): (r: string)
    ensures value.Absent? ==> r == "N/A"
    ensures value.Bool? ==> r == (if value.b then "true" else "false")
    ensures value.Text? && Numeric(value).None? ==> r == value.s
    ensures Numeric(value).Some? ==> r == IntToString(DecodeSigned(Numeric(value).value))
    ensures Numeric(value).Some? ==> Canonical(r) && ParseBigInt(r) == Some(DecodeSigned(Numeric(value).value))
  {
    match value
    case Absent => "N/A"
    case Bool(b) => if b then "true" else "false"
    case BigInt(v) => ShowDecoded(v)
    case Text(s) =>
      match ParseBigInt(s)
      case None => s
      case Some(v) => ShowDecoded(v)
  }

  /**
    `chosen.toString()`: the canonical text that reads back as the decoded
    integer, which by CanonicalUnique is the only such text.
   */
  function ShowDecoded(v: int): (r: string)
    ensures Canonical(r) && ParseBigInt(r) == Some(DecodeSigned(v))
  {
    var d := DecodeSigned(v);
    ParseBigIntOfToString(d);
    IntToString(d)
  }

  /**
    The decoding range by range: values up to 2^30 (negative ones included)
    are shown as they are; values in (2^30, 3 * 2^30) lose 2^31, so those in
    (2^30, 2^31) come out negative; from 3 * 2^30 on they lose 2^32.
   */
  lemma DecodeSignedByRange(v: int)
    ensures v <= QUARTER ==> DecodeSigned(v) == v
    ensures QUARTER < v < 3 * QUARTER ==> DecodeSigned(v) == v - PIVOT
    ensures 3 * QUARTER <= v ==> DecodeSigned(v) == v - MOD_32
    ensures QUARTER < v < PIVOT ==> DecodeSigned(v) < 0
  {
  }

  /** The two readings tie only at 2^30 and 3 * 2^30, and both ties go to the two's complement reading. */
  lemma DecodeSignedTies(v: int)
    ensures Abs(TwosComplement(v)) == Abs(Centered(v)) <==> v == QUARTER || v == 3 * QUARTER
    ensures Abs(TwosComplement(QUARTER)) == Abs(Centered(QUARTER)) && DecodeSigned(QUARTER) == QUARTER
    ensures Abs(TwosComplement(3 * QUARTER)) == Abs(Centered(3 * QUARTER)) && DecodeSigned(3 * QUARTER) == -QUARTER
  {
  }

  /** A 32-bit signed integer stored as a two's complement word. */
  function EncodeTwosComplement(x: int): (v: int)
    requires -PIVOT <= x < PIVOT
    ensures 0 <= v < MOD_32
    ensures TwosComplement(v) == x
  {
    if x < 0 then x + MOD_32 else x
  }

  /** A two's complement word is decoded to its integer exactly when the integer lies in [-2^30, 2^30]. */
  lemma TwosComplementRoundTrip(x: int)
    requires -PIVOT <= x < PIVOT
    ensures DecodeSigned(EncodeTwosComplement(x)) == x <==> -QUARTER <= x <= QUARTER
  {
    DecodeSignedByRange(EncodeTwosComplement(x));
  }

  /** A value stored as an offset from 2^31 is decoded to its integer exactly when the integer lies in (-2^30, 2^30). */
  lemma CenteredRoundTrip(x: int)
    requires -PIVOT <= x < PIVOT
    ensures DecodeSigned(x + PIVOT) == x <==> -QUARTER < x < QUARTER
  {
    DecodeSignedByRange(x + PIVOT);
  }

  /** A bigint in [0, 2^30], or its decimal text, is shown as its own decimal rendering. */
  lemma SmallValuesShownAsIs(v: int)
    requires 0 <= v <= QUARTER
    ensures FormatClearValue(BigInt(v)) == IntToString(v)
    ensures FormatClearValue(Text(IntToString(v))) == IntToString(v)
  {
    DecodeSignedByRange(v);
    ParseBigIntOfToString(v);
  }

  /** Any canonical text that reads back as the decoded integer is the text shown. */
  lemma ShownTextUnique(value: Clear, t: string)
    requires Numeric(value).Some?
    requires Canonical(t) && ParseBigInt(t) == Some(DecodeSigned(Numeric(value).value))
    ensures t == FormatClearValue(value)
  {
    CanonicalUnique(t, DecodeSigned(Numeric(value).value));
  }

  /** A bigint and its decimal text are shown alike. */
  lemma TextShownAsBigInt(v: int)
    ensures FormatClearValue(Text(IntToString(v))) == FormatClearValue(BigInt(v))
  {
    ParseBigIntOfToString(v);
  }
}
