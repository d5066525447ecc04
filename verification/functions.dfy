/**
 * The value predicates of the utility module (`isNullOrUndefined`,
 * `isNullOrEmpty`, `isNullUndefinedOrBlank`) and the unit choice of
 * `readableSize`.
 */
module Functions {
  import opened Js

  /** `isNullOrUndefined(value)`. */
  predicate IsNullOrUndefined(v: JsValue) {
    v == UndefinedValue || v == NullValue
  }

  /** `isNullOrEmpty(value)`, whose parameter is typed `string | undefined`; a
      `null` passed anyway is neither `undefined` nor `""`. */
  predicate IsNullOrEmpty(v: Nullable<string>) {
    v == Undefined || v == Present("")
  }

  /** `isNullUndefinedOrBlank(value)`: nullish, or a string that trims to `""`. */
  predicate IsNullUndefinedOrBlank(v: JsValue) {
    v == NullValue || v == UndefinedValue || (v.StringValue? && Trim(v.s) == "")
  }

  /** Blankness is exactly: nullish, or a string made only of whitespace. */
  lemma BlankIffNullishOrWhitespace(v: JsValue)
    ensures IsNullUndefinedOrBlank(v) <==>
      IsNullOrUndefined(v) || (v.StringValue? && forall i :: 0 <= i < |v.s| ==> IsWhitespace(v.s[i]))
  {
    if v.StringValue? {
      TrimEmptyIffAllWhitespace(v.s);
    }
  }

  /** Numbers, zero included, and dates are never blank. */
  lemma NumbersAndDatesNeverBlank(n: int, d: Date)
    ensures !IsNullUndefinedOrBlank(NumberValue(n))
    ensures !IsNullUndefinedOrBlank(DateObject(d))
  {
  }

  /** Whatever `isNullOrEmpty` accepts, `isNullUndefinedOrBlank` accepts too; the converse
      fails on a whitespace-only string. */
  lemma EmptyImpliesBlank(v: Nullable<string>)
    ensures IsNullOrEmpty(v) ==> IsNullUndefinedOrBlank(StringProperty(v))
    ensures IsNullUndefinedOrBlank(StringValue(" ")) && !IsNullOrEmpty(Present(" "))
  {
    TrimEmptyIffAllWhitespace(" ");
    TrimEmptyIffAllWhitespace("");
  }

  /** `null` is not accepted by `isNullOrEmpty` even though it is nullish. */
  lemma NullIsNotNullOrEmpty()
    ensures !IsNullOrEmpty(Null) && IsNullOrUndefined(StringProperty(Null))
  {
  }

  // ---- readableSize ----

  const KbLimit: int := 1024
  const MoLimit: int := 1024 * 1024
  const GoLimit: int := 1024 * 1024 * 1024

  /** The label `readableSize` builds: either the size divided by a power of 1024
      followed by a suffix (the floating-point quotient is not modelled), or the
      exact byte count followed by " Octets". */
  datatype SizeLabel = Scaled(divisor: int, suffix: string) | Exact(text: string)

  function DigitChar(d: nat): (c: char)
    requires d < 10
    ensures IsDigit(c)
  {
    ('0' as int + d) as char
  }

  /** Decimal text of a natural number, as a template literal prints it. */
  function NatToString(n: nat): (r: string)
    ensures |r| > 0
    ensures forall i :: 0 <= i < |r| ==> IsDigit(r[i])
    ensures |r| > 1 ==> r[0] != '0'
  {
    if n < 10 then [DigitChar(n)] else NatToString(n / 10) + [DigitChar(n % 10)]
  }

  /** Decimal text of an integer: a leading '-' for negatives. */
  function IntToString(n: int): (r: string)
    ensures |r| > 0
  {
    if n < 0 then "-" + NatToString(-n) else NatToString(n)
  }

  /** The value of a string of decimal digits. */
  function ParseNat(s: string): nat
    requires forall i :: 0 <= i < |s| ==> IsDigit(s[i])
  {
    if |s| == 0 then 0
    else
      assert IsDigit(s[|s| - 1]);
      ParseNat(s[..|s| - 1]) * 10 + (s[|s| - 1] as int - '0' as int)
  }

  /** The decimal text reads back as the number it was printed from. */
  lemma {:induction false} NatToStringRoundTrip(n: nat)
    ensures ParseNat(NatToString(n)) == n
    decreases n
  {
    if n >= 10 {
      NatToStringRoundTrip(n / 10);
      var r := NatToString(n);
      assert r[..|r| - 1] == NatToString(n / 10);
    }
  }

  /** `readableSize(bytes)`: strict thresholds, largest unit first. */
  function ReadableSize(bytes: int): SizeLabel {
    if bytes > GoLimit then Scaled(GoLimit, "Go")
    else if bytes > MoLimit then Scaled(MoLimit, "Mo")
    else if bytes > KbLimit then Scaled(KbLimit, "Kb")
    else Exact(IntToString(bytes) + " Octets")
  }

  /** The exact form is used up to and including 1024 bytes, and its text is the
      byte count followed by " Octets"; a scaled label divides by the largest power of
      1024 the size strictly exceeds, so the quotient shown lies above 1 and, below
      the Go unit, at most 1024, and names that power "Kb", "Mo" or "Go". */
  lemma ReadableSizeUnits(bytes: int)
    ensures ReadableSize(bytes).Exact? <==> bytes <= KbLimit
    ensures ReadableSize(bytes).Exact? ==>
      exists t :: ReadableSize(bytes).text == t + " Octets" && (bytes >= 0 ==> t == NatToString(bytes))
    ensures ReadableSize(bytes).Scaled? ==>
      var d := ReadableSize(bytes).divisor;
      d in {KbLimit, MoLimit, GoLimit} && d < bytes && (d != GoLimit ==> bytes <= 1024 * d)
    ensures ReadableSize(bytes).Scaled? ==>
      (ReadableSize(bytes).suffix == "Go" <==> bytes > GoLimit)
    ensures ReadableSize(bytes).Scaled? ==>
      var d := ReadableSize(bytes).divisor;
      ReadableSize(bytes).suffix == (if d == KbLimit then "Kb" else if d == MoLimit then "Mo" else "Go")
  {
    if bytes <= KbLimit {
      assert ReadableSize(bytes).text == IntToString(bytes) + " Octets";
    }
  }

  /** Exactly 1024 bytes stays in the exact form. */
  lemma ReadableSize1024()
    ensures ReadableSize(1024) == Exact("1024 Octets")
  {
    assert NatToString(1) == "1";
    assert NatToString(10) == "10";
    assert NatToString(102) == "102";
    assert NatToString(1024) == "1024";
  }

  /** The rank of the unit chosen never decreases as the size grows. */
  function UnitRank(l: SizeLabel): nat {
    match l
    case Exact(_) => 0
    case Scaled(d, _) => if d == KbLimit then 1 else if d == MoLimit then 2 else 3
  }

  lemma UnitRankMonotonic(a: int, b: int)
    requires a <= b
    ensures UnitRank(ReadableSize(a)) <= UnitRank(ReadableSize(b))
  {
  }
}
