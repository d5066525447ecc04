/**
 * `Utils.newJSONBlob`: the numeric-string recogniser (the regular expression
 * `^-?\d+(\.\d+)?(e[-+]?\d+)?$` with the case-insensitive flag) and the choice
 * between a `text/plain` and an `application/json` blob.
 *
 * The recogniser is written as a left-to-right scan; `MatchesNumberPattern` is
 * the same language stated as a decomposition into the pattern's four parts,
 * and `NumericStringIffPattern` proves the two agree.
 */
module Utils {
  import opened Js

  predicate IsExponentMarker(c: char) {
    c == 'e' || c == 'E'
  }

  // ---- The pattern, part by part ----

  predicate AllDigits(t: string) {
    forall m :: 0 <= m < |t| ==> IsDigit(t[m])
  }

  /** `\d+` */
  predicate DigitsPart(t: string) {
    |t| > 0 && AllDigits(t)
  }

  /** `-?` */
  predicate SignPart(t: string) {
    t == "" || t == "-"
  }

  /** `(\.\d+)?` */
  predicate FractionPart(t: string) {
    t == "" || (|t| >= 2 && t[0] == '.' && DigitsPart(t[1..]))
  }

  /** `(e[-+]?\d+)?` under the `i` flag. */
  predicate ExponentPart(t: string) {
    t == ""
    || (|t| >= 2 && IsExponentMarker(t[0])
        && (DigitsPart(t[1..]) || (t[1] in {'-', '+'} && DigitsPart(t[2..]))))
  }

  /** `s` splits at `i <= j <= k` into sign, integer digits, fraction and exponent. */
  predicate Decomposes(s: string, i: nat, j: nat, k: nat) {
    i <= j <= k <= |s|
    && SignPart(s[..i]) && DigitsPart(s[i..j]) && FractionPart(s[j..k]) && ExponentPart(s[k..])
  }

  ghost predicate MatchesNumberPattern(s: string) {
    exists i: nat, j: nat, k: nat :: Decomposes(s, i, j, k)
  }

  // ---- The recogniser ----

  /** The end of the run of digits starting at `i`. */
  function DigitRunEnd(s: string, i: nat): (j: nat)
    requires i <= |s|
    ensures i <= j <= |s|
    ensures forall m :: i <= m < j ==> IsDigit(s[m])
    ensures j < |s| ==> !IsDigit(s[j])
    decreases |s| - i
  {
    if i < |s| && IsDigit(s[i]) then DigitRunEnd(s, i + 1) else i
  }

  function SignEnd(s: string): nat {
    if |s| > 0 && s[0] == '-' then 1 else 0
  }

  /** End of the mandatory integer digits, if there is at least one. */
  function IntegerEnd(s: string, i: nat): Option<nat>
    requires i <= |s|
  {
    var j := DigitRunEnd(s, i);
    if j == i then None else Some(j)
  }

  /** End of the optional fraction: none when a '.' is not followed by a digit. */
  function FractionEnd(s: string, j: nat): Option<nat>
    requires j <= |s|
  {
    if j < |s| && s[j] == '.' then
      var k := DigitRunEnd(s, j + 1);
      if k == j + 1 then None else Some(k)
    else Some(j)
  }

  /** End of the optional exponent: none when a marker is not followed by digits. */
  function ExponentEnd(s: string, k: nat): Option<nat>
    requires k <= |s|
  {
    if k < |s| && IsExponentMarker(s[k]) then
      var m := if k + 1 < |s| && s[k + 1] in {'-', '+'} then k + 2 else k + 1;
      var n := DigitRunEnd(s, m);
      if n == m then None else Some(n)
    else Some(k)
  }

  /** `isNumericString(str)`. */
  predicate IsNumericString(s: string) {
    var i := SignEnd(s);
    i <= |s| &&
    match IntegerEnd(s, i)
    case None => false
    case Some(j) =>
      match FractionEnd(s, j)
      case None => false
      case Some(k) =>
        match ExponentEnd(s, k)
        case None => false
        case Some(n) => n == |s|
  }

  /** Any end position satisfying the stopping rule of a digit run is the one the
      scan finds. */
  lemma DigitRunEndUnique(s: string, i: nat, j: nat)
    requires i <= j <= |s|
    requires forall m :: i <= m < j ==> IsDigit(s[m])
    requires j < |s| ==> !IsDigit(s[j])
    ensures DigitRunEnd(s, i) == j
  {
    var r := DigitRunEnd(s, i);
    assert r < |s| ==> !IsDigit(s[r]);
  }

  lemma DigitsSlice(s: string, a: nat, b: nat)
    requires a <= b <= |s|
    ensures DigitsPart(s[a..b]) <==> a < b && forall m :: a <= m < b ==> IsDigit(s[m])
  {
    if a < b && forall m :: a <= m < b ==> IsDigit(s[m]) {
      forall m | 0 <= m < b - a ensures IsDigit(s[a..b][m]) {
        assert s[a..b][m] == s[a + m];
      }
    }
    if DigitsPart(s[a..b]) {
      forall m | a <= m < b ensures IsDigit(s[m]) {
        assert s[a..b][m - a] == s[m];
      }
    }
  }

  /** Soundness: a string the scan accepts decomposes into the pattern's parts. */
  lemma NumericStringIsPattern(s: string)
    requires IsNumericString(s)
    ensures Decomposes(s, SignEnd(s), IntegerEnd(s, SignEnd(s)).value,
                       FractionEnd(s, IntegerEnd(s, SignEnd(s)).value).value)
  {
    var i := SignEnd(s);
    var j := IntegerEnd(s, i).value;
    var k := FractionEnd(s, j).value;
    var n := ExponentEnd(s, k).value;
    assert SignPart(s[..i]) by {
      if i == 1 {
        assert s[..1] == [s[0]];
      }
    }
    DigitsSlice(s, i, j);
    if k > j {
      DigitsSlice(s, j + 1, k);
      assert s[j..k][1..] == s[j + 1..k];
    } else {
      assert s[j..k] == "";
    }
    if n > k {
      var t := s[k..];
      if k + 1 < |s| && s[k + 1] in {'-', '+'} {
        DigitsSlice(s, k + 2, n);
        assert t[2..] == s[k + 2..n];
      } else {
        DigitsSlice(s, k + 1, n);
        assert t[1..] == s[k + 1..n];
      }
    } else {
      assert s[k..] == "";
    }
  }

  /** The sign is '-' exactly when the sign part is present, since the integer part
      starts with a digit. */
  lemma SignEndOfDecomposition(s: string, i: nat, j: nat, k: nat)
    requires Decomposes(s, i, j, k)
    ensures SignEnd(s) == i
  {
    DigitsSlice(s, i, j);
    if i == 1 {
      assert s[..1][0] == s[0];
    } else {
      assert s[i..j][0] == s[0];
    }
  }

  /** The integer digits stop where the fraction or exponent begins, or at the end. */
  lemma IntegerEndOfDecomposition(s: string, i: nat, j: nat, k: nat)
    requires Decomposes(s, i, j, k)
    ensures IntegerEnd(s, i) == Some(j)
  {
    DigitsSlice(s, i, j);
    if j < |s| {
      if k > j {
        assert s[j..k][0] == s[j];
      } else {
        assert s[k..][0] == s[j];
      }
    }
    DigitRunEndUnique(s, i, j);
  }

  lemma FractionEndOfDecomposition(s: string, i: nat, j: nat, k: nat)
    requires Decomposes(s, i, j, k)
    ensures FractionEnd(s, j) == Some(k)
  {
    if k > j {
      assert s[j..k][1..] == s[j + 1..k];
      DigitsSlice(s, j + 1, k);
      if k < |s| {
        assert s[k..][0] == s[k];
      }
      DigitRunEndUnique(s, j + 1, k);
    } else if j < |s| {
      assert s[k..][0] == s[j];
    }
  }

  lemma ExponentEndOfDecomposition(s: string, i: nat, j: nat, k: nat)
    requires Decomposes(s, i, j, k)
    ensures ExponentEnd(s, k) == Some(|s|)
  {
    if k < |s| {
      var t := s[k..];
      assert t[0] == s[k];
      if t[1] in {'-', '+'} {
        assert t[2..] == s[k + 2..];
        DigitsSlice(s, k + 2, |s|);
        DigitRunEndUnique(s, k + 2, |s|);
      } else {
        assert t[1..] == s[k + 1..];
        DigitsSlice(s, k + 1, |s|);
        DigitRunEndUnique(s, k + 1, |s|);
      }
    }
  }

  /** Completeness: a string that decomposes into the pattern's parts is accepted,
      and the scan finds the same split points. */
  lemma PatternIsNumericString(s: string, i: nat, j: nat, k: nat)
    requires Decomposes(s, i, j, k)
    ensures IsNumericString(s)
  {
    SignEndOfDecomposition(s, i, j, k);
    IntegerEndOfDecomposition(s, i, j, k);
    FractionEndOfDecomposition(s, i, j, k);
    ExponentEndOfDecomposition(s, i, j, k);
  }

  /** The scan accepts exactly the strings of the pattern. */
  lemma NumericStringIffPattern(s: string)
    ensures IsNumericString(s) <==> MatchesNumberPattern(s)
  {
    if IsNumericString(s) {
      NumericStringIsPattern(s);
    }
    if MatchesNumberPattern(s) {
      var i: nat, j: nat, k: nat :| Decomposes(s, i, j, k);
      PatternIsNumericString(s, i, j, k);
    }
  }

  /** Strings the pattern accepts: an exponent with either letter case and a sign. */
  lemma NumericStringAccepts()
    ensures IsNumericString("1E5") && IsNumericString("-2.5e-3")
  {
    assert Decomposes("1E5", 0, 1, 1) by {
      assert "1E5"[1..][1..] == "5";
    }
    PatternIsNumericString("1E5", 0, 1, 1);
    NegativeExponentExample();
  }

  lemma NegativeExponentExample()
    ensures IsNumericString("-2.5e-3")
  {
    assert Decomposes("-2.5e-3", 1, 2, 4) by {
      assert "-2.5e-3"[..1] == "-";
      assert "-2.5e-3"[1..2] == "2";
      assert "-2.5e-3"[2..4] == ".5";
      assert "-2.5e-3"[2..4][1..] == "5";
      assert "-2.5e-3"[4..] == "e-3";
      assert "e-3"[2..] == "3";
    }
    PatternIsNumericString("-2.5e-3", 1, 2, 4);
  }

  /** Strings the pattern rejects: no leading digit, a bare point, a plus sign, nothing. */
  lemma NumericStringRejects()
    ensures !IsNumericString(".5") && !IsNumericString("1.")
    ensures !IsNumericString("+1") && !IsNumericString("")
  {
    assert DigitRunEnd("1.", 2) == 2;
    assert DigitRunEnd("1.", 1) == 1;
  }

  // ---- JSON.stringify of a string ----

  function HexDigit(d: nat): char
    requires d < 16
  {
    if d < 10 then ('0' as int + d) as char else ('a' as int + d - 10) as char
  }

  /** The escape `JSON.stringify` writes for one character of a string (section 7 of
      RFC 8259, with the short forms ECMAScript prefers). */
  function EscapeChar(c: char): string {
    if c == '"' then "\\\""
    else if c == '\\' then "\\\\"
    else if c as int == 0x08 then "\\b"
    else if c as int == 0x0C then "\\f"
    else if c == '\n' then "\\n"
    else if c == '\r' then "\\r"
    else if c == '\t' then "\\t"
    else if (c as int) < 0x20 then "\\u00" + [HexDigit((c as int) / 16), HexDigit((c as int) % 16)]
    else [c]
  }

  function EscapeString(s: string): string {
    if |s| == 0 then "" else EscapeChar(s[0]) + EscapeString(s[1..])
  }

  /** `JSON.stringify(s)` for a string `s`. */
  function QuoteJson(s: string): string {
    "\"" + EscapeString(s) + "\""
  }

  predicate NeedsNoEscape(c: char) {
    c != '"' && c != '\\' && (c as int) >= 0x20
  }

  lemma {:induction false} EscapeStringIdentity(s: string)
    requires forall m :: 0 <= m < |s| ==> NeedsNoEscape(s[m])
    ensures EscapeString(s) == s
    decreases |s|
  {
    if |s| > 0 {
      EscapeStringIdentity(s[1..]);
      assert s == [s[0]] + s[1..];
    }
  }

  /** A numeric string contains only digits, '-', '+', '.', 'e' and 'E'. */
  lemma NumericCharacters(s: string)
    requires IsNumericString(s)
    ensures forall m :: 0 <= m < |s| ==> IsDigit(s[m]) || s[m] in {'-', '+', '.', 'e', 'E'}
  {
    NumericStringIsPattern(s);
    var i := SignEnd(s);
    var j := IntegerEnd(s, i).value;
    var k := FractionEnd(s, j).value;
    forall m | 0 <= m < |s| ensures IsDigit(s[m]) || s[m] in {'-', '+', '.', 'e', 'E'} {
      if m < i {
        assert s[..i][m] == s[m];
      } else if m < j {
        assert s[i..j][m - i] == s[m];
      } else if m < k {
        assert s[j..k][m - j] == s[m];
        if m > j {
          assert s[j..k][1..][m - j - 1] == s[m];
        }
      } else {
        var t := s[k..];
        assert t[m - k] == s[m];
        if m - k >= 2 {
          assert t[1..][m - k - 1] == s[m];
          assert t[2..][m - k - 2] == s[m];
        }
      }
    }
  }

  // ---- newJSONBlob ----

  /** What `newJSONBlob` is given: a string, or any other value together with the
      text `JSON.stringify` produces for it. */
  datatype BlobData = Text(s: string) | NonString(json: string)

  datatype Blob = Blob(contentType: string, content: string)

  /** `Utils.newJSONBlob(data)`. */
  function NewJsonBlob(data: BlobData): Blob {
    if data.Text? && !IsNumericString(data.s) then Blob("text/plain", data.s)
    else Blob("application/json", match data case Text(s) => QuoteJson(s) case NonString(j) => j)
  }

  /** Non-numeric strings are sent as they are in a `text/plain` blob; numeric strings
      become the JSON string literal, which for them is the string between double
      quotes; every other value is sent as its JSON text. */
  lemma NewJsonBlobContents(data: BlobData)
    ensures data.Text? && !IsNumericString(data.s) ==> NewJsonBlob(data) == Blob("text/plain", data.s)
    ensures data.Text? && IsNumericString(data.s) ==>
      NewJsonBlob(data) == Blob("application/json", "\"" + data.s + "\"")
    ensures data.NonString? ==> NewJsonBlob(data) == Blob("application/json", data.json)
  {
    if data.Text? && IsNumericString(data.s) {
      NumericCharacters(data.s);
      EscapeStringIdentity(data.s);
    }
  }
}
