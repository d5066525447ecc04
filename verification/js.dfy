/**
 * The few JavaScript value and string semantics the media library's logic
 * depends on: optional (`undefined` / `null`) values and the `??` operator,
 * truthiness of optional strings, `String.prototype.trim`, `startsWith`,
 * `endsWith`, `includes`, and the first two parts of `split`.
 */
module Js {

  datatype Option<+T> = None | Some(value: T)

  /** A value of an optional property: absent (`undefined`), `null`, or present. */
  datatype Nullable<+T> = Undefined | Null | Present(value: T) {

    /** True for `undefined` and `null`: the values `??` and `?.` react to. */
    predicate IsNullish() {
      !Present?
    }

    /** The `this ?? fallback` operator. */
    function OrElse(fallback: T): T {
      if Present? then value else fallback
    }
  }

  /** A `Date` object, as far as `getTime()` sees it: an instant in milliseconds,
      or none for an Invalid Date (whose `getTime()` is NaN). */
  datatype Date = Date(time: Option<int>) {
    predicate IsValid() {
      time.Some?
    }
  }

  /** The runtime values a media item's properties can hold. */
  datatype JsValue =
    | UndefinedValue
    | NullValue
    | StringValue(s: string)
    | NumberValue(n: int)
    | DateObject(d: Date)

  function StringProperty(v: Nullable<string>): JsValue {
    match v
    case Undefined => UndefinedValue
    case Null => NullValue
    case Present(s) => StringValue(s)
  }

  function NumberProperty(v: Nullable<int>): JsValue {
    match v
    case Undefined => UndefinedValue
    case Null => NullValue
    case Present(n) => NumberValue(n)
  }

  function DateProperty(v: Nullable<Date>): JsValue {
    match v
    case Undefined => UndefinedValue
    case Null => NullValue
    case Present(d) => DateObject(d)
  }

  /** JavaScript truthiness of an optional string: present and not `""`. */
  predicate TruthyString(v: Nullable<string>) {
    v.Present? && v.value != ""
  }

  /** JavaScript truthiness of an optional number (0 is falsy; there is no NaN here). */
  predicate TruthyNumber(v: Nullable<int>) {
    v.Present? && v.value != 0
  }

  /** The characters `String.prototype.trim` removes: ECMAScript WhiteSpace and LineTerminator. */
  predicate IsWhitespace(c: char) {
    var n := c as int;
    n == 0x09 || n == 0x0A || n == 0x0B || n == 0x0C || n == 0x0D || n == 0x20
    || n == 0xA0 || n == 0x1680 || (0x2000 <= n <= 0x200A) || n == 0x2028 || n == 0x2029
    || n == 0x202F || n == 0x205F || n == 0x3000 || n == 0xFEFF
  }

  predicate IsDigit(c: char) {
    '0' <= c <= '9'
  }

  /** `s.trimStart()`: the suffix of `s` left after dropping leading whitespace. */
  function TrimStart(s: string): (r: string)
    ensures |r| <= |s| && r == s[|s| - |r|..]
    ensures |r| > 0 ==> !IsWhitespace(r[0])
    ensures forall i :: 0 <= i < |s| - |r| ==> IsWhitespace(s[i])
  {
    if |s| > 0 && IsWhitespace(s[0]) then TrimStart(s[1..]) else s
  }

  /** `s.trimEnd()`: the prefix of `s` left after dropping trailing whitespace. */
  function TrimEnd(s: string): (r: string)
    ensures |r| <= |s| && r == s[..|r|]
    ensures |r| > 0 ==> !IsWhitespace(r[|r| - 1])
    ensures forall i :: |r| <= i < |s| ==> IsWhitespace(s[i])
  {
    if |s| > 0 && IsWhitespace(s[|s| - 1]) then TrimEnd(s[..|s| - 1]) else s
  }

  /** `s.trim()`. */
  function Trim(s: string): string {
    TrimEnd(TrimStart(s))
  }

  /** A string trims to `""` exactly when every character of it is whitespace. */
  lemma TrimEmptyIffAllWhitespace(s: string)
    ensures Trim(s) == "" <==> forall i :: 0 <= i < |s| ==> IsWhitespace(s[i])
  {
    var t := TrimStart(s);
    if Trim(s) == "" {
      assert |t| == 0;
    } else {
      var r := Trim(s);
      assert !IsWhitespace(r[0]);
      assert r[0] == t[0];
      assert t[0] == s[|s| - |t|];
    }
  }

  /** `s.startsWith(p)`. */
  predicate StartsWith(s: string, p: string) {
    |p| <= |s| && s[..|p|] == p
  }

  /** `s.endsWith(p)`. */
  predicate EndsWith(s: string, p: string) {
    |p| <= |s| && s[|s| - |p|..] == p
  }

  /** `k` occurs in `s` starting at position `i`. */
  predicate OccursAt(s: string, k: string, i: nat) {
    i + |k| <= |s| && s[i..i + |k|] == k
  }

  /** `s.includes(k)`, computed by trying each start position in turn. */
  predicate Includes(s: string, k: string)
    decreases |s|
  {
    if StartsWith(s, k) then true
    else if |s| == 0 then false
    else Includes(s[1..], k)
  }

  /** `includes` holds exactly when the keyword occurs at some position. */
  lemma {:induction false} IncludesIffOccurs(s: string, k: string)
    ensures Includes(s, k) <==> exists i: nat :: OccursAt(s, k, i)
    decreases |s|
  {
    if StartsWith(s, k) {
      assert OccursAt(s, k, 0);
    } else if |s| == 0 {
      forall i: nat ensures !OccursAt(s, k, i) {
      }
    } else {
      IncludesIffOccurs(s[1..], k);
      if Includes(s[1..], k) {
        var i: nat :| OccursAt(s[1..], k, i);
        assert s[i + 1..i + 1 + |k|] == s[1..][i..i + |k|];
        assert OccursAt(s, k, i + 1);
      } else {
        forall i: nat | 0 < i && OccursAt(s, k, i) ensures false {
          assert s[1..][i - 1..i - 1 + |k|] == s[i..i + |k|];
          assert OccursAt(s[1..], k, i - 1);
        }
        assert !OccursAt(s, k, 0);
      }
    }
  }

  /** Every string includes the empty string. */
  lemma IncludesEmpty(s: string)
    ensures Includes(s, "")
  {
    assert StartsWith(s, "");
  }

  /** Position of the first occurrence of `c` in `s`, if any. */
  function FirstIndexOf(s: string, c: char): (r: Option<nat>)
    ensures r.Some? ==> r.value < |s| && s[r.value] == c && c !in s[..r.value]
    ensures r.None? ==> c !in s
  {
    if |s| == 0 then None
    else if s[0] == c then Some(0)
    else
      match FirstIndexOf(s[1..], c)
      case None => None
      case Some(i) => assert s[..i + 1] == [s[0]] + s[1..][..i]; Some(i + 1)
  }

  /** The first two elements of `s.split(sep)` as destructuring `[a, b] = …` binds them:
      the first is always a string, the second is absent when `sep` does not occur. */
  datatype SplitPair = SplitPair(first: string, second: Option<string>)

  function SplitFirstTwo(s: string, sep: char): (r: SplitPair)
    ensures sep !in r.first
    ensures r.second.Some? ==> sep !in r.second.value
    ensures r.second.None? <==> sep !in s
    ensures r.second.None? ==> r.first == s
    ensures r.second.Some? ==> StartsWith(s, r.first + [sep] + r.second.value)
  {
    match FirstIndexOf(s, sep)
    case None => SplitPair(s, None)
    case Some(i) =>
      var rest := s[i + 1..];
      var second := match FirstIndexOf(rest, sep)
        case None => rest
        case Some(j) => rest[..j];
      assert s[..i + 1 + |second|] == s[..i] + [sep] + second;
      SplitPair(s[..i], Some(second))
  }

  /** Splitting `a + [sep] + b` where `a` has no separator yields `a` and the first
      segment of `b`. */
  lemma SplitOfJoined(a: string, sep: char, b: string)
    requires sep !in a
    ensures SplitFirstTwo(a + [sep] + b, sep).first == a
    ensures SplitFirstTwo(a + [sep] + b, sep).second.Some?
    ensures SplitFirstTwo(a + [sep] + b, sep).second.value == SplitFirstTwo(b, sep).first
  {
    var s := a + [sep] + b;
    FirstIndexAfterPrefix(a, sep, b);
    assert s[|a| + 1..] == b;
    assert s[..|a|] == a;
  }

  /** The first separator of `a + [sep] + b`, when `a` has none, sits right after `a`. */
  lemma FirstIndexAfterPrefix(a: string, sep: char, b: string)
    requires sep !in a
    ensures FirstIndexOf(a + [sep] + b, sep) == Some(|a|)
  {
    var s := a + [sep] + b;
    var r := FirstIndexOf(s, sep);
    assert s[|a|] == sep;
    assert forall i :: 0 <= i < |a| ==> s[i] == a[i];
    assert r.Some?;
    assert r.value <= |a|;
  }
}
