/** Values as the request handler sees them after `JSON.parse`, and the few
    JavaScript coercions the handler relies on: truthiness (`!x`), strict
    equality (`===`), `String(x)` / `x.toString()`, `toLowerCase`,
    `String.prototype.includes` and `parseInt`. */
module JsValues {
  import opened Wrappers

  /** A JSON value. Numbers with an integral value are `Int`; every other
      number is `Float`, kept only as its printed form and never computed with.
      A well-formed `Float(text)` holds a number with a nonzero fractional
      part, so it is never zero (hence truthy), and `text` is JavaScript's
      shortest printed form of it, so two `Float`s are the same number exactly
      when their texts are equal. Values built from parsed JSON are well formed;
      the model relies on this and does not check it. */
  datatype Value =
    | Null
    | Bool(b: bool)
    | Int(i: int)
    | Float(text: string)
    | Str(s: string)
    | Arr(items: seq<Value>)
    | Obj(fields: map<string, Value>)

  /** A stored record, a request body or a response object: field name to value. */
  type Record = map<string, Value>

  /** `obj[key]`, where `None` stands for `undefined`. */
  function Field(r: Record, key: string): Option<Value>
  {
    if key in r then Some(r[key]) else None
  }

  /** JavaScript truthiness of a possibly-undefined value: `undefined`, `null`,
      `false`, `0` and `""` are falsy. A `Float` is never zero. */
  predicate Truthy(v: Option<Value>)
  {
    match v
    case None => false
    case Some(x) =>
      match x
      case Null => false
      case Bool(b) => b
      case Int(i) => i != 0
      case Str(s) => s != ""
      case _ => true
  }

  /** JavaScript `===`. Arrays and objects compare by identity, and two values
      that come from different places in the handler are never the same object. */
  predicate StrictEquals(a: Option<Value>, b: Option<Value>)
  {
    match (a, b)
    case (None, None) => true
    case (Some(x), Some(y)) => !x.Arr? && !x.Obj? && x == y
    case _ => false
  }

  // ---------------------------------------------------------------------
  // Decimal notation: Number.prototype.toString on integers, and parseInt.
  // ---------------------------------------------------------------------

  predicate IsDigit(c: char)
  {
    '0' <= c <= '9'
  }

  predicate AllDigits(s: string)
  {
    forall i :: 0 <= i < |s| ==> IsDigit(s[i])
  }

  function DigitChar(d: nat): (c: char)
    requires d < 10
    ensures IsDigit(c) && c as int - '0' as int == d
  {
    ('0' as int + d) as char
  }

  /** The decimal notation of a natural number, without leading zeros. */
  function NatToDecimal(n: nat): (s: string)
    ensures |s| >= 1 && AllDigits(s)
    ensures |s| > 1 ==> s[0] != '0'
    decreases n
  {
    if n < 10 then [DigitChar(n)] else NatToDecimal(n / 10) + [DigitChar(n % 10)]
  }

  /** `String(i)` for an integer (a leading minus sign for negatives). */
  function IntToDecimal(i: int): (s: string)
    ensures |s| >= 1
    ensures s[0] == '-' <==> i < 0
  {
    if i < 0 then "-" + NatToDecimal(-i) else NatToDecimal(i)
  }

  /** The value of a string of decimal digits. */
  function DigitsValue(ds: string): nat
    requires AllDigits(ds)
  {
    if ds == [] then 0
    else DigitsValue(ds[..|ds| - 1]) * 10 + (ds[|ds| - 1] as int - '0' as int)
  }

  /** The length of the longest prefix of `s` made of decimal digits. */
  function LeadingDigits(s: string): (n: nat)
    ensures n <= |s| && AllDigits(s[..n])
    ensures n < |s| ==> !IsDigit(s[n])
  {
    if s == [] || !IsDigit(s[0]) then 0
    else
      var m := LeadingDigits(s[1..]);
      assert s[..m + 1] == [s[0]] + s[1..][..m];
      m + 1
  }

  /** `parseInt(s)` with radix 10: an optional sign followed by the longest run
      of digits; `None` stands for `NaN` (no digit after the sign). */
  function ParseInt(s: string): (r: Option<int>)
    ensures r.None? <==> LeadingDigits(if s != [] && (s[0] == '-' || s[0] == '+') then s[1..] else s) == 0
  {
    var signed := s != [] && (s[0] == '-' || s[0] == '+');
    var rest := if signed then s[1..] else s;
    var n := LeadingDigits(rest);
    if n == 0 then None
    else
      var magnitude: int := DigitsValue(rest[..n]);
      Some(if signed && s[0] == '-' then -magnitude else magnitude)
  }

  lemma {:induction false} AllDigitsLeading(s: string)
    requires AllDigits(s)
    ensures LeadingDigits(s) == |s|
  {
    if s != [] {
      AllDigitsLeading(s[1..]);
    }
  }

  lemma {:induction false} DigitsValueOfDecimal(n: nat)
    ensures DigitsValue(NatToDecimal(n)) == n
    decreases n
  {
    var s := NatToDecimal(n);
    if n >= 10 {
      DigitsValueOfDecimal(n / 10);
      assert s[..|s| - 1] == NatToDecimal(n / 10);
    }
  }

  /** Reading back what `String(i)` printed gives `i` again: an id rendered in
      a URL path is the id that `parseInt` recovers from it. */
  lemma ParseIntOfDecimal(i: int)
    ensures ParseInt(IntToDecimal(i)) == Some(i)
  {
    var s := IntToDecimal(i);
    var m: nat := if i < 0 then -i else i;
    var digits := NatToDecimal(m);
    AllDigitsLeading(digits);
    DigitsValueOfDecimal(m);
    if i < 0 {
      assert s[0] == '-' && s[1..] == digits;
      assert digits[..|digits|] == digits;
    } else {
      assert IsDigit(s[0]);
      assert digits[..|digits|] == digits;
    }
  }

  // ---------------------------------------------------------------------
  // String(value), as used by `item[key].toString()`.
  // ---------------------------------------------------------------------

  /** `String(v)`. An array prints its elements joined by commas, with `null`
      elements printed as the empty string; a plain object prints as
      `[object Object]`. */
  function ToJsString(v: Value): (s: string)
    decreases v, 1, 0
    ensures v.Int? ==> ParseInt(s) == Some(v.i)
    ensures v.Str? ==> s == v.s
    ensures v.Arr? && v.items == [] ==> s == ""
    ensures v.Arr? && |v.items| == 1 && !v.items[0].Null? ==> s == ToJsString(v.items[0])
  {
    match v
    case Null => "null"
    case Bool(b) => if b then "true" else "false"
    case Int(i) => ParseIntOfDecimal(i); IntToDecimal(i)
    case Float(text) => text
    case Str(s) => s
    case Arr(items) => JoinFrom(v, 0)
    case Obj(_) => "[object Object]"
  }

  /** `items.slice(k).join(",")` for the array `v`. */
  function JoinFrom(v: Value, k: nat): string
    requires v.Arr? && k <= |v.items|
    decreases v, 0, |v.items| - k
  {
    if k == |v.items| then ""
    else
      var item := v.items[k];
      var text := if item.Null? then "" else ToJsString(item);
      if k + 1 == |v.items| then text else text + "," + JoinFrom(v, k + 1)
  }

  // ---------------------------------------------------------------------
  // toLowerCase and includes.
  // ---------------------------------------------------------------------

  function LowerChar(c: char): char
  {
    if 'A' <= c <= 'Z' then (c as int + 32) as char else c
  }

  /** `s.toLowerCase()` on the ASCII letters. */
  function Lower(s: string): (r: string)
    ensures |r| == |s|
    ensures forall i :: 0 <= i < |s| ==> r[i] == LowerChar(s[i])
  {
    if s == [] then [] else [LowerChar(s[0])] + Lower(s[1..])
  }

  /** `needle` occurs in `hay` starting at index `i`. */
  predicate OccursAt(hay: string, needle: string, i: nat)
  {
    i + |needle| <= |hay| && hay[i..i + |needle|] == needle
  }

  /** `hay.includes(needle)`. */
  function Includes(hay: string, needle: string): (b: bool)
    ensures b <==> exists i: nat :: OccursAt(hay, needle, i)
    decreases |hay|
  {
    if |needle| > |hay| then
      assert forall i: nat :: !OccursAt(hay, needle, i);
      false
    else if hay[..|needle|] == needle then
      assert OccursAt(hay, needle, 0);
      true
    else
      var rest := Includes(hay[1..], needle);
      assert forall i: nat :: OccursAt(hay[1..], needle, i) <==> OccursAt(hay, needle, i + 1) by {
        forall i: nat ensures OccursAt(hay[1..], needle, i) <==> OccursAt(hay, needle, i + 1) {
          if i + |needle| <= |hay[1..]| {
            assert hay[1..][i..i + |needle|] == hay[i + 1..i + 1 + |needle|];
          }
        }
      }
      assert !OccursAt(hay, needle, 0);
      assert (exists i: nat :: OccursAt(hay, needle, i)) ==> exists i: nat :: OccursAt(hay[1..], needle, i) by {
        if exists i: nat :: OccursAt(hay, needle, i) {
          var i: nat :| OccursAt(hay, needle, i);
          assert i > 0;
          assert OccursAt(hay[1..], needle, i - 1);
        }
      }
      rest
  }

  /** Every string contains itself, so a field always matches a filter on its
      own printed value. */
  lemma {:induction false} IncludesItself(s: string)
    ensures Includes(s, s)
  {
    assert OccursAt(s, s, 0);
  }

}
