/** JavaScript strings as UTF-16 code units, the JavaScript values the content
    script reads from storage, and the handful of built-in string operations
    (trim, lower-casing, substring search, suffix test, number formatting) the
    rest of the model relies on. */
module Js {

  /** Absent-or-present, used for `getAttribute` results and "node untouched" outcomes. */
  datatype Option<+T> = None | Some(value: T)

  /** One UTF-16 code unit: the element type of a JavaScript string. A regular
      expression without the `u` flag matches code units, not code points. */
  newtype Unit = x: int | 0 <= x < 0x1_0000

  type JsString = seq<Unit>

  /** A character of a Dafny literal as a code unit (every literal in this model is ASCII). */
  function LitUnit(c: char): Unit
  {
    if (c as int) < 0x1_0000 then (c as int) as Unit else 0xFFFD
  }

  /** A Dafny string literal as a JavaScript string. */
  function Lit(s: string): (r: JsString)
    ensures |r| == |s|
    ensures forall i :: 0 <= i < |s| ==> r[i] == LitUnit(s[i])
  {
    seq(|s|, i requires 0 <= i < |s| => LitUnit(s[i]))
  }

  /** The Arabic block U+0600..U+06FF, the test `/[؀-ۿ]/` */
  predicate IsArabicUnit(u: Unit)
  {
    0x0600 <= u <= 0x06FF
  }

  predicate HasArabic(s: JsString)
  {
    exists i :: 0 <= i < |s| && IsArabicUnit(s[i])
  }

  lemma HasArabicAppend(a: JsString, b: JsString)
    ensures HasArabic(a + b) <==> HasArabic(a) || HasArabic(b)
  {
    if HasArabic(a + b) {
      var i :| 0 <= i < |a + b| && IsArabicUnit((a + b)[i]);
      if i >= |a| {
        assert b[i - |a|] == (a + b)[i];
      }
    }
    if HasArabic(a) {
      var i :| 0 <= i < |a| && IsArabicUnit(a[i]);
      assert (a + b)[i] == a[i];
    }
    if HasArabic(b) {
      var i :| 0 <= i < |b| && IsArabicUnit(b[i]);
      assert (a + b)[|a| + i] == b[i];
    }
  }

  /** The ECMAScript WhiteSpace and LineTerminator code units: the set `\s`
      matches and `String.prototype.trim` strips. */
  predicate IsJsSpace(u: Unit)
  {
    || u == 0x09 || u == 0x0A || u == 0x0B || u == 0x0C || u == 0x0D
    || u == 0x20 || u == 0xA0 || u == 0x1680
    || (0x2000 <= u <= 0x200A)
    || u == 0x2028 || u == 0x2029 || u == 0x202F || u == 0x205F
    || u == 0x3000 || u == 0xFEFF
  }

  /** `\d` and `[0-9]` */
  predicate IsAsciiDigit(u: Unit)
  {
    0x30 <= u <= 0x39
  }

  function TrimStart(s: JsString): JsString
  {
    if |s| > 0 && IsJsSpace(s[0]) then TrimStart(s[1..]) else s
  }

  function TrimEnd(s: JsString): JsString
  {
    if |s| > 0 && IsJsSpace(s[|s| - 1]) then TrimEnd(s[..|s| - 1]) else s
  }

  /** `String.prototype.trim` */
  function Trim(s: JsString): JsString
  {
    TrimEnd(TrimStart(s))
  }

  /** `s.replace(/[0-9\s]/g, '')` */
  function StripDigitsAndSpaces(s: JsString): JsString
  {
    if s == [] then []
    else (if IsAsciiDigit(s[0]) || IsJsSpace(s[0]) then [] else [s[0]]) + StripDigitsAndSpaces(s[1..])
  }

  /** Lower-casing restricted to ASCII letters (see README, "Left out"). */
  function LowerUnit(u: Unit): Unit
  {
    if 0x41 <= u <= 0x5A then u + 0x20 else u
  }

  function ToLower(s: JsString): (r: JsString)
    ensures |r| == |s|
  {
    if s == [] then [] else [LowerUnit(s[0])] + ToLower(s[1..])
  }

  /** `hay.includes(needle)` */
  predicate Includes(hay: JsString, needle: JsString)
  {
    exists i :: 0 <= i <= |hay| && OccursAt(hay, needle, i)
  }

  predicate OccursAt(hay: JsString, needle: JsString, i: nat)
  {
    i + |needle| <= |hay| && hay[i..i + |needle|] == needle
  }

  /** `s.endsWith(suffix)`: a case-sensitive suffix test */
  predicate EndsWith(s: JsString, suffix: JsString)
  {
    |suffix| <= |s| && s[|s| - |suffix|..] == suffix
  }

  /** Concatenation of a sequence of strings. */
  function Concat(ss: seq<JsString>): JsString
  {
    if ss == [] then [] else ss[0] + Concat(ss[1..])
  }

  lemma ConcatAppend(a: seq<JsString>, b: seq<JsString>)
    ensures Concat(a + b) == Concat(a) + Concat(b)
  {
    if a == [] {
      assert a + b == b;
    } else {
      assert (a + b)[0] == a[0];
      assert (a + b)[1..] == a[1..] + b;
      ConcatAppend(a[1..], b);
    }
  }

  /** Decimal digits of a natural number, most significant first. */
  function Digits(n: nat): (r: JsString)
    ensures |r| >= 1
    ensures forall i :: 0 <= i < |r| ==> IsAsciiDigit(r[i])
  {
    if n < 10 then [(0x30 + n) as Unit] else Digits(n / 10) + [(0x30 + n % 10) as Unit]
  }

  /** The value of a string of ASCII decimal digits. */
  function DigitsValue(s: JsString): nat
    requires forall i :: 0 <= i < |s| ==> IsAsciiDigit(s[i])
  {
    if s == [] then 0
    else
      assert IsAsciiDigit(s[|s| - 1]);
      DigitsValue(s[..|s| - 1]) * 10 + (s[|s| - 1] as int - 0x30)
  }

  lemma {:induction false} DigitsValueOfDigits(n: nat)
    ensures DigitsValue(Digits(n)) == n
  {
    if n >= 10 {
      var d := Digits(n);
      assert d[..|d| - 1] == Digits(n / 10);
      DigitsValueOfDigits(n / 10);
    }
  }

  /** `String(n)` for an integer. */
  function IntToString(n: int): JsString
  {
    if n < 0 then Lit("-") + Digits(-n) else Digits(n)
  }

  /** The JavaScript values that can sit in extension storage or a settings message.
      Numbers are restricted to integers (see README, "Left out"). */
  datatype JsValue =
    | Undefined
    | Null
    | Bool(b: bool)
    | Num(n: int)
    | Str(s: JsString)
    | Obj(props: map<JsString, JsValue>)
    | Arr(elems: seq<JsValue>)

  /** ToBoolean: the test behind `if (v)`, `!v`, `a || b` and `a && b`. */
  predicate Truthy(v: JsValue)
  {
    match v
    case Undefined => false
    case Null => false
    case Bool(b) => b
    case Num(n) => n != 0
    case Str(s) => s != []
    case Obj(_) => true
    case Arr(_) => true
  }

  /** `a || b`: one of the operands, truthy exactly when one of them is,
      and the first whenever it is truthy (the second is then never looked
      at). */
  function Or(a: JsValue, b: JsValue): (r: JsValue)
    ensures r == a || r == b
    ensures Truthy(r) <==> Truthy(a) || Truthy(b)
    ensures Truthy(a) ==> r == a
  {
    if Truthy(a) then a else b
  }

  /** ToString, as used by template-literal interpolation and `+` with a
      string. An array prints as its elements joined by commas, with
      `undefined` and `null` elements printed empty. */
  function ToJsString(v: JsValue): JsString
    decreases v, 1
  {
    match v
    case Undefined => Lit("undefined")
    case Null => Lit("null")
    case Bool(b) => if b then Lit("true") else Lit("false")
    case Num(n) => IntToString(n)
    case Str(s) => s
    case Obj(_) => Lit("[object Object]")
    case Arr(es) => JoinElems(es)
  }

  /** `Array.prototype.join(",")` over the elements. */
  function JoinElems(es: seq<JsValue>): JsString
    decreases es, 0
  {
    if es == [] then []
    else
      var first := if es[0].Undefined? || es[0].Null? then [] else ToJsString(es[0]);
      if |es| == 1 then first else first + Lit(",") + JoinElems(es[1..])
  }

  /** An array of one element prints as that element does. */
  lemma SingletonArrayString(v: JsValue)
    requires !v.Undefined? && !v.Null?
    ensures ToJsString(Arr([v])) == ToJsString(v)
  {
  }

  /** StringToNumber for the forms the model handles: optional surrounding
      white space, an optional sign and decimal digits; an empty or blank
      string is 0. Anything else is reported as not-a-number. */
  function StringToInt(s: JsString): Option<int>
  {
    var t := Trim(s);
    if t == [] then Some(0)
    else if t[0] == 0x2D && |t| > 1 && forall i :: 1 <= i < |t| ==> IsAsciiDigit(t[i]) then Some(-(DigitsValue(t[1..]) as int))
    else if t[0] == 0x2B && |t| > 1 && forall i :: 1 <= i < |t| ==> IsAsciiDigit(t[i]) then Some(DigitsValue(t[1..]))
    else if forall i :: 0 <= i < |t| ==> IsAsciiDigit(t[i]) then Some(DigitsValue(t))
    else None
  }

  /** `v == k` with JavaScript's loose equality against an integer. */
  predicate LooseEqualsInt(v: JsValue, k: int)
  {
    match v
    case Undefined => false
    case Null => false
    case Bool(b) => (if b then 1 else 0) == k
    case Num(n) => n == k
    case Str(s) => StringToInt(s) == Some(k)
    case Obj(_) => false
    case Arr(_) => StringToInt(ToJsString(v)) == Some(k)
  }

  /** The decimal text of an integer neither starts nor ends with white
      space, so trimming leaves it alone. */
  lemma IntStringTrimmed(n: int)
    ensures Trim(IntToString(n)) == IntToString(n)
    ensures !IsJsSpace(IntToString(n)[0]) && !IsJsSpace(IntToString(n)[|IntToString(n)| - 1])
  {
    var t := IntToString(n);
    assert !IsJsSpace(t[0]) && !IsJsSpace(t[|t| - 1]);
  }

  /** The decimal text of any integer reads back as that integer. */
  lemma IntStringReadsBack(n: int)
    ensures StringToInt(IntToString(n)) == Some(n)
  {
    var d := Digits(if n < 0 then -n else n);
    DigitsValueOfDigits(if n < 0 then -n else n);
    var t := IntToString(n);
    IntStringTrimmed(n);
    if n < 0 {
      assert t[1..] == d;
    } else {
      assert t == d;
      assert t[0] != 0x2D && t[0] != 0x2B;
    }
  }

  /** Spaces around the text of an integer do not change the number it reads as. */
  lemma PaddedIntStringReadsBack(n: int)
    ensures StringToInt(Lit(" ") + IntToString(n) + Lit(" ")) == Some(n)
  {
    var t := IntToString(n);
    var p := Lit(" ") + t + Lit(" ");
    IntStringTrimmed(n);
    assert p[1..] == t + Lit(" ");
    assert TrimStart(p) == TrimStart(t + Lit(" "));
    assert (t + Lit(" "))[0] == t[0];
    assert TrimStart(t + Lit(" ")) == t + Lit(" ");
    assert (t + Lit(" "))[..|t|] == t;
    assert TrimEnd(t + Lit(" ")) == TrimEnd(t);
    assert Trim(p) == t;
    IntStringReadsBack(n);
  }

  /** An array of one number or string is loosely equal to an integer
      exactly when its element is: the array converts to its element's text. */
  lemma SingletonArrayLooseEquals(v: JsValue, k: int)
    requires v.Num? || v.Str?
    ensures LooseEqualsInt(Arr([v]), k) <==> LooseEqualsInt(v, k)
  {
    SingletonArrayString(v);
    if v.Num? {
      IntStringReadsBack(v.n);
    }
  }
}
