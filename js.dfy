// The slice of JavaScript value semantics that the request handlers and the
// authorization middleware depend on: truthiness, `typeof`, `String(v)`,
// `Number(v)`, `parseInt(v, 10)`, loose (`==`) and strict (`===`) equality,
// and the two string replacements the code uses.

module Wrappers {
  datatype Option<+T> = None | Some(value: T)
}

module Js {
  import opened Wrappers

  /** A JavaScript number. Only integral values and NaN are modelled. */
  datatype Num = Int(i: int) | NaN

  /** A JavaScript value as it arrives in a parsed body, query, token claim or row. */
  datatype Value =
    | Undefined
    | Null
    | Bool(b: bool)
    | Number(n: Num)
    | Str(s: string)
    | Arr(elems: seq<Value>)
    | Obj(fields: map<string, Value>)

  /** Property access `m[k]` on a plain object: `undefined` when the key is absent. */
  function Get(m: map<string, Value>, k: string): Value {
    if k in m then m[k] else Undefined
  }

  /** `!!v` */
  predicate Truthy(v: Value) {
    match v
    case Undefined => false
    case Null => false
    case Bool(b) => b
    case Number(n) => n.Int? && n.i != 0
    case Str(s) => s != ""
    case Arr(_) => true
    case Obj(_) => true
  }

  /** `typeof v` */
  function TypeOf(v: Value): string {
    match v
    case Undefined => "undefined"
    case Bool(_) => "boolean"
    case Number(_) => "number"
    case Str(_) => "string"
    case _ => "object"
  }

  // ---------------------------------------------------------------------
  // Decimal digits

  predicate IsDigit(c: char) { '0' <= c <= '9' }

  predicate AllDigits(s: string) {
    forall i :: 0 <= i < |s| ==> IsDigit(s[i])
  }

  function DigitChar(d: nat): (c: char)
    requires d < 10
    ensures IsDigit(c) && (c as int) - ('0' as int) == d
  {
    (('0' as int) + d) as char
  }

  /** The value of a string of decimal digits (leading zeros allowed). */
  function DigitsValue(s: string): nat
    requires AllDigits(s)
  {
    if s == [] then 0
    else 10 * DigitsValue(s[..|s| - 1]) + ((s[|s| - 1] as int) - ('0' as int))
  }

  /** The canonical decimal numeral of n: no leading zero, and it reads back as n. */
  function NatToDigits(n: nat): (s: string)
    ensures |s| > 0 && AllDigits(s)
    ensures s[0] == '0' ==> n == 0 && |s| == 1
    ensures DigitsValue(s) == n
  {
    if n < 10 then [DigitChar(n)]
    else
      var prefix := NatToDigits(n / 10);
      var s := prefix + [DigitChar(n % 10)];
      assert s[..|s| - 1] == prefix;
      s
  }

  /** `String(i)` for an integral number. */
  function IntToString(i: int): (s: string)
    ensures |s| > 0
    ensures i >= 0 ==> AllDigits(s) && DigitsValue(s) == i
    ensures i < 0 ==> s[0] == '-' && AllDigits(s[1..]) && |s| > 1 && DigitsValue(s[1..]) == -i
  {
    if i < 0 then "-" + NatToDigits(-i) else NatToDigits(i)
  }

  /** The value of c as a digit in base 2, 8 or 16 (either case for a letter), if it is one. */
  function RadixDigit(c: char, base: nat): (d: Option<nat>)
    ensures d.Some? ==> d.value < base
  {
    var v := if '0' <= c <= '9' then (c as int) - ('0' as int)
             else if 'a' <= c <= 'f' then (c as int) - ('a' as int) + 10
             else if 'A' <= c <= 'F' then (c as int) - ('A' as int) + 10
             else 16;
    if 0 <= v < base then Some(v) else None
  }

  predicate AllRadixDigits(s: string, base: nat) {
    forall i :: 0 <= i < |s| ==> RadixDigit(s[i], base).Some?
  }

  /** The value of a non-empty run of base-`base` digits. */
  function RadixValue(s: string, base: nat): nat
    requires AllRadixDigits(s, base)
  {
    if s == [] then 0
    else base * RadixValue(s[..|s| - 1], base) + RadixDigit(s[|s| - 1], base).value
  }

  /** The base named by the letter after a leading `0`: `0b`, `0o`, `0x` in either case. */
  function RadixOf(c: char): Option<nat> {
    if c == 'b' || c == 'B' then Some(2)
    else if c == 'o' || c == 'O' then Some(8)
    else if c == 'x' || c == 'X' then Some(16)
    else None
  }

  // ---------------------------------------------------------------------
  // Whitespace, as ECMAScript's WhiteSpace and LineTerminator productions

  predicate IsJsSpace(c: char) {
    var k := c as int;
    k == 0x09 || k == 0x0A || k == 0x0B || k == 0x0C || k == 0x0D || k == 0x20
    || k == 0xA0 || k == 0x1680 || (0x2000 <= k <= 0x200A) || k == 0x2028 || k == 0x2029
    || k == 0x202F || k == 0x205F || k == 0x3000 || k == 0xFEFF
  }

  function TrimStart(s: string): (r: string)
    ensures |r| <= |s| && r == s[|s| - |r|..]
    ensures r == [] || !IsJsSpace(r[0])
    ensures forall i :: 0 <= i < |s| - |r| ==> IsJsSpace(s[i])
  {
    if s != [] && IsJsSpace(s[0]) then TrimStart(s[1..]) else s
  }

  function TrimEnd(s: string): (r: string)
    ensures |r| <= |s| && r == s[..|r|]
    ensures r == [] || !IsJsSpace(r[|r| - 1])
  {
    if s != [] && IsJsSpace(s[|s| - 1]) then TrimEnd(s[..|s| - 1]) else s
  }

  // ---------------------------------------------------------------------
  // Conversions

  /**
   * `Number(s)` for a string: trimmed, empty gives 0, a signed decimal integer
   * gives its value, and so does an unsigned `0b`, `0o` or `0x` literal.
   */
  function StringToNumber(s: string): Num {
    var t := TrimEnd(TrimStart(s));
    if t == [] then Int(0)
    else if (t[0] == '-' || t[0] == '+') && |t| > 1 && AllDigits(t[1..]) then
      Int(if t[0] == '-' then -(DigitsValue(t[1..]) as int) else DigitsValue(t[1..]))
    else if AllDigits(t) then Int(DigitsValue(t))
    else if |t| > 2 && t[0] == '0' && RadixOf(t[1]).Some? && AllRadixDigits(t[2..], RadixOf(t[1]).value) then
      Int(RadixValue(t[2..], RadixOf(t[1]).value))
    else NaN
  }

  function BoolToNum(b: bool): Num { if b then Int(1) else Int(0) }

  /** `Number(v)` */
  function ToNumber(v: Value): Num {
    match v
    case Undefined => NaN
    case Null => Int(0)
    case Bool(b) => BoolToNum(b)
    case Number(n) => n
    case Str(s) => StringToNumber(s)
    case Arr(_) => StringToNumber(ToStr(v))
    case Obj(_) => NaN
  }

  /** `String(v)`; an array is joined with "," and a plain object is "[object Object]". */
  function ToStr(v: Value): string
    decreases v, 1
  {
    match v
    case Undefined => "undefined"
    case Null => "null"
    case Bool(b) => if b then "true" else "false"
    case Number(n) => if n.NaN? then "NaN" else IntToString(n.i)
    case Str(s) => s
    case Arr(xs) => JoinFrom(v, 0)
    case Obj(_) => "[object Object]"
  }

  /** `Array.prototype.join(",")` from index i on: null and undefined elements print as "". */
  function JoinFrom(a: Value, i: nat): string
    requires a.Arr? && i <= |a.elems|
    decreases a, 0, |a.elems| - i
  {
    if i == |a.elems| then ""
    else
      var e := a.elems[i];
      assert e < a;
      var piece := if e.Undefined? || e.Null? then "" else ToStr(e);
      if i + 1 == |a.elems| then piece else piece + "," + JoinFrom(a, i + 1)
  }

  /** The longest prefix of decimal digits. */
  function LeadingDigits(s: string): (d: string)
    ensures |d| <= |s| && d == s[..|d|] && AllDigits(d)
    ensures |d| < |s| ==> !IsDigit(s[|d|])
  {
    if s != [] && IsDigit(s[0]) then
      var rest := LeadingDigits(s[1..]);
      assert ([s[0]] + rest)[1..] == rest;
      [s[0]] + rest
    else []
  }

  /** `parseInt(s, 10)`: leading whitespace, an optional sign, then the longest run of digits. */
  function ParseInt(s: string): Num {
    var t := TrimStart(s);
    var negative := t != [] && t[0] == '-';
    var body := if t != [] && (t[0] == '-' || t[0] == '+') then t[1..] else t;
    var d := LeadingDigits(body);
    if d == [] then NaN
    else Int(if negative then -(DigitsValue(d) as int) else DigitsValue(d))
  }

  // ---------------------------------------------------------------------
  // Equality

  /** Numeric equality: NaN equals nothing. */
  predicate NumEquals(x: Num, y: Num) {
    x.Int? && y.Int? && x.i == y.i
  }

  /** The ECMAScript type of a value: 0 undefined, 1 null, 2 boolean, 3 number, 4 string, 5 object. */
  function JsType(v: Value): nat {
    match v
    case Undefined => 0
    case Null => 1
    case Bool(_) => 2
    case Number(_) => 3
    case Str(_) => 4
    case _ => 5
  }

  /**
   * `x === y`. Two objects are never the same reference here: every object
   * compared by the modelled code comes from a different parse.
   */
  predicate StrictEquals(x: Value, y: Value) {
    match (x, y)
    case (Undefined, Undefined) => true
    case (Null, Null) => true
    case (Bool(a), Bool(b)) => a == b
    case (Number(a), Number(b)) => NumEquals(a, b)
    case (Str(a), Str(b)) => a == b
    case _ => false
  }

  function Weight(v: Value): nat {
    match v
    case Bool(_) => 2
    case Arr(_) => 1
    case Obj(_) => 1
    case _ => 0
  }

  predicate IsNullish(v: Value) { v.Undefined? || v.Null? }

  predicate IsObject(v: Value) { v.Arr? || v.Obj? }

  /** `x == y`, the IsLooselyEqual algorithm (section 7.2.14 of ECMA-262) without BigInt. */
  predicate LooseEquals(x: Value, y: Value)
    decreases Weight(x) + Weight(y)
  {
    if JsType(x) == JsType(y) then StrictEquals(x, y)
    else if IsNullish(x) && IsNullish(y) then true
    else if x.Number? && y.Str? then NumEquals(x.n, StringToNumber(y.s))
    else if x.Str? && y.Number? then NumEquals(StringToNumber(x.s), y.n)
    else if x.Bool? then LooseEquals(Number(BoolToNum(x.b)), y)
    else if y.Bool? then LooseEquals(x, Number(BoolToNum(y.b)))
    else if (x.Str? || x.Number?) && IsObject(y) then LooseEquals(x, Str(ToStr(y)))
    else if IsObject(x) && (y.Str? || y.Number?) then LooseEquals(Str(ToStr(x)), y)
    else false
  }

  // ---------------------------------------------------------------------
  // String length

  /** `s.length`: UTF-16 code units, so a character above U+FFFF (a surrogate pair) counts twice. */
  function Utf16Length(s: string): (n: nat)
    ensures |s| <= n <= 2 * |s|
  {
    if s == [] then 0 else (if s[0] as int > 0xFFFF then 2 else 1) + Utf16Length(s[1..])
  }

  // ---------------------------------------------------------------------
  // String replacement

  predicate OccursAt(s: string, pat: string, k: int) {
    0 <= k && k + |pat| <= |s| && s[k..k + |pat|] == pat
  }

  /** `s.indexOf(pat, from)` as an option. */
  function IndexFrom(s: string, pat: string, from: nat): (r: Option<nat>)
    requires from <= |s|
    ensures r.Some? ==> from <= r.value && OccursAt(s, pat, r.value)
    ensures r.Some? ==> forall j :: from <= j < r.value ==> !OccursAt(s, pat, j)
    ensures r.None? ==> forall j :: from <= j ==> !OccursAt(s, pat, j)
    decreases |s| - from
  {
    if OccursAt(s, pat, from) then Some(from)
    else if from == |s| then None
    else IndexFrom(s, pat, from + 1)
  }

  /** `s.replace(pat, rep)` with a string pattern: only the first occurrence is replaced. */
  function ReplaceFirst(s: string, pat: string, rep: string): (r: string)
    ensures (forall j :: !OccursAt(s, pat, j)) ==> r == s
    ensures forall k {:trigger OccursAt(s, pat, k)} ::
      OccursAt(s, pat, k) && (forall j :: 0 <= j < k ==> !OccursAt(s, pat, j)) ==>
        r == s[..k] + rep + s[k + |pat|..]
  {
    match IndexFrom(s, pat, 0)
    case None => s
    case Some(k) => s[..k] + rep + s[k + |pat|..]
  }

  /** `s.replace(/x/g, y)` for a one-character pattern. */
  function ReplaceAllChar(s: string, x: char, y: char): (r: string)
    ensures |r| == |s|
    ensures forall i :: 0 <= i < |s| ==> r[i] == (if s[i] == x then y else s[i])
  {
    if s == [] then [] else [if s[0] == x then y else s[0]] + ReplaceAllChar(s[1..], x, y)
  }

  // ---------------------------------------------------------------------
  // Properties

  /** Reading back the decimal form of an integer with `Number(...)` gives the integer. */
  lemma {:induction false} StringToNumberOfIntToString(i: int)
    ensures StringToNumber(IntToString(i)) == Int(i)
  {
    var s := IntToString(i);
    assert !IsJsSpace(s[0]) && !IsJsSpace(s[|s| - 1]) by {
      if i < 0 { assert s[|s| - 1] == s[1..][|s| - 2]; }
    }
    assert TrimStart(s) == s;
    assert TrimEnd(s) == s;
  }

  /** `parseInt` reads a run of digits and stops at the first non-digit: `parseInt("7x", 10)` is 7. */
  lemma {:induction false} ParseIntDigitPrefix(d: string, rest: string)
    requires d != [] && AllDigits(d)
    requires rest == [] || !IsDigit(rest[0])
    ensures ParseInt(d + rest) == Int(DigitsValue(d))
  {
    var s := d + rest;
    assert !IsJsSpace(s[0]) by { assert s[0] == d[0]; }
    assert TrimStart(s) == s;
    var e := LeadingDigits(s);
    assert e == s[..|d|] == d;
  }

  /** A string of digits is its own longest digit prefix. */
  lemma {:induction false} LeadingDigitsOfDigits(d: string)
    requires AllDigits(d)
    ensures LeadingDigits(d) == d
  {
    var e := LeadingDigits(d);
    assert e == d[..|d|];
  }

  /** `parseInt(String(i), 10)` is i. */
  lemma {:induction false} ParseIntOfIntToString(i: int)
    ensures ParseInt(IntToString(i)) == Int(i)
  {
    var s := IntToString(i);
    assert !IsJsSpace(s[0]);
    assert TrimStart(s) == s;
    if i < 0 {
      LeadingDigitsOfDigits(s[1..]);
      assert ParseInt(s) == Int(-(DigitsValue(s[1..]) as int));
    } else {
      assert s[0] != '-' && s[0] != '+';
      LeadingDigitsOfDigits(s);
      assert ParseInt(s) == Int(DigitsValue(s));
    }
  }

  /** `==` is symmetric. */
  lemma {:induction false} LooseEqualsSymmetric(x: Value, y: Value)
    ensures LooseEquals(x, y) == LooseEquals(y, x)
    decreases Weight(x) + Weight(y)
  {
    if JsType(x) == JsType(y) {
    } else if x.Bool? {
      LooseEqualsSymmetric(Number(BoolToNum(x.b)), y);
    } else if y.Bool? {
      LooseEqualsSymmetric(x, Number(BoolToNum(y.b)));
    } else if (x.Str? || x.Number?) && IsObject(y) {
      LooseEqualsSymmetric(x, Str(ToStr(y)));
    } else if IsObject(x) && (y.Str? || y.Number?) {
      LooseEqualsSymmetric(Str(ToStr(x)), y);
    }
  }

  /** `undefined == v` holds exactly for `undefined` and `null`. */
  lemma LooseEqualsUndefined(v: Value)
    ensures LooseEquals(Undefined, v) <==> IsNullish(v)
  {
    if v.Bool? {
      assert LooseEquals(Undefined, v) == LooseEquals(Undefined, Number(BoolToNum(v.b)));
    }
  }

  /** A number loosely equals its own decimal numeral. */
  lemma {:induction false} LooseEqualsNumberNumeral(i: int)
    ensures LooseEquals(Number(Int(i)), Str(IntToString(i)))
  {
    StringToNumberOfIntToString(i);
  }

  /** Loose equality ignores leading zeros, strict equality of the strings does not: 7 == "07" but "07" !== String(7). */
  lemma LeadingZeroNumeral()
    ensures LooseEquals(Number(Int(7)), Str("07"))
    ensures !StrictEquals(Str("07"), Str(ToStr(Number(Int(7)))))
  {
    var z := "07";
    assert !IsJsSpace(z[0]) && !IsJsSpace(z[1]);
    assert TrimStart(z) == z;
    assert TrimEnd(z) == z;
    assert AllDigits(z);
    assert DigitsValue(z) == 7 by {
      assert z[..1] == "0";
      assert DigitsValue(z[..1]) == 0 by { assert z[..1][..0] == ""; }
    }
    assert StringToNumber(z) == Int(7);
    assert NatToDigits(7) == "7";
  }

  /** A prefixed literal with no surrounding space reads as the value of its digits. */
  lemma RadixLiteral(t: string, base: nat)
    requires |t| > 2 && t[0] == '0' && RadixOf(t[1]) == Some(base) && AllRadixDigits(t[2..], base)
    requires !IsJsSpace(t[0]) && !IsJsSpace(t[|t| - 1])
    ensures StringToNumber(t) == Int(RadixValue(t[2..], base))
  {
    assert TrimStart(t) == t;
    assert TrimEnd(t) == t;
    assert !IsDigit(t[1]);
  }

  /** A string with no character above U+FFFF has as many code units as characters. */
  lemma {:induction false} Utf16LengthOfBmp(s: string)
    requires forall i :: 0 <= i < |s| ==> s[i] as int <= 0xFFFF
    ensures Utf16Length(s) == |s|
  {
    if s != [] {
      assert forall i :: 0 <= i < |s[1..]| ==> s[1..][i] == s[i + 1];
      Utf16LengthOfBmp(s[1..]);
    }
  }

  /** A string of characters above U+FFFF has two code units per character. */
  lemma {:induction false} Utf16LengthOfAstral(s: string)
    requires forall i :: 0 <= i < |s| ==> s[i] as int > 0xFFFF
    ensures Utf16Length(s) == 2 * |s|
  {
    if s != [] {
      assert forall i :: 0 <= i < |s[1..]| ==> s[1..][i] == s[i + 1];
      Utf16LengthOfAstral(s[1..]);
    }
  }
}
