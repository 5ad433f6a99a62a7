/** JavaScript values as the table store handles them, and the three pieces of
    JavaScript semantics the store relies on: truthiness (`!x`, `Boolean(x)`),
    numeric conversion (`Number(x)`), `x + 1`, and the `<` comparison used when
    ordering rows.

    `M` is the type of the collection a reference value points into; the store
    instantiates it with its own `Model` class. */
module Values {

  /** A field value. `Num` is a number with an integral value; `Lookup` is the
      zero-argument function a REF field stores: it remembers the raw id and the
      target collection, and resolves the id against that collection when called. */
  datatype Value<M> =
    | Undefined
    | Null
    | Num(n: int)
    | NaN
    | Str(s: string)
    | Bool(b: bool)
    | Lookup(id: Value<M>, target: M)

  /** JavaScript truthiness: `false`, `0`, `NaN`, `""`, `null` and `undefined` are
      falsy, every other value (functions included) is truthy. */
  predicate Truthy<M>(v: Value<M>)
    ensures !Truthy(v) <==> v.Undefined? || v.Null? || v.NaN? || v == Num(0) || v == Str("") || v == Bool(false)
  {
    match v
    case Undefined => false
    case Null => false
    case Num(n) => n != 0
    case NaN => false
    case Str(s) => s != ""
    case Bool(b) => b
    case Lookup(_, _) => true
  }

  predicate IsDigit(c: char) {
    '0' <= c <= '9'
  }

  predicate IsDigits(s: string) {
    |s| > 0 && forall i :: 0 <= i < |s| ==> IsDigit(s[i])
  }

  /** Value of a string of decimal digits. */
  function DigitsValue(s: string): (r: nat)
    requires forall i :: 0 <= i < |s| ==> IsDigit(s[i])
    decreases |s|
  {
    if s == [] then 0
    else
      assert IsDigit(s[|s| - 1]);
      DigitsValue(s[..|s| - 1]) * 10 + (s[|s| - 1] as int - '0' as int)
  }

  /** An optionally signed decimal integer literal, such as `42`, `-7` or `+007`. */
  predicate IsIntegerLiteral(s: string) {
    IsDigits(s) || (|s| > 1 && (s[0] == '-' || s[0] == '+') && IsDigits(s[1..]))
  }

  function ParseInteger(s: string): int
    requires IsIntegerLiteral(s)
  {
    if IsDigits(s) then DigitsValue(s)
    else if s[0] == '-' then -(DigitsValue(s[1..]) as int)
    else DigitsValue(s[1..])
  }

  /** `Number(v)`. Strings are parsed only when they are empty (giving 0) or an
      integer literal; every other string gives NaN. */
  function ToNumber<M>(v: Value<M>): (r: Value<M>)
    ensures r.Num? || r.NaN?
    ensures v.Num? ==> r == v
    ensures v.Bool? ==> r == Num(if v.b then 1 else 0)
    ensures v.Null? ==> r == Num(0)
    ensures v.Undefined? || v.NaN? || v.Lookup? ==> r == NaN
  {
    match v
    case Undefined => NaN
    case Null => Num(0)
    case Num(_) => v
    case NaN => NaN
    case Str(s) =>
      if s == "" then Num(0)
      else if IsIntegerLiteral(s) then Num(ParseInteger(s))
      else NaN
    case Bool(b) => Num(if b then 1 else 0)
    case Lookup(_, _) => NaN
  }

  /** Converting twice is converting once, so a NUMBER field's stored value
      survives being coerced again. */
  lemma ToNumberIdempotent<M>(v: Value<M>)
    ensures ToNumber(ToNumber(v)) == ToNumber(v)
  {
  }

  /** `v + 1`: numeric addition after conversion, except that a string operand
      makes `+` concatenate. A function operand is not modelled (see README). */
  function PlusOne<M>(v: Value<M>): (r: Value<M>)
    ensures v.Str? ==> r == Str(v.s + "1")
    ensures !v.Str? && ToNumber(v).Num? && !v.Lookup? ==> r == Num(ToNumber(v).n + 1)
    ensures v.Undefined? || v.NaN? ==> r == NaN
  {
    if v.Str? then Str(v.s + "1")
    else
      var n := ToNumber(v);
      if n.Num? then Num(n.n + 1) else NaN
  }

  /** `v == v` in JavaScript: every value equals itself except NaN, so an id
      that is NaN is never found by `==`. */
  predicate SelfEqual<M>(v: Value<M>)
    ensures SelfEqual(v) <==> v.Undefined? || v.Null? || v.Num? || v.Str? || v.Bool? || v.Lookup?
  {
    !v.NaN?
  }

  /** Lexicographic order on strings, character by character. Dafny characters
      are Unicode scalar values, so this is code-point order; JavaScript's `<`
      compares UTF-16 code units, and the two disagree only between a character
      above U+FFFF and one in U+E000..U+FFFF (see README). */
  predicate StrLess(a: string, b: string)
    ensures a == b ==> !StrLess(a, b)
    ensures |a| < |b| && a == b[..|a|] ==> StrLess(a, b)
  {
    if b == [] then false
    else if a == [] then true
    else if a[0] != b[0] then a[0] < b[0]
    else
      assert |a| < |b| && a == b[..|a|] ==> a[1..] == b[1..][..|a| - 1];
      StrLess(a[1..], b[1..])
  }

  /** JavaScript `x < y`: two strings compare lexicographically, anything else
      compares as numbers, and a comparison involving NaN is false. Comparisons
      involving a lookup function are not modelled and are false. */
  predicate Less<M>(x: Value<M>, y: Value<M>)
    ensures x.Str? && y.Str? ==> (Less(x, y) <==> StrLess(x.s, y.s))
    ensures x.NaN? || y.NaN? || x.Undefined? || y.Undefined? ==> !Less(x, y)
    ensures IsNumericKey(x) && IsNumericKey(y) ==> (Less(x, y) <==> ToNumber(x).n < ToNumber(y).n)
  {
    if x.Str? && y.Str? then StrLess(x.s, y.s)
    else if x.Lookup? || y.Lookup? then false
    else
      var a, b := ToNumber(x), ToNumber(y);
      a.Num? && b.Num? && a.n < b.n
  }

  /** Values whose `<` comparison behaves like the integer order. */
  predicate IsNumericKey<M>(v: Value<M>) {
    v.Null? || v.Bool? || v.Num?
  }

  /** The class of keys within which `<` is a strict weak order: all strings, or
      all null/boolean/number values. Mixing the two is not an order ("10" < "9"
      but 9 < 10). */
  function KeyClass<M>(v: Value<M>): (c: int)
    ensures c == 0 <==> v.Str?
    ensures c == 1 <==> IsNumericKey(v)
  {
    if v.Str? then 0 else if IsNumericKey(v) then 1 else 2
  }

  lemma {:induction false} StrLessAsymmetric(a: string, b: string)
    ensures StrLess(a, b) ==> !StrLess(b, a)
    decreases |a|
  {
    if a != [] && b != [] && a[0] == b[0] {
      StrLessAsymmetric(a[1..], b[1..]);
    }
  }

  lemma {:induction false} StrLessTotal(a: string, b: string)
    ensures a == b || StrLess(a, b) || StrLess(b, a)
    decreases |a|
  {
    if a != [] && b != [] && a[0] == b[0] {
      StrLessTotal(a[1..], b[1..]);
      if a[1..] == b[1..] {
        assert a == [a[0]] + a[1..] && b == [b[0]] + b[1..];
      }
    }
  }

  lemma {:induction false} StrLessTransitive(a: string, b: string, c: string)
    ensures StrLess(a, b) && StrLess(b, c) ==> StrLess(a, c)
    decreases |a|
  {
    if a != [] && b != [] && c != [] && a[0] == b[0] && b[0] == c[0] {
      StrLessTransitive(a[1..], b[1..], c[1..]);
    }
  }

  /** `<` never holds both ways. */
  lemma LessAsymmetric<M>(x: Value<M>, y: Value<M>)
    ensures Less(x, y) ==> !Less(y, x)
  {
    if x.Str? && y.Str? {
      StrLessAsymmetric(x.s, y.s);
    }
  }

  /** Within one key class, "not less than" is transitive; together with
      asymmetry this makes `<` a strict weak order, which is what a sort needs. */
  lemma LessNegativelyTransitive<M>(x: Value<M>, y: Value<M>, z: Value<M>)
    requires KeyClass(x) == KeyClass(y) == KeyClass(z) < 2
    ensures !Less(x, y) && !Less(y, z) ==> !Less(x, z)
  {
    if x.Str? {
      StrLessTotal(x.s, y.s);
      StrLessTotal(y.s, z.s);
      StrLessTransitive(z.s, y.s, x.s);
      StrLessAsymmetric(x.s, z.s);
    }
  }
}
