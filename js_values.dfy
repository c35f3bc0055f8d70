/** Values of the JavaScript runtime that the app's logic depends on:
    optional values, JSON records read back from storage, integer numbers
    that may be NaN, and the truncating remainder operator. */
module JsValues {

  datatype Option<+T> = None | Some(value: T)

  /** A JSON record read back from localStorage: the key is absent (or holds
      the empty string), the text does not parse, or it parses to a value. */
  datatype Stored<+T> = Missing | Corrupt | Parsed(value: T)

  /** `try { JSON.parse(getItem(k) || fallback) } catch { fallback }`: both an
      absent and an unparsable record give the fallback value. */
  function LoadOr<T>(s: Stored<T>, fallback: T): (r: T)
    ensures s.Parsed? ==> r == s.value
    ensures !s.Parsed? ==> r == fallback
  {
    match s
    case Parsed(v) => v
    case _ => fallback
  }

  /** A JavaScript number that holds an integer, or NaN (the result of
      `parseInt` on text without digits). Counts never hold fractions here. */
  datatype Num = Int(n: int) | NaN

  /** `a + b` for a number `a` and an integer `b`: NaN absorbs. */
  function Plus(a: Num, b: int): (r: Num)
    ensures r.Int? <==> a.Int?
    ensures a.Int? ==> r.n - a.n == b
  {
    match a
    case Int(n) => Int(n + b)
    case NaN => NaN
  }

  /** `a + b` for two numbers: NaN on either side gives NaN. */
  function Add(a: Num, b: Num): (r: Num)
    ensures r.Int? <==> a.Int? && b.Int?
    ensures r.Int? ==> r.n == a.n + b.n
  {
    if a.Int? && b.Int? then Int(a.n + b.n) else NaN
  }

  /** JavaScript truthiness of a number: 0 and NaN are falsy. */
  predicate Truthy(a: Num) {
    a.Int? && a.n != 0
  }

  /** `a >= b`; every comparison with NaN is false. */
  predicate AtLeast(a: Num, b: int) {
    a.Int? && a.n >= b
  }

  /** JavaScript's `%` on integers: the remainder takes the sign of the
      dividend (truncating division), unlike Dafny's Euclidean `%`. */
  function JsRem(a: int, b: int): (r: int)
    requires b > 0
    ensures a >= 0 ==> r == a % b
    ensures -b < r < b
    ensures a < 0 ==> r <= 0
  {
    if a >= 0 then a % b else -((-a) % b)
  }

  /** JavaScript's truncating integer quotient `Math.trunc(a / b)`. */
  function TruncDiv(a: int, b: int): (r: int)
    requires b > 0
    ensures a >= 0 ==> r == a / b
    ensures a < 0 ==> r <= 0
  {
    if a >= 0 then a / b else -((-a) / b)
  }

  lemma MulAtLeast(n: int, d: int)
    requires n > 0 && d >= 1
    ensures n * d >= n
  {
    assert n * d == n * (d - 1) + n;
    assert n * (d - 1) >= 0;
  }

  /** Euclidean division is determined by any decomposition: the quotient
      and remainder of `a` by `n` are those of `a == n * q + r`. */
  lemma DivMod(a: int, n: int, q: int, r: int)
    requires n > 0 && 0 <= r < n && a == n * q + r
    ensures a / n == q && a % n == r
  {
    var q0, r0 := a / n, a % n;
    assert a == n * q0 + r0;
    if q > q0 {
      MulAtLeast(n, q - q0);
    } else if q < q0 {
      MulAtLeast(n, q0 - q);
    } else {
      assert n * q == n * q0;
    }
  }
}
