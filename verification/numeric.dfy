/** Numbers as the tracker stores them, and its two numeric helpers: `round(n, p = 1)`
    (calorie_measure_tool_website_react_tailwind_shadcn.jsx.js:14) and `grams(val)`
    (line 15), which coerces free-form input with `parseFloat`.

    Every number the tracker writes into a log entry is a finite decimal, so stored
    numbers are modelled as `Dec(m, e)`, denoting m / 10^e, kept normalised (no trailing
    zero digit in `m` when `e > 0`) so that equal numbers are equal values. */
module Numeric {
  import opened Wrappers
  import opened Digits
  import opened Strings

  datatype Dec = Dec(m: int, e: nat) {
    function Val(): real {
      m as real / Pow10(e) as real
    }

    predicate Normal() {
      e == 0 || m % 10 != 0
    }
  }

  /** The whole number `n` as a decimal. */
  function FromInt(n: int): (d: Dec)
    ensures d.Normal() && d.Val() == n as real
  {
    Dec(n, 0)
  }

  /** Dropping a trailing zero digit keeps the value. */
  lemma DropZero(d: Dec)
    requires d.e > 0 && d.m % 10 == 0
    ensures Dec(d.m / 10, d.e - 1).Val() == d.Val()
  {
    var q := d.m / 10;
    var p := Pow10(d.e - 1) as real;
    assert d.m == 10 * q;
    assert Pow10(d.e) as real == 10.0 * p;
    calc {
      d.Val();
      (10 * q) as real / (10.0 * p);
      q as real / p;
    }
  }

  /** The normal form of `d`: same value, no trailing zero digits. */
  function Norm(d: Dec): (r: Dec)
    ensures r.Normal() && r.Val() == d.Val() && r.e <= d.e
    ensures d.Normal() ==> r == d
    decreases d.e
  {
    if d.Normal() then d
    else
      DropZero(d);
      Norm(Dec(d.m / 10, d.e - 1))
  }

  /** Half a unit of the p-th decimal place. */
  function Half(p: nat): real {
    1.0 / (2 * Pow10(p)) as real
  }

  lemma Cancel(x: real, q: real)
    requires q > 0.0
    ensures (x * q) / q == x && (x / q) * q == x
  {
  }

  lemma DivBounds(k: real, y: real, q: real)
    requires q >= 1.0
    requires y - 0.5 < k <= y + 0.5
    ensures y / q - 1.0 / (2.0 * q) < k / q <= y / q + 1.0 / (2.0 * q)
  {
    assert (y - 0.5) / q < k / q;
    assert k / q <= (y + 0.5) / q;
  }

  /** `round(n, p)`: `Math.round(n * 10^p) / 10^p` in exact arithmetic, with the
      source's default of one decimal. The result has at most `p` decimals and lies
      within half a unit of the p-th decimal of `n`, ties going up. */
  function Round(n: real, p: nat := 1): (r: Dec)
    ensures r.Normal() && r.e <= p
    ensures n - Half(p) < r.Val() <= n + Half(p)
  {
    var k := Units(n, p);
    var r := Norm(Dec(k, p));
    RoundBounds(n, p, k, r.Val());
    r
  }

  /** `Math.round(n * 10^p)`: the number of 10^-p units `round` keeps. */
  function Units(n: real, p: nat): int {
    (n * (Pow10(p) as real) + 0.5).Floor
  }

  lemma RoundBounds(n: real, p: nat, k: int, v: real)
    requires k == Units(n, p)
    requires v == (k as real) / (Pow10(p) as real)
    ensures n - Half(p) < v <= n + Half(p)
  {
    var q := Pow10(p) as real;
    Cancel(n, q);
    DivBounds(k as real, n * q, q);
    HalfIs(p);
  }

  /** A decimal with at most `p` decimals, as a whole number of 10^-p units. */
  lemma Widen(x: Dec, p: nat)
    requires x.e <= p
    ensures x.Val() == ((x.m * Pow10(p - x.e)) as real) / (Pow10(p) as real)
  {
    Pow10Add(x.e, p - x.e);
    WidenBy(x.m, Pow10(x.e), Pow10(p - x.e), Pow10(p));
  }

  /** m/b is the same fraction as (m·f)/(b·f). */
  lemma WidenBy(m: int, b: nat, f: nat, bf: nat)
    requires b >= 1 && f >= 1 && bf == b * f
    ensures (m as real) / (b as real) == ((m * f) as real) / (bf as real)
  {
    IntProduct(m, f);
    IntProduct(b, f);
    CancelCommon(m as real, b as real, f as real);
  }

  lemma IntProduct(x: int, y: int)
    ensures (x * y) as real == (x as real) * (y as real)
  {
  }

  lemma CancelCommon(a: real, b: real, c: real)
    requires b > 0.0 && c > 0.0
    ensures (a * c) / (b * c) == a / b
  {
  }

  /** Any decimal with at most `p` decimals within half a unit of `n` (ties going up)
      is the rounded value: the contract of `Round` determines it. */
  lemma RoundUnique(n: real, p: nat, x: Dec)
    requires x.e <= p
    requires n - Half(p) < x.Val() <= n + Half(p)
    ensures Round(n, p).Val() == x.Val()
  {
    Widen(x, p);
    RoundAt(n, p, x.m * Pow10(p - x.e), x.Val());
  }

  /** The rounded value is the multiple of 10^-p within half a unit of `n`. */
  lemma RoundAt(n: real, p: nat, K: int, v: real)
    requires v == (K as real) / (Pow10(p) as real)
    requires n - Half(p) < v <= n + Half(p)
    ensures Round(n, p).Val() == v
  {
    UnitsAt(n, p, K, v);
    RoundVal(n, p);
  }

  /** That multiple is `K` units of 10^-p exactly when `Math.round` keeps `K` units. */
  lemma UnitsAt(n: real, p: nat, K: int, v: real)
    requires v == (K as real) / (Pow10(p) as real)
    requires n - Half(p) < v <= n + Half(p)
    ensures Units(n, p) == K
  {
    HalfIs(p);
    UnitsOf(n, v, Pow10(p) as real, K);
  }

  lemma HalfIs(p: nat)
    ensures Half(p) == 1.0 / (2.0 * (Pow10(p) as real))
  {
    IntProduct(2, Pow10(p));
  }

  /** The one whole number of units within half a unit of `n * q`. */
  lemma UnitsOf(n: real, v: real, q: real, K: int)
    requires q >= 1.0 && v == (K as real) / q
    requires n - 1.0 / (2.0 * q) < v <= n + 1.0 / (2.0 * q)
    ensures (n * q + 0.5).Floor == K
  {
    Cancel(K as real, q);
    GridBounds(n, v, q, 1.0 / (2.0 * q));
    FloorOf(n * q + 0.5, K);
  }

  lemma RoundVal(n: real, p: nat)
    ensures Round(n, p).Val() == (Units(n, p) as real) / (Pow10(p) as real)
  {
  }

  lemma GridBounds(n: real, x: real, q: real, h: real)
    requires q > 0.0 && h == 1.0 / (2.0 * q)
    requires n - h < x <= n + h
    ensures n * q - 0.5 < x * q <= n * q + 0.5
  {
    assert h * q == 0.5;
    MulMono(x, n + h, q);
    MulStrict(n - h, x, q);
  }

  lemma FloorOf(y: real, K: int)
    requires K as real <= y < K as real + 1.0
    ensures y.Floor == K
  {
  }

  lemma MulMono(a: real, b: real, q: real)
    requires a <= b && q > 0.0
    ensures a * q <= b * q
  {
  }

  lemma MulStrict(a: real, b: real, q: real)
    requires a < b && q > 0.0
    ensures a * q < b * q
  {
  }

  /** Rounding a number that already has at most `p` decimals gives it back. */
  lemma RoundExact(x: Dec, p: nat)
    requires x.e <= p
    ensures Round(x.Val(), p).Val() == x.Val()
  {
    RoundUnique(x.Val(), p, x);
  }

  /** `Math.round(x)`: the integer within one half of `x`, ties going up. */
  function MathRound(x: real): (k: int)
    ensures x - 0.5 < k as real <= x + 0.5
  {
    (x + 0.5).Floor
  }

  /** `d` scaled by 10^x. */
  function Scale(d: Dec, x: int): (r: Dec)
    ensures x == 0 ==> r == d
  {
    if x >= 0 then Dec(d.m * Pow10(x), d.e) else Dec(d.m, d.e - x)
  }

  /** The optional exponent part `e`/`E`, sign, digits at the start of `s`: its value and
      what follows it; exponent 0 and `s` unchanged when no complete exponent is there. */
  function Exponent(s: string): (r: (int, string))
    ensures |r.1| <= |s|
    ensures s == [] || (s[0] != 'e' && s[0] != 'E') ==> r == (0, s)
  {
    if |s| > 0 && (s[0] == 'e' || s[0] == 'E') then
      var t := s[1..];
      var neg := |t| > 0 && t[0] == '-';
      var u := if |t| > 0 && (t[0] == '-' || t[0] == '+') then t[1..] else t;
      var k := Span(u);
      if k == 0 then (0, s)
      else ((if neg then -1 else 1) * Value(u[..k]), u[k..])
    else (0, s)
  }

  /** `Number.prototype.toString` for a finite decimal, in plain notation: a minus sign
      for negatives, the integer part without leading zeros, and the fractional part
      without trailing zeros. */
  function ShowNumber(d: Dec): (s: string)
  {
    var n := Norm(d);
    Sign(n.m < 0) + ShowUnsigned(Abs(n.m), n.e)
  }

  /** The minus sign, when there is one. */
  function Sign(neg: bool): string {
    if neg then "-" else ""
  }

  function Abs(m: int): nat {
    if m < 0 then -m else m
  }

  /** The digits of a /10^e: integer part, then `.` and exactly `e` fraction digits
      when `e > 0`. */
  function ShowUnsigned(a: nat, e: nat): (s: string)
  {
    var q := Pow10(e);
    DivMod(a, q);
    Show(a / q) + (if e == 0 then "" else "." + Pad(a % q, e))
  }

  lemma DivMod(a: nat, q: nat)
    requires q >= 1
    ensures 0 <= a % q < q && a / q >= 0 && a == (a / q) * q + a % q
  {
  }

  /** A character that could extend a number literal. */
  predicate ContinuesNumber(c: char) {
    IsDigit(c) || c == '.' || c == 'e' || c == 'E'
  }

  /** The decimal literal at the start of a string, split into its integer digits,
      whether a `.` follows them, the fraction digits after the `.`, and the rest. */
  datatype Literal = Literal(ip: string, dot: bool, fp: string, after: string)

  /** Reads the longest `digits [. digits]` prefix of `u` (every part may be empty). */
  function Scan(u: string): (l: Literal)
    ensures AllDigits(l.ip) && AllDigits(l.fp)
    ensures !l.dot ==> l.fp == []
    ensures |l.ip| + |l.after| <= |u|
  {
    var k := Span(u);
    ScanFraction(u[..k], u[k..])
  }

  /** The optional `. digits` after the integer digits `ip`. */
  function ScanFraction(ip: string, rest: string): (l: Literal)
    requires AllDigits(ip)
    ensures AllDigits(l.ip) && AllDigits(l.fp)
    ensures !l.dot ==> l.fp == []
    ensures l.ip == ip && |l.after| <= |rest|
  {
    if |rest| > 0 && rest[0] == '.' then
      var k := Span(rest[1..]);
      Literal(ip, true, rest[1..][..k], rest[1..][k..])
    else
      Literal(ip, false, [], rest)
  }

  lemma ScanSplit(ip: string, rest: string)
    requires AllDigits(ip)
    requires rest == [] || !IsDigit(rest[0])
    ensures Scan(ip + rest) == ScanFraction(ip, rest)
  {
    SpanOf(ip, rest);
  }

  lemma ScanFractionDot(ip: string, f: string, rest: string)
    requires AllDigits(ip) && AllDigits(f)
    requires rest == [] || !IsDigit(rest[0])
    ensures ScanFraction(ip, "." + f + rest) == Literal(ip, true, f, rest)
  {
    assert ("." + f + rest)[1..] == f + rest;
    SpanOf(f, rest);
  }

  /** The literal's digits as a whole number of 10^-|fp| units. */
  function Magnitude(l: Literal): nat
    requires AllDigits(l.ip) && AllDigits(l.fp)
  {
    Value(l.ip) * Pow10(|l.fp|) + Value(l.fp)
  }

  /** The number a scanned literal denotes, with its sign and exponent applied. */
  function LiteralValue(neg: bool, l: Literal, x: int): (d: Dec)
    requires AllDigits(l.ip) && AllDigits(l.fp)
    ensures d.Normal()
  {
    var a: int := Magnitude(l);
    Norm(Scale(Dec(if neg then -a else a, |l.fp|), x))
  }

  /** `parseFloat(s)`: skip leading white space, then read the longest prefix that is a
      decimal literal (sign, digits, `.`, digits, exponent); the rest of `s` is ignored.
      `None` stands for `NaN`, the result when no digit can be read. */
  function ParseFloat(s: string): (r: Option<Dec>)
    ensures r.Some? ==> r.value.Normal()
  {
    ParseSigned(TrimStart(s))
  }

  /** `parseFloat` after the leading white space. */
  function ParseSigned(t: string): (r: Option<Dec>)
    ensures r.Some? ==> r.value.Normal()
  {
    var neg := |t| > 0 && t[0] == '-';
    var u := if |t| > 0 && (t[0] == '-' || t[0] == '+') then t[1..] else t;
    var l := Scan(u);
    if l.ip == [] && l.fp == [] then None
    else Some(LiteralValue(neg, l, Exponent(l.after).0))
  }

  /** `grams(val)`: the number `parseFloat` reads from `val`, or 0 when it reads none. */
  function Grams(val: string): (g: Dec)
    ensures g.Normal()
    ensures ParseFloat(val).None? ==> g.Val() == 0.0
    ensures ParseFloat(val).Some? ==> g == ParseFloat(val).value
  {
    match ParseFloat(val)
    case None => Dec(0, 0)
    case Some(d) => d
  }

  /** The characters `ShowNumber` writes: an optional minus sign in front, digits and
      at most one `.`, so never white space, a comma or a line break. */
  lemma ShowNumberChars(d: Dec)
    ensures |ShowNumber(d)| > 0
    ensures ShowNumber(d)[0] == '-' || IsDigit(ShowNumber(d)[0])
    ensures IsDigit(ShowNumber(d)[|ShowNumber(d)| - 1])
    ensures forall i :: 0 <= i < |ShowNumber(d)| ==> NumberChar(ShowNumber(d)[i])
    ensures MinusOnlyFirst(ShowNumber(d)) && AtMostOneDot(ShowNumber(d))
  {
    var n := Norm(d);
    var u := ShowUnsigned(Abs(n.m), n.e);
    UnsignedChars(Abs(n.m), n.e);
    SignedChars(ShowNumber(d), n.m < 0, u);
  }

  /** A character of a number in plain notation. */
  predicate NumberChar(c: char) {
    c == '-' || c == '.' || IsDigit(c)
  }

  /** A minus sign, if any, only in front. */
  predicate MinusOnlyFirst(s: string) {
    forall i :: 0 < i < |s| ==> s[i] != '-'
  }

  /** No two points. */
  predicate AtMostOneDot(s: string) {
    forall i, j :: 0 <= i < j < |s| && s[i] == '.' ==> s[j] != '.'
  }

  lemma SignedChars(s: string, neg: bool, u: string)
    requires s == Sign(neg) + u
    requires |u| > 0 && IsDigit(u[0]) && IsDigit(u[|u| - 1])
    requires forall i :: 0 <= i < |u| ==> IsDigit(u[i]) || u[i] == '.'
    requires AtMostOneDot(u)
    ensures |s| > 0 && (s[0] == '-' || IsDigit(s[0])) && IsDigit(s[|s| - 1])
    ensures forall i :: 0 <= i < |s| ==> NumberChar(s[i])
    ensures MinusOnlyFirst(s) && AtMostOneDot(s)
  {
    var k := |Sign(neg)|;
    assert forall i :: k <= i < |s| ==> s[i] == u[i - k];
    assert k == 1 ==> s[0] == '-';
    forall i | 0 <= i < |s|
      ensures NumberChar(s[i])
      ensures i > 0 ==> s[i] != '-'
    {
      if i >= k {
        assert s[i] == u[i - k];
      }
    }
    forall i, j | 0 <= i < j < |s| && s[i] == '.'
      ensures s[j] != '.'
    {
      assert i >= k;
      assert s[i] == u[i - k] && s[j] == u[j - k];
    }
    assert s[|s| - 1] == u[|u| - 1];
  }

  /** `ShowUnsigned` writes digits and at most one `.`, and starts and ends with a digit. */
  lemma UnsignedChars(a: nat, e: nat)
    ensures |ShowUnsigned(a, e)| > 0
    ensures IsDigit(ShowUnsigned(a, e)[0]) && IsDigit(ShowUnsigned(a, e)[|ShowUnsigned(a, e)| - 1])
    ensures forall i :: 0 <= i < |ShowUnsigned(a, e)| ==> IsDigit(ShowUnsigned(a, e)[i]) || ShowUnsigned(a, e)[i] == '.'
    ensures AtMostOneDot(ShowUnsigned(a, e))
  {
    var q := Pow10(e);
    DivMod(a, q);
    var ip := Show(a / q);
    var s := ShowUnsigned(a, e);
    if e == 0 {
      assert s == ip;
    } else {
      var f := Pad(a % q, e);
      assert s == ip + ("." + f);
      forall i | 0 <= i < |s|
        ensures IsDigit(s[i]) || s[i] == '.'
        ensures s[i] == '.' ==> i == |ip|
      {
        if i < |ip| {
          assert s[i] == ip[i];
        } else if i > |ip| {
          assert s[i] == f[i - |ip| - 1];
        }
      }
      assert s[|s| - 1] == f[e - 1];
    }
  }

  /** Scanning the digits `ShowUnsigned` writes, followed by text that cannot extend a
      number, recovers the integer digits, the fraction digits and the magnitude. */
  lemma ScanShown(a: nat, e: nat, rest: string)
    requires rest == [] || !ContinuesNumber(rest[0])
    ensures var l := Scan(ShowUnsigned(a, e) + rest);
            && l.after == rest
            && l.ip == Show(a / Pow10(e))
            && l.dot == (e > 0)
            && |l.fp| == e
            && Magnitude(l) == a
  {
    if e == 0 {
      ScanWhole(a, rest);
    } else {
      ScanFractional(a, e, rest);
    }
  }

  lemma ScanWhole(a: nat, rest: string)
    requires rest == [] || !ContinuesNumber(rest[0])
    ensures Scan(ShowUnsigned(a, 0) + rest) == Literal(Show(a / Pow10(0)), false, [], rest)
    ensures Magnitude(Literal(Show(a / Pow10(0)), false, [], rest)) == a
  {
    assert a / Pow10(0) == a;
    var ip := Show(a);
    assert ShowUnsigned(a, 0) + rest == ip + rest;
    ScanSplit(ip, rest);
  }

  lemma ScanFractional(a: nat, e: nat, rest: string)
    requires e > 0
    requires rest == [] || !ContinuesNumber(rest[0])
    ensures var q := Pow10(e);
            && a / q >= 0 && a % q < q
            && Scan(ShowUnsigned(a, e) + rest) == Literal(Show(a / q), true, Pad(a % q, e), rest)
            && Magnitude(Literal(Show(a / q), true, Pad(a % q, e), rest)) == a
  {
    var q := Pow10(e);
    DivMod(a, q);
    var ip := Show(a / q);
    var f := Pad(a % q, e);
    assert ShowUnsigned(a, e) + rest == ip + ("." + f + rest);
    ScanSplit(ip, "." + f + rest);
    ScanFractionDot(ip, f, rest);
  }

  /** `parseFloat` reads back what `ShowNumber` writes, whatever non-numeric text
      follows it: displayed and exported numbers survive being typed in again. */
  lemma ParseFloatShown(d: Dec, rest: string)
    requires rest == [] || !ContinuesNumber(rest[0])
    ensures ParseFloat(ShowNumber(d) + rest) == Some(Norm(d))
  {
    ShowNumberStart(d);
    StartKept(ShowNumber(d), rest);
    ParseSignedShown(d, rest);
  }

  /** Text starting with a minus sign or a digit has no leading white space to skip. */
  lemma StartKept(t: string, rest: string)
    requires |t| > 0 && (t[0] == '-' || IsDigit(t[0]))
    ensures TrimStart(t + rest) == t + rest
  {
    assert (t + rest)[0] == t[0];
  }

  lemma ShowNumberStart(d: Dec)
    ensures |ShowNumber(d)| > 0
    ensures ShowNumber(d)[0] == '-' || IsDigit(ShowNumber(d)[0])
  {
  }

  lemma ParseSignedShown(d: Dec, rest: string)
    requires rest == [] || !ContinuesNumber(rest[0])
    ensures ParseSigned(ShowNumber(d) + rest) == Some(Norm(d))
  {
    ShownSplit(d, rest);
    SignedShownAt(Norm(d), rest, ShowNumber(d) + rest);
  }

  lemma SignedShownAt(n: Dec, rest: string, s: string)
    requires n.Normal()
    requires rest == [] || !ContinuesNumber(rest[0])
    requires s == Sign(n.m < 0) + (ShowUnsigned(Abs(n.m), n.e) + rest)
    ensures ParseSigned(s) == Some(n)
  {
    UnsignedShown(n, rest);
    SignedValue(n.m < 0, ShowUnsigned(Abs(n.m), n.e) + rest, s, n);
  }

  /** The text `ShowNumber` writes is a sign followed by the unsigned digits. */
  lemma ShownSplit(d: Dec, rest: string)
    ensures ShowNumber(d) + rest
            == Sign(Norm(d).m < 0) + (ShowUnsigned(Abs(Norm(d).m), Norm(d).e) + rest)
  {
    var n := Norm(d);
    AssocAt(ShowNumber(d), Sign(n.m < 0), ShowUnsigned(Abs(n.m), n.e), rest);
  }

  lemma AssocAt(x: string, y: string, z: string, w: string)
    requires x == y + z
    ensures x + w == y + (z + w)
  {
  }

  /** Reading the optional sign in front of an unsigned literal `u`. */
  lemma SignSplit(neg: bool, u: string, s: string)
    requires |u| > 0 && u[0] != '-' && u[0] != '+'
    requires s == Sign(neg) + u
    ensures (|s| > 0 && s[0] == '-') == neg
    ensures (if |s| > 0 && s[0] == '-' then s[1..] else s) == u
    ensures (if |s| > 0 && (s[0] == '-' || s[0] == '+') then s[1..] else s) == u
  {
    if neg {
      assert s == "-" + u;
      assert s[0] == '-' && s[1..] == u;
    } else {
      assert s == u;
    }
  }

  /** The unsigned digits of a normal decimal scan back to it. */
  lemma UnsignedShown(n: Dec, rest: string)
    requires n.Normal()
    requires rest == [] || !ContinuesNumber(rest[0])
    ensures var u := ShowUnsigned(Abs(n.m), n.e) + rest;
            && |u| > 0 && u[0] != '-' && u[0] != '+' && Scan(u).ip != []
            && Scan(u).ip == Show(Abs(n.m) / Pow10(n.e))
            && (Scan(u).dot ==> Scan(u).fp != [])
            && Exponent(Scan(u).after) == (0, rest)
            && LiteralValue(n.m < 0, Scan(u), Exponent(Scan(u).after).0) == n
  {
    var neg := n.m < 0;
    var a: nat := if neg then -n.m else n.m;
    var u := ShowUnsigned(a, n.e) + rest;
    var l := Scan(u);
    assert l.ip == Show(a / Pow10(n.e)) && l.after == rest && l.dot == (n.e > 0) && |l.fp| == n.e && Magnitude(l) == a by {
      ScanShown(a, n.e, rest);
    }
    assert u[0] == l.ip[0];
    assert Exponent(l.after) == (0, rest);
    LiteralShown(neg, l, n);
  }

  lemma Assoc(x: string, y: string, z: string)
    ensures (x + y) + z == x + (y + z)
  {
  }

  /** `ParseSigned` of an explicitly signed (or unsigned) literal. */
  lemma SignedValue(neg: bool, u: string, s: string, n: Dec)
    requires |u| > 0 && u[0] != '-' && u[0] != '+'
    requires s == Sign(neg) + u
    requires Scan(u).ip != []
    requires LiteralValue(neg, Scan(u), Exponent(Scan(u).after).0) == n
    ensures ParseSigned(s) == Some(n)
  {
    SignSplit(neg, u, s);
  }

  lemma LiteralShown(neg: bool, l: Literal, n: Dec)
    requires AllDigits(l.ip) && AllDigits(l.fp)
    requires n.Normal() && |l.fp| == n.e
    requires Magnitude(l) == Abs(n.m) && neg == (n.m < 0)
    ensures LiteralValue(neg, l, 0) == n
  {
  }

  /** `grams` reads back a displayed number exactly. */
  lemma GramsShown(d: Dec)
    ensures Grams(ShowNumber(d)) == Norm(d)
  {
    ParseFloatShown(d, []);
    assert ShowNumber(d) + [] == ShowNumber(d);
  }
}
