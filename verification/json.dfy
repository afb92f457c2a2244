/** The JavaScript values a log entry can hold, and the two JSON built-ins the CSV
    bridge uses on single fields: `JSON.stringify` of a scalar and `JSON.parse` of a
    text that holds one scalar (a number, a string, `true`, `false` or `null`). */
module Json {
  import opened Wrappers
  import opened Digits
  import opened Strings
  import opened Numeric

  /** A JavaScript value stored under a key of a log entry. */
  datatype Value = Num(d: Dec) | Str(s: string) | Bool(b: bool) | Null | Undefined

  /** Numbers are held in normal form, so equal numbers are the same value. */
  predicate Canonical(v: Value) {
    v.Num? ==> v.d.Normal()
  }

  /** `v ?? ""`: `null` and `undefined` become the empty string. */
  function Coalesce(v: Value): (r: Value)
    ensures !r.Null? && !r.Undefined?
    ensures v.Null? || v.Undefined? ==> r == Str("")
    ensures !v.Null? && !v.Undefined? ==> r == v
  {
    if v.Null? || v.Undefined? then Str("") else v
  }

  // ---------------------------------------------------------------------------
  // JSON.stringify

  /** A lower-case hexadecimal digit. */
  function HexDigit(n: nat): (c: char)
    requires n < 16
    ensures HexVal(c) == n
  {
    if n < 10 then ('0' as int + n) as char else ('a' as int + n - 10) as char
  }

  /** The value of a hexadecimal digit of either case, or -1. */
  function HexVal(c: char): (n: int)
    ensures -1 <= n < 16
  {
    if '0' <= c <= '9' then c as int - '0' as int
    else if 'a' <= c <= 'f' then c as int - 'a' as int + 10
    else if 'A' <= c <= 'F' then c as int - 'A' as int + 10
    else -1
  }

  /** How `JSON.stringify` writes one character inside a string literal: `"` and `\`
      and the control characters are escaped, using the short forms `\b \f \n \r \t`
      where they exist and `\u00xx` otherwise. */
  function EscapeChar(c: char): (r: string)
    ensures |r| > 0
  {
    if c == '"' then "\\\""
    else if c == '\\' then "\\\\"
    else if c as int == 8 then "\\b"
    else if c as int == 12 then "\\f"
    else if c == '\n' then "\\n"
    else if c == '\r' then "\\r"
    else if c == '\t' then "\\t"
    else if c as int < 0x20 then "\\u00" + [HexDigit(c as int / 16), HexDigit(c as int % 16)]
    else [c]
  }

  function Escape(s: string): string {
    if s == [] then [] else EscapeChar(s[0]) + Escape(s[1..])
  }

  /** `JSON.stringify` of a string. */
  function Quote(s: string): string {
    "\"" + Escape(s) + "\""
  }

  /** `JSON.stringify(v)` for a value that is not `undefined` (for which the built-in
      returns no string at all). Numbers are written in plain decimal notation. */
  function Stringify(v: Value): (r: string)
    requires !v.Undefined?
  {
    match v
    case Num(d) => ShowNumber(d)
    case Str(s) => Quote(s)
    case Bool(b) => if b then "true" else "false"
    case Null => "null"
  }

  // ---------------------------------------------------------------------------
  // JSON.parse

  /** The four characters JSON allows between tokens. */
  predicate IsJsonSpace(c: char) {
    c == ' ' || c == '\t' || c == '\n' || c == '\r'
  }

  /** `s` without its leading JSON white space. */
  function SkipWs(s: string): (r: string)
    ensures |r| <= |s| && r == s[|s| - |r|..]
    ensures r == [] || !IsJsonSpace(r[0])
  {
    if |s| > 0 && IsJsonSpace(s[0]) then SkipWs(s[1..]) else s
  }

  /** Four hexadecimal digits at the start of `s`, as a code unit. */
  function Hex4(s: string): (r: Option<nat>)
    ensures r.Some? ==> |s| >= 4 && r.value < 0x10000
  {
    if |s| >= 4 && HexVal(s[0]) >= 0 && HexVal(s[1]) >= 0 && HexVal(s[2]) >= 0 && HexVal(s[3]) >= 0 then
      Some(((HexVal(s[0]) * 16 + HexVal(s[1])) * 16 + HexVal(s[2])) * 16 + HexVal(s[3]))
    else None
  }

  predicate IsHighSurrogate(n: int) { 0xD800 <= n < 0xDC00 }
  predicate IsLowSurrogate(n: int) { 0xDC00 <= n < 0xE000 }

  /** The character an escape sequence denotes, read from `u` (the text after the
      backslash), and the text after the escape. A `\u` escape of a surrogate pair
      denotes one character; an unpaired surrogate is refused. */
  function ParseEscape(u: string): (r: Option<(char, string)>)
    ensures r.Some? ==> |r.value.1| < |u|
  {
    if u == [] then None
    else if u[0] == '"' || u[0] == '\\' || u[0] == '/' then Some((u[0], u[1..]))
    else if u[0] == 'b' then Some((8 as char, u[1..]))
    else if u[0] == 'f' then Some((12 as char, u[1..]))
    else if u[0] == 'n' then Some(('\n', u[1..]))
    else if u[0] == 'r' then Some(('\r', u[1..]))
    else if u[0] == 't' then Some(('\t', u[1..]))
    else if u[0] == 'u' then
      match Hex4(u[1..])
      case None => None
      case Some(n) =>
        if IsHighSurrogate(n) then
          if |u| >= 7 && u[5] == '\\' && u[6] == 'u' then
            match Hex4(u[7..])
            case None => None
            case Some(lo) =>
              if IsLowSurrogate(lo) then
                Some(((0x10000 + (n - 0xD800) * 0x400 + (lo - 0xDC00)) as char, u[11..]))
              else None
          else None
        else if IsLowSurrogate(n) then None
        else Some((n as char, u[5..]))
    else None
  }

  /** `c` put in front of the text of a parsed string. */
  function Prepend(c: char, r: Option<(string, string)>): (p: Option<(string, string)>)
    ensures p.Some? <==> r.Some?
    ensures p.Some? ==> p.value.1 == r.value.1
  {
    match r
    case None => None
    case Some((s, rest)) => Some(([c] + s, rest))
  }

  /** The body of a string literal, read from `t` (the text after the opening quote):
      its characters and the text after the closing quote. A raw control character
      or a bad escape is a syntax error. */
  function ParseString(t: string): (r: Option<(string, string)>)
    ensures r.Some? ==> |r.value.1| < |t|
    decreases |t|
  {
    if t == [] then None
    else if t[0] == '"' then Some(([], t[1..]))
    else if t[0] == '\\' then
      match ParseEscape(t[1..])
      case None => None
      case Some((c, rest)) => Prepend(c, ParseString(rest))
    else if t[0] as int < 0x20 then None
    else Prepend(t[0], ParseString(t[1..]))
  }

  /** A JSON number at the start of `t`: an optional minus sign, an integer part with
      no superfluous leading zero, an optional fraction with at least one digit, an
      optional exponent. */
  function ParseNumber(t: string): (r: Option<(Dec, string)>)
    ensures r.Some? ==> r.value.0.Normal()
    ensures r.Some? ==> |r.value.1| < |t|
  {
    var neg := |t| > 0 && t[0] == '-';
    var u := if neg then t[1..] else t;
    var l := Scan(u);
    if l.ip == [] || (l.ip[0] == '0' && |l.ip| > 1) || (l.dot && l.fp == []) then None
    else
      var x := Exponent(l.after);
      Some((LiteralValue(neg, l, x.0), x.1))
  }

  /** One JSON scalar at the start of `t`, and the text after it. */
  function ParseValue(t: string): (r: Option<(Value, string)>)
    ensures r.Some? ==> Canonical(r.value.0) && !r.value.0.Undefined?
    ensures r.Some? ==> |r.value.1| < |t|
  {
    if t == [] then None
    else if t[0] == '"' then
      match ParseString(t[1..])
      case None => None
      case Some((s, rest)) => Some((Str(s), rest))
    else if t[0] == 't' then
      if "true" <= t then Some((Bool(true), t[4..])) else None
    else if t[0] == 'f' then
      if "false" <= t then Some((Bool(false), t[5..])) else None
    else if t[0] == 'n' then
      if "null" <= t then Some((Null, t[4..])) else None
    else if t[0] == '-' || IsDigit(t[0]) then
      match ParseNumber(t)
      case None => None
      case Some((d, rest)) => Some((Num(d), rest))
    else None
  }

  /** `JSON.parse(s)` where `s` holds one scalar with white space around it; `None`
      is the `SyntaxError` the built-in throws. */
  function Parse(s: string): (r: Option<Value>)
    ensures r.Some? ==> Canonical(r.value) && !r.value.Undefined?
  {
    match ParseValue(SkipWs(s))
    case Some((v, rest)) => if SkipWs(rest) == [] then Some(v) else None
    case None => None
  }

  // ---------------------------------------------------------------------------
  // Round trips

  /** Reading an escape sequence that `EscapeChar` wrote gives the character back. */
  lemma EscapeCharParse(c: char, x: string)
    ensures ParseString(EscapeChar(c) + x) == Prepend(c, ParseString(x))
  {
    var t := EscapeChar(c) + x;
    var n := c as int;
    if c == '"' || c == '\\' || n == 8 || n == 12 || c == '\n' || c == '\r' || c == '\t' {
      assert t[0] == '\\' && t[2..] == x;
      assert ParseEscape(t[1..]) == Some((c, x));
    } else if n < 0x20 {
      var h := [HexDigit(n / 16), HexDigit(n % 16)];
      assert t == "\\u00" + h + x;
      assert t[2..] == "00" + h + x;
      assert Hex4(t[2..]) == Some(n);
      assert t[1..][5..] == x;
      assert ParseEscape(t[1..]) == Some((n as char, x));
    } else {
      assert t == [c] + x;
      assert t[1..] == x;
    }
  }

  /** The body of a quoted string reads back as the string, whatever follows. */
  lemma {:induction false} EscapeParse(s: string, rest: string)
    ensures ParseString(Escape(s) + "\"" + rest) == Some((s, rest))
  {
    if s == [] {
      assert Escape(s) + "\"" + rest == "\"" + rest;
    } else {
      var x := Escape(s[1..]) + "\"" + rest;
      assert Escape(s) + "\"" + rest == EscapeChar(s[0]) + x;
      EscapeCharParse(s[0], x);
      EscapeParse(s[1..], rest);
      assert [s[0]] + s[1..] == s;
    }
  }

  /** `JSON.parse` reads back the number `JSON.stringify` wrote, when what follows it
      cannot extend a number. */
  lemma NumberShown(d: Dec, rest: string)
    requires rest == [] || !ContinuesNumber(rest[0])
    ensures ParseNumber(ShowNumber(d) + rest) == Some((Norm(d), rest))
  {
    ShownSplit(d, rest);
    NumberShownAt(Norm(d), rest, ShowNumber(d) + rest);
  }

  lemma NumberShownAt(n: Dec, rest: string, s: string)
    requires n.Normal()
    requires rest == [] || !ContinuesNumber(rest[0])
    requires s == Sign(n.m < 0) + (ShowUnsigned(Abs(n.m), n.e) + rest)
    ensures ParseNumber(s) == Some((n, rest))
  {
    var u := ShowUnsigned(Abs(n.m), n.e) + rest;
    UnsignedShown(n, rest);
    SignSplit(n.m < 0, u, s);
  }

  /** `JSON.parse` reads back any scalar `JSON.stringify` wrote, given that the text
      after it cannot extend a number. */
  lemma ValueShown(v: Value, rest: string)
    requires Canonical(v) && !v.Undefined?
    requires rest == [] || !ContinuesNumber(rest[0])
    ensures ParseValue(Stringify(v) + rest) == Some((v, rest))
  {
    match v
    case Num(d) => NumShown(d, rest);
    case Str(s) => StrShown(s, rest);
    case Bool(b) =>
      var t := Stringify(v) + rest;
      if b {
        assert "true" <= t && t[4..] == rest;
      } else {
        assert t[0] == 'f' && "false" <= t && t[5..] == rest;
      }
    case Null =>
      var t := Stringify(v) + rest;
      assert t[0] == 'n' && "null" <= t && t[4..] == rest;
  }

  lemma NumShown(d: Dec, rest: string)
    requires rest == [] || !ContinuesNumber(rest[0])
    ensures ParseValue(ShowNumber(d) + rest) == Some((Num(Norm(d)), rest))
  {
    var t := ShowNumber(d) + rest;
    assert |t| > 0 && (t[0] == '-' || IsDigit(t[0])) by {
      ShowNumberStart(d);
      assert t[0] == ShowNumber(d)[0];
    }
    NumberShown(d, rest);
    NumberValue(t, Norm(d), rest);
  }

  /** Text that starts like a number holds a number value when it parses as one. */
  lemma NumberValue(t: string, d: Dec, rest: string)
    requires |t| > 0 && (t[0] == '-' || IsDigit(t[0]))
    requires ParseNumber(t) == Some((d, rest))
    ensures ParseValue(t) == Some((Num(d), rest))
  {
  }

  lemma StrShown(s: string, rest: string)
    ensures ParseValue(Quote(s) + rest) == Some((Str(s), rest))
  {
    var t := Quote(s) + rest;
    assert t == "\"" + (Escape(s) + "\"" + rest);
    EscapeParse(s, rest);
  }

  /** What `JSON.stringify` writes starts with a quote, a digit, a minus sign or a
      letter, so no white space is skipped in front of it. */
  lemma StringifyStart(v: Value)
    requires !v.Undefined?
    ensures |Stringify(v)| > 0
    ensures var c := Stringify(v)[0]; c == '"' || c == '-' || IsDigit(c) || c == 't' || c == 'f' || c == 'n'
  {
    if v.Num? {
      ShowNumberStart(v.d);
    }
  }

  /** `JSON.parse(JSON.stringify(v))` is `v` for every scalar held in normal form. */
  lemma ParseStringify(v: Value)
    requires Canonical(v) && !v.Undefined?
    ensures Parse(Stringify(v)) == Some(v)
  {
    var t := Stringify(v);
    assert |t| > 0 && !IsJsonSpace(t[0]) by {
      StringifyStart(v);
    }
    ValueShown(v, []);
    ParseWhole(t, v);
  }

  /** No white space is skipped in front of a written value, whatever follows it. */
  lemma WrittenStart(v: Value, rest: string)
    requires !v.Undefined?
    ensures SkipWs(Stringify(v) + rest) == Stringify(v) + rest
  {
    WrittenFirst(v);
    NoSkip(Stringify(v), rest);
  }

  /** The same, with a comma between the value and what follows. */
  lemma WrittenStartComma(v: Value, rest: string)
    requires !v.Undefined?
    ensures SkipWs(Stringify(v) + "," + rest) == Stringify(v) + "," + rest
  {
    WrittenFirst(v);
    NoSkip(Stringify(v) + ",", rest);
  }

  /** A written value does not start with JSON white space. */
  lemma WrittenFirst(v: Value)
    requires !v.Undefined?
    ensures |Stringify(v)| > 0 && !IsJsonSpace(Stringify(v)[0])
  {
    StringifyStart(v);
  }

  /** Nothing is skipped in front of a text that starts with a non-space. */
  lemma NoSkip(a: string, rest: string)
    requires |a| > 0 && !IsJsonSpace(a[0])
    ensures SkipWs(a + rest) == a + rest
  {
    assert (a + rest)[0] == a[0];
  }

  /** A written value with nothing after it is read with nothing left over. */
  lemma WrittenAlone(v: Value)
    requires Canonical(v) && !v.Undefined?
    ensures ParseValue(Stringify(v)) == Some((v, []))
  {
    ValueShown(v, []);
    assert Stringify(v) + [] == Stringify(v);
  }

  /** A written value followed by a comma is read up to the comma. */
  lemma WrittenBeforeComma(v: Value, rest: string)
    requires Canonical(v) && !v.Undefined?
    ensures ParseValue(Stringify(v) + "," + rest) == Some((v, "," + rest))
  {
    ValueShown(v, "," + rest);
    assert Stringify(v) + "," + rest == Stringify(v) + ("," + rest);
  }

  /** A text holding one value and nothing after it parses to that value. */
  lemma ParseWhole(t: string, v: Value)
    requires |t| > 0 && !IsJsonSpace(t[0])
    requires ParseValue(t + []) == Some((v, []))
    ensures Parse(t) == Some(v)
  {
    assert t + [] == t;
  }

  // ---------------------------------------------------------------------------
  // The characters `JSON.stringify` writes

  /** No control character, so in particular no line break. */
  predicate Visible(t: string) {
    forall k :: 0 <= k < |t| ==> t[k] as int >= 0x20
  }

  lemma VisibleConcat(a: string, b: string)
    requires Visible(a) && Visible(b)
    ensures Visible(a + b)
  {
    forall k | 0 <= k < |a + b|
      ensures (a + b)[k] as int >= 0x20
    {
      if k >= |a| {
        assert (a + b)[k] == b[k - |a|];
      }
    }
  }

  lemma EscapeCharVisible(c: char)
    ensures Visible(EscapeChar(c))
  {
  }

  /** An escaped string body holds no control character. */
  lemma {:induction false} EscapeVisible(s: string)
    ensures Visible(Escape(s))
  {
    if s != [] {
      EscapeCharVisible(s[0]);
      EscapeVisible(s[1..]);
      VisibleConcat(EscapeChar(s[0]), Escape(s[1..]));
    }
  }

  /** A written field holds no control character, so no line feed and no carriage
      return. */
  lemma StringifyVisible(v: Value)
    requires !v.Undefined?
    ensures Visible(Stringify(v))
  {
    match v
    case Num(d) => ShowNumberChars(d);
    case Str(s) =>
      EscapeVisible(s);
      VisibleConcat("\"", Escape(s));
      VisibleConcat("\"" + Escape(s), "\"");
    case Bool(b) =>
    case Null =>
  }

  /** A written field ends with a quote, a digit or a lower-case letter (`true`,
      `false`, `null`), never with white space. */
  lemma StringifyEnd(v: Value)
    requires !v.Undefined?
    ensures var t := Stringify(v); |t| > 0 && !IsSpace(t[|t| - 1])
    ensures var t := Stringify(v); t[|t| - 1] == '"' || IsDigit(t[|t| - 1]) || 'a' <= t[|t| - 1] <= 'z'
  {
    if v.Num? {
      ShowNumberChars(v.d);
    }
  }

  lemma EscapeCharComma(c: char)
    ensures ',' in EscapeChar(c) <==> c == ','
  {
  }

  /** Escaping neither adds nor removes commas. */
  lemma {:induction false} EscapeComma(s: string)
    ensures ',' in Escape(s) <==> ',' in s
  {
    if s != [] {
      EscapeCharComma(s[0]);
      EscapeComma(s[1..]);
      assert s == [s[0]] + s[1..];
      assert Escape(s) == EscapeChar(s[0]) + Escape(s[1..]);
    }
  }

  /** A string containing a comma. */
  predicate HasComma(v: Value) {
    v.Str? && ',' in v.s
  }

  /** A written field contains a comma exactly when it is a string that contains one. */
  lemma StringifyComma(v: Value)
    requires !v.Undefined?
    ensures ',' in Stringify(v) <==> HasComma(v)
  {
    match v
    case Num(d) =>
      ShowNumberChars(d);
      assert forall k :: 0 <= k < |ShowNumber(d)| ==> ShowNumber(d)[k] != ',';
    case Str(s) =>
      EscapeComma(s);
      assert Stringify(v) == ['"'] + Escape(s) + ['"'];
    case Bool(b) =>
    case Null =>
  }

  /** Escaping distributes over concatenation. */
  lemma {:induction false} EscapeConcat(a: string, b: string)
    ensures Escape(a + b) == Escape(a) + Escape(b)
  {
    if a != [] {
      assert (a + b)[1..] == a[1..] + b;
      EscapeConcat(a[1..], b);
    } else {
      assert a + b == b;
    }
  }

  /** An escaped body without its closing quote is not a string literal. */
  lemma {:induction false} OpenString(s: string)
    ensures ParseString(Escape(s)) == None
  {
    if s != [] {
      EscapeCharParse(s[0], Escape(s[1..]));
      OpenString(s[1..]);
    }
  }

  /** `JSON.parse` refuses a quote followed by an escaped body and no closing quote. */
  lemma OpenQuoteParse(s: string)
    ensures Parse("\"" + Escape(s)) == None
  {
    var t := "\"" + Escape(s);
    assert SkipWs(t) == t;
    assert t[1..] == Escape(s);
    OpenString(s);
  }
}
