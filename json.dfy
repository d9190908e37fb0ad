/** JSON values and the two conversions the application uses: `json.dumps`
    (compact, or pretty-printed with `indent`) and `json.loads`.  Numbers are
    integers; the encoder escapes as `ensure_ascii=True` does. */
module Json {
  import opened Wrappers
  import opened Text

  datatype Json =
    | JNull
    | JBool(b: bool)
    | JInt(i: int)
    | JStr(s: string)
    | JArr(items: seq<Json>)
    // Members in order; a key may occur twice, as in the text an object was decoded from.
    | JObj(members: seq<(string, Json)>)

  /** Python truthiness of the decoded value: `None`, `False`, `0` and empty containers are false. */
  predicate Truthy(j: Json)
  {
    match j
    case JNull => false
    case JBool(b) => b
    case JInt(i) => i != 0
    case JStr(s) => s != ""
    case JArr(items) => items != []
    case JObj(ms) => ms != []
  }

  /** `d[key]` on a decoded object: the last member with that key wins, as when a dict is built. */
  function Lookup(ms: seq<(string, Json)>, key: string): (r: Option<Json>)
    ensures r.Some? <==> exists k :: 0 <= k < |ms| && ms[k].0 == key
    ensures r.Some? ==> exists k :: 0 <= k < |ms| && ms[k] == (key, r.value)
  {
    if ms == [] then None
    else if ms[|ms| - 1].0 == key then Some(ms[|ms| - 1].1)
    else
      var r := Lookup(ms[..|ms| - 1], key);
      assert forall k :: 0 <= k < |ms| - 1 ==> ms[..|ms| - 1][k] == ms[k];
      r
  }

  /** With a key repeated, the last member holding it is the one found. */
  lemma {:induction false} LookupLast(ms: seq<(string, Json)>, key: string, k: nat)
    requires k < |ms| && ms[k].0 == key
    requires forall j :: k < j < |ms| ==> ms[j].0 != key
    ensures Lookup(ms, key) == Some(ms[k].1)
  {
    if k < |ms| - 1 {
      var front := ms[..|ms| - 1];
      assert front[k] == ms[k];
      assert forall j :: k < j < |front| ==> front[j] == ms[j];
      LookupLast(front, key, k);
    }
  }

  // ---------------------------------------------------------------------
  // json.dumps
  // ---------------------------------------------------------------------

  function Spaces(n: nat): (r: string)
    ensures |r| == n && forall k :: 0 <= k < n ==> r[k] == ' '
  {
    if n == 0 then "" else " " + Spaces(n - 1)
  }

  /** What precedes an item at nesting `level`: nothing when compact, a new line and indentation otherwise. */
  function Newline(indent: Option<nat>, level: nat): string
  {
    match indent
    case None => ""
    case Some(w) => "\n" + Spaces(w * level)
  }

  /** The item separator: `", "` when compact, `","` followed by a new line when indented. */
  function Separator(indent: Option<nat>, level: nat): string
  {
    match indent
    case None => ", "
    case Some(_) => "," + Newline(indent, level)
  }

  /** Four lower-case hexadecimal digits of `n`. */
  function Hex4(n: nat): string
    requires n < 0x10000
  {
    [HexDigitChar(n / 0x1000), HexDigitChar(n / 0x100 % 16), HexDigitChar(n / 16 % 16), HexDigitChar(n % 16)]
  }

  /** How the encoder writes one character of a string: printable ASCII as itself,
      the short escapes, and every other character as `\uXXXX` (a surrogate pair above U+FFFF). */
  function EscapeChar(c: char): string
  {
    if c == '"' then "\\\""
    else if c == '\\' then "\\\\"
    else if c == '\n' then "\\n"
    else if c == '\r' then "\\r"
    else if c == '\t' then "\\t"
    else if c as int == 0x08 then "\\b"
    else if c as int == 0x0C then "\\f"
    else if ' ' <= c <= '~' then [c]
    else if (c as int) < 0x10000 then "\\u" + Hex4(c as int)
    else
      var v := (c as int) - 0x10000;
      "\\u" + Hex4(0xD800 + v / 0x400) + "\\u" + Hex4(0xDC00 + v % 0x400)
  }

  function Escape(s: string): string
  {
    if s == [] then "" else EscapeChar(s[0]) + Escape(s[1..])
  }

  function Quote(s: string): string
  {
    "\"" + Escape(s) + "\""
  }

  /** The text `json.dumps` writes for `j` at nesting `level`. */
  function Encode(j: Json, indent: Option<nat>, level: nat): string
    decreases j
  {
    match j
    case JNull => "null"
    case JBool(b) => if b then "true" else "false"
    case JInt(i) => IntText(i)
    case JStr(s) => Quote(s)
    case JArr(items) =>
      if items == [] then "[]"
      else
        "[" + Newline(indent, level + 1)
        + Join(seq(|items|, k requires 0 <= k < |items| => Encode(items[k], indent, level + 1)),
               Separator(indent, level + 1))
        + Newline(indent, level) + "]"
    case JObj(ms) =>
      if ms == [] then "{}"
      else
        "{" + Newline(indent, level + 1)
        + Join(seq(|ms|, k requires 0 <= k < |ms| => Quote(ms[k].0) + ": " + Encode(ms[k].1, indent, level + 1)),
               Separator(indent, level + 1))
        + Newline(indent, level) + "}"
  }

  /** The texts of an array's items at nesting `level`. */
  function ItemTexts(items: seq<Json>, indent: Option<nat>, level: nat): (r: seq<string>)
    ensures |r| == |items|
  {
    seq(|items|, k requires 0 <= k < |items| => Encode(items[k], indent, level))
  }

  /** The texts `"key": value` of an object's members at nesting `level`. */
  function MemberTexts(ms: seq<(string, Json)>, indent: Option<nat>, level: nat): (r: seq<string>)
    ensures |r| == |ms|
  {
    seq(|ms|, k requires 0 <= k < |ms| => Quote(ms[k].0) + ": " + Encode(ms[k].1, indent, level))
  }

  lemma EncodeArrayShape(items: seq<Json>, indent: Option<nat>, level: nat)
    requires items != []
    ensures Encode(JArr(items), indent, level)
            == "[" + Newline(indent, level + 1) + Join(ItemTexts(items, indent, level + 1), Separator(indent, level + 1))
               + Newline(indent, level) + "]"
  {
  }

  lemma EncodeObjectShape(ms: seq<(string, Json)>, indent: Option<nat>, level: nat)
    requires ms != []
    ensures Encode(JObj(ms), indent, level)
            == "{" + Newline(indent, level + 1) + Join(MemberTexts(ms, indent, level + 1), Separator(indent, level + 1))
               + Newline(indent, level) + "}"
  {
  }

  /** `json.dumps(j)` when `indent` is `None`, `json.dumps(j, indent=w)` when it is `Some(w)`. */
  function Dumps(j: Json, indent: Option<nat>): string
  {
    Encode(j, indent, 0)
  }

  // ---------------------------------------------------------------------
  // json.loads
  // ---------------------------------------------------------------------

  predicate IsWs(c: char)
  {
    c == ' ' || c == '\t' || c == '\n' || c == '\r'
  }

  function SkipWs(s: string): (r: string)
    ensures |r| <= |s|
    ensures r == [] || !IsWs(r[0])
  {
    if s != [] && IsWs(s[0]) then SkipWs(s[1..]) else s
  }

  predicate IsHexDigit(c: char)
  {
    '0' <= c <= '9' || 'a' <= c <= 'f' || 'A' <= c <= 'F'
  }

  function HexValue(c: char): (d: nat)
    requires IsHexDigit(c)
    ensures d < 16
  {
    if '0' <= c <= '9' then (c as int) - ('0' as int)
    else if 'a' <= c <= 'f' then (c as int) - ('a' as int) + 10
    else (c as int) - ('A' as int) + 10
  }

  /** The value of four hexadecimal digits (either case) at the start of `s`. */
  function ParseHex4(s: string): (r: Option<nat>)
    ensures r.Some? ==> r.value < 0x10000
  {
    if |s| >= 4 && IsHexDigit(s[0]) && IsHexDigit(s[1]) && IsHexDigit(s[2]) && IsHexDigit(s[3])
    then Some(HexValue(s[0]) * 0x1000 + HexValue(s[1]) * 0x100 + HexValue(s[2]) * 16 + HexValue(s[3]))
    else None
  }

  /** Unicode scalar values: the code points a `char` can hold. */
  predicate IsScalar(n: int)
  {
    (0 <= n < 0xD800) || (0xE000 <= n < 0x110000)
  }

  /** The character of a `\u` escape (the text after `\u`); a high surrogate must be followed by
      `\u` and a low surrogate. A lone surrogate is refused: it is not a character value here. */
  function ParseUnicodeEscape(s: string): (r: Option<(char, string)>)
    ensures r.Some? ==> |r.value.1| < |s|
  {
    match ParseHex4(s)
    case None => None
    case Some(hi) =>
      if 0xD800 <= hi < 0xDC00 then
        if |s| >= 10 && s[4..6] == "\\u" then
          match ParseHex4(s[6..])
          case None => None
          case Some(lo) =>
            if 0xDC00 <= lo < 0xE000 then Some(((0x10000 + (hi - 0xD800) * 0x400 + (lo - 0xDC00)) as char, s[10..]))
            else None
        else None
      else if IsScalar(hi) then Some((hi as char, s[4..]))
      else None
  }

  /** The character of an escape (the text after the backslash). */
  function ParseEscape(s: string): (r: Option<(char, string)>)
    ensures r.Some? ==> |r.value.1| < |s|
  {
    if s == [] then None
    else if s[0] == '"' || s[0] == '\\' || s[0] == '/' then Some((s[0], s[1..]))
    else if s[0] == 'b' then Some((0x08 as char, s[1..]))
    else if s[0] == 'f' then Some((0x0C as char, s[1..]))
    else if s[0] == 'n' then Some(('\n', s[1..]))
    else if s[0] == 'r' then Some(('\r', s[1..]))
    else if s[0] == 't' then Some(('\t', s[1..]))
    else if s[0] == 'u' then ParseUnicodeEscape(s[1..])
    else None
  }

  function Prepend(c: char, r: Option<(string, string)>): Option<(string, string)>
  {
    match r
    case None => None
    case Some((str, rest)) => Some(([c] + str, rest))
  }

  /** The characters of a string literal (the text after its opening quote), and what follows its closing quote.
      A raw control character is refused, as the strict decoder does. */
  function ParseString(s: string): (r: Option<(string, string)>)
    ensures r.Some? ==> |r.value.1| < |s|
    decreases |s|
  {
    if s == [] then None
    else if s[0] == '"' then Some(("", s[1..]))
    else if s[0] == '\\' then
      match ParseEscape(s[1..])
      case None => None
      case Some((c, rest)) => Prepend(c, ParseString(rest))
    else if (s[0] as int) < 0x20 then None
    else Prepend(s[0], ParseString(s[1..]))
  }

  /** Digits of a non-negative integer literal: `0` or digits without a leading zero.
      A fraction or an exponent (a float) is not accepted. */
  function ParseNat(t: string): (r: Option<(nat, string)>)
    ensures r.Some? ==> |r.value.1| < |t|
  {
    if t == [] || !IsDigit(t[0]) then None
    else
      var k := if t[0] == '0' then 1 else DigitRun(t);
      var rest := t[k..];
      if rest != [] && (rest[0] == '.' || rest[0] == 'e' || rest[0] == 'E') then None
      else Some((DigitsValue(t[..k]), rest))
  }

  function ParseNumber(t: string): (r: Option<(Json, string)>)
    ensures r.Some? ==> |r.value.1| < |t|
  {
    if t != [] && t[0] == '-' then
      match ParseNat(t[1..])
      case None => None
      case Some((n, rest)) => Some((JInt(-(n as int)), rest))
    else
      match ParseNat(t)
      case None => None
      case Some((n, rest)) => Some((JInt(n), rest))
  }

  /** One value, after optional whitespace, and what follows it. */
  function ParseValue(s: string): (r: Option<(Json, string)>)
    ensures r.Some? ==> |r.value.1| < |s|
    decreases |s|, 1
  {
    ParseToken(SkipWs(s))
  }

  /** One value starting at the first character of `t`. */
  function ParseToken(t: string): (r: Option<(Json, string)>)
    ensures r.Some? ==> |r.value.1| < |t|
    decreases |t|, 0
  {
    if t == [] then None
    else if t[0] == '[' then ParseArray(t[1..])
    else if t[0] == '{' then ParseObject(t[1..])
    else if t[0] == '"' then
      match ParseString(t[1..])
      case None => None
      case Some((str, rest)) => Some((JStr(str), rest))
    else if StartsWith(t, "null") then Some((JNull, t[4..]))
    else if StartsWith(t, "true") then Some((JBool(true), t[4..]))
    else if StartsWith(t, "false") then Some((JBool(false), t[5..]))
    else ParseNumber(t)
  }

  /** An array (the text after its opening bracket). */
  function ParseArray(s: string): (r: Option<(Json, string)>)
    ensures r.Some? ==> |r.value.1| < |s|
    decreases |s|, 3
  {
    var u := SkipWs(s);
    if u != [] && u[0] == ']' then Some((JArr([]), u[1..]))
    else
      match ParseElements(s)
      case None => None
      case Some((items, rest)) => Some((JArr(items), rest))
  }

  /** The items of a non-empty array, up to and including its closing bracket. */
  function ParseElements(s: string): (r: Option<(seq<Json>, string)>)
    ensures r.Some? ==> |r.value.1| < |s|
    decreases |s|, 2
  {
    match ParseValue(s)
    case None => None
    case Some((v, r)) =>
      var u := SkipWs(r);
      if u != [] && u[0] == ']' then Some(([v], u[1..]))
      else if u != [] && u[0] == ',' then
        match ParseElements(u[1..])
        case None => None
        case Some((vs, rest)) => Some(([v] + vs, rest))
      else None
  }

  /** An object (the text after its opening brace). */
  function ParseObject(s: string): (r: Option<(Json, string)>)
    ensures r.Some? ==> |r.value.1| < |s|
    decreases |s|, 3
  {
    var u := SkipWs(s);
    if u != [] && u[0] == '}' then Some((JObj([]), u[1..]))
    else
      match ParseMembers(s)
      case None => None
      case Some((ms, rest)) => Some((JObj(ms), rest))
  }

  /** The members of a non-empty object, after optional whitespace, up to and including its closing brace. */
  function ParseMembers(s: string): (r: Option<(seq<(string, Json)>, string)>)
    ensures r.Some? ==> |r.value.1| < |s|
    decreases |s|, 2
  {
    ParseMembersAt(SkipWs(s))
  }

  function ParseMembersAt(t: string): (r: Option<(seq<(string, Json)>, string)>)
    ensures r.Some? ==> |r.value.1| < |t|
    decreases |t|, 1
  {
    if t == [] || t[0] != '"' then None
    else
      match ParseString(t[1..])
      case None => None
      case Some((key, r1)) =>
        var u := SkipWs(r1);
        if u == [] || u[0] != ':' then None
        else
          match ParseValue(u[1..])
          case None => None
          case Some((v, r2)) =>
            var w := SkipWs(r2);
            if w != [] && w[0] == '}' then Some(([(key, v)], w[1..]))
            else if w != [] && w[0] == ',' then
              match ParseMembers(w[1..])
              case None => None
              case Some((ms, rest)) => Some(([(key, v)] + ms, rest))
            else None
  }

  /** `json.loads(s)`: one value, with nothing but whitespace around it. */
  function Loads(s: string): Option<Json>
  {
    match ParseValue(s)
    case None => None
    case Some((v, rest)) => if SkipWs(rest) == [] then Some(v) else None
  }

  // ---------------------------------------------------------------------
  // json.loads(json.dumps(j)) == j
  // ---------------------------------------------------------------------

  predicate AllWs(s: string)
  {
    forall k :: 0 <= k < |s| ==> IsWs(s[k])
  }

  /** What may follow a value in encoded text: the end, whitespace, a comma or a closing bracket. */
  predicate Delimited(rest: string)
  {
    rest == [] || IsWs(rest[0]) || rest[0] == ',' || rest[0] == ']' || rest[0] == '}'
  }

  lemma {:induction false} SkipWsPrefix(pre: string, t: string)
    requires AllWs(pre)
    ensures SkipWs(pre + t) == SkipWs(t)
  {
    if pre != [] {
      assert (pre + t)[1..] == pre[1..] + t;
      SkipWsPrefix(pre[1..], t);
    } else {
      assert pre + t == t;
    }
  }

  lemma NewlineIsWs(indent: Option<nat>, level: nat)
    ensures AllWs(Newline(indent, level))
  {
  }

  lemma SeparatorShape(indent: Option<nat>, level: nat)
    ensures |Separator(indent, level)| >= 1 && Separator(indent, level)[0] == ','
    ensures AllWs(Separator(indent, level)[1..])
  {
    match indent
    case None =>
    case Some(_) =>
      assert Separator(indent, level)[1..] == Newline(indent, level);
  }

  lemma HexDigitValue(d: nat)
    requires d < 16
    ensures IsHexDigit(HexDigitChar(d)) && HexValue(HexDigitChar(d)) == d
  {
  }

  lemma Hex4Digits(n: nat)
    requires n < 0x10000
    ensures (n / 0x1000) * 0x1000 + (n / 0x100 % 16) * 0x100 + (n / 16 % 16) * 16 + n % 16 == n
    ensures n / 0x1000 < 16
  {
    var a, b, c, d := n / 0x1000, n / 0x100 % 16, n / 16 % 16, n % 16;
    assert n == (n / 16) * 16 + d;
    assert n / 16 == (n / 0x100) * 16 + c;
    assert n / 0x100 == (n / 0x1000) * 16 + b;
  }

  lemma Hex4RoundTrip(n: nat, rest: string)
    requires n < 0x10000
    ensures ParseHex4(Hex4(n) + rest) == Some(n)
  {
    var h := Hex4(n) + rest;
    Hex4Digits(n);
    HexDigitValue(n / 0x1000);
    HexDigitValue(n / 0x100 % 16);
    HexDigitValue(n / 16 % 16);
    HexDigitValue(n % 16);
    assert h[0] == HexDigitChar(n / 0x1000) && h[1] == HexDigitChar(n / 0x100 % 16);
    assert h[2] == HexDigitChar(n / 16 % 16) && h[3] == HexDigitChar(n % 16);
  }

  lemma ParseStringAfterBackslash(x: string)
    ensures ParseString(['\\'] + x)
            == match ParseEscape(x)
               case None => None
               case Some((c, rest)) => Prepend(c, ParseString(rest))
  {
    assert (['\\'] + x)[1..] == x;
  }

  lemma EscapeShortRoundTrip(c: char, rest: string)
    requires c == '"' || c == '\\' || c == '\n' || c == '\r' || c == '\t' || c as int == 0x08 || c as int == 0x0C
    ensures ParseString(EscapeChar(c) + rest) == Prepend(c, ParseString(rest))
  {
    var e := EscapeChar(c);
    assert |e| == 2 && e[0] == '\\';
    assert e + rest == ['\\'] + ([e[1]] + rest);
    ParseStringAfterBackslash([e[1]] + rest);
    assert ([e[1]] + rest)[1..] == rest;
    assert ParseEscape([e[1]] + rest) == Some((c, rest));
  }

  lemma EscapePrintableRoundTrip(c: char, rest: string)
    requires ' ' <= c <= '~' && c != '"' && c != '\\'
    ensures ParseString(EscapeChar(c) + rest) == Prepend(c, ParseString(rest))
  {
    assert EscapeChar(c) == [c];
    assert ([c] + rest)[0] == c && ([c] + rest)[1..] == rest;
  }

  lemma EscapeCharBmp(c: char)
    requires !(' ' <= c <= '~') && (c as int) < 0x10000
    requires !(c == '"' || c == '\\' || c == '\n' || c == '\r' || c == '\t' || c as int == 0x08 || c as int == 0x0C)
    ensures EscapeChar(c) == "\\u" + Hex4(c as int)
  {
  }

  lemma ParseBmpEscape(c: char, rest: string)
    requires (c as int) < 0x10000
    ensures ParseEscape(['u'] + (Hex4(c as int) + rest)) == Some((c, rest))
  {
    var n := c as int;
    var x := Hex4(n) + rest;
    assert (['u'] + x)[0] == 'u' && (['u'] + x)[1..] == x;
    Hex4RoundTrip(n, rest);
    assert x[4..] == rest;
    assert IsScalar(n) && n as char == c;
  }

  lemma EscapeBmpRoundTrip(c: char, rest: string)
    requires !(' ' <= c <= '~') && (c as int) < 0x10000
    requires !(c == '"' || c == '\\' || c == '\n' || c == '\r' || c == '\t' || c as int == 0x08 || c as int == 0x0C)
    ensures ParseString(EscapeChar(c) + rest) == Prepend(c, ParseString(rest))
  {
    var x := ['u'] + (Hex4(c as int) + rest);
    assert EscapeChar(c) + rest == ['\\'] + x by {
      EscapeCharBmp(c);
    }
    ParseStringAfterBackslash(x);
    ParseBmpEscape(c, rest);
  }

  /** The surrogate pair the encoder writes for a character above U+FFFF recombines to it. */
  lemma SurrogatePair(n: int)
    requires 0x10000 <= n < 0x110000
    ensures var v := n - 0x10000;
            && 0xD800 <= 0xD800 + v / 0x400 < 0xDC00
            && 0xDC00 <= 0xDC00 + v % 0x400 < 0xE000
            && 0x10000 + (v / 0x400) * 0x400 + v % 0x400 == n
  {
  }

  lemma ParsePairEscape(hi: nat, lo: nat, rest: string)
    requires 0xD800 <= hi < 0xDC00 && 0xDC00 <= lo < 0xE000
    ensures ParseUnicodeEscape(Hex4(hi) + ("\\u" + (Hex4(lo) + rest)))
            == Some(((0x10000 + (hi - 0xD800) * 0x400 + (lo - 0xDC00)) as char, rest))
  {
    var x := Hex4(hi) + ("\\u" + (Hex4(lo) + rest));
    Hex4RoundTrip(hi, "\\u" + (Hex4(lo) + rest));
    assert x[4..6] == "\\u";
    assert x[6..] == Hex4(lo) + rest;
    Hex4RoundTrip(lo, rest);
    assert x[10..] == rest;
  }

  lemma EscapeCharPair(c: char)
    requires (c as int) >= 0x10000
    ensures var v := (c as int) - 0x10000;
            EscapeChar(c) == "\\u" + Hex4(0xD800 + v / 0x400) + "\\u" + Hex4(0xDC00 + v % 0x400)
  {
  }

  /** The two halves of the surrogate pair the encoder writes for `c`. */
  lemma PairParts(c: char) returns (hi: nat, lo: nat)
    requires (c as int) >= 0x10000
    ensures 0xD800 <= hi < 0xDC00 && 0xDC00 <= lo < 0xE000
    ensures EscapeChar(c) == "\\u" + Hex4(hi) + "\\u" + Hex4(lo)
    ensures (0x10000 + (hi - 0xD800) * 0x400 + (lo - 0xDC00)) as char == c
  {
    var v := (c as int) - 0x10000;
    hi := 0xD800 + v / 0x400;
    lo := 0xDC00 + v % 0x400;
    SurrogatePair(c as int);
    EscapeCharPair(c);
  }

  lemma Assoc4(a: string, b: string, c: string, d: string, e: string)
    ensures a + b + c + d + e == a + (b + (c + (d + e)))
  {
  }

  lemma ParseEscapeU(x: string)
    ensures ParseEscape(['u'] + x) == ParseUnicodeEscape(x)
  {
    DropFirst(['u'], x);
  }

  lemma EscapePairRoundTrip(c: char, rest: string)
    requires (c as int) >= 0x10000
    ensures ParseString(EscapeChar(c) + rest) == Prepend(c, ParseString(rest))
  {
    var hi, lo := PairParts(c);
    var x := Hex4(hi) + ("\\u" + (Hex4(lo) + rest));
    assert EscapeChar(c) + rest == ['\\'] + (['u'] + x) by {
      Assoc4("\\u", Hex4(hi), "\\u", Hex4(lo), rest);
      assert "\\u" + x == ['\\'] + (['u'] + x);
    }
    ParseEscapeU(x);
    ParsePairEscape(hi, lo, rest);
    ParseStringAfterBackslash(['u'] + x);
  }

  /** A character written by the encoder is read back by the string parser. */
  lemma ParseEscapedChar(c: char, rest: string)
    ensures ParseString(EscapeChar(c) + rest) == Prepend(c, ParseString(rest))
  {
    if c == '"' || c == '\\' || c == '\n' || c == '\r' || c == '\t' || c as int == 0x08 || c as int == 0x0C {
      EscapeShortRoundTrip(c, rest);
    } else if ' ' <= c <= '~' {
      EscapePrintableRoundTrip(c, rest);
    } else if (c as int) < 0x10000 {
      EscapeBmpRoundTrip(c, rest);
    } else {
      EscapePairRoundTrip(c, rest);
    }
  }

  /** The string parser reads back the escaped text up to the closing quote. */
  lemma {:induction false} ParseQuoted(s: string, rest: string)
    ensures ParseString(Escape(s) + "\"" + rest) == Some((s, rest))
  {
    if s == [] {
      assert Escape(s) + "\"" + rest == "\"" + rest;
    } else {
      ParseQuoted(s[1..], rest);
      assert Escape(s) + "\"" + rest == EscapeChar(s[0]) + (Escape(s[1..]) + "\"" + rest);
      ParseEscapedChar(s[0], Escape(s[1..]) + "\"" + rest);
      assert [s[0]] + s[1..] == s;
    }
  }

  /** The integer parser reads back `str(n)`. */
  lemma ParseNatText(m: nat, rest: string)
    requires Delimited(rest)
    ensures ParseNat(NatText(m) + rest) == Some((m, rest))
  {
    var d := NatText(m);
    var t := d + rest;
    assert t[0] == d[0];
    if d[0] == '0' {
      assert d == "0";
      assert t[1..] == rest && t[..1] == "0";
    } else {
      DigitRunOf(d, rest);
      assert t[..|d|] == d && t[|d|..] == rest;
      NatTextValue(m);
    }
  }

  lemma ParseNegative(t: string, m: nat, rest: string)
    requires ParseNat(t) == Some((m, rest))
    ensures ParseNumber("-" + t) == Some((JInt(-(m as int)), rest))
  {
    DropFirst("-", t);
  }

  lemma ParseNonNegative(t: string, m: nat, rest: string)
    requires ParseNat(t) == Some((m, rest))
    ensures ParseNumber(t) == Some((JInt(m), rest))
  {
  }

  lemma ParseIntText(i: int, rest: string)
    requires Delimited(rest)
    ensures ParseNumber(IntText(i) + rest) == Some((JInt(i), rest))
  {
    if i < 0 {
      var t := NatText(-i) + rest;
      assert IntText(i) + rest == "-" + t by {
        Assoc("-", NatText(-i), rest);
      }
      ParseNatText(-i, rest);
      ParseNegative(t, -i, rest);
    } else {
      ParseNatText(i, rest);
      ParseNonNegative(NatText(i) + rest, i, rest);
    }
  }

  /** The number of children of an array or object. */
  function Width(j: Json): nat
  {
    match j
    case JArr(items) => |items|
    case JObj(ms) => |ms|
    case _ => 0
  }

  lemma EncodeStart(j: Json, indent: Option<nat>, level: nat)
    ensures Encode(j, indent, level) != []
    ensures var c := Encode(j, indent, level)[0];
            c == 'n' || c == 't' || c == 'f' || c == '"' || c == '[' || c == '{' || c == '-' || IsDigit(c)
  {
  }

  lemma JoinStart(xs: seq<string>, sep: string)
    requires |xs| >= 1 && xs[0] != []
    ensures Join(xs, sep) != [] && Join(xs, sep)[0] == xs[0][0]
  {
  }

  lemma JoinFrom(xs: seq<string>, k: nat, sep: string)
    requires k < |xs|
    ensures Join(xs[k..], sep) == if k == |xs| - 1 then xs[k] else xs[k] + sep + Join(xs[k + 1..], sep)
  {
    assert xs[k..][1..] == xs[k + 1..];
  }

  /** Encoded text never starts with whitespace, so the parser reads it as a token. */
  lemma ParseValueOfEncoded(j: Json, indent: Option<nat>, level: nat, rest: string)
    ensures ParseValue(Encode(j, indent, level) + rest) == ParseToken(Encode(j, indent, level) + rest)
  {
    EncodeStart(j, indent, level);
  }

  lemma ParseLiteral(j: Json, rest: string)
    requires j.JNull? || j.JBool?
    ensures ParseToken(Encode(j, None, 0) + rest) == Some((j, rest))
  {
    var s := Encode(j, None, 0) + rest;
    if j.JNull? {
      assert s[..4] == "null" && s[4..] == rest;
    } else if j.b {
      assert s[..4] == "true" && s[4..] == rest;
    } else {
      assert s[0] == 'f';
      assert s[..5] == "false" && s[5..] == rest;
    }
  }

  lemma ParseIntToken(i: int, rest: string)
    requires Delimited(rest)
    ensures ParseToken(Encode(JInt(i), None, 0) + rest) == Some((JInt(i), rest))
  {
    var s := Encode(JInt(i), None, 0) + rest;
    EncodeStart(JInt(i), None, 0);
    var c := s[0];
    assert c == '-' || IsDigit(c);
    assert !StartsWith(s, "null") by {
      if |s| >= 4 { assert s[..4][0] == c; }
    }
    assert !StartsWith(s, "true") by {
      if |s| >= 4 { assert s[..4][0] == c; }
    }
    assert !StartsWith(s, "false") by {
      if |s| >= 5 { assert s[..5][0] == c; }
    }
    ParseIntText(i, rest);
  }

  lemma ParseStrToken(str: string, rest: string)
    ensures ParseToken(Encode(JStr(str), None, 0) + rest) == Some((JStr(str), rest))
  {
    var s := Encode(JStr(str), None, 0) + rest;
    assert s[1..] == Escape(str) + "\"" + rest;
    ParseQuoted(str, rest);
  }

  lemma ParseScalar(j: Json, rest: string)
    requires j.JNull? || j.JBool? || j.JInt? || j.JStr?
    requires Delimited(rest)
    ensures forall indent, level :: ParseToken(Encode(j, indent, level) + rest) == Some((j, rest))
  {
    forall indent, level ensures Encode(j, indent, level) == Encode(j, None, 0) { }
    match j
    case JNull => ParseLiteral(j, rest);
    case JBool(_) => ParseLiteral(j, rest);
    case JInt(i) => ParseIntToken(i, rest);
    case JStr(str) => ParseStrToken(str, rest);
  }

  /** The parser reads back every encoded value, in either layout and at any nesting. */
  lemma {:induction false} ParseEncoded(j: Json, indent: Option<nat>, level: nat, rest: string)
    requires Delimited(rest)
    ensures ParseValue(Encode(j, indent, level) + rest) == Some((j, rest))
    decreases j, Width(j) + 2
  {
    ParseValueOfEncoded(j, indent, level, rest);
    match j
    case JArr(items) =>
      ParseEncodedArray(j, indent, level, rest);
    case JObj(ms) =>
      ParseEncodedObject(j, indent, level, rest);
    case _ =>
      ParseScalar(j, rest);
  }

  lemma ParseTokenBracket(x: string)
    ensures ParseToken("[" + x) == ParseArray(x)
  {
    assert ("[" + x)[1..] == x;
  }

  lemma ParseTokenBrace(x: string)
    ensures ParseToken("{" + x) == ParseObject(x)
  {
    assert ("{" + x)[1..] == x;
  }

  lemma ParseArrayNonEmpty(x: string, items: seq<Json>, rest: string)
    requires SkipWs(x) != [] && SkipWs(x)[0] != ']'
    requires ParseElements(x) == Some((items, rest))
    ensures ParseArray(x) == Some((JArr(items), rest))
  {
  }

  lemma ParseObjectNonEmpty(x: string, ms: seq<(string, Json)>, rest: string)
    requires SkipWs(x) != [] && SkipWs(x)[0] != '}'
    requires ParseMembers(x) == Some((ms, rest))
    ensures ParseObject(x) == Some((JObj(ms), rest))
  {
  }

  lemma ParseElementsLast(x: string, v: Json, after: string)
    requires ParseValue(x) == Some((v, after))
    requires SkipWs(after) != [] && SkipWs(after)[0] == ']'
    ensures ParseElements(x) == Some(([v], SkipWs(after)[1..]))
  {
  }

  lemma ParseElementsMore(x: string, v: Json, after: string, vs: seq<Json>, rest: string)
    requires ParseValue(x) == Some((v, after))
    requires SkipWs(after) != [] && SkipWs(after)[0] == ','
    requires ParseElements(SkipWs(after)[1..]) == Some((vs, rest))
    ensures ParseElements(x) == Some(([v] + vs, rest))
  {
  }

  lemma Assoc(a: string, b: string, c: string)
    ensures (a + b) + c == a + (b + c)
  {
  }

  lemma DropFirst(a: string, b: string)
    requires a != []
    ensures (a + b)[0] == a[0] && (a + b)[1..] == a[1..] + b
  {
  }

  /** The layout of an encoded array or object followed by `rest`. */
  lemma Bracketed(a: string, b: string, c: string, d: string, e: string, f: string)
    ensures a + b + c + d + e + f == a + (b + (c + (d + (e + f))))
  {
  }

  /** Leading whitespace does not change the value read. */
  lemma ParseValueAfterWs(pre: string, t: string)
    requires AllWs(pre)
    ensures ParseValue(pre + t) == ParseValue(t)
  {
    SkipWsPrefix(pre, t);
  }

  /** The key of a member `"key": ` followed by `u`, read by the member parser. */
  lemma ParseMemberHead(key: string, u: string)
    ensures var t := (Quote(key) + ": ") + u;
            && t != [] && t[0] == '"'
            && ParseString(t[1..]) == Some((key, ": " + u))
            && SkipWs(": " + u) == ": " + u
            && ParseValue((": " + u)[1..]) == ParseValue(u)
  {
    var t := (Quote(key) + ": ") + u;
    assert t == "\"" + (Escape(key) + "\"" + (": " + u));
    ParseQuoted(key, ": " + u);
    assert (": " + u)[1..] == " " + u;
    ParseValueAfterWs(" ", u);
  }

  lemma ParseMembersLast(t: string, m: (string, Json), r1: string, r2: string)
    requires t != [] && t[0] == '"' && ParseString(t[1..]) == Some((m.0, r1))
    requires SkipWs(r1) != [] && SkipWs(r1)[0] == ':' && ParseValue(SkipWs(r1)[1..]) == Some((m.1, r2))
    requires SkipWs(r2) != [] && SkipWs(r2)[0] == '}'
    ensures ParseMembersAt(t) == Some(([m], SkipWs(r2)[1..]))
  {
  }

  lemma ParseMembersMore(t: string, m: (string, Json), r1: string, r2: string,
                         ms: seq<(string, Json)>, rest: string)
    requires t != [] && t[0] == '"' && ParseString(t[1..]) == Some((m.0, r1))
    requires SkipWs(r1) != [] && SkipWs(r1)[0] == ':' && ParseValue(SkipWs(r1)[1..]) == Some((m.1, r2))
    requires SkipWs(r2) != [] && SkipWs(r2)[0] == ','
    requires ParseMembers(SkipWs(r2)[1..]) == Some((ms, rest))
    ensures ParseMembersAt(t) == Some(([m] + ms, rest))
  {
  }

  lemma SliceAll<T>(s: seq<T>)
    ensures s[0..] == s
  {
  }

  lemma SliceCons<T>(s: seq<T>, k: nat)
    requires k < |s|
    ensures s[k..] == [s[k]] + s[k + 1..]
    ensures k == |s| - 1 ==> s[k..] == [s[k]]
  {
  }

  lemma {:induction false} ParseEncodedArray(j: Json, indent: Option<nat>, level: nat, rest: string)
    requires j.JArr? && Delimited(rest)
    ensures ParseToken(Encode(j, indent, level) + rest) == Some((j, rest))
    decreases j, Width(j) + 1, 1
  {
    var items := j.items;
    if items == [] {
      assert Encode(j, indent, level) + rest == "[" + ("]" + rest);
      ParseTokenBracket("]" + rest);
      assert ("]" + rest)[1..] == rest;
    } else {
      ParseEncodedArrayNonEmpty(j, indent, level, rest);
    }
  }

  /** A non-empty array: the opening bracket, the items between separators, the closing bracket. */
  lemma {:induction false} ParseEncodedArrayNonEmpty(j: Json, indent: Option<nat>, level: nat, rest: string)
    requires j.JArr? && j.items != [] && Delimited(rest)
    ensures ParseToken(Encode(j, indent, level) + rest) == Some((j, rest))
    decreases j, Width(j) + 1, 0
  {
    var items := j.items;
    var inner := level + 1;
    var xs := ItemTexts(items, indent, inner);
    var sep := Separator(indent, inner);
    var open := Newline(indent, inner);
    var close := Newline(indent, level);
    var body := Join(xs, sep);
    var tail := close + ("]" + rest);
    EncodeArrayShape(items, indent, level);
    Bracketed("[", open, body, close, "]", rest);
    ParseTokenBracket(open + (body + tail));
    NewlineIsWs(indent, inner);
    NewlineIsWs(indent, level);
    DelimitedClose(close, ']', rest);
    EncodeStart(items[0], indent, inner);
    JoinStart(xs, sep);
    SkipWsPrefix(open, body + tail);
    assert (body + tail)[0] == body[0];
    assert SkipWs(open + (body + tail)) == body + tail;
    SliceAll(xs);
    ParseItemsFrom(j, 0, indent, inner, open, tail, rest);
    SliceAll(items);
    ParseArrayNonEmpty(open + (body + tail), items, rest);
  }

  lemma {:induction false} ParseEncodedObject(j: Json, indent: Option<nat>, level: nat, rest: string)
    requires j.JObj? && Delimited(rest)
    ensures ParseToken(Encode(j, indent, level) + rest) == Some((j, rest))
    decreases j, Width(j) + 1, 1
  {
    var ms := j.members;
    if ms == [] {
      assert Encode(j, indent, level) + rest == "{" + ("}" + rest);
      ParseTokenBrace("}" + rest);
      assert ("}" + rest)[1..] == rest;
    } else {
      ParseEncodedObjectNonEmpty(j, indent, level, rest);
    }
  }

  /** A non-empty object: the opening brace, the members between separators, the closing brace. */
  lemma {:induction false} ParseEncodedObjectNonEmpty(j: Json, indent: Option<nat>, level: nat, rest: string)
    requires j.JObj? && j.members != [] && Delimited(rest)
    ensures ParseToken(Encode(j, indent, level) + rest) == Some((j, rest))
    decreases j, Width(j) + 1, 0
  {
    var ms := j.members;
    var inner := level + 1;
    var xs := MemberTexts(ms, indent, inner);
    var sep := Separator(indent, inner);
    var open := Newline(indent, inner);
    var close := Newline(indent, level);
    var body := Join(xs, sep);
    var tail := close + ("}" + rest);
    EncodeObjectShape(ms, indent, level);
    Bracketed("{", open, body, close, "}", rest);
    ParseTokenBrace(open + (body + tail));
    NewlineIsWs(indent, inner);
    NewlineIsWs(indent, level);
    DelimitedClose(close, '}', rest);
    assert xs[0] == (Quote(ms[0].0) + ": ") + Encode(ms[0].1, indent, inner);
    assert xs[0][0] == '"';
    JoinStart(xs, sep);
    SkipWsPrefix(open, body + tail);
    assert (body + tail)[0] == body[0];
    assert SkipWs(open + (body + tail)) == body + tail;
    SliceAll(xs);
    ParseMembersFrom(j, 0, indent, inner, open, tail, rest);
    SliceAll(ms);
    ParseObjectNonEmpty(open + (body + tail), ms, rest);
  }

  /** The whitespace and closing bracket after the last item. */
  lemma DelimitedClose(close: string, bracket: char, rest: string)
    requires AllWs(close) && (bracket == ']' || bracket == '}')
    ensures Delimited(close + ([bracket] + rest))
    ensures SkipWs(close + ([bracket] + rest)) == [bracket] + rest
  {
    var t := [bracket] + rest;
    SkipWsPrefix(close, t);
    assert t[0] == bracket;
    if close != [] {
      assert (close + t)[0] == close[0];
    }
  }

  /** What follows item `k` of a joined list: the closing `tail`, or a separator and the next items. */
  lemma JoinAfter(xs: seq<string>, k: nat, sep: string, tail: string)
    requires k < |xs|
    ensures Join(xs[k..], sep) + tail
            == xs[k] + (if k == |xs| - 1 then tail else sep + (Join(xs[k + 1..], sep) + tail))
  {
    JoinFrom(xs, k, sep);
    if k < |xs| - 1 {
      var rest := Join(xs[k + 1..], sep);
      Assoc(xs[k] + sep, rest, tail);
      Assoc(xs[k], sep, rest + tail);
    }
  }

  /** The element parser reads back the encoded items `k..` of an array and its closing bracket. */
  lemma {:induction false} ParseItemsFrom(j: Json, k: nat, indent: Option<nat>, inner: nat,
                                          pre: string, tail: string, rest: string)
    requires j.JArr? && k < |j.items|
    requires AllWs(pre) && Delimited(tail) && SkipWs(tail) == "]" + rest
    ensures ParseElements(pre + (Join(ItemTexts(j.items, indent, inner)[k..], Separator(indent, inner)) + tail))
            == Some((j.items[k..], rest))
    decreases j, Width(j) - k
  {
    var items := j.items;
    var xs := ItemTexts(items, indent, inner);
    var sep := Separator(indent, inner);
    var whole := pre + (Join(xs[k..], sep) + tail);
    var next := if k == |items| - 1 then "" else Join(xs[k + 1..], sep);
    var after := if k == |items| - 1 then tail else sep + (next + tail);
    assert Delimited(after) && (k < |items| - 1 ==> after[0] == ',' && after[1..] == sep[1..] + (next + tail)) by {
      SeparatorShape(indent, inner);
      if k < |items| - 1 {
        DropFirst(sep, next + tail);
      }
    }
    assert ParseValue(whole) == Some((items[k], after)) by {
      JoinAfter(xs, k, sep, tail);
      ParseValueAfterWs(pre, xs[k] + after);
      ParseEncoded(items[k], indent, inner, after);
    }
    SliceCons(items, k);
    if k == |items| - 1 {
      assert SkipWs(after)[1..] == rest;
      ParseElementsLast(whole, items[k], after);
    } else {
      assert SkipWs(after) == after;
      assert ParseElements(sep[1..] + (next + tail)) == Some((items[k + 1..], rest)) by {
        SeparatorShape(indent, inner);
        ParseItemsFrom(j, k + 1, indent, inner, sep[1..], tail, rest);
      }
      ParseElementsMore(whole, items[k], after, items[k + 1..], rest);
    }
  }

  /** Member `k` of an object, followed by `after`, read by the member parser. */
  lemma {:induction false} ParseMemberAt(j: Json, k: nat, indent: Option<nat>, inner: nat, after: string)
    requires j.JObj? && k < |j.members| && Delimited(after)
    ensures var ev := Encode(j.members[k].1, indent, inner);
            var t := (Quote(j.members[k].0) + ": ") + (ev + after);
            var r1 := ": " + (ev + after);
            && t != [] && t[0] == '"' && ParseString(t[1..]) == Some((j.members[k].0, r1))
            && SkipWs(r1) == r1 && SkipWs(r1) != [] && SkipWs(r1)[0] == ':'
            && ParseValue(SkipWs(r1)[1..]) == Some((j.members[k].1, after))
    decreases j, 0, 0
  {
    assert (": " + (Encode(j.members[k].1, indent, inner) + after))[0] == ':';
    ParseMemberHead(j.members[k].0, Encode(j.members[k].1, indent, inner) + after);
    ParseEncoded(j.members[k].1, indent, inner, after);
  }

  /** The member parser reads back the encoded members `k..` of an object and its closing brace. */
  lemma {:induction false} ParseMembersFrom(j: Json, k: nat, indent: Option<nat>, inner: nat,
                                            pre: string, tail: string, rest: string)
    requires j.JObj? && k < |j.members|
    requires AllWs(pre) && Delimited(tail) && SkipWs(tail) == "}" + rest
    ensures ParseMembers(pre + (Join(MemberTexts(j.members, indent, inner)[k..], Separator(indent, inner)) + tail))
            == Some((j.members[k..], rest))
    decreases j, Width(j) - k, 2
  {
    var ms := j.members;
    var xs := MemberTexts(ms, indent, inner);
    var sep := Separator(indent, inner);
    var key := ms[k].0;
    var ev := Encode(ms[k].1, indent, inner);
    assert xs[k] == (Quote(key) + ": ") + ev;
    var after := if k == |ms| - 1 then tail else sep + (Join(xs[k + 1..], sep) + tail);
    MemberTextAt(xs, k, key, ev, sep, pre, tail, after);
    ParseMembersRest(j, k, indent, inner, tail, rest);
  }

  /** The member parser skips the leading whitespace and lands on the quoted key of member `k`. */
  lemma MemberTextAt(xs: seq<string>, k: nat, key: string, ev: string, sep: string,
                     pre: string, tail: string, after: string)
    requires k < |xs| && xs[k] == (Quote(key) + ": ") + ev && AllWs(pre)
    requires after == if k == |xs| - 1 then tail else sep + (Join(xs[k + 1..], sep) + tail)
    ensures ParseMembers(pre + (Join(xs[k..], sep) + tail)) == ParseMembersAt((Quote(key) + ": ") + (ev + after))
  {
    var t := (Quote(key) + ": ") + (ev + after);
    JoinAfter(xs, k, sep, tail);
    Assoc(Quote(key) + ": ", ev, after);
    SkipWsPrefix(pre, t);
    ParseMemberHead(key, ev + after);
  }

  /** Member `k` and the members after it, read from the encoded text. */
  lemma {:induction false} ParseMembersRest(j: Json, k: nat, indent: Option<nat>, inner: nat, tail: string, rest: string)
    requires j.JObj? && k < |j.members|
    requires Delimited(tail) && SkipWs(tail) == "}" + rest
    ensures var xs := MemberTexts(j.members, indent, inner);
            var sep := Separator(indent, inner);
            var after := if k == |j.members| - 1 then tail else sep + (Join(xs[k + 1..], sep) + tail);
            ParseMembersAt((Quote(j.members[k].0) + ": ") + (Encode(j.members[k].1, indent, inner) + after))
            == Some((j.members[k..], rest))
    decreases j, Width(j) - k, 1
  {
    var ms := j.members;
    if k == |ms| - 1 {
      var key := ms[k].0;
      var ev := Encode(ms[k].1, indent, inner);
      var t := (Quote(key) + ": ") + (ev + tail);
      ParseMemberAt(j, k, indent, inner, tail);
      SliceCons(ms, k);
      ParseMembersLast(t, ms[k], ": " + (ev + tail), tail);
    } else {
      ParseMembersRestMore(j, k, indent, inner, tail, rest);
    }
  }

  /** Member `k`, a separator, and the members after it. */
  lemma {:induction false} ParseMembersRestMore(j: Json, k: nat, indent: Option<nat>, inner: nat, tail: string, rest: string)
    requires j.JObj? && k < |j.members| - 1
    requires Delimited(tail) && SkipWs(tail) == "}" + rest
    ensures var xs := MemberTexts(j.members, indent, inner);
            var sep := Separator(indent, inner);
            var after := sep + (Join(xs[k + 1..], sep) + tail);
            ParseMembersAt((Quote(j.members[k].0) + ": ") + (Encode(j.members[k].1, indent, inner) + after))
            == Some((j.members[k..], rest))
    decreases j, Width(j) - k, 0
  {
    var ms := j.members;
    var xs := MemberTexts(ms, indent, inner);
    var sep := Separator(indent, inner);
    var next := Join(xs[k + 1..], sep);
    var after := sep + (next + tail);
    assert after[0] == ',' && after[1..] == sep[1..] + (next + tail) by {
      SeparatorShape(indent, inner);
      DropFirst(sep, next + tail);
    }
    assert ParseMembers(after[1..]) == Some((ms[k + 1..], rest)) by {
      SeparatorShape(indent, inner);
      ParseMembersFrom(j, k + 1, indent, inner, sep[1..], tail, rest);
    }
    ParseMemberThenMore(j, k, indent, inner, after, ms[k + 1..], rest);
    SliceCons(ms, k);
  }

  /** Member `k` followed by a comma and the members the parser reads after it. */
  lemma ParseMemberThenMore(j: Json, k: nat, indent: Option<nat>, inner: nat, after: string,
                            more: seq<(string, Json)>, rest: string)
    requires j.JObj? && k < |j.members| && after != [] && after[0] == ','
    requires ParseMembers(after[1..]) == Some((more, rest))
    ensures ParseMembersAt((Quote(j.members[k].0) + ": ") + (Encode(j.members[k].1, indent, inner) + after))
            == Some(([j.members[k]] + more, rest))
    decreases j, 0, 1
  {
    var ev := Encode(j.members[k].1, indent, inner);
    assert Delimited(after) && SkipWs(after) == after;
    ParseMemberAt(j, k, indent, inner, after);
    ParseMembersMore((Quote(j.members[k].0) + ": ") + (ev + after), j.members[k], ": " + (ev + after), after, more, rest);
  }

  /** `json.loads(json.dumps(j)) == j`, compact or indented. */
  lemma LoadsDumps(j: Json, indent: Option<nat>)
    ensures Loads(Dumps(j, indent)) == Some(j)
  {
    ParseEncoded(j, indent, 0, "");
    assert Dumps(j, indent) + "" == Dumps(j, indent);
  }
}
