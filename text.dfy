/** Python `str` operations the application relies on: `sep.join`,
    `s.split(c)`, the `in` substring test, `strip()`, `lower()`, the decimal
    text of an `int` and `repr` of strings, lists and pairs. */
module Text {

  // ---------------------------------------------------------------------
  // join / split
  // ---------------------------------------------------------------------

  /** `sep.join(xs)` */
  function Join(xs: seq<string>, sep: string): string
  {
    if |xs| == 0 then "" else if |xs| == 1 then xs[0] else xs[0] + sep + Join(xs[1..], sep)
  }

  /** Joining one more piece appends the separator and the piece. */
  lemma {:induction false} JoinSnoc(xs: seq<string>, y: string, sep: string)
    requires |xs| >= 1
    ensures Join(xs + [y], sep) == Join(xs, sep) + sep + y
  {
    if |xs| == 1 {
      assert xs + [y] == [xs[0], y];
      assert [xs[0], y][1..] == [y];
    } else {
      assert (xs + [y])[0] == xs[0] && (xs + [y])[1..] == xs[1..] + [y];
      JoinSnoc(xs[1..], y, sep);
      assert xs[0] + sep + (Join(xs[1..], sep) + sep + y) == (xs[0] + sep + Join(xs[1..], sep)) + sep + y;
    }
  }

  /** `s.split(c)` for a one-character separator: the pieces between occurrences of `c`. */
  function Split(s: string, c: char): (r: seq<string>)
    ensures |r| >= 1
    ensures forall i :: 0 <= i < |r| ==> c !in r[i]
  {
    if s == [] then [""]
    else
      var rest := Split(s[1..], c);
      if s[0] == c then [""] + rest else [[s[0]] + rest[0]] + rest[1..]
  }

  lemma JoinCons(x: string, ys: seq<string>, sep: string)
    ensures Join([x] + ys, sep) == if |ys| == 0 then x else x + sep + Join(ys, sep)
  {
    assert ([x] + ys)[1..] == ys;
  }

  /** Splitting a piece that holds no separator, followed by anything. */
  lemma {:induction false} SplitPiece(x: string, t: string, c: char)
    requires c !in x
    ensures Split(x + t, c) == [x + Split(t, c)[0]] + Split(t, c)[1..]
  {
    var st := Split(t, c);
    if x != [] {
      assert (x + t)[0] == x[0] != c;
      assert (x + t)[1..] == x[1..] + t;
      SplitPiece(x[1..], t, c);
      var rest := Split(x[1..] + t, c);
      assert rest[0] == x[1..] + st[0] && rest[1..] == st[1..];
      assert [x[0]] + (x[1..] + st[0]) == x + st[0];
    } else {
      assert x + t == t && x + st[0] == st[0];
      assert st == [st[0]] + st[1..];
    }
  }

  lemma SplitAtSeparator(x: string, t: string, c: char)
    requires c !in x
    ensures Split(x + [c] + t, c) == [x] + Split(t, c)
  {
    SplitPiece(x, [c] + t, c);
    assert x + [c] + t == x + ([c] + t);
    assert ([c] + t)[0] == c && ([c] + t)[1..] == t;
    assert Split([c] + t, c) == [""] + Split(t, c);
    assert x + "" == x;
  }

  /** Splitting undoes joining, when no piece holds the separator. */
  lemma {:induction false} SplitJoin(xs: seq<string>, c: char)
    requires |xs| >= 1
    requires forall i :: 0 <= i < |xs| ==> c !in xs[i]
    ensures Split(Join(xs, [c]), c) == xs
  {
    if |xs| == 1 {
      SplitPiece(xs[0], [], c);
      assert xs[0] + [] == xs[0];
    } else {
      SplitJoin(xs[1..], c);
      SplitAtSeparator(xs[0], Join(xs[1..], [c]), c);
      assert [xs[0]] + xs[1..] == xs;
    }
  }

  /** Joining undoes splitting. */
  lemma {:induction false} JoinSplit(s: string, c: char)
    ensures Join(Split(s, c), [c]) == s
  {
    if s != [] {
      var a, t := s[0], s[1..];
      assert s == [a] + t;
      var rest := Split(t, c);
      JoinSplit(t, c);
      assert rest == [rest[0]] + rest[1..];
      if a == c {
        SplitConsSeparator(t, c);
        JoinCons("", rest, [c]);
      } else {
        SplitConsOther(a, t, c);
        JoinFirstPrefix(a, rest[0], rest[1..], [c]);
      }
    }
  }

  /** A character in front of the first piece ends up in front of the joined text. */
  lemma JoinFirstPrefix(a: char, x: string, ys: seq<string>, sep: string)
    ensures Join([[a] + x] + ys, sep) == [a] + Join([x] + ys, sep)
  {
    JoinCons([a] + x, ys, sep);
    JoinCons(x, ys, sep);
    if |ys| > 0 {
      var tail := sep + Join(ys, sep);
      assert Join([[a] + x] + ys, sep) == [a] + x + tail;
      assert Join([x] + ys, sep) == x + tail;
      assert [a] + x + tail == [a] + (x + tail);
    }
  }

  /** Splitting at a separator splits each side independently. */
  lemma {:induction false} SplitAround(x: string, t: string, c: char)
    ensures Split(x + [c] + t, c) == Split(x, c) + Split(t, c)
  {
    if x == [] {
      assert x + [c] + t == [c] + t;
      SplitConsSeparator(t, c);
    } else {
      var w := x[1..] + [c] + t;
      SplitAround(x[1..], t, c);
      SplitAroundStep(x[0], x[1..], w, t, c);
      assert x + [c] + t == [x[0]] + w;
      assert x == [x[0]] + x[1..];
    }
  }

  lemma SplitAroundStep(a: char, y: string, w: string, t: string, c: char)
    requires Split(w, c) == Split(y, c) + Split(t, c)
    ensures Split([a] + w, c) == Split([a] + y, c) + Split(t, c)
  {
    if a == c {
      SplitAroundSeparator(y, w, t, c);
    } else {
      SplitAroundOther(a, y, w, t, c);
    }
  }

  lemma SplitAroundSeparator(y: string, w: string, t: string, c: char)
    requires Split(w, c) == Split(y, c) + Split(t, c)
    ensures Split([c] + w, c) == Split([c] + y, c) + Split(t, c)
  {
    var sy, st := Split(y, c), Split(t, c);
    SplitConsSeparator(w, c);
    SplitConsSeparator(y, c);
    AppendAssoc([""], sy, st);
  }

  lemma AppendAssoc<T>(a: seq<T>, b: seq<T>, c: seq<T>)
    ensures a + (b + c) == (a + b) + c
  {
  }

  lemma SplitAroundOther(a: char, y: string, w: string, t: string, c: char)
    requires a != c
    requires Split(w, c) == Split(y, c) + Split(t, c)
    ensures Split([a] + w, c) == Split([a] + y, c) + Split(t, c)
  {
    var sy, st := Split(y, c), Split(t, c);
    SplitConsOther(a, w, c);
    SplitConsOther(a, y, c);
    GlueFirst([a], sy, st);
  }

  /** One step of `Split`: a leading separator ends an empty piece... */
  lemma SplitConsSeparator(s: string, c: char)
    ensures Split([c] + s, c) == [""] + Split(s, c)
  {
    assert ([c] + s)[0] == c && ([c] + s)[1..] == s;
  }

  /** ... and any other leading character joins the first piece. */
  lemma SplitConsOther(a: char, s: string, c: char)
    requires a != c
    ensures Split([a] + s, c) == [[a] + Split(s, c)[0]] + Split(s, c)[1..]
  {
    assert ([a] + s)[0] == a && ([a] + s)[1..] == s;
  }

  lemma GlueFirst(h: string, u: seq<string>, v: seq<string>)
    requires |u| >= 1
    ensures ([h + u[0]] + u[1..]) + v == [h + (u + v)[0]] + (u + v)[1..]
  {
    assert (u + v)[0] == u[0];
    assert (u + v)[1..] == u[1..] + v;
  }

  /** A character that is in neither the pieces nor the separator is not in the joined text. */
  lemma {:induction false} JoinWithout(xs: seq<string>, sep: string, c: char)
    requires c !in sep && forall i :: 0 <= i < |xs| ==> c !in xs[i]
    ensures c !in Join(xs, sep)
  {
    if |xs| > 1 {
      JoinWithout(xs[1..], sep, c);
    }
  }

  // ---------------------------------------------------------------------
  // substring test (`sub in s`)
  // ---------------------------------------------------------------------

  predicate StartsWith(s: string, p: string)
  {
    |p| <= |s| && s[..|p|] == p
  }

  /** `sub in s` */
  predicate Contains(s: string, sub: string)
    decreases |s|
  {
    StartsWith(s, sub) || (|s| > 0 && Contains(s[1..], sub))
  }

  predicate OccursAt(s: string, sub: string, i: int)
  {
    0 <= i && i + |sub| <= |s| && s[i..i + |sub|] == sub
  }

  /** `sub in s` holds exactly when `sub` occurs at some position of `s`. */
  lemma {:induction false} ContainsIffOccurs(s: string, sub: string)
    ensures Contains(s, sub) <==> exists i :: OccursAt(s, sub, i)
  {
    if StartsWith(s, sub) {
      assert OccursAt(s, sub, 0);
    } else if |s| == 0 {
    } else {
      ContainsIffOccurs(s[1..], sub);
      if Contains(s[1..], sub) {
        var i :| OccursAt(s[1..], sub, i);
        assert s[1..][i..i + |sub|] == s[i + 1..i + 1 + |sub|];
        assert OccursAt(s, sub, i + 1);
      }
      forall i | OccursAt(s, sub, i) ensures Contains(s[1..], sub) {
        assert i != 0;
        assert s[1..][i - 1..i - 1 + |sub|] == s[i..i + |sub|];
        assert OccursAt(s[1..], sub, i - 1);
      }
    }
  }

  /** If `p + q` occurs in `s`, so does `p`. */
  lemma {:induction false} ContainsPrefixOf(s: string, p: string, q: string)
    requires Contains(s, p + q)
    ensures Contains(s, p)
  {
    if StartsWith(s, p + q) {
      assert s[..|p|] == (p + q)[..|p|] == p;
    } else {
      ContainsPrefixOf(s[1..], p, q);
    }
  }

  // ---------------------------------------------------------------------
  // strip()
  // ---------------------------------------------------------------------

  /** `c.isspace()`: the characters Python treats as whitespace. */
  predicate IsSpace(c: char)
  {
    var n := c as int;
    (0x09 <= n <= 0x0D) || (0x1C <= n <= 0x20) || n == 0x85 || n == 0xA0 || n == 0x1680
    || (0x2000 <= n <= 0x200A) || n == 0x2028 || n == 0x2029 || n == 0x202F
    || n == 0x205F || n == 0x3000
  }

  predicate AllSpace(s: string)
  {
    forall k :: 0 <= k < |s| ==> IsSpace(s[k])
  }

  /** Length of the leading run of whitespace. */
  function LeadingSpace(s: string): (i: nat)
    ensures i <= |s| && AllSpace(s[..i])
    ensures i < |s| ==> !IsSpace(s[i])
  {
    if s == [] || !IsSpace(s[0]) then 0
    else
      var i := 1 + LeadingSpace(s[1..]);
      assert forall k :: 1 <= k < i ==> s[..i][k] == s[1..][..i - 1][k - 1];
      i
  }

  /** Length of `s` without its trailing run of whitespace. */
  function WithoutTrailingSpace(s: string): (j: nat)
    ensures j <= |s| && AllSpace(s[j..])
    ensures j > 0 ==> !IsSpace(s[j - 1])
  {
    if s == [] || !IsSpace(s[|s| - 1]) then |s|
    else
      var j := WithoutTrailingSpace(s[..|s| - 1]);
      assert s[j..] == s[..|s| - 1][j..] + [s[|s| - 1]];
      j
  }

  /** Where the stripped text starts in `s`. */
  function StripStart(s: string): nat
  {
    LeadingSpace(s[..WithoutTrailingSpace(s)])
  }

  /** `s.strip()`: `s` without leading and trailing whitespace. */
  function Strip(s: string): (r: string)
    ensures StripStart(s) + |r| <= |s| && r == s[StripStart(s)..StripStart(s) + |r|]
    ensures AllSpace(s[..StripStart(s)]) && AllSpace(s[StripStart(s) + |r|..])
    ensures r == [] || (!IsSpace(r[0]) && !IsSpace(r[|r| - 1]))
  {
    var j := WithoutTrailingSpace(s);
    var i := LeadingSpace(s[..j]);
    assert s[..j][..i] == s[..i];
    assert forall k :: i <= k < j ==> s[..j][k] == s[k];
    assert forall k :: 0 <= k < |s| - j ==> s[j..][k] == s[j + k];
    s[i..j]
  }

  /** Text without whitespace at either end is its own `strip()`. */
  lemma StripTrimmed(s: string)
    requires s == [] || (!IsSpace(s[0]) && !IsSpace(s[|s| - 1]))
    ensures Strip(s) == s
  {
    assert WithoutTrailingSpace(s) == |s|;
    assert s[..|s|] == s;
    assert LeadingSpace(s) == 0;
  }

  /** `strip()` is idempotent. */
  lemma StripIdempotent(s: string)
    ensures Strip(Strip(s)) == Strip(s)
  {
    StripTrimmed(Strip(s));
  }

  // ---------------------------------------------------------------------
  // lower()
  // ---------------------------------------------------------------------

  /** `c.lower()` for ASCII and Latin-1 letters; other characters are left as they are. */
  function LowerChar(c: char): char
  {
    var n := c as int;
    if 0x41 <= n <= 0x5A || (0xC0 <= n <= 0xDE && n != 0xD7) then (n + 0x20) as char else c
  }

  /** `s.lower()` */
  function Lower(s: string): (r: string)
    ensures |r| == |s|
    ensures forall i :: 0 <= i < |s| && 'A' <= s[i] <= 'Z' ==> r[i] as int == s[i] as int + 0x20
    ensures forall i :: 0 <= i < |s| && ('a' <= s[i] <= 'z' || '0' <= s[i] <= '9' || s[i] == ' ') ==> r[i] == s[i]
  {
    seq(|s|, i requires 0 <= i < |s| => LowerChar(s[i]))
  }

  /** Lower-casing twice is lower-casing once; lengths never change. */
  lemma LowerIdempotent(s: string)
    ensures |Lower(s)| == |s| && Lower(Lower(s)) == Lower(s)
  {
  }

  // ---------------------------------------------------------------------
  // decimal text of an int
  // ---------------------------------------------------------------------

  predicate IsDigit(c: char)
  {
    '0' <= c <= '9'
  }

  function DigitChar(d: nat): (c: char)
    requires d < 10
    ensures IsDigit(c) && (c as int) - ('0' as int) == d
  {
    (('0' as int) + d) as char
  }

  function DigitValue(c: char): nat
    requires IsDigit(c)
  {
    (c as int) - ('0' as int)
  }

  predicate AllDigits(s: string)
  {
    forall k :: 0 <= k < |s| ==> IsDigit(s[k])
  }

  /** `str(n)` for a natural number: decimal digits with no leading zero. */
  function NatText(n: nat): (r: string)
    ensures |r| >= 1 && AllDigits(r)
    ensures |r| > 1 ==> r[0] != '0'
    ensures n == 0 <==> r == "0"
  {
    if n < 10 then [DigitChar(n)] else NatText(n / 10) + [DigitChar(n % 10)]
  }

  /** `str(i)` for an int. */
  function IntText(i: int): string
  {
    if i < 0 then "-" + NatText(-i) else NatText(i)
  }

  /** The value of a run of decimal digits. */
  function DigitsValue(s: string): nat
    requires AllDigits(s)
  {
    if s == [] then 0 else DigitsValue(s[..|s| - 1]) * 10 + DigitValue(s[|s| - 1])
  }

  /** Reading the digits of `str(n)` gives back `n`. */
  lemma {:induction false} NatTextValue(n: nat)
    ensures DigitsValue(NatText(n)) == n
  {
    if n >= 10 {
      var t := NatText(n / 10) + [DigitChar(n % 10)];
      assert t[..|t| - 1] == NatText(n / 10);
      NatTextValue(n / 10);
    }
  }

  /** Length of the leading run of decimal digits. */
  function DigitRun(s: string): (k: nat)
    ensures k <= |s| && AllDigits(s[..k])
    ensures k < |s| ==> !IsDigit(s[k])
  {
    if s == [] || !IsDigit(s[0]) then 0
    else
      var k := 1 + DigitRun(s[1..]);
      assert forall j :: 1 <= j < k ==> s[..k][j] == s[1..][..k - 1][j - 1];
      k
  }

  lemma {:induction false} DigitRunOf(d: string, rest: string)
    requires AllDigits(d)
    requires rest == [] || !IsDigit(rest[0])
    ensures DigitRun(d + rest) == |d|
  {
    if d != [] {
      assert (d + rest)[1..] == d[1..] + rest;
      DigitRunOf(d[1..], rest);
    } else {
      assert d + rest == rest;
    }
  }

  // ---------------------------------------------------------------------
  // repr()
  // ---------------------------------------------------------------------

  /** Characters `repr` writes as `\xNN`: C0 controls, DEL, the C1 controls,
      the no-break space and the soft hyphen. */
  predicate ReprHexEscaped(c: char)
  {
    var n := c as int;
    n < 0x20 || (0x7F <= n <= 0xA0) || n == 0xAD
  }

  /** Lower-case hexadecimal digit of `d`. */
  function HexDigitChar(d: nat): char
    requires d < 16
  {
    if d < 10 then DigitChar(d) else (('a' as int) + d - 10) as char
  }

  /** The escape `repr` writes for one character inside quotes `q`. */
  function ReprChar(c: char, q: char): string
  {
    if c == q || c == '\\' then ['\\', c]
    else if c == '\t' then "\\t"
    else if c == '\n' then "\\n"
    else if c == '\r' then "\\r"
    else if ReprHexEscaped(c) then
      var n := c as int;
      "\\x" + [HexDigitChar(n / 16), HexDigitChar(n % 16)]
    else [c]
  }

  function ReprBody(s: string, q: char): string
  {
    if s == [] then "" else ReprChar(s[0], q) + ReprBody(s[1..], q)
  }

  /** The quote `repr` picks: double quotes only when `s` holds a single quote and no double quote. */
  function ReprQuote(s: string): char
  {
    if '\'' in s && '"' !in s then '"' else '\''
  }

  /** `repr(s)` for a string. */
  function StrRepr(s: string): string
  {
    var q := ReprQuote(s);
    [q] + ReprBody(s, q) + [q]
  }

  /** Printable ASCII text without quotes or backslashes. */
  predicate PlainText(s: string)
  {
    forall k :: 0 <= k < |s| ==> ' ' <= s[k] <= '~' && s[k] != '\'' && s[k] != '"' && s[k] != '\\'
  }

  /** `repr` of plain text is the text between single quotes. */
  lemma {:induction false} StrReprPlain(s: string)
    requires PlainText(s)
    ensures StrRepr(s) == "'" + s + "'"
  {
    ReprBodyPlain(s, '\'');
  }

  lemma {:induction false} ReprBodyPlain(s: string, q: char)
    requires PlainText(s) && (q == '\'' || q == '"')
    ensures ReprBody(s, q) == s
  {
    if s != [] {
      ReprBodyPlain(s[1..], q);
      assert s == [s[0]] + s[1..];
    }
  }

  /** `repr(xs)` for a list of strings: `['a', 'b']`. */
  function ListRepr(xs: seq<string>): string
  {
    "[" + Join(seq(|xs|, i requires 0 <= i < |xs| => StrRepr(xs[i])), ", ") + "]"
  }

  /** `repr((a, b))` for a pair of ints: `(a, b)`. */
  function PairRepr(a: int, b: int): string
  {
    "(" + IntText(a) + ", " + IntText(b) + ")"
  }

  lemma ReprCharOneLine(c: char, q: char)
    requires q != '\n'
    ensures '\n' !in ReprChar(c, q)
  {
    if ReprHexEscaped(c) && !(c == q || c == '\\' || c == '\t' || c == '\n' || c == '\r') {
      var n := c as int;
      assert HexDigitChar(n / 16) != '\n' && HexDigitChar(n % 16) != '\n';
    }
  }

  lemma {:induction false} ReprBodyOneLine(s: string, q: char)
    requires q != '\n'
    ensures '\n' !in ReprBody(s, q)
  {
    if s != [] {
      ReprCharOneLine(s[0], q);
      ReprBodyOneLine(s[1..], q);
    }
  }

  /** `repr` of a list of strings is a single line: newlines inside the strings are escaped. */
  lemma ListReprOneLine(xs: seq<string>)
    ensures '\n' !in ListRepr(xs)
  {
    var items := seq(|xs|, i requires 0 <= i < |xs| => StrRepr(xs[i]));
    forall i | 0 <= i < |xs|
      ensures '\n' !in items[i]
    {
      ReprBodyOneLine(xs[i], ReprQuote(xs[i]));
    }
    JoinWithout(items, ", ", '\n');
  }

  lemma PairReprOneLine(a: int, b: int)
    ensures '\n' !in PairRepr(a, b)
  {
    assert forall k :: 0 <= k < |IntText(a)| ==> IntText(a)[k] != '\n';
    assert forall k :: 0 <= k < |IntText(b)| ==> IntText(b)[k] != '\n';
  }
}
