/** The text that JSON gives a list of two strings and a number. */
module JsonText {
  import opened Wrappers
  import opened Decimal

  function HexDigit(d: nat): char
    requires d < 16
  {
    "0123456789abcdef"[d]
  }

  /** Short escapes, then four-digit escapes for the other control characters (RFC 8259, section 7). */
  function Escaped(c: char): (s: string)
    ensures s != [] && s[0] != '"'
  {
    if c == '"' then ['\\', '"']
    else if c == '\\' then ['\\', '\\']
    else if c as int == 8 then ['\\', 'b']
    else if c as int == 9 then ['\\', 't']
    else if c as int == 10 then ['\\', 'n']
    else if c as int == 12 then ['\\', 'f']
    else if c as int == 13 then ['\\', 'r']
    else if c as int < 32 then ['\\', 'u', '0', '0', HexDigit(c as int / 16), HexDigit(c as int % 16)]
    else [c]
  }

  /** The rest of a quoted string, its closing quote, and the text after it. */
  function Unclosed(s: string, rest: string): (r: string)
    ensures r != [] && (s == [] <==> r[0] == '"')
  {
    if s == [] then ['"'] + rest else Escaped(s[0]) + Unclosed(s[1..], rest)
  }

  /** A quoted string and the text after it. */
  function Quoted(s: string, rest: string): string {
    ['"'] + Unclosed(s, rest)
  }

  function PairText(a: string, b: string): string {
    ['['] + Quoted(a, [','] + Quoted(b, [']']))
  }

  function TripleText(a: string, b: string, n: nat): string {
    ['['] + Quoted(a, [','] + Quoted(b, [','] + (Digits(n) + [']'])))
  }

  // ---------- Reading it back ----------

  function HexValue(c: char): Option<nat> {
    if '0' <= c <= '9' then Some(c as int - '0' as int)
    else if 'a' <= c <= 'f' then Some(c as int - 'a' as int + 10)
    else None
  }

  /** One character of a quoted string, and the text after it (RFC 8259, section 7). */
  function ReadChar(t: string): Option<(char, string)> {
    if t == [] || t[0] == '"' || t[0] as int < 32 then None
    else if t[0] != '\\' then Some((t[0], t[1..]))
    else if |t| < 2 then None
    else match t[1]
      case '"' => Some(('"', t[2..]))
      case '\\' => Some(('\\', t[2..]))
      case '/' => Some(('/', t[2..]))
      case 'b' => Some((8 as char, t[2..]))
      case 't' => Some((9 as char, t[2..]))
      case 'n' => Some((10 as char, t[2..]))
      case 'f' => Some((12 as char, t[2..]))
      case 'r' => Some((13 as char, t[2..]))
      case 'u' => ReadHex(t)
      case _ => None
  }

  /** A four-digit escape of a character below 256. */
  function ReadHex(t: string): Option<(char, string)> {
    if |t| < 6 || t[2] != '0' || t[3] != '0' || HexValue(t[4]).None? || HexValue(t[5]).None? then None
    else Some(((HexValue(t[4]).value * 16 + HexValue(t[5]).value) as char, t[6..]))
  }

  /** A quoted string and the text after its closing quote. */
  function ReadRest(t: string): Option<(string, string)>
    decreases |t|
  {
    if t == [] then None
    else if t[0] == '"' then Some(("", t[1..]))
    else
      var first := ReadChar(t);
      if first.None? || |first.value.1| >= |t| then None
      else
        var later := ReadRest(first.value.1);
        if later.None? then None else Some(([first.value.0] + later.value.0, later.value.1))
  }

  lemma HexReads(d: nat)
    requires d < 16
    ensures HexValue(HexDigit(d)) == Some(d)
  {
    assert forall k :: 0 <= k < 10 ==> "0123456789abcdef"[k] == '0' + k as char;
    assert forall k :: 10 <= k < 16 ==> "0123456789abcdef"[k] == 'a' + (k - 10) as char;
  }

  lemma CharReadsBack(c: char, rest: string)
    ensures ReadChar(Escaped(c) + rest) == Some((c, rest))
  {
    var t := Escaped(c) + rest;
    assert t[|Escaped(c)|..] == rest;
    if c as int < 32 {
      HexReads(c as int / 16);
      HexReads(c as int % 16);
    }
  }

  /** A JSON reader gets the string back, and what follows it. */
  lemma {:induction false} QuotedReadsBack(s: string, rest: string)
    ensures ReadRest(Unclosed(s, rest)) == Some((s, rest))
  {
    if s == [] {
      assert Unclosed(s, rest)[1..] == rest;
    } else {
      CharReadsBack(s[0], Unclosed(s[1..], rest));
      QuotedReadsBack(s[1..], rest);
      assert s == [s[0]] + s[1..];
    }
  }

  predicate PlainChar(c: char) {
    c as int >= 32 && c != '"' && c != '\\'
  }

  /** A string without special characters is written as it is. */
  lemma {:induction false} PlainQuoted(s: string, rest: string)
    requires forall i :: 0 <= i < |s| ==> PlainChar(s[i])
    ensures Quoted(s, rest) == "\"" + s + "\"" + rest
  {
    if s != [] {
      PlainQuoted(s[1..], rest);
      assert Quoted(s[1..], rest)[1..] == s[1..] + "\"" + rest;
      assert s == [s[0]] + s[1..];
    } else {
      assert s == "";
    }
  }

  /** So such a pair and triple are written without spaces, in brackets. */
  lemma PlainTexts(a: string, b: string, n: nat)
    requires (forall i :: 0 <= i < |a| ==> PlainChar(a[i])) && forall i :: 0 <= i < |b| ==> PlainChar(b[i])
    ensures PairText(a, b) == "[" + ("\"" + a + "\"" + ("," + ("\"" + b + "\"" + "]")))
    ensures TripleText(a, b, n) == "[" + ("\"" + a + "\"" + ("," + ("\"" + b + "\"" + ("," + (Digits(n) + "]")))))
  {
    PlainQuoted(b, "]");
    PlainQuoted(a, "," + Quoted(b, "]"));
    PlainQuoted(b, "," + (Digits(n) + "]"));
    PlainQuoted(a, "," + Quoted(b, "," + (Digits(n) + "]")));
  }

  lemma HexInjective(a: nat, b: nat)
    requires a < 32 && b < 32
    requires HexDigit(a / 16) == HexDigit(b / 16) && HexDigit(a % 16) == HexDigit(b % 16)
    ensures a == b
  {
    assert forall d, e :: 0 <= d < e < 16 ==> "0123456789abcdef"[d] != "0123456789abcdef"[e];
  }

  /** No escape is the beginning of another character's escape. */
  lemma EscapedPrefixFree(a: char, b: char, x: string)
    requires Escaped(a) <= x && Escaped(b) <= x
    ensures a == b
  {
    assert Escaped(a)[0] == x[0] == Escaped(b)[0];
    if x[0] == '\\' {
      assert Escaped(a)[1] == x[1] == Escaped(b)[1];
      if x[1] == 'u' {
        assert Escaped(a)[4] == x[4] == Escaped(b)[4];
        assert Escaped(a)[5] == x[5] == Escaped(b)[5];
        HexInjective(a as int, b as int);
      }
    }
  }

  lemma SameTail<T>(a: seq<T>, p: seq<T>, q: seq<T>)
    requires a + p == a + q
    ensures p == q
  {
    assert p == (a + p)[|a|..];
    assert q == (a + q)[|a|..];
  }

  /** The closing quote can be found, so a quoted string and what follows it can be told apart. */
  lemma {:induction false} UnclosedInjective(a: string, b: string, p: string, q: string)
    requires Unclosed(a, p) == Unclosed(b, q)
    ensures a == b && p == q
  {
    if a == [] {
      SameTail(['"'], p, q);
    } else {
      EscapedPrefixFree(a[0], b[0], Unclosed(a, p));
      SameTail(Escaped(a[0]), Unclosed(a[1..], p), Unclosed(b[1..], q));
      UnclosedInjective(a[1..], b[1..], p, q);
      assert a == [a[0]] + a[1..] && b == [b[0]] + b[1..];
    }
  }

  lemma QuotedInjective(a: string, b: string, p: string, q: string)
    requires Quoted(a, p) == Quoted(b, q)
    ensures a == b && p == q
  {
    SameTail(['"'], Unclosed(a, p), Unclosed(b, q));
    UnclosedInjective(a, b, p, q);
  }

  lemma ListTextInjective(a: string, b: string, p: string, c: string, d: string, q: string)
    requires ['['] + Quoted(a, [','] + Quoted(b, p)) == ['['] + Quoted(c, [','] + Quoted(d, q))
    ensures a == c && b == d && p == q
  {
    SameTail(['['], Quoted(a, [','] + Quoted(b, p)), Quoted(c, [','] + Quoted(d, q)));
    QuotedInjective(a, c, [','] + Quoted(b, p), [','] + Quoted(d, q));
    SameTail([','], Quoted(b, p), Quoted(d, q));
    QuotedInjective(b, d, p, q);
  }

  /** The text of a pair determines both strings. */
  lemma PairTextInjective(a: string, b: string, c: string, d: string)
    requires PairText(a, b) == PairText(c, d)
    ensures a == c && b == d
  {
    ListTextInjective(a, b, [']'], c, d, [']']);
  }

  /** The text of a triple determines both strings and the number. */
  lemma TripleTextInjective(a: string, b: string, m: nat, c: string, d: string, n: nat)
    requires TripleText(a, b, m) == TripleText(c, d, n)
    ensures a == c && b == d && m == n
  {
    var t, u := Digits(m) + [']'], Digits(n) + [']'];
    ListTextInjective(a, b, [','] + t, c, d, [','] + u);
    SameTail([','], t, u);
    assert Digits(m) == t[..|t| - 1] && Digits(n) == u[..|u| - 1];
    DigitsInjective(m, n);
  }
}
