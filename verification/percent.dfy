/** Percent-decoding as done by `urllib.unquote`, and the matching encoder
    `urllib.quote` that a client uses to build request paths.

    Decoding is modelled at the level of single escapes: `%XY`, with `X` and
    `Y` hexadecimal digits of either case, becomes the character whose code
    is `XY`; a `%` not followed by two hexadecimal digits is kept as it is. */
module Percent {

  /** The value of a hexadecimal digit, or -1 for any other character. */
  function HexValue(c: char): (v: int)
    ensures -1 <= v < 16
  {
    if '0' <= c <= '9' then c as int - '0' as int
    else if 'a' <= c <= 'f' then c as int - 'a' as int + 10
    else if 'A' <= c <= 'F' then c as int - 'A' as int + 10
    else -1
  }

  predicate IsHex(c: char) {
    HexValue(c) >= 0
  }

  /** The upper-case hexadecimal digit for `v`, as `quote` writes it. */
  function HexDigit(v: nat): (c: char)
    requires v < 16
    ensures HexValue(c) == v
  {
    if v < 10 then ('0' as int + v) as char else ('A' as int + v - 10) as char
  }

  /** `urllib.unquote`. */
  function Unquote(s: string): (r: string)
    ensures |r| <= |s|
    ensures '%' !in s ==> r == s
    decreases |s|
  {
    if |s| == 0 then ""
    else if |s| >= 3 && s[0] == '%' && IsHex(s[1]) && IsHex(s[2]) then
      [(16 * HexValue(s[1]) + HexValue(s[2])) as char] + Unquote(s[3..])
    else
      [s[0]] + Unquote(s[1..])
  }

  /** A character other than `%` is copied and decoding goes on after it. */
  lemma UnquotePlain(c: char, s: string)
    requires c != '%'
    ensures Unquote([c] + s) == [c] + Unquote(s)
  {
    assert ([c] + s)[1..] == s;
  }

  /** Characters the encoder leaves alone: letters, digits, `-`, `.`, `_`,
      `~` and the separator `/`. */
  predicate Unreserved(c: char) {
    || 'a' <= c <= 'z' || 'A' <= c <= 'Z' || '0' <= c <= '9'
    || c == '-' || c == '.' || c == '_' || c == '~' || c == '/'
  }

  /** Characters that fit in one octet, the only ones the model encodes. */
  predicate Octets(s: string) {
    forall i :: 0 <= i < |s| ==> s[i] as int < 256
  }

  function QuoteChar(c: char): (r: string)
    requires c as int < 256
  {
    if Unreserved(c) then [c]
    else ['%', HexDigit(c as int / 16), HexDigit(c as int % 16)]
  }

  /** A Latin-1 percent-encoder in the style of `urllib.quote`: every
      character outside the unreserved set becomes one `%XY` escape of its
      code. */
  function Quote(s: string): (r: string)
    requires Octets(s)
    ensures |s| <= |r| <= 3 * |s|
  {
    if s == [] then [] else QuoteChar(s[0]) + Quote(s[1..])
  }

  /** Encoding distributes over concatenation, so a client may encode path
      segments one by one and join them with `/` and `.`. */
  lemma {:induction false} QuoteAppend(a: string, b: string)
    requires Octets(a) && Octets(b)
    ensures Octets(a + b)
    ensures Quote(a + b) == Quote(a) + Quote(b)
  {
    OctetsAppend(a, b);
    if a == [] {
      assert a + b == b;
    } else {
      OctetsTail(a);
      QuoteAppend(a[1..], b);
      QuoteAppendStep(a, b);
    }
  }

  /** The inductive step of `QuoteAppend`, given the claim for the tail. */
  lemma QuoteAppendStep(a: string, b: string)
    requires Octets(a) && Octets(b) && a != []
    requires Octets(a[1..]) && Octets(a + b)
    requires Quote(a[1..] + b) == Quote(a[1..]) + Quote(b)
    ensures Quote(a + b) == Quote(a) + Quote(b)
  {
    var c := a + b;
    assert c[0] == a[0] && c[1..] == a[1..] + b;
    QuoteHead(a);
    QuoteHead(c);
    Assoc(QuoteChar(a[0]), Quote(a[1..]), Quote(b));
  }

  /** One step of `Quote`. */
  lemma QuoteHead(a: string)
    requires Octets(a) && a != []
    ensures a[0] as int < 256 && Octets(a[1..])
    ensures Quote(a) == QuoteChar(a[0]) + Quote(a[1..])
  {
    OctetsTail(a);
  }

  lemma OctetsAppend(a: string, b: string)
    requires Octets(a) && Octets(b)
    ensures Octets(a + b)
  {
    forall i | 0 <= i < |a + b|
      ensures (a + b)[i] as int < 256
    {
      if i < |a| { assert (a + b)[i] == a[i]; } else { assert (a + b)[i] == b[i - |a|]; }
    }
  }

  lemma Assoc(x: string, y: string, z: string)
    ensures x + (y + z) == x + y + z
  {
  }

  /** Decoding undoes the encoding of one character. */
  lemma UnquoteQuoteChar(c: char, tail: string)
    requires c as int < 256
    ensures Unquote(QuoteChar(c) + tail) == [c] + Unquote(tail)
  {
    var s := QuoteChar(c) + tail;
    if Unreserved(c) {
      assert s[0] == c && s[1..] == tail;
    } else {
      assert s[0] == '%' && IsHex(s[1]) && IsHex(s[2]);
      assert 16 * HexValue(s[1]) + HexValue(s[2]) == c as int;
      assert s[3..] == tail;
    }
  }

  lemma OctetsTail(a: string)
    requires Octets(a) && a != []
    ensures a[0] as int < 256 && Octets(a[1..])
  {
    assert forall i :: 0 <= i < |a[1..]| ==> a[1..][i] == a[i + 1];
  }

  lemma QuoteCons(a: string, rest: string)
    requires Octets(a) && a != []
    ensures a[0] as int < 256 && Octets(a[1..])
    ensures Quote(a) + rest == QuoteChar(a[0]) + (Quote(a[1..]) + rest)
  {
    OctetsTail(a);
  }

  lemma ConsAppend(a: string, u: string)
    requires a != []
    ensures [a[0]] + (a[1..] + u) == a + u
  {
  }

  /** The inductive step of `UnquoteQuotePrefix`: peeling off the first
      encoded character. */
  lemma UnquoteQuoteStep(a: string, rest: string)
    requires Octets(a) && a != []
    requires Octets(a[1..]) && Unquote(Quote(a[1..]) + rest) == a[1..] + Unquote(rest)
    ensures Unquote(Quote(a) + rest) == a + Unquote(rest)
  {
    QuoteCons(a, rest);
    UnquoteQuoteChar(a[0], Quote(a[1..]) + rest);
    ConsAppend(a, Unquote(rest));
  }

  /** Decoding undoes the encoding of a prefix and leaves the rest to be
      decoded on its own. */
  lemma {:induction false} UnquoteQuotePrefix(a: string, rest: string)
    requires Octets(a)
    ensures Unquote(Quote(a) + rest) == a + Unquote(rest)
  {
    if a == [] {
      assert Quote(a) + rest == rest;
    } else {
      OctetsTail(a);
      UnquoteQuotePrefix(a[1..], rest);
      UnquoteQuoteStep(a, rest);
    }
  }

  /** Round trip: decoding an encoded path gives the path back. */
  lemma {:induction false} UnquoteQuote(s: string)
    requires Octets(s)
    ensures Unquote(Quote(s)) == s
  {
    UnquoteQuotePrefix(s, "");
    assert Quote(s) + "" == Quote(s);
    assert s + "" == s;
  }

  /** Decoding is not idempotent: an escaped `%` survives one decoding as a
      new escape `%XY`, which only a second decoding turns into a character. */
  lemma DecodingTwiceDiffers(x: char, y: char)
    requires IsHex(x) && IsHex(y)
    ensures Unquote(['%', '2', '5', x, y]) == ['%', x, y]
    ensures Unquote(['%', x, y]) == [(16 * HexValue(x) + HexValue(y)) as char]
  {
    var once := ['%', '2', '5', x, y];
    assert once[3..] == [x, y];
    assert Unquote([x, y]) == [x, y];
    assert ['%', x, y][3..] == "";
  }

}
