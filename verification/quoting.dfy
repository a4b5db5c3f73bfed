/** `clean_uri` (clean_uri_graph.py): Python's `urllib.parse.quote` with the safe
    set ``~@#$&()*!+=:;,?/'``. The string is UTF-8 encoded and every byte that is
    neither always safe (`A-Za-z0-9_.-~`) nor in the safe set becomes a `%XX`
    escape with upper-case hexadecimal digits. `quote`'s two shortcuts (an empty
    string, a string made only of safe bytes) return what the general path
    computes anyway, so they are not modelled separately. */
module Quoting {
  import opened Outcome
  import opened Utf8

  /** The `safe` argument `clean_uri` passes to `quote`. */
  const SafeExtra: string := "~@#$&()*!+=:;,?/'"

  /** The characters `quote` never escapes, whatever `safe` says. */
  predicate AlwaysSafe(c: char) {
    || ('A' <= c <= 'Z')
    || ('a' <= c <= 'z')
    || ('0' <= c <= '9')
    || c == '_' || c == '.' || c == '-' || c == '~'
  }

  /** One of the characters of `SafeExtra`, spelled out. */
  predicate InSafeExtra(c: char) {
    || c == '~' || c == '@' || c == '#' || c == '$' || c == '&' || c == '(' || c == ')'
    || c == '*' || c == '!' || c == '+' || c == '=' || c == ':' || c == ';' || c == ','
    || c == '?' || c == '/' || c == '\''
  }

  /** The spelled-out test is membership in the `safe` argument. */
  lemma {:induction false} InSafeExtraIsMembership(c: char)
    ensures InSafeExtra(c) <==> c in SafeExtra
  {
    if c in SafeExtra {
      var i :| 0 <= i < |SafeExtra| && SafeExtra[i] == c;
      assert SafeExtra == ['~', '@', '#', '$', '&', '(', ')', '*', '!', '+', '=', ':', ';', ',', '?', '/', '\''];
    }
  }

  /** The characters `clean_uri` leaves as they are. */
  predicate IsSafe(c: char) {
    AlwaysSafe(c) || InSafeExtra(c)
  }

  /** Every character of `s` is left as it is by `clean_uri`. */
  predicate AllSafe(s: string) {
    forall i :: 0 <= i < |s| ==> IsSafe(s[i])
  }

  /** Safe characters are ASCII, so each is its own UTF-8 byte. */
  lemma {:induction false} SafeIsAscii(c: char)
    requires IsSafe(c)
    ensures (c as int) < 0x80
  {
  }

  predicate IsSafeByte(b: Byte) {
    b < 0x80 && IsSafe(b as char)
  }

  const HexDigits: string := "0123456789ABCDEF"

  predicate IsUpperHex(c: char) {
    ('0' <= c <= '9') || ('A' <= c <= 'F')
  }

  /** The shape of `quote`'s output: a run of safe characters and `%XX`
      escapes with upper-case hexadecimal digits. */
  predicate WellQuoted(t: string)
    decreases |t|
  {
    || |t| == 0
    || (IsSafe(t[0]) && WellQuoted(t[1..]))
    || (|t| >= 3 && t[0] == '%' && IsUpperHex(t[1]) && IsUpperHex(t[2]) && WellQuoted(t[3..]))
  }

  /** A well-quoted string holds nothing but safe characters, `%` and hex digits. */
  lemma {:induction false} WellQuotedChars(t: string)
    requires WellQuoted(t)
    ensures forall i :: 0 <= i < |t| ==> IsSafe(t[i]) || t[i] == '%' || IsUpperHex(t[i])
    decreases |t|
  {
    if |t| > 0 {
      if IsSafe(t[0]) && WellQuoted(t[1..]) {
        WellQuotedChars(t[1..]);
        assert forall i :: 1 <= i < |t| ==> t[i] == t[1..][i - 1];
      } else {
        WellQuotedChars(t[3..]);
        assert forall i :: 3 <= i < |t| ==> t[i] == t[3..][i - 3];
      }
    }
  }

  /** How `quote_from_bytes` renders one byte. */
  function QuoteByte(b: Byte): (r: string)
    ensures IsSafeByte(b) ==> r == [b as char]
    ensures !IsSafeByte(b) ==> |r| == 3 && r[0] == '%' && IsUpperHex(r[1]) && IsUpperHex(r[2])
  {
    if IsSafeByte(b) then [b as char] else ['%', HexDigits[b / 16], HexDigits[b % 16]]
  }

  /** `quote_from_bytes(bs, safe)`: each byte rendered in turn. */
  function QuoteBytes(bs: seq<Byte>): (r: string)
    ensures |r| >= |bs|
  {
    if |bs| == 0 then "" else QuoteByte(bs[0]) + QuoteBytes(bs[1..])
  }

  lemma {:induction false} QuoteBytesWellQuoted(bs: seq<Byte>)
    ensures WellQuoted(QuoteBytes(bs))
    decreases |bs|
  {
    if |bs| > 0 {
      var r := QuoteBytes(bs);
      var rest := QuoteBytes(bs[1..]);
      QuoteBytesWellQuoted(bs[1..]);
      if IsSafeByte(bs[0]) {
        assert r[1..] == rest;
      } else {
        assert r[3..] == rest;
      }
    }
  }

  lemma {:induction false} QuoteBytesAppend(a: seq<Byte>, b: seq<Byte>)
    ensures QuoteBytes(a + b) == QuoteBytes(a) + QuoteBytes(b)
    decreases |a|
  {
    if |a| > 0 {
      var x := QuoteByte(a[0]);
      assert (a + b)[0] == a[0];
      assert (a + b)[1..] == a[1..] + b;
      QuoteBytesAppend(a[1..], b);
      assert QuoteBytes(a + b) == x + (QuoteBytes(a[1..]) + QuoteBytes(b));
      assert x + (QuoteBytes(a[1..]) + QuoteBytes(b)) == (x + QuoteBytes(a[1..])) + QuoteBytes(b);
    } else {
      assert a + b == b;
    }
  }

  /** `clean_uri(uri)`. Its output is always well quoted, so it holds nothing
      but safe characters, `%` and upper-case hexadecimal digits. */
  function Quote(s: string): (r: string)
    ensures WellQuoted(r)
    ensures forall i :: 0 <= i < |r| ==> IsSafe(r[i]) || r[i] == '%' || IsUpperHex(r[i])
  {
    QuoteBytesWellQuoted(Encode(s));
    WellQuotedChars(QuoteBytes(Encode(s)));
    QuoteBytes(Encode(s))
  }

  /** Quoting works character by character. */
  lemma {:induction false} QuoteAppend(a: string, b: string)
    ensures Quote(a + b) == Quote(a) + Quote(b)
  {
    EncodeAppend(a, b);
    QuoteBytesAppend(Encode(a), Encode(b));
  }

  /** A safe character is kept; any other becomes at least one three-character escape. */
  lemma {:induction false} QuoteChar(c: char)
    ensures IsSafe(c) ==> Quote([c]) == [c]
    ensures !IsSafe(c) ==> |Quote([c])| >= 3 && Quote([c])[0] == '%'
  {
    assert [c][1..] == [];
    assert Encode([c]) == EncodeChar(c) + Encode([]);
    var e := EncodeChar(c);
    assert Encode([c]) == e;
    if IsSafe(c) {
      SafeIsAscii(c);
      assert e == [c as int];
      assert ((c as int) as char) == c;
      assert IsSafeByte(e[0]);
      assert e[1..] == [];
      assert QuoteBytes(e) == QuoteByte(e[0]) + QuoteBytes([]);
    } else {
      assert !IsSafeByte(e[0]);
      QuoteBytesAppend([e[0]], e[1..]);
      assert [e[0]] + e[1..] == e;
      assert QuoteBytes([e[0]]) == QuoteByte(e[0]) + QuoteBytes([]);
    }
  }

  lemma {:induction false} QuoteCons(s: string)
    requires |s| > 0
    ensures Quote(s) == Quote([s[0]]) + Quote(s[1..])
  {
    assert s == [s[0]] + s[1..];
    QuoteAppend([s[0]], s[1..]);
  }

  /** `clean_uri` is the identity on strings made only of safe characters. */
  lemma {:induction false} QuoteSafe(s: string)
    requires AllSafe(s)
    ensures Quote(s) == s
    decreases |s|
  {
    if |s| > 0 {
      QuoteCons(s);
      QuoteChar(s[0]);
      QuoteSafe(s[1..]);
      assert [s[0]] + s[1..] == s;
    }
  }

  /** Quoting never shortens, and lengthens exactly when some character is unsafe;
      an unsafe character always leaves a `%` behind. */
  lemma {:induction false} QuoteGrows(s: string)
    ensures |Quote(s)| >= |s|
    ensures !AllSafe(s) ==> |Quote(s)| > |s| && '%' in Quote(s)
    decreases |s|
  {
    if |s| > 0 {
      QuoteCons(s);
      QuoteChar(s[0]);
      QuoteGrows(s[1..]);
      var q := Quote(s);
      if !IsSafe(s[0]) {
        assert q[0] == '%';
      } else if !AllSafe(s) {
        assert !AllSafe(s[1..]) by {
          var i :| 0 <= i < |s| && !IsSafe(s[i]);
          assert s[1..][i - 1] == s[i];
        }
        var j :| 0 <= j < |Quote(s[1..])| && Quote(s[1..])[j] == '%';
        assert q[j + 1] == '%';
      }
    } else {
      assert Quote(s) == "";
    }
  }

  /** The strings `clean_uri` leaves unchanged are exactly the all-safe ones. */
  lemma {:induction false} QuoteFixpoint(s: string)
    ensures Quote(s) == s <==> AllSafe(s)
  {
    if AllSafe(s) {
      QuoteSafe(s);
    } else {
      QuoteGrows(s);
    }
  }

  /** `clean_uri` is not idempotent: once a string needed an escape, quoting the
      result escapes its `%` again. */
  lemma {:induction false} QuoteNotIdempotent(s: string)
    requires !AllSafe(s)
    ensures Quote(Quote(s)) != Quote(s)
  {
    QuoteGrows(s);
    var t := Quote(s);
    var j :| 0 <= j < |t| && t[j] == '%';
    assert !IsSafe('%');
    assert !AllSafe(t);
    QuoteFixpoint(t);
  }

  function HexValue(c: char): int
    requires IsHex(c)
  {
    if '0' <= c <= '9' then c as int - '0' as int
    else if 'A' <= c <= 'F' then c as int - 'A' as int + 10
    else c as int - 'a' as int + 10
  }

  /** Hexadecimal digits in either case, as `unquote` accepts them. */
  predicate IsHex(c: char) {
    ('0' <= c <= '9') || ('A' <= c <= 'F') || ('a' <= c <= 'f')
  }

  lemma {:induction false} HexRoundTrip(n: int)
    requires 0 <= n < 16
    ensures IsHex(HexDigits[n]) && HexValue(HexDigits[n]) == n
  {
  }

  /** The byte-level half of `urllib.parse.unquote`: `%XX` escapes become their
      byte and every other character its UTF-8 encoding; a `%` not followed by
      two hex digits stays literal. */
  function PercentDecode(t: string): seq<Byte>
  {
    if |t| == 0 then []
    else if |t| >= 3 && t[0] == '%' && IsHex(t[1]) && IsHex(t[2]) then
      [HexValue(t[1]) * 16 + HexValue(t[2])] + PercentDecode(t[3..])
    else
      EncodeChar(t[0]) + PercentDecode(t[1..])
  }

  /** `unquote` with strict UTF-8 decoding: the inverse `clean_uri` is measured against. */
  function Unquote(t: string): Option<string>
  {
    Decode(PercentDecode(t))
  }

  lemma {:induction false} PercentDecodeQuoteBytes(bs: seq<Byte>)
    ensures PercentDecode(QuoteBytes(bs)) == bs
    decreases |bs|
  {
    if |bs| > 0 {
      var rest := QuoteBytes(bs[1..]);
      assert QuoteBytes(bs) == QuoteByte(bs[0]) + rest;
      PercentDecodeQuoteBytes(bs[1..]);
      PercentDecodeByte(bs[0], rest);
      assert [bs[0]] + bs[1..] == bs;
    }
  }

  /** Decoding the rendering of one byte gives the byte back, whatever follows. */
  lemma {:induction false} PercentDecodeByte(b: Byte, rest: string)
    ensures PercentDecode(QuoteByte(b) + rest) == [b] + PercentDecode(rest)
  {
    if IsSafeByte(b) {
      PercentDecodeSafe(b, rest);
    } else {
      PercentDecodeEscape(b, rest);
    }
  }

  lemma {:induction false} PercentDecodeSafe(b: Byte, rest: string)
    requires IsSafeByte(b)
    ensures PercentDecode([b as char] + rest) == [b] + PercentDecode(rest)
  {
    var t := [b as char] + rest;
    assert t[0] == b as char && t[1..] == rest;
    assert b as char != '%';
    assert EncodeChar(b as char) == [b];
  }

  lemma {:induction false} PercentDecodeEscape(b: Byte, rest: string)
    ensures PercentDecode(['%', HexDigits[b / 16], HexDigits[b % 16]] + rest) == [b] + PercentDecode(rest)
  {
    var t := ['%', HexDigits[b / 16], HexDigits[b % 16]] + rest;
    HexRoundTrip(b / 16);
    HexRoundTrip(b % 16);
    assert t[0] == '%' && t[1] == HexDigits[b / 16] && t[2] == HexDigits[b % 16];
    assert t[3..] == rest;
    assert HexValue(t[1]) * 16 + HexValue(t[2]) == b;
  }

  /** `clean_uri` loses nothing: unquoting its output gives back the input. */
  lemma {:induction false} UnquoteQuote(s: string)
    ensures Unquote(Quote(s)) == Some(s)
  {
    PercentDecodeQuoteBytes(Encode(s));
    DecodeEncode(s);
  }

  /** Square brackets between safe runs are the only thing escaped: the shape of
      the bracketed DOI `1092-6194(2004)11[261:CBIAHC]2.0.CO;2` of the cleaning
      tests, which becomes `1092-6194(2004)11%5B261:CBIAHC%5D2.0.CO;2`. */
  lemma {:induction false} QuoteBrackets(a: string, c: string, e: string)
    requires AllSafe(a) && AllSafe(c) && AllSafe(e)
    ensures Quote(a + "[" + c + "]" + e) == a + "%5B" + c + "%5D" + e
  {
    QuoteSafe(a);
    QuoteSafe(c);
    QuoteSafe(e);
    QuoteOpenBracket();
    QuoteCloseBracket();
    QuoteAppend5(a, "[", c, "]", e);
  }

  lemma {:induction false} QuoteOpenBracket()
    ensures Quote("[") == "%5B"
  {
    QuoteOne('[');
    assert ['%', HexDigits[5], HexDigits[11]] == "%5B";
  }

  lemma {:induction false} QuoteCloseBracket()
    ensures Quote("]") == "%5D"
  {
    QuoteOne(']');
    assert ['%', HexDigits[5], HexDigits[13]] == "%5D";
  }

  lemma {:induction false} QuoteAppend5(a: string, b: string, c: string, d: string, e: string)
    ensures Quote(a + b + c + d + e) == Quote(a) + Quote(b) + Quote(c) + Quote(d) + Quote(e)
  {
    QuoteAppend(a + b + c + d, e);
    QuoteAppend(a + b + c, d);
    QuoteAppend(a + b, c);
    QuoteAppend(a, b);
  }

  /** An ASCII character outside the safe set becomes one escape. */
  lemma {:induction false} QuoteOne(c: char)
    requires (c as int) < 0x80 && !IsSafe(c)
    ensures Quote([c]) == ['%', HexDigits[c as int / 16], HexDigits[c as int % 16]]
  {
    assert [c][1..] == [];
    assert Encode([c]) == EncodeChar(c) + Encode([]);
    assert Encode([c]) == [c as int];
    assert [c as int][1..] == [];
    assert ((c as int) as char) == c;
    assert !IsSafeByte(c as int);
    assert QuoteBytes([c as int]) == QuoteByte(c as int) + QuoteBytes([]);
  }

  /** Quoting an escaped string escapes its `%` once more. */
  lemma {:induction false} QuoteEscapedBracket()
    ensures Quote("[") == "%5B"
    ensures Quote("%5B") == "%255B"
  {
    QuoteOpenBracket();
    QuotePercent();
    QuoteAppend("%", "5B");
    assert "%" + "5B" == "%5B";
    QuoteSafe("5B");
    assert "%25" + "5B" == "%255B";
  }

  lemma {:induction false} QuotePercent()
    ensures Quote("%") == "%25"
  {
    QuoteOne('%');
    assert ['%', HexDigits[2], HexDigits[5]] == "%25";
  }
}
