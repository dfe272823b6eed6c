/**
  The form body of a POST: `urllib.parse.urlencode(args)` over an ordered
  sequence of string pairs (a dict's items in insertion order). Each key and
  value goes through `quote_plus`: its UTF-8 bytes are kept when they are ASCII
  letters, digits or one of `_.-~`, a space becomes `+`, and every other byte
  becomes `%XX` in upper-case hexadecimal; `key=value` pieces are joined by `&`.
  The decoder below is the inverse that shows the encoding loses nothing.
*/
module FormEncoding {
  import opened Wrappers
  import opened Utf8
  import opened Strings

  type Form = seq<(string, string)>

  predicate IsAlwaysSafe(b: byte) {
    (0x41 <= b <= 0x5A) || (0x61 <= b <= 0x7A) || (0x30 <= b <= 0x39)
    || b == 0x5F || b == 0x2E || b == 0x2D || b == 0x7E
  }

  /** The characters `quote_plus` can produce. */
  predicate IsQuotedChar(c: char) {
    (c as int < 0x80 && IsAlwaysSafe(c as int)) || c == '+' || c == '%'
  }

  /** An upper-case hexadecimal digit. */
  predicate IsUpperHex(c: char) {
    ('0' <= c <= '9') || ('A' <= c <= 'F')
  }

  /**
    The shape of `quote_plus` output: only safe characters, `+` and `%`, and
    every `%` followed by two upper-case hexadecimal digits.
  */
  predicate IsQuoted(s: string) {
    && (forall i :: 0 <= i < |s| ==> IsQuotedChar(s[i]))
    && (forall i :: 0 <= i < |s| && s[i] == '%' ==> i + 2 < |s| && IsUpperHex(s[i + 1]) && IsUpperHex(s[i + 2]))
  }

  function HexDigit(d: nat): (c: char)
    requires d < 16
    ensures c as int < 0x80 && IsAlwaysSafe(c as int) && IsUpperHex(c)
  {
    if d < 10 then ('0' as int + d) as char else ('A' as int + d - 10) as char
  }

  predicate IsHexChar(c: char) {
    ('0' <= c <= '9') || ('A' <= c <= 'F') || ('a' <= c <= 'f')
  }

  function HexValue(c: char): (d: nat)
    requires IsHexChar(c)
    ensures d < 16
  {
    if '0' <= c <= '9' then c as int - '0' as int
    else if 'A' <= c <= 'F' then c as int - 'A' as int + 10
    else c as int - 'a' as int + 10
  }

  function QuoteByte(b: byte): string
  {
    if IsAlwaysSafe(b) then [b as char]
    else if b == 0x20 then "+"
    else ['%', HexDigit(b / 16), HexDigit(b % 16)]
  }

  function QuoteBytes(bs: seq<byte>): string
  {
    if bs == [] then "" else QuoteByte(bs[0]) + QuoteBytes(bs[1..])
  }

  /**
    `urllib.parse.quote_plus(s)` with its defaults (`safe=''`, UTF-8): only
    safe characters, `+` and upper-case `%XX` escapes.
  */
  function QuotePlus(s: string): (q: string)
    ensures IsQuoted(q)
  {
    QuoteBytesIsQuoted(Encode(s));
    QuoteBytes(Encode(s))
  }

  function EncodePair(p: (string, string)): string
  {
    QuotePlus(p.0) + "=" + QuotePlus(p.1)
  }

  /** Each pair as `key=value`, in order. */
  function EncodePairs(pairs: Form): (pieces: seq<string>)
    ensures |pieces| == |pairs|
    ensures forall i :: 0 <= i < |pairs| ==> pieces[i] == EncodePair(pairs[i])
  {
    if pairs == [] then [] else [EncodePair(pairs[0])] + EncodePairs(pairs[1..])
  }

  /**
    `urllib.parse.urlencode(pairs)`: form text that decodes back to exactly
    the pairs, in order.
  */
  function UrlEncode(pairs: Form): (text: string)
    ensures DecodeForm(text) == Some(pairs)
    ensures IsFormText(text)
  {
    DecodeJoinedPairs(pairs);
    JoinedPairsAreFormText(pairs);
    Join(EncodePairs(pairs), "&")
  }

  /** The inverse of `QuoteBytes`: `+` is a space, `%XX` a byte, a safe character itself. */
  function UnquoteBytes(q: string): Option<seq<byte>>
    decreases |q|
  {
    if q == [] then Some([])
    else
      var head: Option<(byte, nat)> :=
        if q[0] == '+' then Some((0x20, 1))
        else if q[0] == '%' then
          if 3 <= |q| && IsHexChar(q[1]) && IsHexChar(q[2])
          then Some((HexValue(q[1]) * 16 + HexValue(q[2]), 3))
          else None
        else if q[0] as int < 0x80 && IsAlwaysSafe(q[0] as int) then Some((q[0] as int, 1))
        else None;
      match head
      case None => None
      case Some((b, n)) =>
        match UnquoteBytes(q[n..])
        case None => None
        case Some(rest) => Some([b] + rest)
  }

  function UnquotePlus(q: string): Option<string>
  {
    match UnquoteBytes(q)
    case None => None
    case Some(bs) => Decode(bs)
  }

  function DecodePair(piece: string): Option<(string, string)>
  {
    var kv := Split(piece, "=");
    if |kv| != 2 then None
    else match (UnquotePlus(kv[0]), UnquotePlus(kv[1]))
      case (Some(k), Some(v)) => Some((k, v))
      case _ => None
  }

  function DecodePairs(pieces: seq<string>): Option<Form>
  {
    if pieces == [] then Some([])
    else match (DecodePair(pieces[0]), DecodePairs(pieces[1..]))
      case (Some(p), Some(rest)) => Some([p] + rest)
      case _ => None
  }

  /** Reads an encoded form back into its pairs. */
  function DecodeForm(text: string): Option<Form>
  {
    if text == "" then Some([]) else DecodePairs(Split(text, "&"))
  }

  lemma HexRoundTrip(d: nat)
    requires d < 16
    ensures IsHexChar(HexDigit(d)) && HexValue(HexDigit(d)) == d
  {
  }

  lemma {:induction false} QuoteBytesAppend(a: seq<byte>, b: seq<byte>)
    ensures QuoteBytes(a + b) == QuoteBytes(a) + QuoteBytes(b)
  {
    if a == [] {
      assert a + b == b;
    } else {
      assert (a + b)[1..] == a[1..] + b;
      QuoteBytesAppend(a[1..], b);
    }
  }

  /**
    `quote_plus` output uses only safe characters, `+` and `%`, never `=`, `&`,
    CR or LF, and every `%` starts a `%XX` escape in upper case.
  */
  lemma {:induction false} QuoteBytesIsQuoted(bs: seq<byte>)
    ensures IsQuoted(QuoteBytes(bs))
  {
    if bs != [] {
      var b := bs[0];
      if !IsAlwaysSafe(b) && b != 0x20 {
        var _ := HexDigit(b / 16);
        var _ := HexDigit(b % 16);
      }
      QuoteBytesIsQuoted(bs[1..]);
      var t := QuoteBytes(bs[1..]);
      var h := QuoteByte(b);
      var s := h + t;
      assert QuoteBytes(bs) == s;
      forall i | 0 <= i < |s| ensures IsQuotedChar(s[i]) {
        if i >= |h| {
          assert s[i] == t[i - |h|];
        }
      }
      forall i | 0 <= i < |s| && s[i] == '%' ensures i + 2 < |s| && IsUpperHex(s[i + 1]) && IsUpperHex(s[i + 2]) {
        if i >= |h| {
          assert s[i] == t[i - |h|];
          assert s[i + 1] == t[i - |h| + 1] && s[i + 2] == t[i - |h| + 2];
        } else {
          assert i == 0;
        }
      }
    }
  }

  /** Unquoting undoes quoting, byte for byte. */
  lemma {:induction false} UnquoteQuoteBytes(bs: seq<byte>)
    ensures UnquoteBytes(QuoteBytes(bs)) == Some(bs)
  {
    if bs != [] {
      UnquoteQuoteBytes(bs[1..]);
      UnquoteQuoteByte(bs[0], QuoteBytes(bs[1..]), bs[1..]);
      assert [bs[0]] + bs[1..] == bs;
    }
  }

  /** One quoted byte in front of text that unquotes to `rest`. */
  lemma UnquoteQuoteByte(b: byte, t: string, rest: seq<byte>)
    requires UnquoteBytes(t) == Some(rest)
    ensures UnquoteBytes(QuoteByte(b) + t) == Some([b] + rest)
  {
    var h := QuoteByte(b);
    if IsAlwaysSafe(b) || b == 0x20 {
      assert (h + t)[1..] == t;
    } else {
      UnquoteEscape(b, t, rest);
    }
  }

  lemma UnquoteEscape(b: byte, t: string, rest: seq<byte>)
    requires !IsAlwaysSafe(b) && b != 0x20
    requires UnquoteBytes(t) == Some(rest)
    ensures UnquoteBytes(QuoteByte(b) + t) == Some([b] + rest)
  {
    var hi, lo := HexDigit(b / 16), HexDigit(b % 16);
    HexRoundTrip(b / 16);
    HexRoundTrip(b % 16);
    var q := ['%', hi, lo] + t;
    assert QuoteByte(b) + t == q;
    assert q[3..] == t;
    assert q[0] == '%' && q[1] == hi && q[2] == lo;
  }

  /** `quote_plus` is injective: its output decodes back to the original text. */
  lemma UnquotePlusQuotePlus(s: string)
    ensures UnquotePlus(QuotePlus(s)) == Some(s)
  {
    UnquoteQuoteBytes(Encode(s));
    DecodeEncode(s);
  }

  /** Text of safe characters only is left as it is. */
  lemma {:induction false} QuoteBytesSafe(s: string)
    requires forall i :: 0 <= i < |s| ==> s[i] as int < 0x80 && IsAlwaysSafe(s[i] as int)
    ensures IsAscii(s) && QuotePlus(s) == s
  {
    if s != [] {
      assert [s[0]] + s[1..] == s;
      EncodeAppend([s[0]], s[1..]);
      QuoteBytesSafe(s[1..]);
      assert Encode([s[0]]) == [s[0] as int];
      QuoteBytesAppend([s[0] as int], Encode(s[1..]));
    }
  }

  lemma SplitNoOccurrence(s: string, c: char)
    requires c !in s
    ensures Split(s, [c]) == [s]
  {
  }

  lemma SplitAtChar(a: string, c: char, b: string)
    requires c !in a
    ensures Split(a + [c] + b, [c]) == [a] + Split(b, [c])
  {
    var s := a + [c] + b;
    assert OccursAt(s, [c], |a|);
    forall i | 0 <= i < |a| ensures !OccursAt(s, [c], i) {
      assert s[i] == a[i];
    }
    assert Find(s, [c]) == Some(|a|);
    assert s[..|a|] == a;
    assert s[|a| + 1..] == b;
  }

  /** Splitting on a character that no piece contains gives the pieces back. */
  lemma {:induction false} SplitJoin(pieces: seq<string>, c: char)
    requires |pieces| >= 1
    requires forall k :: 0 <= k < |pieces| ==> c !in pieces[k]
    ensures Split(Join(pieces, [c]), [c]) == pieces
  {
    if |pieces| == 1 {
      SplitNoOccurrence(pieces[0], c);
    } else {
      var first, others := pieces[0], pieces[1..];
      var rest := Join(others, [c]);
      assert forall k :: 0 <= k < |others| ==> c !in others[k] by {
        forall k | 0 <= k < |others| ensures c !in others[k] {
          assert others[k] == pieces[k + 1];
        }
      }
      SplitJoin(others, c);
      assert Join(pieces, [c]) == first + [c] + rest;
      SplitAtChar(first, c, rest);
      assert [first] + others == pieces;
    }
  }

  lemma QuotedHasNo(s: string, c: char)
    requires IsQuoted(s) && !IsQuotedChar(c)
    ensures c !in s
  {
  }

  lemma DecodeEncodePair(p: (string, string))
    ensures '&' !in EncodePair(p)
    ensures DecodePair(EncodePair(p)) == Some(p)
  {
    var k, v := QuotePlus(p.0), QuotePlus(p.1);
    QuotedHasNo(k, '=');
    QuotedHasNo(v, '=');
    QuotedHasNo(k, '&');
    QuotedHasNo(v, '&');
    assert Join([k, v], "=") == EncodePair(p);
    SplitJoin([k, v], '=');
    UnquotePlusQuotePlus(p.0);
    UnquotePlusQuotePlus(p.1);
  }

  lemma {:induction false} DecodePairsOfEncoded(pairs: Form)
    ensures DecodePairs(EncodePairs(pairs)) == Some(pairs)
  {
    if pairs != [] {
      var pieces, others := EncodePairs(pairs), EncodePairs(pairs[1..]);
      assert pieces == [EncodePair(pairs[0])] + others;
      assert pieces[0] == EncodePair(pairs[0]) && pieces[1..] == others;
      DecodeEncodePair(pairs[0]);
      DecodePairsOfEncoded(pairs[1..]);
      assert [pairs[0]] + pairs[1..] == pairs;
    }
  }

  /** The joined `key=value` pieces decode back to exactly the pairs, in order. */
  lemma DecodeJoinedPairs(pairs: Form)
    ensures DecodeForm(Join(EncodePairs(pairs), "&")) == Some(pairs)
  {
    var pieces := EncodePairs(pairs);
    DecodePairsOfEncoded(pairs);
    if pairs != [] {
      forall k | 0 <= k < |pieces| ensures '&' !in pieces[k] {
        DecodeEncodePair(pairs[k]);
      }
      SplitJoin(pieces, '&');
      assert EncodePair(pairs[0]) != "" by {
        assert EncodePair(pairs[0])[|QuotePlus(pairs[0].0)|] == '=';
      }
      assert Join(pieces, "&") != "" by { JoinStartsWith(pieces, "&"); }
    }
  }

  /** The characters an encoded form consists of. */
  predicate IsFormChar(c: char) {
    IsQuotedChar(c) || c == '=' || c == '&'
  }

  predicate IsFormText(s: string) {
    forall i :: 0 <= i < |s| ==> IsFormChar(s[i])
  }

  lemma {:induction false} JoinFormText(pieces: seq<string>)
    requires forall k :: 0 <= k < |pieces| ==> IsFormText(pieces[k])
    ensures IsFormText(Join(pieces, "&"))
  {
    if |pieces| > 1 {
      JoinFormText(pieces[1..]);
      var rest := Join(pieces[1..], "&");
      var s := Join(pieces, "&");
      assert s == pieces[0] + "&" + rest;
      forall i | 0 <= i < |s| ensures IsFormChar(s[i]) {
        if i < |pieces[0]| {
          assert s[i] == pieces[0][i];
        } else if i > |pieces[0]| {
          assert s[i] == rest[i - |pieces[0]| - 1];
        }
      }
    }
  }

  /**
    The encoded form is ASCII and holds no CR or LF, so it cannot end the header
    block early, and its length in characters is its length in bytes.
  */
  lemma UrlEncodeIsFormText(pairs: Form)
    ensures IsAscii(UrlEncode(pairs))
    ensures '\r' !in UrlEncode(pairs) && '\n' !in UrlEncode(pairs)
    ensures |Encode(UrlEncode(pairs))| == |UrlEncode(pairs)|
  {
    FormTextIsAscii(UrlEncode(pairs));
  }

  /** The joined `key=value` pieces are form text. */
  lemma JoinedPairsAreFormText(pairs: Form)
    ensures IsFormText(Join(EncodePairs(pairs), "&"))
  {
    var pieces := EncodePairs(pairs);
    forall k | 0 <= k < |pieces| ensures IsFormText(pieces[k]) {
      EncodePairIsFormText(pairs[k]);
    }
    JoinFormText(pieces);
  }

  /** One `key=value` piece is form text. */
  lemma EncodePairIsFormText(p: (string, string))
    ensures IsFormText(EncodePair(p))
  {
    var e := EncodePair(p);
    forall i | 0 <= i < |e| ensures IsFormChar(e[i]) {
      if i < |QuotePlus(p.0)| {
        assert e[i] == QuotePlus(p.0)[i];
      } else if i > |QuotePlus(p.0)| {
        assert e[i] == QuotePlus(p.1)[i - |QuotePlus(p.0)| - 1];
      }
    }
  }

  /** Form text is ASCII without CR or LF, one byte per character. */
  lemma FormTextIsAscii(s: string)
    requires IsFormText(s)
    ensures IsAscii(s)
    ensures '\r' !in s && '\n' !in s
    ensures |Encode(s)| == |s|
  {
    assert IsAscii(s);
  }

  /** Keys and values made of safe characters are joined as written. */
  lemma UrlEncodeSafePair(k: string, v: string)
    requires forall i :: 0 <= i < |k| ==> k[i] as int < 0x80 && IsAlwaysSafe(k[i] as int)
    requires forall i :: 0 <= i < |v| ==> v[i] as int < 0x80 && IsAlwaysSafe(v[i] as int)
    ensures EncodePair((k, v)) == k + "=" + v
  {
    QuoteBytesSafe(k);
    QuoteBytesSafe(v);
  }

  /** `urlencode({"a": "1", "b": "2"}) == "a=1&b=2"`. */
  lemma UrlEncodeExample()
    ensures UrlEncode([("a", "1"), ("b", "2")]) == "a=1&b=2"
  {
    JoinedPairsExample();
  }

  lemma JoinedPairsExample()
    ensures Join(EncodePairs([("a", "1"), ("b", "2")]), "&") == "a=1&b=2"
  {
    var a, b := ("a", "1"), ("b", "2");
    var x, y := EncodePair(a), EncodePair(b);
    assert EncodePairs([a, b]) == [x, y];
    UrlEncodeSafePair(a.0, a.1);
    UrlEncodeSafePair(b.0, b.1);
    JoinTwo(x, y, "&");
  }

  lemma JoinTwo(x: string, y: string, sep: string)
    ensures Join([x, y], sep) == x + sep + y
  {
    assert [x, y][1..] == [y];
  }

  lemma JoinStartsWith(pieces: seq<string>, sep: string)
    requires |pieces| >= 1
    ensures |Join(pieces, sep)| >= |pieces[0]|
  {
  }
}
