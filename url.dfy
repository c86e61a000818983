/**
 * The path a query parameter takes from a URL string the browser is asked
 * to fetch to the value `searchParams.get` returns on the server, following
 * the WHATWG URL Standard (the URL parser's query state) and its
 * `application/x-www-form-urlencoded` parser, with the UTF-8 encoder and
 * decoder of the WHATWG Encoding Standard. Also `encodeURIComponent`, the
 * encoding that makes a value survive that path unchanged.
 */
module Url {
  import opened Records

  type byte = b: int | 0 <= b < 256

  /** U+FFFD, what the UTF-8 decoder yields for a malformed sequence. */
  const Replacement: char := '\U{FFFD}'

  /** The UTF-8 encoding of one scalar value: one to four bytes. */
  function Utf8(c: char): (r: seq<byte>)
    ensures 1 <= |r| <= 4
    ensures |r| == 1 <==> c as int < 0x80
    ensures |r| == 1 ==> r[0] == c as int
    ensures |r| > 1 ==> forall i :: 0 <= i < |r| ==> r[i] >= 0x80
  {
    var n := c as int;
    var lo, m := n % 64, n / 64;
    var mid, m2 := m % 64, m / 64;
    var hi, top := m2 % 64, m2 / 64;
    if n < 0x80 then [n]
    else if n < 0x800 then [0xC0 + m, 0x80 + lo]
    else if n < 0x10000 then [0xE0 + m2, 0x80 + mid, 0x80 + lo]
    else [0xF0 + top, 0x80 + hi, 0x80 + mid, 0x80 + lo]
  }

  /** The UTF-8 encoding of a string. */
  function Utf8String(s: string): (r: seq<byte>)
    ensures |r| >= |s|
    ensures forall c :: c as int < 0x80 ==> (c as int in r <==> c in s)
  {
    if s == [] then []
    else
      var rest := Utf8String(s[1..]);
      assert s == [s[0]] + s[1..];
      Utf8(s[0]) + rest
  }

  lemma {:induction false} Utf8StringAppend(a: string, b: string)
    ensures Utf8String(a + b) == Utf8String(a) + Utf8String(b)
  {
    if a != [] {
      assert (a + b)[0] == a[0] && (a + b)[1..] == a[1..] + b;
      Utf8StringAppend(a[1..], b);
    } else {
      assert a + b == b;
    }
  }

  /** An ASCII string's UTF-8 encoding is its character codes. */
  lemma {:induction false} Utf8Ascii(s: string)
    requires forall i :: 0 <= i < |s| ==> s[i] as int < 0x80
    ensures |Utf8String(s)| == |s|
    ensures forall i :: 0 <= i < |s| ==> Utf8String(s)[i] == s[i] as int
  {
    if s != [] {
      Utf8Ascii(s[1..]);
      assert Utf8String(s) == [s[0] as int] + Utf8String(s[1..]);
    }
  }

  predicate Continuation(b: byte) { 0x80 <= b <= 0xBF }

  /**
   * One step of the UTF-8 decoder: the scalar value at the front of `bs` and
   * how many bytes it takes. A malformed sequence yields U+FFFD for its
   * longest valid prefix (at least the lead byte), and decoding resumes at
   * the first byte that broke it.
   */
  function DecodeOne(bs: seq<byte>): (r: (char, nat))
    requires |bs| >= 1
    ensures 1 <= r.1 <= |bs|
    ensures bs[0] < 0x80 ==> r == (bs[0] as char, 1)
    ensures 0x80 <= bs[0] < 0xC2 || 0xF4 < bs[0] ==> r == (Replacement, 1)
  {
    var b0: int := bs[0];
    if b0 < 0x80 then (b0 as char, 1)
    else if 0xC2 <= b0 <= 0xDF then
      if |bs| < 2 || !Continuation(bs[1]) then (Replacement, 1)
      else (((b0 - 0xC0) * 64 + (bs[1] as int - 0x80)) as char, 2)
    else if 0xE0 <= b0 <= 0xEF then
      var lower := if b0 == 0xE0 then 0xA0 else 0x80;
      var upper := if b0 == 0xED then 0x9F else 0xBF;
      if |bs| < 2 || !(lower <= bs[1] <= upper) then (Replacement, 1)
      else if |bs| < 3 || !Continuation(bs[2]) then (Replacement, 2)
      else (((b0 - 0xE0) * 4096 + (bs[1] as int - 0x80) * 64 + (bs[2] as int - 0x80)) as char, 3)
    else if 0xF0 <= b0 <= 0xF4 then
      var lower := if b0 == 0xF0 then 0x90 else 0x80;
      var upper := if b0 == 0xF4 then 0x8F else 0xBF;
      if |bs| < 2 || !(lower <= bs[1] <= upper) then (Replacement, 1)
      else if |bs| < 3 || !Continuation(bs[2]) then (Replacement, 2)
      else if |bs| < 4 || !Continuation(bs[3]) then (Replacement, 3)
      else (((b0 - 0xF0) * 262144 + (bs[1] as int - 0x80) * 4096 + (bs[2] as int - 0x80) * 64 + (bs[3] as int - 0x80)) as char, 4)
    else (Replacement, 1)
  }

  /** "UTF-8 decode without BOM": a leading byte order mark is kept as U+FEFF. */
  function Utf8Decode(bs: seq<byte>): (r: string)
    ensures |r| <= |bs|
    ensures (forall i :: 0 <= i < |bs| ==> bs[i] < 0x80) ==> |r| == |bs|
    decreases |bs|
  {
    if bs == [] then []
    else
      var (c, k) := DecodeOne(bs);
      [c] + Utf8Decode(bs[k..])
  }

  /** The decoder reads back the scalar value at the front of its encoding. */
  lemma DecodeOneOfUtf8(c: char, rest: seq<byte>)
    ensures DecodeOne(Utf8(c) + rest) == (c, |Utf8(c)|)
  {
    var n := c as int;
    var bs := Utf8(c) + rest;
    assert n == (n / 64) * 64 + n % 64;
    assert n / 64 == (n / 64 / 64) * 64 + (n / 64) % 64;
    assert n / 64 / 64 == (n / 64 / 64 / 64) * 64 + (n / 64 / 64) % 64;
    if n >= 0x800 && n < 0x10000 {
      assert bs[..3] == Utf8(c);
    } else if n >= 0x10000 {
      assert bs[..4] == Utf8(c);
    }
  }

  /** UTF-8 decoding inverts UTF-8 encoding. */
  lemma {:induction false} Utf8RoundTrip(s: string)
    ensures Utf8Decode(Utf8String(s)) == s
  {
    if s != [] {
      var e := Utf8(s[0]);
      var rest := Utf8String(s[1..]);
      DecodeOneOfUtf8(s[0], rest);
      assert (e + rest)[|e|..] == rest;
      Utf8RoundTrip(s[1..]);
    }
  }

  /** The form parser's first step on a name or value: each 0x2B (`+`) becomes 0x20 (space). */
  function PlusToSpace(bs: seq<byte>): (r: seq<byte>)
    ensures |r| == |bs|
    ensures 0x2B !in r
    ensures 0x2B !in bs ==> r == bs
  {
    seq(|bs|, i requires 0 <= i < |bs| => if bs[i] == 0x2B then 0x20 else bs[i])
  }

  predicate IsHexByte(b: byte)
  {
    0x30 <= b <= 0x39 || 0x41 <= b <= 0x46 || 0x61 <= b <= 0x66
  }

  function HexValue(b: byte): (v: nat)
    requires IsHexByte(b)
    ensures v < 16
  {
    if b <= 0x39 then b - 0x30 else if b <= 0x46 then b - 0x41 + 10 else b - 0x61 + 10
  }

  /**
   * Percent-decoding: `%` followed by two hex digits (either case) stands
   * for the byte they spell; any other `%` stays as it is.
   */
  function PercentDecode(bs: seq<byte>): (r: seq<byte>)
    ensures |r| <= |bs|
    ensures 0x25 !in bs ==> r == bs
  {
    if bs == [] then []
    else if bs[0] == 0x25 && |bs| >= 3 && IsHexByte(bs[1]) && IsHexByte(bs[2]) then
      [HexValue(bs[1]) * 16 + HexValue(bs[2])] + PercentDecode(bs[3..])
    else
      assert bs == [bs[0]] + bs[1..];
      [bs[0]] + PercentDecode(bs[1..])
  }

  /** Upper-case hexadecimal digits, as percent-encoding writes them. */
  function HexDigit(d: nat): (c: char)
    requires d < 16
    ensures c as int < 0x80 && IsHexByte(c as int) && HexValue(c as int) == d
  {
    "0123456789ABCDEF"[d]
  }

  /** Percent-encoding of a byte sequence: `%XX` per byte. */
  function PercentChars(bs: seq<byte>): (r: string)
    ensures |r| == 3 * |bs|
    ensures forall i :: 0 <= i < |r| ==> r[i] == '%' || (r[i] as int < 0x80 && IsHexByte(r[i] as int))
  {
    if bs == [] then []
    else ['%', HexDigit(bs[0] / 16), HexDigit(bs[0] % 16)] + PercentChars(bs[1..])
  }

  /** Percent-decoding reads back the byte one escape spells, whatever follows. */
  lemma PercentDecodeEscape(b: byte, rest: seq<byte>)
    ensures PercentDecode(Utf8String(['%', HexDigit(b / 16), HexDigit(b % 16)]) + rest) == [b] + PercentDecode(rest)
  {
    var hi, lo := HexDigit(b / 16), HexDigit(b % 16);
    var x := Utf8String(['%', hi, lo]) + rest;
    assert |x| >= 3 && x[0] == 0x25 && x[1] == hi as int && x[2] == lo as int && x[3..] == rest by {
      Utf8Ascii(['%', hi, lo]);
    }
    assert HexValue(hi as int) * 16 + HexValue(lo as int) == b;
    PercentDecodeHead(x, b);
  }

  /** A `%` and two hex digits at the front decode to the byte `v` they spell. */
  lemma PercentDecodeHead(x: seq<byte>, v: byte)
    requires |x| >= 3 && x[0] == 0x25 && IsHexByte(x[1]) && IsHexByte(x[2])
    requires v == HexValue(x[1]) * 16 + HexValue(x[2])
    ensures PercentDecode(x) == [v] + PercentDecode(x[3..])
  {
  }

  /** Percent-decoding reads back the bytes a percent-encoding spells, whatever follows. */
  lemma {:induction false} PercentDecodeEscapes(bs: seq<byte>, rest: seq<byte>)
    ensures PercentDecode(Utf8String(PercentChars(bs)) + rest) == bs + PercentDecode(rest)
  {
    if bs != [] {
      var head := ['%', HexDigit(bs[0] / 16), HexDigit(bs[0] % 16)];
      var tail := PercentChars(bs[1..]);
      Utf8StringAppend(head, tail);
      assert Utf8String(PercentChars(bs)) + rest == Utf8String(head) + (Utf8String(tail) + rest);
      PercentDecodeEscape(bs[0], Utf8String(tail) + rest);
      PercentDecodeEscapes(bs[1..], rest);
      assert bs == [bs[0]] + bs[1..];
    } else {
      assert Utf8String(PercentChars(bs)) + rest == rest;
    }
  }

  /** A character the URL parser percent-encodes in the query of an http(s) URL. */
  predicate QueryEscaped(c: char)
  {
    c as int <= 0x20 || c as int > 0x7E || c == '"' || c == '#' || c == '<' || c == '>' || c == '\''
  }

  /** The URL parser's query state: every escaped character becomes `%XX` per UTF-8 byte. */
  function QueryEncode(s: string): (r: string)
    ensures forall i :: 0 <= i < |r| ==> !QueryEscaped(r[i])
    ensures forall ch :: ch in r && ch != '%' && !(ch as int < 0x80 && IsHexByte(ch as int)) ==> ch in s
  {
    if s == [] then []
    else
      var rest := QueryEncode(s[1..]);
      assert s == [s[0]] + s[1..];
      if QueryEscaped(s[0]) then
        var e := PercentChars(Utf8(s[0]));
        assert forall ch :: ch in e ==> ch == '%' || (ch as int < 0x80 && IsHexByte(ch as int));
        e + rest
      else [s[0]] + rest
  }

  lemma {:induction false} QueryEncodeAppend(a: string, b: string)
    ensures QueryEncode(a + b) == QueryEncode(a) + QueryEncode(b)
  {
    if a != [] {
      assert (a + b)[0] == a[0] && (a + b)[1..] == a[1..] + b;
      QueryEncodeAppend(a[1..], b);
      var head := if QueryEscaped(a[0]) then PercentChars(Utf8(a[0])) else [a[0]];
      assert QueryEncode(a + b) == head + QueryEncode(a[1..] + b);
      assert QueryEncode(a) == head + QueryEncode(a[1..]);
    } else {
      assert a + b == b;
    }
  }

  /** The URL parser leaves a string without escaped characters as it is. */
  lemma {:induction false} QueryEncodePlain(s: string)
    requires forall i :: 0 <= i < |s| ==> !QueryEscaped(s[i])
    ensures QueryEncode(s) == s
  {
    if s != [] {
      QueryEncodePlain(s[1..]);
    }
  }

  /** The URL parser leaves an existing percent-encoding as it is. */
  lemma QueryEncodeKeepsEscapes(bs: seq<byte>)
    ensures QueryEncode(PercentChars(bs)) == PercentChars(bs)
  {
    QueryEncodePlain(PercentChars(bs));
  }

  /** The characters `encodeURIComponent` leaves as they are. */
  predicate UriUnreserved(c: char)
  {
    'a' <= c <= 'z' || 'A' <= c <= 'Z' || '0' <= c <= '9'
    || c == '-' || c == '_' || c == '.' || c == '!' || c == '~' || c == '*' || c == '\'' || c == '(' || c == ')'
  }

  /** `encodeURIComponent`: every character outside the unreserved set becomes `%XX` per UTF-8 byte. */
  function EncodeUriComponent(s: string): (r: string)
    ensures forall i :: 0 <= i < |r| ==> UriUnreserved(r[i]) || r[i] == '%' || (r[i] as int < 0x80 && IsHexByte(r[i] as int))
  {
    if s == [] then []
    else if UriUnreserved(s[0]) then [s[0]] + EncodeUriComponent(s[1..])
    else PercentChars(Utf8(s[0])) + EncodeUriComponent(s[1..])
  }

  /**
   * A character other than `%` passes the URL parser's escaping and
   * percent-decoding as its own UTF-8 bytes, whatever follows it.
   */
  lemma QueryCharDecodes(c: char, rest: seq<byte>)
    requires c != '%'
    ensures PercentDecode(Utf8String(QueryEncode([c])) + rest) == Utf8(c) + PercentDecode(rest)
  {
    assert [c][1..] == [];
    if QueryEscaped(c) {
      assert QueryEncode([c]) == PercentChars(Utf8(c));
      PercentDecodeEscapes(Utf8(c), rest);
    } else {
      assert QueryEncode([c]) == [c];
      assert Utf8String([c]) == [c as int];
      assert ([c as int] + rest)[1..] == rest;
    }
  }

  /** Without `%`, the URL parser's escaping is undone by percent-decoding. */
  lemma {:induction false} PercentDecodeQuery(s: string)
    requires '%' !in s
    ensures PercentDecode(Utf8String(QueryEncode(s))) == Utf8String(s)
  {
    if s != [] {
      assert s == [s[0]] + s[1..];
      QueryEncodeAppend([s[0]], s[1..]);
      Utf8StringAppend(QueryEncode([s[0]]), QueryEncode(s[1..]));
      QueryCharDecodes(s[0], Utf8String(QueryEncode(s[1..])));
      PercentDecodeQuery(s[1..]);
      assert Utf8String(s) == Utf8(s[0]) + Utf8String(s[1..]);
    }
  }

  /** A component encoded by `encodeURIComponent` percent-decodes back to its UTF-8 bytes. */
  lemma {:induction false} PercentDecodeComponent(s: string)
    ensures PercentDecode(Utf8String(QueryEncode(EncodeUriComponent(s)))) == Utf8String(s)
  {
    if s != [] {
      var c := s[0];
      var head := if UriUnreserved(c) then [c] else PercentChars(Utf8(c));
      var tail := EncodeUriComponent(s[1..]);
      assert EncodeUriComponent(s) == head + tail;
      QueryEncodeAppend(head, tail);
      Utf8StringAppend(QueryEncode(head), QueryEncode(tail));
      var rest := Utf8String(QueryEncode(tail));
      if UriUnreserved(c) {
        QueryCharDecodes(c, rest);
      } else {
        QueryEncodeKeepsEscapes(Utf8(c));
        PercentDecodeEscapes(Utf8(c), rest);
      }
      PercentDecodeComponent(s[1..]);
      assert s == [c] + s[1..];
      assert Utf8String(s) == Utf8(c) + Utf8String(s[1..]);
    }
  }

  /** `plus` characters in the component's UTF-8 bytes come only from `+` characters. */
  lemma NoPlusBytes(s: string)
    requires '+' !in s
    ensures 0x2B !in Utf8String(s)
  {
    assert ('+' as int) == 0x2B;
  }

  /** The prefix of `s` before the first `c`, or all of `s` when there is none. */
  function Before(s: string, c: char): (r: string)
    ensures |r| <= |s| && r == s[..|r|]
    ensures c !in r
    ensures |r| < |s| ==> s[|r|] == c
    ensures c !in s <==> r == s
  {
    if s == [] then []
    else if s[0] == c then []
    else
      assert s == [s[0]] + s[1..];
      [s[0]] + Before(s[1..], c)
  }

  /** The suffix of `s` after the first `c`, or "" when there is none. */
  function After(s: string, c: char): (r: string)
    ensures c in s ==> s == Before(s, c) + [c] + r
    ensures c !in s ==> r == []
  {
    if c in s then s[|Before(s, c)| + 1..] else []
  }

  /**
   * The URL parser's first steps on the input string: leading and trailing
   * C0 controls and spaces are stripped (the leading ones are never part of
   * a parameter at the end of a URL, so only the trailing ones matter here).
   */
  function TrimC0End(s: string): (r: string)
    ensures |r| <= |s| && r == s[..|r|]
    ensures r == [] || r[|r| - 1] as int > 0x20
    ensures forall i :: |r| <= i < |s| ==> s[i] as int <= 0x20
    ensures s == [] || s[|s| - 1] as int > 0x20 ==> r == s
  {
    if s == [] || s[|s| - 1] as int > 0x20 then s
    else
      var r := TrimC0End(s[..|s| - 1]);
      assert forall i :: 0 <= i < |s| - 1 ==> s[..|s| - 1][i] == s[i];
      r
  }

  predicate TabOrNewline(c: char) { c == '\t' || c == '\n' || c == '\r' }

  /** The URL parser removes every tab and newline from its input. */
  function RemoveTabNewline(s: string): (r: string)
    ensures IsSubsequence(r, s)
    ensures forall c :: multiset(r)[c] == if TabOrNewline(c) then 0 else multiset(s)[c]
    ensures (forall i :: 0 <= i < |s| ==> !TabOrNewline(s[i])) ==> r == s
  {
    var keep := c => !TabOrNewline(c);
    FilterKeepsEvery(s, keep);
    Filter(s, keep)
  }

  /**
   * The application/x-www-form-urlencoded reading of a name or a value:
   * `+` becomes a space, then percent-decoding, then UTF-8 decoding.
   */
  function FormDecode(v: string): (r: string)
    ensures '%' !in v && '+' !in v ==> r == v
  {
    if '%' !in v && '+' !in v then
      NoPlusBytes(v);
      Utf8RoundTrip(v);
      Utf8Decode(PercentDecode(PlusToSpace(Utf8String(v))))
    else
      Utf8Decode(PercentDecode(PlusToSpace(Utf8String(v))))
  }

  /** One name-value pair: split at the first `=`, a missing `=` giving an empty value. */
  function Pair(piece: string): (p: (string, string))
    ensures '=' !in piece ==> p.1 == ""
    ensures '%' !in piece && '+' !in piece ==> p == (Before(piece, '='), After(piece, '='))
  {
    (FormDecode(Before(piece, '=')), FormDecode(After(piece, '=')))
  }

  /** The form parser's list of pairs: split at every `&`, empty pieces skipped. */
  function Pairs(q: string): (r: seq<(string, string)>)
    ensures q == [] ==> r == []
    ensures q != [] && '&' !in q ==> r == [Pair(q)]
    ensures q != [] && q[0] == '&' ==> r == Pairs(q[1..])
    decreases |q|
  {
    if q == [] then []
    else
      var piece := Before(q, '&');
      var rest := After(q, '&');
      (if piece == [] then [] else [Pair(piece)]) + Pairs(rest)
  }

  /** `searchParams.get(name)`: the value of the first pair with that name, `null` (None) if none. */
  function Lookup(pairs: seq<(string, string)>, name: string): (r: Option<string>)
    ensures r.None? <==> forall i :: 0 <= i < |pairs| ==> pairs[i].0 != name
    ensures r.Some? ==> exists i :: (0 <= i < |pairs| && pairs[i] == (name, r.value)
      && forall j :: 0 <= j < i ==> pairs[j].0 != name)
  {
    match FindIndex(pairs, (p: (string, string)) => p.0 == name)
    case Some(i) => Some(pairs[i].1)
    case None => None
  }

  /**
   * The query string the server's `new URL(request.url)` holds when the
   * browser fetches `/api/employees?companyId=` followed by `raw`: tabs and
   * newlines removed, trailing controls and spaces stripped, everything from
   * `#` on taken as the fragment, the rest escaped by the query state.
   */
  function SentQuery(raw: string): (q: string)
    ensures |q| >= 10 && q[..10] == "companyId="
    ensures forall i :: 10 <= i < |q| ==> !QueryEscaped(q[i])
  {
    "companyId=" + QueryEncode(Before(RemoveTabNewline(TrimC0End(raw)), '#'))
  }

  /** A character a parameter can hold and still reach the server as itself without encoding. */
  predicate PlainParamChar(c: char)
  {
    c != '&' && c != '#' && c != '%' && c != '+' && !TabOrNewline(c)
  }

  /** The form parser reads back a value the URL parser escaped, when it held no `%` or `+`. */
  lemma FormDecodeOfQuery(raw: string)
    requires '%' !in raw && '+' !in raw
    ensures FormDecode(QueryEncode(raw)) == raw
  {
    var e := QueryEncode(raw);
    assert '+' !in e;
    NoPlusBytes(e);
    PercentDecodeQuery(raw);
    Utf8RoundTrip(raw);
  }

  /** The form parser reads back a component `encodeURIComponent` encoded and the URL parser escaped. */
  lemma FormDecodeOfComponent(s: string)
    ensures FormDecode(QueryEncode(EncodeUriComponent(s))) == s
  {
    var e := QueryEncode(EncodeUriComponent(s));
    assert '+' !in e;
    NoPlusBytes(e);
    PercentDecodeComponent(s);
    Utf8RoundTrip(s);
  }

  /** The single pair `companyId=<e>` for a value `e` without `&`. */
  lemma SentPair(e: string)
    requires '&' !in e
    ensures Pairs("companyId=" + e) == [("companyId", FormDecode(e))]
  {
    var q := "companyId=" + e;
    assert '&' !in q;
    SplitName(e);
    PlainName();
  }

  /** What `searchParams.get` returns on the query `companyId=<e>` for a value `e` without `&`. */
  lemma SentValue(e: string)
    requires '&' !in e
    ensures Lookup(Pairs("companyId=" + e), "companyId") == Some(FormDecode(e))
    ensures Lookup(Pairs("companyId=" + e), "id") == None
  {
    SentPair(e);
  }

  lemma SplitName(e: string)
    ensures Before("companyId=" + e, '=') == "companyId"
    ensures After("companyId=" + e, '=') == e
  {
    var q := "companyId=" + e;
    assert q[..9] == "companyId" && q[9] == '=';
    BeforeAt(q, '=', 9);
  }

  lemma PlainName()
    ensures FormDecode("companyId") == "companyId"
  {
    var n := "companyId";
    assert forall i :: 0 <= i < |n| ==> n[i] != '%' && n[i] != '+';
  }

  lemma BeforeAt(s: string, c: char, k: nat)
    requires k < |s| && s[k] == c && c !in s[..k]
    ensures Before(s, c) == s[..k]
  {
  }

  /**
   * A parameter without `&`, `#`, `%`, `+`, tabs or newlines, whose last
   * character is not a control or a space, reaches the server unchanged
   * even though it was not encoded, and no `id` parameter comes with it.
   */
  lemma PlainParamArrives(raw: string)
    requires forall i :: 0 <= i < |raw| ==> PlainParamChar(raw[i])
    requires raw == [] || raw[|raw| - 1] as int > 0x20
    ensures Lookup(Pairs(SentQuery(raw)), "companyId") == Some(raw)
    ensures Lookup(Pairs(SentQuery(raw)), "id") == None
  {
    SentQueryUncut(raw);
    var e := QueryEncode(raw);
    PlainNoAmpersand(raw);
    SentValue(e);
    FormDecodeOfQuery(raw);
  }

  /**
   * `encodeURIComponent` makes any string survive the trip: the server
   * reads back exactly the string the page encoded, and no other parameter.
   */
  lemma EncodedParamArrives(s: string)
    ensures Lookup(Pairs(SentQuery(EncodeUriComponent(s))), "companyId") == Some(s)
    ensures Lookup(Pairs(SentQuery(EncodeUriComponent(s))), "id") == None
  {
    var t := EncodeUriComponent(s);
    ComponentUncut(s);
    SentQueryUncut(t);
    ComponentNoAmpersand(s);
    SentValue(QueryEncode(t));
    FormDecodeOfComponent(s);
  }

  /** No `&` appears once an `encodeURIComponent` value is query-encoded. */
  lemma ComponentNoAmpersand(s: string)
    ensures '&' !in QueryEncode(EncodeUriComponent(s))
  {
    ComponentUncut(s);
    PlainNoAmpersand(EncodeUriComponent(s));
  }

  /** `encodeURIComponent` output holds no `&`, `#`, tab, newline, control or space. */
  lemma ComponentUncut(s: string)
    ensures var t := EncodeUriComponent(s);
      && (forall i :: 0 <= i < |t| ==> !TabOrNewline(t[i]) && t[i] != '#' && t[i] != '&' && t[i] as int > 0x20)
      && (t == [] || t[|t| - 1] as int > 0x20)
  {
  }

  /** The form parser splits at the first `&` and goes on with the rest. */
  lemma PairsAtAmpersand(p: string, b: string)
    requires p != [] && '&' !in p
    ensures Pairs(p + "&" + b) == [Pair(p)] + Pairs(b)
  {
    var q := p + "&" + b;
    assert q[..|p|] == p && q[|p|] == '&';
    BeforeAt(q, '&', |p|);
    assert q[|p| + 1..] == b;
  }

  /** The query the server receives for a parameter the URL parser neither trims nor cuts. */
  lemma SentQueryUncut(raw: string)
    requires forall i :: 0 <= i < |raw| ==> !TabOrNewline(raw[i]) && raw[i] != '#'
    requires raw == [] || raw[|raw| - 1] as int > 0x20
    ensures SentQuery(raw) == "companyId=" + QueryEncode(raw)
  {
    assert Before(RemoveTabNewline(TrimC0End(raw)), '#') == raw;
  }

  lemma QueryEncodeAmpersand(a: string, b: string)
    requires forall i :: 0 <= i < |b| ==> !QueryEscaped(b[i])
    ensures QueryEncode(a + "&" + b) == QueryEncode(a) + "&" + b
  {
    QueryEncodePlain("&" + b);
    QueryEncodeAppend(a, "&" + b);
    assert a + "&" + b == a + ("&" + b);
  }

  /**
   * An unencoded parameter holding `&` is cut there: the server reads only
   * the part before it as `companyId`, and the part after it becomes a
   * pair of its own, with an empty value.
   */
  lemma AmpersandCutsParam(a: string, b: string)
    requires forall i :: 0 <= i < |a| ==> PlainParamChar(a[i])
    requires b != [] && b[|b| - 1] as int > 0x20 && b != "id"
    requires forall i :: 0 <= i < |b| ==> PlainParamChar(b[i]) && !QueryEscaped(b[i]) && b[i] != '='
    ensures Lookup(Pairs(SentQuery(a + "&" + b)), "companyId") == Some(a)
    ensures Lookup(Pairs(SentQuery(a + "&" + b)), "id") == None
  {
    var ea := QueryEncode(a);
    AmpersandQuery(a, b);
    PlainNoAmpersand(a);
    TwoPairs(ea, b);
    FormDecodeOfQuery(a);
    LookupTwo(("companyId", a), (b, ""), "companyId");
    LookupTwo(("companyId", a), (b, ""), "id");
  }

  /** Query encoding adds no `&`. */
  lemma PlainNoAmpersand(a: string)
    requires '&' !in a
    ensures '&' !in QueryEncode(a)
  {
  }

  /** The query the server receives for `<a>&<b>`, `b` needing no escape. */
  lemma AmpersandQuery(a: string, b: string)
    requires forall i :: 0 <= i < |a| ==> PlainParamChar(a[i])
    requires b != [] && b[|b| - 1] as int > 0x20
    requires forall i :: 0 <= i < |b| ==> PlainParamChar(b[i]) && !QueryEscaped(b[i])
    ensures SentQuery(a + "&" + b) == "companyId=" + QueryEncode(a) + "&" + b
  {
    var raw := a + "&" + b;
    JoinedUncut(a, b);
    SentQueryUncut(raw);
    QueryEncodeAmpersand(a, b);
    AppendAssoc("companyId=", QueryEncode(a), "&", b);
  }

  lemma JoinedUncut(a: string, b: string)
    requires forall i :: 0 <= i < |a| ==> PlainParamChar(a[i])
    requires b != [] && b[|b| - 1] as int > 0x20
    requires forall i :: 0 <= i < |b| ==> PlainParamChar(b[i])
    ensures var raw := a + "&" + b;
      && (forall i :: 0 <= i < |raw| ==> !TabOrNewline(raw[i]) && raw[i] != '#')
      && raw[|raw| - 1] as int > 0x20
  {
    var raw := a + "&" + b;
    assert forall i :: 0 <= i < |a| ==> raw[i] == a[i];
    assert forall i :: |a| < i < |raw| ==> raw[i] == b[i - |a| - 1];
  }

  /** The pairs of `companyId=<e>&<b>`, for `e` without `&` and a plain name `b`. */
  lemma TwoPairs(e: string, b: string)
    requires '&' !in e
    requires b != [] && '&' !in b && '=' !in b && '%' !in b && '+' !in b
    ensures Pairs("companyId=" + e + "&" + b) == [("companyId", FormDecode(e)), (b, "")]
  {
    CompanyPiece(e);
    PairsAtAmpersand("companyId=" + e, b);
    SentPair(e);
    OneNamePair(b);
  }

  lemma LookupTwo(x: (string, string), y: (string, string), name: string)
    ensures Lookup([x, y], name) == if x.0 == name then Some(x.1) else if y.0 == name then Some(y.1) else None
  {
    var r := Lookup([x, y], name);
    if r.Some? {
      var i :| 0 <= i < 2 && [x, y][i] == (name, r.value) && forall j :: 0 <= j < i ==> [x, y][j].0 != name;
      if i == 1 {
        assert [x, y][0] == x;
      }
    } else {
      assert [x, y][0] == x && [x, y][1] == y;
    }
  }

  lemma AppendAssoc(x: string, y: string, z: string, w: string)
    ensures x + (y + z + w) == x + y + z + w
  {
  }

  lemma CompanyPiece(e: string)
    requires '&' !in e
    ensures "companyId=" + e != [] && '&' !in "companyId=" + e
  {
  }

  /** A piece without `=` is a name with an empty value. */
  lemma OneNamePair(b: string)
    requires b != [] && '&' !in b && '=' !in b && '%' !in b && '+' !in b
    ensures Pairs(b) == [(b, "")]
  {
  }
}
