/** The download link of each quality variant, and how the download route
    reads it back: `request.args.get(name)` parses the query string as
    application/x-www-form-urlencoded (the parser of section 5.1 of the
    WHATWG URL Standard): split at '&', split each pair at its first '=',
    turn '+' into a space and %XY into the character with that code, and
    take the first pair whose name matches. */
module Query {
  import opened Wrappers
  import opened Text

  /** The characters percent-encoding leaves as they are (section 2.3 of RFC 3986). */
  predicate Unreserved(c: char)
  {
    'A' <= c <= 'Z' || 'a' <= c <= 'z' || '0' <= c <= '9' || c == '-' || c == '.' || c == '_' || c == '~'
  }

  predicate IsHex(c: char) { '0' <= c <= '9' || 'A' <= c <= 'F' || 'a' <= c <= 'f' }

  function HexDigit(d: nat): (c: char)
    requires d < 16
    ensures IsHex(c) && c != '%' && c != '+'
  {
    if d < 10 then (d + '0' as int) as char else (d - 10 + 'A' as int) as char
  }

  function HexValue(c: char): (d: nat)
    requires IsHex(c)
    ensures d < 16
  {
    if c <= '9' then c as int - '0' as int
    else if c <= 'F' then c as int - 'A' as int + 10
    else c as int - 'a' as int + 10
  }

  lemma HexRoundTrip(d: nat)
    requires d < 16
    ensures HexValue(HexDigit(d)) == d
  {
  }

  /** Percent-decoding of one name or value of the query string. */
  function Decode(s: string): string
  {
    if s == [] then ""
    else if s[0] == '%' && |s| >= 3 && IsHex(s[1]) && IsHex(s[2]) then
      [(HexValue(s[1]) * 16 + HexValue(s[2])) as char] + Decode(s[3..])
    else if s[0] == '+' then " " + Decode(s[1..])
    else [s[0]] + Decode(s[1..])
  }

  /** `urllib.parse.quote(s, safe='')` on ASCII: every character that is
      not unreserved becomes %XY with upper-case hex digits. */
  function EncodeChar(c: char): (r: string)
    ensures '&' !in r && '?' !in r && '=' !in r
  {
    if Unreserved(c) || c as int >= 128 then [c]
    else ['%', HexDigit(c as int / 16), HexDigit(c as int % 16)]
  }

  function Encode(s: string): (r: string)
    ensures '&' !in r && '?' !in r && '=' !in r
  {
    if s == [] then "" else EncodeChar(s[0]) + Encode(s[1..])
  }

  lemma {:induction false} DecodeEncode(s: string)
    ensures Decode(Encode(s)) == s
  {
    if s != [] {
      var c, rest := s[0], Encode(s[1..]);
      var t := EncodeChar(c) + rest;
      DecodeEncode(s[1..]);
      if Unreserved(c) || c as int >= 128 {
        assert t[0] == c && t[1..] == rest;
      } else {
        HexRoundTrip(c as int / 16);
        HexRoundTrip(c as int % 16);
        assert t[0] == '%' && IsHex(t[1]) && IsHex(t[2]) && t[3..] == rest;
      }
      assert [s[0]] + s[1..] == s;
    }
  }

  /** Text without '%' or '+' decodes to itself. */
  lemma {:induction false} DecodePlain(s: string)
    requires '%' !in s && '+' !in s
    ensures Decode(s) == s
  {
    if s != [] {
      DecodePlain(s[1..]);
      assert [s[0]] + s[1..] == s;
    }
  }

  /** The value of the first pair named `name`, percent-decoded. */
  function FirstNamed(pairs: seq<string>, name: string): Option<string>
  {
    if pairs == [] then None
    else
      var (key, value) := Partition(pairs[0], '=');
      if Decode(key) == name then Some(Decode(value)) else FirstNamed(pairs[1..], name)
  }

  /** The query string of a link: what follows its first '?'. */
  function QueryOf(link: string): string { Partition(link, '?').1 }

  /** `request.args.get(name)` for a request to `link`. */
  function Lookup(link: string, name: string): Option<string>
  {
    FirstNamed(SplitOn(QueryOf(link), '&'), name)
  }

  /** The link as the handler writes it: url and format id pasted in as they are. */
  function LinkAsWritten(url: string, formatId: string): string
  {
    "/download?url=" + url + "&format_id=" + formatId
  }

  /** The link with both parameters percent-encoded. */
  function Link(url: string, formatId: string): string
  {
    "/download?url=" + Encode(url) + "&format_id=" + Encode(formatId)
  }

  /** A link "/download?" + query has that query. */
  lemma QueryOfDownload(query: string)
    ensures QueryOf("/download?" + query) == query
  {
    assert "/download?" + query == "/download" + ['?'] + query;
    PartitionFirst("/download", '?', query);
  }

  /** A pair "name=value" whose name needs no decoding. */
  lemma PairParts(name: string, value: string)
    requires '=' !in name && '%' !in name && '+' !in name
    ensures Partition(name + "=" + value, '=') == (name, value)
    ensures Decode(name) == name
  {
    PartitionFirst(name, '=', value);
    DecodePlain(name);
  }

  /** A query of two pairs, neither holding '&', splits into those two. */
  lemma TwoPairs(a: string, b: string)
    requires '&' !in a && '&' !in b
    ensures SplitOn(QueryOf("/download?" + (a + ['&'] + b)), '&') == [a, b]
  {
    QueryOfDownload(a + ['&'] + b);
    SplitOnFirst(a, '&', b);
    SplitOnNone(b, '&');
  }

  /** The encoded link splits into exactly its two pairs. */
  lemma LinkPairs(url: string, formatId: string)
    ensures SplitOn(QueryOf(Link(url, formatId)), '&') == ["url=" + Encode(url), "format_id=" + Encode(formatId)]
  {
    var a, b := "url=" + Encode(url), "format_id=" + Encode(formatId);
    assert Link(url, formatId) == "/download?" + (a + ['&'] + b);
    TwoPairs(a, b);
  }

  /** Looking up either name of a two-pair query whose names need no decoding. */
  lemma FirstOfTwo(k1: string, v1: string, k2: string, v2: string)
    requires '=' !in k1 && '%' !in k1 && '+' !in k1
    requires '=' !in k2 && '%' !in k2 && '+' !in k2
    requires k1 != k2
    ensures FirstNamed([k1 + "=" + v1, k2 + "=" + v2], k1) == Some(Decode(v1))
    ensures FirstNamed([k1 + "=" + v1, k2 + "=" + v2], k2) == Some(Decode(v2))
  {
    PairParts(k1, v1);
    PairParts(k2, v2);
    var pairs := [k1 + "=" + v1, k2 + "=" + v2];
    assert pairs[1..] == [k2 + "=" + v2];
  }

  /** The download route reads back exactly the url and format id the link was made from. */
  lemma LinkRoundTrip(url: string, formatId: string)
    ensures Lookup(Link(url, formatId), "url") == Some(url)
    ensures Lookup(Link(url, formatId), "format_id") == Some(formatId)
  {
    var u, f := Encode(url), Encode(formatId);
    LinkPairs(url, formatId);
    assert "url=" + u == "url" + "=" + u;
    assert "format_id=" + f == "format_id" + "=" + f;
    assert |"url"| != |"format_id"|;
    FirstOfTwo("url", u, "format_id", f);
    DecodeEncode(url);
    DecodeEncode(formatId);
  }

  /** A value `request.args.get` reads back as it is: no '&' to split
      the query at, no '%' or '+' to decode, and no '#' before which a
      client would cut the link off. */
  predicate Plain(s: string) { '&' !in s && '%' !in s && '+' !in s && '#' !in s }

  /** The link as written splits into exactly its two pairs when the url holds no '&'. */
  lemma LinkAsWrittenPairs(url: string, formatId: string)
    requires '&' !in url && '&' !in formatId
    ensures SplitOn(QueryOf(LinkAsWritten(url, formatId)), '&') == ["url=" + url, "format_id=" + formatId]
  {
    var a, b := "url=" + url, "format_id=" + formatId;
    assert LinkAsWritten(url, formatId) == "/download?" + (a + ['&'] + b);
    TwoPairs(a, b);
  }

  /** The link as written reads back the url and the format id when
      neither holds '&', '%', '+' or '#'. The converse does not hold: a '%' not
      followed by two hex digits is left as it is. */
  lemma LinkAsWrittenRoundTrip(url: string, formatId: string)
    requires Plain(url) && Plain(formatId)
    ensures Lookup(LinkAsWritten(url, formatId), "url") == Some(url)
    ensures Lookup(LinkAsWritten(url, formatId), "format_id") == Some(formatId)
  {
    LinkAsWrittenPairs(url, formatId);
    assert "url=" + url == "url" + "=" + url;
    assert "format_id=" + formatId == "format_id" + "=" + formatId;
    assert |"url"| != |"format_id"|;
    FirstOfTwo("url", url, "format_id", formatId);
    DecodePlain(url);
    DecodePlain(formatId);
  }

  /** As written, a video url holding a '&' loses everything from that '&'
      on: the download route reads a different url than the one analyzed. */
  lemma {:induction false} LinkAsWrittenTruncates(head: string, tail: string, formatId: string)
    requires '&' !in head && '%' !in head && '+' !in head
    ensures Lookup(LinkAsWritten(head + "&" + tail, formatId), "url") == Some(head)
    ensures Lookup(LinkAsWritten(head + "&" + tail, formatId), "url") != Some(head + "&" + tail)
  {
    var a := "url=" + head;
    var rest := tail + "&format_id=" + formatId;
    assert LinkAsWritten(head + "&" + tail, formatId) == "/download?" + (a + ['&'] + rest);
    QueryOfDownload(a + ['&'] + rest);
    SplitOnFirst(a, '&', rest);
    var pairs := [a] + SplitOn(rest, '&');
    assert pairs[0] == "url" + "=" + head;
    PairParts("url", head);
    DecodePlain(head);
    assert |head + "&" + tail| > |head|;
  }

  /** A concrete instance: a url with a second query parameter. */
  lemma LinkAsWrittenExample()
    ensures Lookup(LinkAsWritten("https://y.tv/w?v=a&t=1", "18"), "url") == Some("https://y.tv/w?v=a")
  {
    assert "https://y.tv/w?v=a&t=1" == "https://y.tv/w?v=a" + "&" + "t=1";
    LinkAsWrittenTruncates("https://y.tv/w?v=a", "t=1", "18");
  }
}
