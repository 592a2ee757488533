/**
 Redirect responses (server/mux/redirect.go, server/mux/handler.go:94-107): the
 target is percent-escaped byte by byte, then put HTML-escaped into a link.
 */
module Redirecting {
  import opened Options

  type Byte = b: int | 0 <= b < 256

  type Bytes = seq<Byte>

  const RUNE_SELF: int := 0x80
  const PERCENT: Byte := 0x25

  predicate Ascii(s: Bytes) {
    forall i :: 0 <= i < |s| ==> s[i] < 128
  }

  /** The bytes of an ASCII text. */
  function Text(s: string): (bs: Bytes)
    requires forall i :: 0 <= i < |s| ==> s[i] as int < 128
    ensures |bs| == |s| && forall i :: 0 <= i < |s| ==> bs[i] == s[i] as int
  {
    seq(|s|, i requires 0 <= i < |s| => s[i] as int)
  }

  // Percent-escaping.

  /** The digits 0-9 and a-f. */
  function HexDigit(d: nat): Byte
    requires d < 16
  {
    if d < 10 then 0x30 + d else 0x61 + (d - 10)
  }

  /** A number in base 16, without leading zeros, appended to `b`. */
  function AppendHex(b: Bytes, n: nat): Bytes {
    if n < 16 then b + [HexDigit(n)] else AppendHex(b, n / 16) + [HexDigit(n % 16)]
  }

  /** A byte outside ASCII has exactly two hexadecimal digits. */
  lemma AppendHexTwo(b: Bytes, c: Byte)
    requires c >= RUNE_SELF
    ensures AppendHex(b, c) == b + [HexDigit(c / 16), HexDigit(c % 16)]
  {
    assert AppendHex(b, c) == AppendHex(b, c / 16) + [HexDigit(c % 16)];
    assert AppendHex(b, c / 16) == b + [HexDigit(c / 16)];
  }

  function EscapeByte(c: Byte): Bytes {
    if c >= RUNE_SELF then [PERCENT, HexDigit(c / 16), HexDigit(c % 16)] else [c]
  }

  function Escape(s: Bytes): Bytes {
    if s == [] then [] else EscapeByte(s[0]) + Escape(s[1..])
  }

  function EscapedLength(s: Bytes): nat {
    if s == [] then 0 else (if s[0] >= RUNE_SELF then 3 else 1) + EscapedLength(s[1..])
  }

  /** The precomputed length is exact, and equals the input's only when nothing is escaped. */
  lemma {:induction false} EscapeLength(s: Bytes)
    ensures |Escape(s)| == EscapedLength(s) >= |s|
    ensures EscapedLength(s) == |s| <==> Ascii(s)
  {
    if s != [] {
      EscapeLength(s[1..]);
      assert s == [s[0]] + s[1..];
    }
  }

  lemma {:induction false} EscapeOfAscii(s: Bytes)
    requires Ascii(s)
    ensures Escape(s) == s
  {
    if s != [] {
      EscapeOfAscii(s[1..]);
    }
  }

  /** The escaped form is all ASCII, and escaping it again changes nothing. */
  lemma EscapeIdempotent(s: Bytes)
    ensures Ascii(Escape(s)) && Escape(Escape(s)) == Escape(s)
  {
    EscapeIsAscii(s);
    EscapeOfAscii(Escape(s));
  }

  lemma {:induction false} EscapeIsAscii(s: Bytes)
    ensures Ascii(Escape(s))
  {
    if s != [] {
      EscapeIsAscii(s[1..]);
    }
  }

  lemma SuffixStep(s: Bytes, i: nat)
    requires i < |s|
    ensures s[i..] == [s[i]] + s[i + 1..]
    ensures Escape(s[i..]) == EscapeByte(s[i]) + Escape(s[i + 1..])
    ensures EscapedLength(s[i..]) == (if s[i] >= RUNE_SELF then 3 else 1) + EscapedLength(s[i + 1..])
  {
    assert s[i..][1..] == s[i + 1..];
  }

  method HexEscapeNonASCII(s: Bytes) returns (r: Bytes)
    ensures r == Escape(s)
  {
    var newLen := 0;
    assert s[0..] == s;
    for i := 0 to |s|
      invariant newLen + EscapedLength(s[i..]) == EscapedLength(s)
    {
      SuffixStep(s, i);
      if s[i] >= RUNE_SELF {
        newLen := newLen + 3;
      } else {
        newLen := newLen + 1;
      }
    }
    assert newLen == EscapedLength(s);
    if newLen == |s| {
      EscapeLength(s);
      EscapeOfAscii(s);
      return s;
    }
    var b: Bytes := [];
    for i := 0 to |s|
      invariant b + Escape(s[i..]) == Escape(s)
    {
      SuffixStep(s, i);
      ghost var before := b;
      if s[i] >= RUNE_SELF {
        b := b + [PERCENT];
        AppendHexTwo(b, s[i]);
        b := AppendHex(b, s[i]);
      } else {
        b := b + [s[i]];
      }
      assert b == before + EscapeByte(s[i]);
      Assoc(before, EscapeByte(s[i]), Escape(s[i + 1..]));
    }
    assert b + [] == b;
    r := b;
  }

  lemma Assoc(a: Bytes, b: Bytes, c: Bytes)
    ensures (a + b) + c == a + (b + c)
  {
  }

  lemma {:induction false} EscapeConcat(s: Bytes, t: Bytes)
    ensures Escape(s + t) == Escape(s) + Escape(t)
  {
    if s == [] {
      assert s + t == t;
    } else {
      EscapeConcat(s[1..], t);
      assert (s + t)[1..] == s[1..] + t;
      Assoc(EscapeByte(s[0]), Escape(s[1..]), Escape(t));
    }
  }

  /**
   The escaped form byte by byte: an ASCII byte stays, any other becomes a percent
   sign and its two digits in base 16, in lower case.
   */
  lemma EscapeParts(s: Bytes, c: Byte, t: Bytes)
    ensures Escape(s + [c] + t)
            == Escape(s)
               + (if c < 128 then [c] else Text("%") + [Text("0123456789abcdef")[c / 16], Text("0123456789abcdef")[c % 16]])
               + Escape(t)
  {
    EscapeConcat(s + [c], t);
    EscapeConcat(s, [c]);
    EscapeOne(c);
    hide Escape;
  }

  lemma EscapeOne(c: Byte)
    ensures Escape([c])
            == if c < 128 then [c] else Text("%") + [Text("0123456789abcdef")[c / 16], Text("0123456789abcdef")[c % 16]]
  {
    assert [c][1..] == [] && Escape([c]) == EscapeByte(c) + Escape([]) == EscapeByte(c);
    if c >= 128 {
      Lowercase(c / 16);
      Lowercase(c % 16);
      assert Text("%") == [PERCENT];
    }
    hide Escape;
  }

  lemma Lowercase(d: nat)
    requires d < 16
    ensures HexDigit(d) == Text("0123456789abcdef")[d]
  {
  }

  // Percent-decoding, section 2.1 of RFC 3986.

  function HexValue(c: Byte): Option<nat> {
    if 0x30 <= c <= 0x39 then Some(c - 0x30)
    else if 0x41 <= c <= 0x46 then Some(c - 0x41 + 10)
    else if 0x61 <= c <= 0x66 then Some(c - 0x61 + 10)
    else None
  }

  /** A percent sign followed by two hexadecimal digits of either case. */
  predicate TripletAt(s: Bytes, i: nat) {
    i + 2 < |s| && s[i] == PERCENT && HexValue(s[i + 1]).Some? && HexValue(s[i + 2]).Some?
  }

  predicate HasTriplet(s: Bytes) {
    exists i :: 0 <= i < |s| && TripletAt(s, i)
  }

  /** Every triplet becomes its byte, everything else stays. */
  function Decode(s: Bytes): Bytes {
    if s == [] then []
    else if TripletAt(s, 0) then
      [HexValue(s[1]).value * 16 + HexValue(s[2]).value] + Decode(s[3..])
    else [s[0]] + Decode(s[1..])
  }

  lemma DecodePlain(c: Byte, rest: Bytes)
    requires !TripletAt([c] + rest, 0)
    ensures Decode([c] + rest) == [c] + Decode(rest)
  {
    assert ([c] + rest)[1..] == rest;
  }

  lemma DecodeTriplet(h: Byte, l: Byte, rest: Bytes)
    requires HexValue(h).Some? && HexValue(l).Some?
    ensures Decode([PERCENT, h, l] + rest) == [HexValue(h).value * 16 + HexValue(l).value] + Decode(rest)
  {
    var s := [PERCENT, h, l] + rest;
    assert s[0] == PERCENT && s[1] == h && s[2] == l && s[3..] == rest;
  }

  /** Escaping makes no triplet out of a plain percent sign: its neighbours keep their bytes. */
  lemma TripletKept(t: Bytes)
    ensures TripletAt([PERCENT] + Escape(t), 0) <==> TripletAt([PERCENT] + t, 0)
  {
    EscapeStart(t);
    if t != [] {
      EscapeStart(t[1..]);
      assert t[0] < RUNE_SELF ==> Escape(t) == [t[0]] + Escape(t[1..]);
    }
  }

  /** The escaped form is as empty as the text, and starts with its first byte or a percent sign. */
  lemma EscapeStart(t: Bytes)
    ensures |Escape(t)| >= 1 <==> t != []
    ensures t != [] ==> Escape(t)[0] == if t[0] >= RUNE_SELF then PERCENT else t[0]
  {
  }

  lemma {:induction false} EscapeTriplet(s: Bytes)
    requires TripletAt(s, 0)
    ensures Escape(s) == [PERCENT, s[1], s[2]] + Escape(s[3..])
  {
    assert Escape(s) == [PERCENT] + Escape(s[1..]);
    SuffixStep(s, 1);
    SuffixStep(s, 2);
  }

  lemma HasTripletStep(s: Bytes)
    requires s != []
    ensures HasTriplet(s) <==> TripletAt(s, 0) || HasTriplet(s[1..])
  {
    var t := s[1..];
    assert forall i :: 0 <= i < |t| ==> (TripletAt(t, i) <==> TripletAt(s, i + 1));
    if HasTriplet(s) && !TripletAt(s, 0) {
      var i :| 0 <= i < |s| && TripletAt(s, i);
      assert TripletAt(t, i - 1);
    }
    if HasTriplet(t) {
      var i :| 0 <= i < |t| && TripletAt(t, i);
      assert TripletAt(s, i + 1);
    }
  }

  /** Decoding the escaped form gives the text back, or something strictly shorter. */
  lemma {:induction false} DecodeEscape(s: Bytes)
    ensures if HasTriplet(s) then |Decode(Escape(s))| < |s| else Decode(Escape(s)) == s
    decreases |s|
  {
    if s == [] {
    } else if TripletAt(s, 0) {
      EscapeTriplet(s);
      DecodeTriplet(s[1], s[2], Escape(s[3..]));
      DecodeEscape(s[3..]);
      assert HasTriplet(s);
    } else {
      var c, t := s[0], s[1..];
      assert s == [c] + t;
      HasTripletStep(s);
      DecodeEscape(t);
      if c >= RUNE_SELF {
        DecodeTriplet(HexDigit(c / 16), HexDigit(c % 16), Escape(t));
      } else {
        TripletKept(t);
        DecodePlain(c, Escape(t));
      }
    }
  }

  /** Percent-decoding inverts the escaping exactly on texts that contain no triplet themselves. */
  lemma DecodeInvertsIffNoTriplet(s: Bytes)
    ensures Decode(Escape(s)) == s <==> !HasTriplet(s)
  {
    DecodeEscape(s);
  }

  /** In particular on every text without a percent sign. */
  lemma DecodeInvertsWithoutPercent(s: Bytes)
    requires forall i :: 0 <= i < |s| ==> s[i] != PERCENT
    ensures Decode(Escape(s)) == s
  {
    DecodeEscape(s);
  }

  lemma EscapeInjective(s: Bytes, t: Bytes)
    requires !HasTriplet(s) && !HasTriplet(t) && Escape(s) == Escape(t)
    ensures s == t
  {
    DecodeEscape(s);
    DecodeEscape(t);
  }

  // HTML escaping.

  const AMP: Bytes := Text("&amp;")
  const LT: Bytes := Text("&lt;")
  const GT: Bytes := Text("&gt;")
  const QUOT: Bytes := Text("&#34;")
  const APOS: Bytes := Text("&#39;")

  /** The replacement table; the replacer works byte by byte, in one pass. */
  function HtmlByte(c: Byte): Bytes {
    if c == 0x26 then AMP
    else if c == 0x3C then LT
    else if c == 0x3E then GT
    else if c == 0x22 then QUOT
    else if c == 0x27 then APOS
    else [c]
  }

  function HtmlEscape(s: Bytes): Bytes {
    if s == [] then [] else HtmlByte(s[0]) + HtmlEscape(s[1..])
  }

  // Reading HTML, independently of the table above.

  predicate Digit(c: Byte) {
    '0' as int <= c <= '9' as int
  }

  /** How many digits the text has from `i` on. */
  function DigitsAt(s: Bytes, i: nat): (n: nat)
    requires i <= |s|
    ensures i + n <= |s|
    decreases |s| - i
  {
    if i < |s| && Digit(s[i]) then 1 + DigitsAt(s, i + 1) else 0
  }

  /** The decimal number written by the first `n` digits from `i` on. */
  function Decimal(s: Bytes, i: nat, n: nat): int
    requires i + n <= |s|
  {
    if n == 0 then 0 else Decimal(s, i, n - 1) * 10 + (s[i + n - 1] - '0' as int)
  }

  /** A decimal character reference: an ampersand, a hash sign, digits and a semicolon. */
  function NumericReference(s: Bytes): Option<(int, nat)> {
    if |s| < 2 || s[0] != '&' as int || s[1] != '#' as int then None
    else
      var n := DigitsAt(s, 2);
      if n == 0 || 2 + n == |s| || s[2 + n] != ';' as int then None else Some((Decimal(s, 2, n), n + 3))
  }

  /** A text starts with this one. */
  predicate Starts(s: Bytes, t: string)
    requires forall i :: 0 <= i < |t| ==> t[i] as int < 128
  {
    |t| <= |s| && forall i :: 0 <= i < |t| ==> s[i] == t[i] as int
  }

  /**
   The character reference that a text starts with, and what it stands for: one of
   the five names that XML knows too, or the number of an ASCII character.
   */
  function Reference(s: Bytes): Option<(Byte, nat)> {
    if Starts(s, "&amp;") then Some(('&' as int, 5))
    else if Starts(s, "&lt;") then Some(('<' as int, 4))
    else if Starts(s, "&gt;") then Some(('>' as int, 4))
    else if Starts(s, "&quot;") then Some(('"' as int, 6))
    else if Starts(s, "&apos;") then Some(('\'' as int, 6))
    else
      match NumericReference(s)
      case Some((c, n)) => if 0 <= c < 128 then Some((c, n)) else None
      case None => None
  }

  /** Resolves the character references; everything else stays. */
  function HtmlUnescape(s: Bytes): Bytes
    decreases |s|
  {
    if s == [] then []
    else
      match Reference(s)
      case Some((c, n)) => if 0 < n <= |s| then [c] + HtmlUnescape(s[n..]) else [s[0]] + HtmlUnescape(s[1..])
      case None => [s[0]] + HtmlUnescape(s[1..])
  }

  /** A numeric reference of two digits is read as their number. */
  lemma TwoDigits(s: Bytes)
    requires |s| >= 5 && s[0] == '&' as int && s[1] == '#' as int && s[4] == ';' as int
    requires Digit(s[2]) && Digit(s[3])
    ensures NumericReference(s) == Some(((s[2] - 48) * 10 + (s[3] - 48), 5))
  {
    assert DigitsAt(s, 4) == 0;
    assert DigitsAt(s, 3) == 1;
    assert DigitsAt(s, 2) == 2;
    assert Decimal(s, 2, 0) == 0;
    assert Decimal(s, 2, 1) == s[2] - 48;
    assert Decimal(s, 2, 2) == (s[2] - 48) * 10 + (s[3] - 48);
  }

  /** A replaced byte reads as a reference to itself, and any other byte as no reference. */
  lemma ReferenceOf(c: Byte, rest: Bytes)
    ensures Reference(HtmlByte(c) + rest) == if |HtmlByte(c)| > 1 then Some((c, |HtmlByte(c)|)) else None
  {
    var h := HtmlByte(c);
    var s := h + rest;
    assert forall i :: 0 <= i < |h| ==> s[i] == h[i];
    if c == 0x26 {
      assert Starts(s, "&amp;");
    } else if c == 0x3C {
      assert s[1] == 'l' as int && Starts(s, "&lt;");
    } else if c == 0x3E {
      assert s[1] == 'g' as int && Starts(s, "&gt;");
    } else if c == 0x22 || c == 0x27 {
      assert s[1] == '#' as int && s[1] != 'q' as int && s[1] != 'a' as int;
      TwoDigits(s);
    } else {
      assert s[0] == c != '&' as int;
    }
  }

  lemma UnescapeByte(c: Byte, rest: Bytes)
    ensures HtmlUnescape(HtmlByte(c) + rest) == [c] + HtmlUnescape(rest)
  {
    ReferenceOf(c, rest);
    var s := HtmlByte(c) + rest;
    assert s[|HtmlByte(c)|..] == rest;
    hide Reference;
  }

  /** Unescaping inverts the HTML escaping on every text. */
  lemma {:induction false} UnescapeInverts(s: Bytes)
    ensures HtmlUnescape(HtmlEscape(s)) == s
  {
    if s != [] {
      UnescapeInverts(s[1..]);
      UnescapeByte(s[0], HtmlEscape(s[1..]));
    }
  }

  /** No byte that could end the attribute or open a tag is left. */
  predicate Harmless(s: Bytes) {
    forall i :: 0 <= i < |s| ==> s[i] != 0x3C && s[i] != 0x3E && s[i] != 0x22 && s[i] != 0x27
  }

  lemma HarmlessByte(c: Byte)
    ensures Harmless(HtmlByte(c))
    ensures c < 128 ==> Ascii(HtmlByte(c))
  {
  }

  lemma {:induction false} EscapeHarmless(s: Bytes)
    ensures Harmless(HtmlEscape(s))
    ensures Ascii(s) ==> Ascii(HtmlEscape(s))
  {
    if s != [] {
      EscapeHarmless(s[1..]);
      HarmlessByte(s[0]);
      hide HtmlByte;
    }
  }

  // The response.

  /** `<a href="` and `">Found</a>.` with a newline. */
  const OPENING: Bytes := Text("<a href=\"")
  const CLOSING: Bytes := Text("\">Found</a>.\n")

  function Page(location: Bytes): Bytes {
    OPENING + HtmlEscape(location) + CLOSING
  }

  function AfterQuote(s: Bytes): Bytes {
    if s == [] then [] else if s[0] == '"' as int then s[1..] else AfterQuote(s[1..])
  }

  function UpToQuote(s: Bytes): Bytes {
    if s == [] || s[0] == '"' as int then [] else [s[0]] + UpToQuote(s[1..])
  }

  /** The link as a reader finds it: what is between the first two quotes, with its references resolved. */
  function Href(page: Bytes): Bytes {
    HtmlUnescape(UpToQuote(AfterQuote(page)))
  }

  lemma {:induction false} AfterQuoteSkips(s: Bytes, rest: Bytes)
    requires forall i :: 0 <= i < |s| ==> s[i] != '"' as int
    ensures AfterQuote(s + Text("\"") + rest) == rest
  {
    var t := s + Text("\"") + rest;
    if s == [] {
      assert t[1..] == rest;
    } else {
      AfterQuoteSkips(s[1..], rest);
      assert t[1..] == s[1..] + Text("\"") + rest;
    }
  }

  lemma {:induction false} UpToQuoteStops(s: Bytes, rest: Bytes)
    requires Harmless(s) && rest != [] && rest[0] == 0x22
    ensures UpToQuote(s + rest) == s
  {
    if s == [] {
      assert s + rest == rest;
    } else {
      UpToQuoteStops(s[1..], rest);
      assert (s + rest)[1..] == s[1..] + rest;
    }
  }

  /** The link in the body leads exactly to the location in the header. */
  lemma HrefIsLocation(location: Bytes)
    ensures Href(Page(location)) == location
  {
    EscapeHarmless(location);
    AfterQuoteSkips(Text("<a href="), HtmlEscape(location) + CLOSING);
    assert OPENING == Text("<a href=") + Text("\"");
    assert Page(location) == Text("<a href=") + Text("\"") + (HtmlEscape(location) + CLOSING);
    UpToQuoteStops(HtmlEscape(location), CLOSING);
    UnescapeInverts(location);
  }

  const LOCATION: string := "Location"
  const CONTENT_TYPE: string := "Content-Type"
  const HTML: string := "text/html; charset=utf-8"
  const STATUS_FOUND: int := 302

  class HttpBody {
    var contentType: string
    var data: Bytes

    constructor (contentType: string, data: Bytes)
      ensures this.contentType == contentType && this.data == data
    {
      this.contentType := contentType;
      this.data := data;
    }
  }

  datatype HeaderValue = Line(bytes: Bytes) | Name(text: string)

  class ResponseWriter {
    var header: map<string, HeaderValue>
    var status: Option<int>

    constructor ()
      ensures header == map[] && status == None
    {
      header := map[];
      status := None;
    }
  }

  /** A response message is an HTTP body or something else. */
  datatype Message = Body(body: HttpBody) | Other

  method Redirect(url: Bytes) returns (body: HttpBody)
    ensures fresh(body) && body.contentType == "Location" && body.data == Escape(url)
  {
    var data := HexEscapeNonASCII(url);
    body := new HttpBody(LOCATION, data);
  }

  method Replace(s: Bytes) returns (r: Bytes)
    ensures r == HtmlEscape(s)
  {
    r := [];
    assert s[0..] == s;
    for i := 0 to |s|
      invariant r + HtmlEscape(s[i..]) == HtmlEscape(s)
    {
      assert s[i..][1..] == s[i + 1..];
      Assoc(r, HtmlByte(s[i]), HtmlEscape(s[i + 1..]));
      r := r + HtmlByte(s[i]);
    }
    assert r + [] == r;
  }

  method ForwardResponseOption(w: ResponseWriter, message: Message)
    modifies w, if message.Body? then {message.body} else {}
    ensures message.Body? && old(message.body.contentType) == "Location" ==>
              && w.header == old(w.header)["Location" := Line(old(message.body.data))]
                                          ["Content-Type" := Name("text/html; charset=utf-8")]
              && w.status == Some(302)
              && message.body.contentType == "text/html; charset=utf-8"
              && message.body.data == Page(old(message.body.data))
              && message.body.data == Text("<a href=\"") + HtmlEscape(old(message.body.data)) + Text("\">Found</a>.\n")
    ensures !(message.Body? && old(message.body.contentType) == "Location") ==>
              unchanged(w) && (message.Body? ==> unchanged(message.body))
  {
    if message.Body? {
      var body := message.body;
      if body.contentType == LOCATION {
        var location := body.data;
        w.header := w.header[LOCATION := Line(location)];
        body.contentType := HTML;
        w.header := w.header[CONTENT_TYPE := Name(body.contentType)];
        w.status := Some(STATUS_FOUND);
        var link := Replace(location);
        body.data := OPENING + link + CLOSING;
      }
    }
  }

  lemma PageAscii(location: Bytes)
    requires Ascii(location)
    ensures Ascii(Page(location))
  {
    EscapeHarmless(location);
  }

  /**
   A whole redirect: the header is ASCII and decodes to the target exactly when the
   target has no triplets of its own, and the link in the body leads to the header's
   value.
   */
  lemma RedirectRoundTrip(url: Bytes)
    ensures var location := Escape(url);
            && Ascii(location) && Ascii(Page(location))
            && (Decode(location) == url <==> !HasTriplet(url))
            && Href(Page(location)) == location
  {
    EscapeIsAscii(url);
    PageAscii(Escape(url));
    DecodeInvertsIffNoTriplet(url);
    HrefIsLocation(Escape(url));
  }

  /** A target that already carries the triplet for the letter A comes back as that letter. */
  lemma TripletExample()
    ensures Decode(Escape([PERCENT, 0x34, 0x31])) == [0x41]
  {
    var s: Bytes := [PERCENT, 0x34, 0x31];
    EscapeOfAscii(s);
    assert s == [PERCENT, 0x34, 0x31] + [];
    DecodeTriplet(0x34, 0x31, []);
  }
}
