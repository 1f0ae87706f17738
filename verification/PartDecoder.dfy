/**
 A reader of `multipart/byteranges` responses: it takes the boundary from the `Content-Type` field,
 trusts each part's `Content-Range` (section 4.1 and Appendix A of RFC 7233) and never searches for
 the boundary inside a part's data.  It has its own texts and is the inverse of what `PartFormat`,
 `Multipart` and `Serving` produce.
 */
module PartDecoder {
  import opened Prelude
  import opened Decimal
  import opened PartFormat
  import opened Multipart

  const LINE_END: Bytes := "\r\n"

  /** One decoded part: the half-open range, the entity's total length, the other fields, and the data. */
  datatype Part = Part(first: nat, end: nat, total: nat, fields: seq<Header>, body: Bytes)

  /** `s` without the expected text in front. */
  function After(expected: Bytes, s: Bytes): Option<Bytes> {
    if expected <= s then Some(s[|expected|..]) else None
  }

  function DigitSpan(s: Bytes): (n: nat)
    ensures n <= |s| && AllDigits(s[..n])
  {
    if s != [] && IsDigit(s[0]) then
      assert s[..1 + DigitSpan(s[1..])] == [s[0]] + s[1..][..DigitSpan(s[1..])];
      1 + DigitSpan(s[1..])
    else 0
  }

  /** Reads a decimal number up to the first character that is not a digit. */
  function TakeNumber(s: Bytes): Option<(nat, Bytes)> {
    var n := DigitSpan(s);
    if n == 0 then None else Some((Value(s[..n]), s[n..]))
  }

  /** A field's name and value, of one line. */
  function ReadLine(line: Bytes): Option<Header> {
    var c := Find(line, ':');
    if ": " <= line[c..] then Some((line[..c], line[c + 2..])) else None
  }

  /** Reads header lines up to and including the empty line. */
  function ReadLines(s: Bytes): Option<(seq<Header>, Bytes)>
    decreases |s|
  {
    if LINE_END <= s then Some(([], s[2..]))
    else
      var i := Find(s, '\r');
      if LINE_END <= s[i..] then
        var field :- ReadLine(s[..i]);
        var (more, rest) :- ReadLines(s[i + 2..]);
        Some(([field] + more, rest))
      else None
  }

  /** A decimal number followed by `sep`. */
  function ReadField(sep: Bytes, s: Bytes): Option<(nat, Bytes)> {
    var (n, s) :- TakeNumber(s);
    var s :- After(sep, s);
    Some((n, s))
  }

  /** What begins every part, and what ends the body. */
  function Delimiter(boundary: Bytes): Bytes {
    "\r\n--" + boundary + "\r\n"
  }

  function Close(boundary: Bytes): Bytes {
    "\r\n--" + boundary + "--\r\n"
  }

  /**
   Reads the delimiter, the `Content-Range` line and the lines after it; `field` reads a number up
   to and including a separator, and `lines` the remaining lines.
   */
  function HeaderWith(delimiter: Bytes, field: (Bytes, Bytes) -> Option<(nat, Bytes)>,
                      lines: Bytes -> Option<(seq<Header>, Bytes)>, s: Bytes)
    : Option<(Part, Bytes)>
  {
    var s :- After(delimiter, s);
    var s :- After("Content-Range: bytes ", s);
    var (first, s) :- field("-", s);
    var (last, s) :- field("/", s);
    var (total, s) :- field(LINE_END, s);
    var (fields, s) :- lines(s);
    Some((Part(first, last + 1, total, fields, []), s))
  }

  function HeaderReader(boundary: Bytes): Bytes -> Option<(Part, Bytes)> {
    (s: Bytes) => HeaderWith(Delimiter(boundary), ReadField, ReadLines, s)
  }

  /** Reads parts up to the closing delimiter, where `read` takes one part's header off the text. */
  function DecodeWith(read: Bytes -> Option<(Part, Bytes)>, close: Bytes, s: Bytes): Option<seq<Part>>
    decreases |s|
  {
    if s == close then Some([])
    else
      var (part, rest) :- read(s);
      if part.first <= part.end <= part.first + |rest| && |rest| < |s| then
        var n := part.end - part.first;
        var parts :- DecodeWith(read, close, rest[n..]);
        Some([part.(body := rest[..n])] + parts)
      else None
  }

  function Decode(boundary: Bytes, s: Bytes): Option<seq<Part>> {
    DecodeWith(HeaderReader(boundary), Close(boundary), s)
  }

  /** The values of all fields called `name`, in order. */
  function Values(headers: seq<Header>, name: Bytes): seq<Bytes> {
    if headers == [] then []
    else (if headers[0].0 == name then [headers[0].1] else []) + Values(headers[1..], name)
  }

  /** The boundary that the one `Content-Type` field announces. */
  function Boundary(headers: seq<Header>): Option<Bytes> {
    var types := Values(headers, "content-type");
    if |types| == 1 then After("multipart/byteranges; boundary=", types[0]) else None
  }

  /** All that a client gets: the header fields and the body's text. */
  function DecodeResponse(headers: seq<Header>, text: Bytes): Option<seq<Part>> {
    var boundary :- Boundary(headers);
    Decode(boundary, text)
  }

  /** The value of a `Content-Range` field: first and last position, and the total length. */
  function ReadContentRange(value: Bytes): Option<(nat, nat, nat)> {
    var s :- After("bytes ", value);
    var (first, s) :- ReadField("-", s);
    var (last, s) :- ReadField("/", s);
    var (total, s) :- TakeNumber(s);
    if s == [] then Some((first, last, total)) else None
  }

  // ---------- decoding what was produced ----------

  lemma {:induction false} DigitSpanOf(a: Bytes, rest: Bytes)
    requires AllDigits(a) && (rest == [] || !IsDigit(rest[0]))
    ensures DigitSpan(a + rest) == |a|
  {
    if a == [] {
      assert a + rest == rest;
    } else {
      assert (a + rest)[1..] == a[1..] + rest;
      DigitSpanOf(a[1..], rest);
    }
  }

  lemma TakeDec(n: nat, rest: Bytes)
    requires rest != [] && !IsDigit(rest[0])
    ensures TakeNumber(Dec(n) + rest) == Some((n, rest))
  {
    DecDigits(n);
    DigitSpanOf(Dec(n), rest);
    var s := Dec(n) + rest;
    assert s[..|Dec(n)|] == Dec(n) && s[|Dec(n)|..] == rest;
  }

  lemma AfterPrefix(a: Bytes, b: Bytes)
    ensures After(a, a + b) == Some(b)
  {
    assert (a + b)[|a|..] == b;
  }

  /** Header fields never contain a carriage return, and names no colon; names and values of `http` cannot. */
  ghost predicate OneLine(h: Header) {
    ':' !in h.0 && '\r' !in h.0 && '\r' !in h.1
  }

  ghost predicate OneLines(h: seq<Header>) {
    h == [] || (OneLine(h[0]) && OneLines(h[1..]))
  }

  lemma ReadLineOf(h: Header)
    requires OneLine(h)
    ensures ReadLine(h.0 + ": " + h.1) == Some(h)
  {
    var line := h.0 + ": " + h.1;
    FindMiddle(h.0, ':', " " + h.1);
    assert line == h.0 + [':'] + (" " + h.1);
    assert line[|h.0|..] == ": " + h.1;
    assert line[..|h.0|] == h.0 && line[|h.0| + 2..] == h.1;
  }

  lemma LineSpan(line: Bytes, rest: Bytes)
    requires line != [] && '\r' !in line
    ensures var s := line + (LINE_END + rest);
            && !(LINE_END <= s) && Find(s, '\r') == |line|
            && s[..|line|] == line && s[|line|..] == LINE_END + rest && s[|line| + 2..] == rest
  {
    var s := line + (LINE_END + rest);
    FindMiddle(line, '\r', "\n" + rest);
    assert s == line + ['\r'] + ("\n" + rest);
    assert s[0] == line[0];
  }

  function Prepended(h: Header, more: Option<(seq<Header>, Bytes)>): Option<(seq<Header>, Bytes)> {
    match more
    case None => None
    case Some((fields, rest)) => Some(([h] + fields, rest))
  }

  lemma ReadLinesStep(s: Bytes, i: nat, h: Header)
    requires !(LINE_END <= s) && i == Find(s, '\r') && LINE_END <= s[i..] && ReadLine(s[..i]) == Some(h)
    ensures i + 2 <= |s| && ReadLines(s) == Prepended(h, ReadLines(s[i + 2..]))
  {
    assert |s[i..]| >= 2;
  }

  lemma ReadOneLine(s: Bytes, line: Bytes, h: Header, rest: Bytes)
    requires line != [] && '\r' !in line && ReadLine(line) == Some(h)
    requires s == line + (LINE_END + rest)
    ensures ReadLines(s) == Prepended(h, ReadLines(rest))
  {
    LineSpan(line, rest);
    StartsWith(LINE_END, rest);
    ReadLinesStep(s, |line|, h);
  }

  lemma StartsWith(a: Bytes, b: Bytes)
    ensures a <= a + b
  {
  }

  lemma {:induction false} ReadHeaderLines(h: seq<Header>, rest: Bytes)
    requires OneLines(h)
    ensures ReadLines(HeaderLines(h) + (LINE_END + rest)) == Some((h, rest))
  {
    if h == [] {
      var s := LINE_END + rest;
      assert HeaderLines(h) + s == s;
      assert s[2..] == rest;
    } else {
      var line := h[0].0 + ": " + h[0].1;
      var more := HeaderLines(h[1..]) + (LINE_END + rest);
      assert HeaderLines(h) + (LINE_END + rest) == line + (LINE_END + more);
      ReadLineOf(h[0]);
      ReadOneLine(HeaderLines(h) + (LINE_END + rest), line, h[0], more);
      ReadHeaderLines(h[1..], rest);
      assert [h[0]] + h[1..] == h;
    }
  }

  lemma ReadFieldOf(n: nat, sep: Bytes, t: Bytes)
    requires sep != [] && !IsDigit(sep[0])
    ensures ReadField(sep, Dec(n) + (sep + t)) == Some((n, t))
  {
    assert (sep + t)[0] == sep[0];
    TakeDec(n, sep + t);
    AfterPrefix(sep, t);
  }

  lemma HeaderWithOf(
    delimiter: Bytes, field: (Bytes, Bytes) -> Option<(nat, Bytes)>, lines: Bytes -> Option<(seq<Header>, Bytes)>,
    s1: Bytes, first: nat, s2: Bytes, last: nat, s3: Bytes, total: nat, s4: Bytes, h: seq<Header>, rest: Bytes)
    requires field("-", s1) == Some((first, s2)) && field("/", s2) == Some((last, s3))
    requires field(LINE_END, s3) == Some((total, s4)) && lines(s4) == Some((h, rest))
    ensures HeaderWith(delimiter, field, lines, delimiter + ("Content-Range: bytes " + s1)) ==
            Some((Part(first, last + 1, total, h, []), rest))
  {
    AfterPrefix(delimiter, "Content-Range: bytes " + s1);
    AfterPrefix("Content-Range: bytes ", s1);
  }

  /** Reading a header whose text is given field by field: `s1`, `s2`, ... are what is left after each. */
  lemma DecodeFields(delimiter: Bytes, text: Bytes, s1: Bytes, first: nat, s2: Bytes, last: nat, s3: Bytes, total: nat,
                     s4: Bytes, h: seq<Header>, rest: Bytes)
    requires text == delimiter + ("Content-Range: bytes " + s1)
    requires s1 == Dec(first) + ("-" + s2) && s2 == Dec(last) + ("/" + s3)
    requires s3 == Dec(total) + (LINE_END + s4) && ReadLines(s4) == Some((h, rest))
    ensures HeaderWith(delimiter, ReadField, ReadLines, text) == Some((Part(first, last + 1, total, h, []), rest))
  {
    ReadFieldOf(first, "-", s2);
    ReadFieldOf(last, "/", s3);
    ReadFieldOf(total, LINE_END, s4);
    HeaderWithOf(delimiter, ReadField, ReadLines, s1, first, s2, last, s3, total, s4, h, rest);
  }

  lemma ReassociateAll(a: Bytes, b: Bytes, c: Bytes, d: Bytes, e: Bytes, f: Bytes, g: Bytes, h: Bytes, rest: Bytes)
    ensures (a + (b + (c + (d + (e + (f + (g + h))))))) + rest ==
            a + (b + (c + (d + (e + (f + (g + (h + rest)))))))
  {
    Reassociate(a, b + (c + (d + (e + (f + (g + h))))), rest);
    Reassociate(b, c + (d + (e + (f + (g + h)))), rest);
    Reassociate(c, d + (e + (f + (g + h))), rest);
    Reassociate(d, e + (f + (g + h)), rest);
    Reassociate(e, f + (g + h), rest);
    Reassociate(f, g + h, rest);
    Reassociate(g, h, rest);
  }

  /** The three numbers of a `Content-Range` line and the end of that line, followed by `rest`. */
  function Fields(first: nat, last: nat, total: nat, rest: Bytes): Bytes {
    Dec(first) + ("-" + (Dec(last) + ("/" + (Dec(total) + (CRLF + rest)))))
  }

  lemma HeaderText(r: Range, len: u64, lines: Bytes, rest: Bytes)
    requires r.end >= 1
    ensures PartHeader(r, len, lines) + rest == OPENING + Fields(r.start, r.end - 1, len, lines + (CRLF + rest))
  {
    ReassociateAll(OPENING, Dec(r.start), "-", Dec(r.end - 1), "/", Dec(len), CRLF, lines + CRLF, rest);
    Reassociate(lines, CRLF, rest);
  }

  const B: Bytes := "B"

  /** The texts of the producer are those of boundary `B`. */
  lemma SameTexts(s: Bytes)
    ensures OPENING + s == Delimiter(B) + ("Content-Range: bytes " + s)
    ensures TRAILER == Close(B) && CRLF == LINE_END
  {
    assert OPENING == Delimiter(B) + "Content-Range: bytes ";
    Reassociate(Delimiter(B), "Content-Range: bytes ", s);
  }

  lemma DecodePartHeader(r: Range, len: u64, h: seq<Header>, rest: Bytes)
    requires r.end >= 1 && OneLines(h)
    ensures HeaderWith(Delimiter(B), ReadField, ReadLines, PartHeader(r, len, HeaderLines(h)) + rest) ==
            Some((Part(r.start, r.end, len, h, []), rest))
  {
    var s4 := HeaderLines(h) + (CRLF + rest);
    ReadHeaderLines(h, rest);
    HeaderText(r, len, HeaderLines(h), rest);
    var s3 := Dec(len) + (CRLF + s4);
    var s2 := Dec(r.end - 1) + ("/" + s3);
    var s1 := Dec(r.start) + ("-" + s2);
    SameTexts(s1);
    DecodeFields(Delimiter(B), PartHeader(r, len, HeaderLines(h)) + rest, s1, r.start, s2, r.end - 1, s3, len, s4, h, rest);
  }

  function Parts(ranges: seq<Slice>, len: nat, h: seq<Header>, bodies: seq<Bytes>, i: nat): seq<Part>
    requires |ranges| == |bodies|
    decreases |ranges| - i
  {
    if i >= |ranges| then []
    else [Part(ranges[i].start, ranges[i].end, len, h, bodies[i])] + Parts(ranges, len, h, bodies, i + 1)
  }

  /** `read` takes `header` off the text before `t` and finds `r` and `h` in it, and the text is not the trailer. */
  ghost predicate ReadsThen(
    read: Bytes -> Option<(Part, Bytes)>, header: Bytes, r: Range, len: u64, h: seq<Header>, t: Bytes)
  {
    header + t != TRAILER && read(header + t) == Some((Part(r.start, r.end, len, h, []), t))
  }

  ghost predicate ReadsAs(read: Bytes -> Option<(Part, Bytes)>, header: Bytes, r: Range, len: u64, h: seq<Header>) {
    forall t: Bytes :: ReadsThen(read, header, r, len, h, t)
  }

  lemma {:induction false} DecodeParts(
    read: Bytes -> Option<(Part, Bytes)>, headers: seq<Bytes>, ranges: seq<Slice>, len: u64, h: seq<Header>,
    bodies: seq<Bytes>, i: nat)
    requires |headers| == |ranges| == |bodies|
    requires forall j :: 0 <= j < |ranges| ==>
      headers[j] != [] && ReadsAs(read, headers[j], ranges[j], len, h) && |bodies[j]| == ranges[j].Size()
    ensures DecodeWith(read, TRAILER, Content(headers, bodies, i)) == Some(Parts(ranges, len, h, bodies, i))
    decreases |ranges| - i
  {
    if i < |ranges| {
      var more := Content(headers, bodies, i + 1);
      var rest := bodies[i] + more;
      DecodeParts(read, headers, ranges, len, h, bodies, i + 1);
      assert ReadsAs(read, headers[i], ranges[i], len, h);
      assert ReadsThen(read, headers[i], ranges[i], len, h, rest);
      assert rest[..|bodies[i]|] == bodies[i] && rest[|bodies[i]|..] == more;
    }
  }

  /** A part's header never looks like the trailer. */
  lemma NotTrailer(r: Range, len: u64, lines: Bytes, rest: Bytes)
    requires r.end >= 1
    ensures PartHeader(r, len, lines) + rest != TRAILER
  {
    assert (PartHeader(r, len, lines) + rest)[5] == OPENING[5] == '\r';
    assert TRAILER[5] == '-';
  }

  lemma HeaderReadsAs(read: Bytes -> Option<(Part, Bytes)>, r: Range, len: u64, h: seq<Header>, header: Bytes)
    requires read == HeaderReader(B)
    requires r.end >= 1 && OneLines(h)
    requires header == PartHeader(r, len, HeaderLines(h))
    ensures ReadsAs(read, header, r, len, h)
  {
    forall t: Bytes
      ensures ReadsThen(read, header, r, len, h, t)
    {
      NotTrailer(r, len, HeaderLines(h), t);
      DecodePartHeader(r, len, h, t);
    }
  }

  /**
   Round trip: from the boundary and the body alone, the reader recovers the ranges, the total
   length, the repeated fields and every part's data - even when the data contains the boundary.
   */
  lemma DecodeContent(ranges: seq<Slice>, len: u64, h: seq<Header>, bodies: seq<Bytes>)
    requires |ranges| == |bodies| && Printable(ranges, len)
    requires OneLines(h)
    requires forall j :: 0 <= j < |ranges| ==> |bodies[j]| == ranges[j].Size()
    ensures Decode("B", Content(PartHeaders(ranges, len, HeaderLines(h)), bodies, 0)) ==
            Some(Parts(ranges, len, h, bodies, 0))
  {
    var headers := PartHeaders(ranges, len, HeaderLines(h));
    var read := HeaderReader(B);
    forall j | 0 <= j < |ranges|
      ensures headers[j] != [] && ReadsAs(read, headers[j], ranges[j], len, h)
    {
      HeaderReadsAs(read, ranges[j], len, h, headers[j]);
    }
    SameTexts([]);
    DecodeParts(read, headers, ranges, len, h, bodies, 0);
  }

  /** The `Content-Range` field that `Serving` prints is read back. */
  lemma ReadPrintedRange(first: nat, last: nat, total: nat)
    ensures ReadContentRange("bytes " + Dec(first) + "-" + Dec(last) + "/" + Dec(total)) == Some((first, last, total))
  {
    var s3 := Dec(total);
    var s2 := Dec(last) + ("/" + s3);
    var s1 := Dec(first) + ("-" + s2);
    PrintedRangeText(Dec(first), Dec(last), Dec(total));
    AfterPrefix("bytes ", s1);
    ReadFieldOf(first, "-", s2);
    ReadFieldOf(last, "/", s3);
    DecDigits(total);
    DigitSpanOf(s3, []);
    assert s3 + [] == s3 && s3[..|s3|] == s3;
  }

  lemma PrintedRangeText(a: Bytes, b: Bytes, c: Bytes)
    ensures "bytes " + a + "-" + b + "/" + c == "bytes " + (a + ("-" + (b + ("/" + c))))
  {
    Reassociate("bytes " + a + "-" + b, "/", c);
    Reassociate("bytes " + a + "-", b, "/" + c);
    Reassociate("bytes " + a, "-", b + ("/" + c));
    Reassociate("bytes ", a, "-" + (b + ("/" + c)));
  }
}
