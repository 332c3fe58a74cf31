/** The opening handshake of src/http.rs: the request parser, the response
    builder and the four-way decision of `handle_handshake` (section 4.2.2 of
    RFC 6455). The request arrives as text; the accept-key hash is a
    parameter. */
module Http {
  import opened Wire
  import opened Text

  /** `HTTP_VERSION` as `format!` writes it. */
  const HttpVersion: string := "1.1"

  /** The GUID of section 1.3 of RFC 6455, appended to the client's key
      before hashing. */
  const Guid: string := "258EAFA5-E914-47DA-95CA-C5AB0DC85B11"

  /** `CODES`: the reason phrase of each status code the server knows. */
  const Codes: seq<(u16, string)> := [(200, "Ok"), (101, "Switching protocols"), (404, "Bad Request")]

  const ServerName: string := "Deezy"
  const Greeting: string := "Hello from Deezy server!"

  // ---------------------------------------------------------------------
  // Requests
  // ---------------------------------------------------------------------

  datatype Method = Get | Other

  /** A parsed request: the URI token, the method and the header map, keyed
      by lower-cased, trimmed names. */
  datatype Request = Request(uri: string, verb: Method, headers: map<string, string>)

  /** The request line must have a second space-separated token: the source
      unwraps it. */
  predicate RequestLineComplete(text: string)
  {
    Lines(text) != [] ==> ' ' in AsciiLower(Lines(text)[0])
  }

  /** The first two space-separated pieces of a lower-cased request line: the
      method token and the URI token. */
  function RequestLineTokens(lower: string): (r: (string, string))
    requires ' ' in lower
    ensures ' ' !in r.0 && ' ' !in r.1
    ensures r.0 + " " + r.1 <= lower
    ensures |r.0| + 1 + |r.1| < |lower| ==> lower[|r.0| + 1 + |r.1|] == ' '
  {
    var after := SplitOnce(lower, ' ').value.1;
    var verb, uri := FirstPiece(lower, ' '), FirstPiece(after, ' ');
    assert verb == SplitOnce(lower, ' ').value.0 by {
      FindFirst(lower, ' ', |SplitOnce(lower, ' ').value.0|);
    }
    assert lower == verb + " " + after;
    assert verb + " " + uri <= lower by {
      assert verb + " " + uri == (verb + " ") + uri;
      assert lower == (verb + " ") + after;
    }
    (verb, uri)
  }

  /** A header line's entry: the text before the first ':' trimmed and
      lower-cased, the text after it trimmed; nothing for a line with no ':'. */
  function HeaderEntry(line: string): (e: Option<(string, string)>)
    ensures e.None? <==> ':' !in line
    ensures e.Some? ==> HasNoUpper(e.value.0) && Trimmed(e.value.0) && Trimmed(e.value.1)
  {
    match SplitOnce(line, ':')
    case None => None
    case Some((key, value)) =>
      AsciiLowerNormalises(Trim(key));
      AsciiLowerKeepsSpace(Trim(key));
      Some((AsciiLower(Trim(key)), Trim(value)))
  }

  /** The entry sets the header named key. */
  predicate Sets(entry: Option<(string, string)>, key: string)
  {
    entry.Some? && entry.value.0 == key
  }

  /** The position of the first empty line, or |lines| if there is none. */
  function FirstBlank(lines: seq<string>): (b: nat)
    ensures b <= |lines|
    ensures forall j :: 0 <= j < b ==> lines[j] != []
    ensures b < |lines| ==> lines[b] == []
  {
    if lines == [] || lines[0] == [] then 0 else 1 + FirstBlank(lines[1..])
  }

  /** The lines the header loop reads: those before the first empty one. */
  function HeaderSection(lines: seq<string>): seq<string>
  {
    lines[..FirstBlank(lines)]
  }

  /** The entries of the lines, in order. */
  function Entries(lines: seq<string>): seq<Option<(string, string)>>
  {
    Map(HeaderEntry, lines)
  }

  /** The map built by inserting the entries in turn. */
  function EntryMap(entries: seq<Option<(string, string)>>): map<string, string>
  {
    if entries == [] then map[]
    else
      var m := EntryMap(entries[..|entries| - 1]);
      match entries[|entries| - 1]
      case None => m
      case Some((key, value)) => m[key := value]
  }

  /** The header map the lines build, each entry inserted in turn. */
  function HeaderMap(lines: seq<string>): map<string, string>
  {
    EntryMap(Entries(lines))
  }

  /** What `parse_request` returns for a request text. */
  function RequestOf(text: string): Request
    requires RequestLineComplete(text)
  {
    var lines := Lines(text);
    if lines == [] then Request([], Other, map[])
    else
      var tokens := RequestLineTokens(AsciiLower(lines[0]));
      Request(tokens.1, if tokens.0 == "get" then Get else Other, HeaderMap(HeaderSection(lines[1..])))
  }

  /** `parse_request`: the request line first, then header lines until the
      first empty one, each inserted into the map. */
  method ParseRequest(text: string) returns (request: Request)
    requires RequestLineComplete(text)
    ensures request == RequestOf(text)
  {
    var lines := Lines(text);
    request := Request([], Other, map[]);
    if lines == [] {
      return;
    }
    var lowerLine := AsciiLower(lines[0]);
    var verb := FirstPiece(lowerLine, ' ');
    var uri := FirstPiece(SplitOnce(lowerLine, ' ').value.1, ' ');
    request := request.(uri := uri);
    if verb == "get" {
      request := request.(verb := Get);
    }
    assert (verb, uri) == RequestLineTokens(lowerLine);
    var headers := ParseHeaders(lines[1..]);
    request := request.(headers := headers);
  }

  /** The header loop of `parse_request`: insert each line's entry until the
      first empty line. */
  method ParseHeaders(rest: seq<string>) returns (headers: map<string, string>)
    ensures headers == HeaderMap(HeaderSection(rest))
  {
    headers := map[];
    ghost var entries := Entries(rest);
    var i := 0;
    while i < |rest|
      invariant i <= FirstBlank(rest)
      invariant headers == EntryMap(entries[..i])
    {
      if rest[i] == [] {
        break;
      }
      assert entries[..i + 1][..i] == entries[..i];
      MapAt(HeaderEntry, rest, i);
      match SplitOnce(rest[i], ':') {
        case Some((key, value)) =>
          headers := headers[AsciiLower(Trim(key)) := Trim(value)];
        case None =>
      }
      i := i + 1;
    }
    MapPrefix(HeaderEntry, rest, i);
  }

  /** The method is Get exactly when the lower-cased request line starts with
      "get " (the method token is matched case-insensitively). */
  lemma GetIffRequestLineStartsWithGet(text: string)
    requires RequestLineComplete(text) && Lines(text) != []
    ensures RequestOf(text).verb == Get <==> "get " <= AsciiLower(Lines(text)[0])
  {
    var lower := AsciiLower(Lines(text)[0]);
    var verb := RequestLineTokens(lower).0;
    if "get " <= lower {
      FindFirst(lower, ' ', 3);
      assert verb == lower[..3];
    }
    if verb == "get" {
      assert lower[..4] == verb + " ";
    }
  }

  /** A line with no ':' in its name is read back as its trimmed, lower-cased
      name and its trimmed value; the value may itself hold ':'. */
  lemma {:induction false} HeaderEntryOfLine(name: string, value: string)
    requires ':' !in name
    ensures HeaderEntry(name + ":" + value) == Some((AsciiLower(Trim(name)), Trim(value)))
  {
    var line := name + ":" + value;
    assert line[..|name|] == name && line[|name| + 1..] == value;
    FindFirst(line, ':', |name|);
  }

  /** The map holds a key exactly when some entry sets it, and then its
      value is that of the last entry setting it. */
  lemma {:induction false} EntryMapLastWins(entries: seq<Option<(string, string)>>, key: string)
    ensures key in EntryMap(entries) <==> exists i :: 0 <= i < |entries| && Sets(entries[i], key)
    ensures forall i :: 0 <= i < |entries| && Sets(entries[i], key)
                        && (forall j :: i < j < |entries| ==> !Sets(entries[j], key))
                        ==> EntryMap(entries)[key] == entries[i].value.1
  {
    if entries != [] {
      var n := |entries| - 1;
      var init := entries[..n];
      EntryMapLastWins(init, key);
      assert forall i :: 0 <= i < n ==> entries[i] == init[i];
      if !Sets(entries[n], key) {
        assert (exists i :: 0 <= i < |entries| && Sets(entries[i], key))
               <==> (exists i :: 0 <= i < n && Sets(init[i], key));
      }
    }
  }

  /** For header lines: a name is in the map exactly when some line sets it,
      and the last line setting it gives its value. */
  lemma HeaderMapLastWins(lines: seq<string>, key: string)
    ensures key in HeaderMap(lines) <==> exists i :: 0 <= i < |lines| && Sets(HeaderEntry(lines[i]), key)
    ensures forall i :: 0 <= i < |lines| && Sets(HeaderEntry(lines[i]), key)
                        && (forall j :: i < j < |lines| ==> !Sets(HeaderEntry(lines[j]), key))
                        ==> HeaderMap(lines)[key] == HeaderEntry(lines[i]).value.1
  {
    var es := Entries(lines);
    EntryMapLastWins(es, key);
    forall i | 0 <= i < |lines|
      ensures es[i] == HeaderEntry(lines[i])
    {
      MapAt(HeaderEntry, lines, i);
    }
  }

  /** Header parsing stops at the first empty line: nothing after it is read. */
  lemma HeaderSectionStopsAtBlank(head: seq<string>, more: seq<string>)
    requires forall i :: 0 <= i < |head| ==> head[i] != []
    ensures HeaderSection(head + [[]] + more) == head
  {
    var lines := head + [[]] + more;
    assert lines[|head|] == [];
    assert forall i :: 0 <= i < |head| ==> lines[i] == head[i];
    assert FirstBlank(lines) == |head|;
    assert lines[..|head|] == head;
  }

  // ---------------------------------------------------------------------
  // Responses
  // ---------------------------------------------------------------------

  /** The state of a response builder. */
  datatype Response = Response(status: u16, headers: map<string, string>, body: string)

  /** The reason phrase of the first table entry for the code, or "Unknown". */
  function LookupCode(table: seq<(u16, string)>, code: u16): (text: string)
    ensures (exists i :: 0 <= i < |table| && table[i].0 == code) || text == "Unknown"
    ensures forall i :: 0 <= i < |table| && table[i].0 == code
                        && (forall j :: 0 <= j < i ==> table[j].0 != code)
                        ==> text == table[i].1
  {
    if table == [] then "Unknown"
    else if table[0].0 == code then table[0].1
    else
      var text := LookupCode(table[1..], code);
      assert forall i :: 1 <= i < |table| ==> table[i] == table[1..][i - 1];
      text
  }

  /** The reason phrase `to_string` writes for a status code. */
  function StatusText(code: u16): (text: string)
    ensures code == 200 ==> text == "Ok"
    ensures code == 101 ==> text == "Switching protocols"
    ensures code == 404 ==> text == "Bad Request"
    ensures code !in {200, 101, 404} ==> text == "Unknown"
  {
    assert Codes[0].0 == 200 && Codes[1].0 == 101 && Codes[2].0 == 404;
    LookupCode(Codes, code)
  }

  /** The status line, without its CRLF. */
  function StatusLine(code: u16): string
  {
    "HTTP/" + HttpVersion + " " + Decimal(code) + " " + StatusText(code)
  }

  /** One header line, without its CRLF. */
  function HeaderLine(name: string, value: string): string
  {
    name + ": " + value
  }

  predicate Distinct(names: seq<string>)
  {
    forall i, j :: 0 <= i < j < |names| ==> names[i] != names[j]
  }

  /** An order in which a map's keys can be visited: each key exactly once.
      The source iterates a `HashMap`, whose order is unspecified. */
  ghost predicate IsOrdering(order: seq<string>, keys: set<string>)
  {
    (forall k :: k in keys <==> k in order) && Distinct(order)
  }

  /** The header lines for the keys in the given order. */
  function HeaderLines(order: seq<string>, headers: map<string, string>): (ls: seq<string>)
    requires forall i :: 0 <= i < |order| ==> order[i] in headers
    ensures |ls| == |order|
    ensures forall i :: 0 <= i < |order| ==> ls[i] == HeaderLine(order[i], headers[order[i]])
  {
    seq(|order|, i requires 0 <= i < |order| => HeaderLine(order[i], headers[order[i]]))
  }

  /** The Content-Length line: the body's length in UTF-8 bytes. */
  function ContentLengthLine(body: string): string
  {
    "Content-Length: " + Decimal(|Utf8(body)|)
  }

  /** The head of the response: status line, header lines, and a
      Content-Length line when there is a body. */
  function HeadLines(r: Response, order: seq<string>): seq<string>
    requires forall i :: 0 <= i < |order| ==> order[i] in r.headers
  {
    [StatusLine(r.status)] + HeaderLines(order, r.headers)
    + (if r.body != [] then [ContentLengthLine(r.body)] else [])
  }

  /** `to_string`: the head lines and an empty line, each ended by CRLF, then
      the body. */
  function Render(r: Response, order: seq<string>): string
    requires forall i :: 0 <= i < |order| ==> order[i] in r.headers
  {
    JoinCrlf(HeadLines(r, order) + [[]]) + r.body
  }

  /** The response opens with "HTTP/1.1 <code> <reason>\r\n". */
  lemma RenderStartsWithStatusLine(r: Response, order: seq<string>)
    requires forall i :: 0 <= i < |order| ==> order[i] in r.headers
    ensures "HTTP/1.1 " + Decimal(r.status) + " " + StatusText(r.status) + "\r\n" <= Render(r, order)
  {
    var ls := HeadLines(r, order) + [[]];
    var head := StatusLine(r.status) + "\r\n";
    assert ls[0] == StatusLine(r.status);
    assert JoinCrlf(ls) == head + JoinCrlf(ls[1..]);
    AppendAssociative(head, JoinCrlf(ls[1..]), r.body);
    StatusLineLayout(r.status);
  }

  lemma StatusLineLayout(code: u16)
    ensures StatusLine(code) == "HTTP/1.1 " + Decimal(code) + " " + StatusText(code)
  {
    assert "HTTP/" + HttpVersion + " " == "HTTP/1.1 ";
  }

  /** The response closes with an empty line and then the body. */
  lemma RenderEndsWithBody(r: Response, order: seq<string>)
    requires forall i :: 0 <= i < |order| ==> order[i] in r.headers
    ensures Render(r, order) == JoinCrlf(HeadLines(r, order)) + "\r\n" + r.body
  {
    JoinCrlfSnoc(HeadLines(r, order), []);
  }

  /** A name a header line can carry and be read back by: lower-case, trimmed,
      with no ':' and no line feed. */
  predicate FieldName(name: string)
  {
    HasNoUpper(name) && Trimmed(name) && ':' !in name && '\n' !in name
  }

  /** A value a header line can carry and be read back by. */
  predicate FieldValue(value: string)
  {
    Trimmed(value) && '\n' !in value
  }

  predicate ReadableHeaders(headers: map<string, string>)
  {
    forall k :: k in headers ==> FieldName(k) && FieldValue(headers[k])
  }

  /** The Content-Length line exists exactly when the body is non-empty;
      header names without upper-case letters never spell it. */
  lemma ContentLengthIffBody(r: Response, order: seq<string>)
    requires forall i :: 0 <= i < |order| ==> order[i] in r.headers
    requires forall i :: 0 <= i < |order| ==> HasNoUpper(order[i])
    ensures ContentLengthLine(r.body) in HeadLines(r, order) <==> r.body != []
  {
    var ls := HeadLines(r, order);
    var cl := ContentLengthLine(r.body);
    if r.body == [] {
      forall i | 0 <= i < |ls|
        ensures ls[i] != cl
      {
        assert cl[0] == 'C';
        if i == 0 {
          assert ls[i][0] == 'H';
        } else {
          var name := order[i - 1];
          assert ls[i] == name + ": " + r.headers[name];
          assert ls[i][0] != 'C' by {
            if name != [] {
              assert ls[i][0] == name[0];
            }
          }
        }
      }
    } else {
      assert ls[|ls| - 1] == cl;
    }
  }

  /** A header line of readable name and value is read back as its name and
      value. */
  lemma HeaderLineReadBack(name: string, value: string)
    requires FieldName(name) && FieldValue(value)
    ensures HeaderEntry(HeaderLine(name, value)) == Some((name, value))
  {
    assert HeaderLine(name, value) == name + ":" + (" " + value);
    HeaderEntryOfLine(name, " " + value);
    TrimTrimmed(name);
    TrimTrimmed(value);
    AsciiLowerOfLower(name);
  }

  /** The entries that header lines for the keys in the given order carry. */
  function Pairs(order: seq<string>, headers: map<string, string>): (es: seq<Option<(string, string)>>)
    requires forall i :: 0 <= i < |order| ==> order[i] in headers
    ensures |es| == |order|
  {
    seq(|order|, i requires 0 <= i < |order| => Some((order[i], headers[order[i]])))
  }

  /** Inserting the pairs builds the map of the keys they name. */
  lemma {:induction false} EntryMapOfPairs(order: seq<string>, headers: map<string, string>)
    requires forall i :: 0 <= i < |order| ==> order[i] in headers
    ensures EntryMap(Pairs(order, headers)) == map k | k in order :: headers[k]
  {
    if order != [] {
      var n := |order| - 1;
      var last := order[n];
      assert Pairs(order, headers)[..n] == Pairs(order[..n], headers);
      assert Pairs(order, headers)[n] == Some((last, headers[last]));
      EntryMapOfPairs(order[..n], headers);
      assert order == order[..n] + [last];
      var m := map k | k in order :: headers[k];
      var m' := map k | k in order[..n] :: headers[k];
      assert m == m'[last := headers[last]] by {
        assert forall k :: k in order <==> k in order[..n] || k == last;
      }
    }
  }

  /** Reading back header lines builds the map of the keys they name. */
  lemma HeaderMapOfHeaderLines(order: seq<string>, headers: map<string, string>)
    requires forall i :: 0 <= i < |order| ==> order[i] in headers
    requires ReadableHeaders(headers)
    ensures HeaderMap(HeaderLines(order, headers)) == map k | k in order :: headers[k]
  {
    var ls := HeaderLines(order, headers);
    forall i | 0 <= i < |order|
      ensures Entries(ls)[i] == Pairs(order, headers)[i]
    {
      MapAt(HeaderEntry, ls, i);
      HeaderLineReadBack(order[i], headers[order[i]]);
    }
    assert Entries(ls) == Pairs(order, headers);
    EntryMapOfPairs(order, headers);
  }

  /** The Content-Length line is read back as a header named "content-length"
      holding the body's byte count. */
  lemma ContentLengthReadBack(body: string)
    ensures HeaderEntry(ContentLengthLine(body)) == Some(("content-length", Decimal(|Utf8(body)|)))
  {
    var digits := Decimal(|Utf8(body)|);
    assert ContentLengthLine(body) == "Content-Length" + ":" + (" " + digits);
    HeaderEntryOfLine("Content-Length", " " + digits);
    ContentLengthName();
    DigitsTrimmed(digits);
  }

  lemma ContentLengthName()
    ensures Trim("Content-Length") == "Content-Length"
    ensures AsciiLower("Content-Length") == "content-length"
  {
    ContentLengthTrimmed();
    LowerLiteral("Content-Length", "content-length");
  }

  lemma ContentLengthTrimmed()
    ensures Trim("Content-Length") == "Content-Length"
  {
    var name := "Content-Length";
    assert name[0] == 'C' && name[13] == 'h';
    TrimTrimmed(name);
  }

  /** Lower-casing a literal, checked character by character. */
  lemma LowerLiteral(s: string, t: string)
    requires |s| == |t| && forall i :: 0 <= i < |s| ==> LowerChar(s[i]) == t[i]
    ensures AsciiLower(s) == t
  {
  }

  lemma DigitsTrimmed(digits: string)
    requires digits != [] && forall k :: 0 <= k < |digits| ==> '0' <= digits[k] <= '9'
    ensures Trim(" " + digits) == digits
  {
    assert !IsWhitespace(digits[0]) && !IsWhitespace(digits[|digits| - 1]);
    TrimTrimmed(digits);
  }

  /** Lines of the head: none is empty and none holds a line feed. */
  lemma HeadLinesAreLines(r: Response, order: seq<string>)
    requires forall i :: 0 <= i < |order| ==> order[i] in r.headers
    requires ReadableHeaders(r.headers)
    ensures forall i :: 0 <= i < |HeadLines(r, order)| ==> IsLine(HeadLines(r, order)[i])
  {
    var ls := HeadLines(r, order);
    var hl := HeaderLines(order, r.headers);
    var cl := if r.body != [] then [ContentLengthLine(r.body)] else [];
    assert ls == [StatusLine(r.status)] + hl + cl;
    forall i | 0 <= i < |ls|
      ensures IsLine(ls[i])
    {
      if i == 0 {
        StatusLineIsLine(r.status);
      } else if i <= |order| {
        assert ls[i] == hl[i - 1];
        HeaderLineIsLine(order[i - 1], r.headers[order[i - 1]]);
      } else {
        assert ls[i] == ContentLengthLine(r.body);
        ContentLengthLineIsLine(r.body);
      }
    }
  }

  /** A line `str::lines` reads back as it is and that does not end the
      header section: non-empty, with no line feed. */
  predicate IsLine(line: string)
  {
    line != [] && '\n' !in line
  }

  lemma HeaderLineIsLine(name: string, value: string)
    requires FieldName(name) && FieldValue(value)
    ensures IsLine(HeaderLine(name, value))
  {
    NotInConcat('\n', name, ": ");
    NotInConcat('\n', name + ": ", value);
  }

  lemma ContentLengthLineIsLine(body: string)
    ensures IsLine(ContentLengthLine(body))
  {
    var digits := Decimal(|Utf8(body)|);
    var line := ContentLengthLine(body);
    assert forall k :: 0 <= k < |line| ==> line[k] == '\n' ==> k >= 16 && digits[k - 16] == '\n';
  }

  lemma StatusLineIsLine(code: u16)
    ensures IsLine(StatusLine(code)) && ' ' in StatusLine(code)
  {
    var text := StatusText(code);
    assert '\n' !in text;
    StatusLineLayout(code);
    var line := StatusLine(code);
    assert line[8] == ' ';
    NotInConcat('\n', "HTTP/1.1 ", Decimal(code));
    NotInConcat('\n', "HTTP/1.1 " + Decimal(code), " ");
    NotInConcat('\n', "HTTP/1.1 " + Decimal(code) + " ", text);
  }

  /** `str::lines` splits a rendered response into its head lines, the empty
      line, and the lines of the body. */
  lemma LinesOfRender(r: Response, order: seq<string>)
    requires forall i :: 0 <= i < |order| ==> order[i] in r.headers
    requires ReadableHeaders(r.headers)
    ensures Lines(Render(r, order)) == HeadLines(r, order) + [[]] + Lines(r.body)
  {
    HeadLinesAreLines(r, order);
    LinesOfJoinCrlf(HeadLines(r, order) + [[]], r.body);
  }

  /** The headers of a rendered response, read back with the request parser's
      own header loop, are the builder's headers, plus "content-length" when
      there is a body. */
  lemma ResponseHeadersReadBack(r: Response, order: seq<string>)
    requires IsOrdering(order, r.headers.Keys)
    requires ReadableHeaders(r.headers)
    ensures RequestLineComplete(Render(r, order))
    ensures RequestOf(Render(r, order)).headers
            == if r.body == [] then r.headers
               else r.headers["content-length" := Decimal(|Utf8(r.body)|)]
  {
    RenderedHeaderSection(r, order);
    HeaderMapOfFields(r, order);
  }

  /** The lines after the status line build the builder's headers, plus
      "content-length" when there is a body. */
  lemma HeaderMapOfFields(r: Response, order: seq<string>)
    requires IsOrdering(order, r.headers.Keys)
    requires ReadableHeaders(r.headers)
    ensures HeaderMap(HeadLines(r, order)[1..])
            == if r.body == [] then r.headers
               else r.headers["content-length" := Decimal(|Utf8(r.body)|)]
  {
    var hl := HeaderLines(order, r.headers);
    HeaderLinesReadBack(order, r.headers);
    HeadLinesFields(r, order);
    if r.body != [] {
      var cl := ContentLengthLine(r.body);
      assert HeadLines(r, order)[1..] == hl + [cl];
      ContentLengthReadBack(r.body);
      HeaderMapSnoc(hl, cl);
    } else {
      assert hl + [] == hl;
      assert HeadLines(r, order)[1..] == hl;
    }
  }

  /** Header lines written in any visiting order are read back as the map. */
  lemma HeaderLinesReadBack(order: seq<string>, headers: map<string, string>)
    requires IsOrdering(order, headers.Keys)
    requires ReadableHeaders(headers)
    ensures HeaderMap(HeaderLines(order, headers)) == headers
  {
    HeaderMapOfHeaderLines(order, headers);
    OrderingCoversMap(order, headers);
  }

  /** After the status line come the header lines, then the Content-Length
      line when there is a body. */
  lemma HeadLinesFields(r: Response, order: seq<string>)
    requires forall i :: 0 <= i < |order| ==> order[i] in r.headers
    ensures HeadLines(r, order)[1..]
            == HeaderLines(order, r.headers) + (if r.body != [] then [ContentLengthLine(r.body)] else [])
  {
  }

  lemma OrderingCoversMap(order: seq<string>, headers: map<string, string>)
    requires IsOrdering(order, headers.Keys)
    ensures (map k | k in order :: headers[k]) == headers
  {
  }

  /** One more header line inserts its entry. */
  lemma HeaderMapSnoc(lines: seq<string>, line: string)
    requires HeaderEntry(line).Some?
    ensures HeaderMap(lines + [line]) == HeaderMap(lines)[HeaderEntry(line).value.0 := HeaderEntry(line).value.1]
  {
    MapSnoc(HeaderEntry, lines, line);
    EntryMapSnoc(Entries(lines), HeaderEntry(line).value);
  }

  lemma EntryMapSnoc(entries: seq<Option<(string, string)>>, entry: (string, string))
    ensures EntryMap(entries + [Some(entry)]) == EntryMap(entries)[entry.0 := entry.1]
  {
    assert (entries + [Some(entry)])[..|entries|] == entries;
  }

  /** Parsed as a request, a rendered response's header section is exactly
      the lines after its status line. */
  lemma RenderedHeaderSection(r: Response, order: seq<string>)
    requires forall i :: 0 <= i < |order| ==> order[i] in r.headers
    requires ReadableHeaders(r.headers)
    ensures RequestLineComplete(Render(r, order))
    ensures RequestOf(Render(r, order)).headers == HeaderMap(HeadLines(r, order)[1..])
  {
    var lines := Lines(Render(r, order));
    RenderedLines(r, order);
    StatusLineIsLine(r.status);
    RequestHeadersOf(Render(r, order));
    FieldsBeforeBlank(r, order, Lines(r.body));
  }

  /** The lines of a rendered response: the status line, then the rest of
      the head, the empty line and the body's lines. */
  lemma RenderedLines(r: Response, order: seq<string>)
    requires forall i :: 0 <= i < |order| ==> order[i] in r.headers
    requires ReadableHeaders(r.headers)
    ensures Lines(Render(r, order)) != []
    ensures Lines(Render(r, order))[0] == StatusLine(r.status)
    ensures Lines(Render(r, order))[1..] == HeadLines(r, order)[1..] + [[]] + Lines(r.body)
  {
    var head := HeadLines(r, order);
    LinesOfRender(r, order);
    ConcatHead(head, [[]], Lines(r.body));
  }

  /** The header section of the lines after the status line is the rest of
      the head. */
  lemma FieldsBeforeBlank(r: Response, order: seq<string>, more: seq<string>)
    requires forall i :: 0 <= i < |order| ==> order[i] in r.headers
    requires ReadableHeaders(r.headers)
    ensures HeaderSection(HeadLines(r, order)[1..] + [[]] + more) == HeadLines(r, order)[1..]
  {
    var head := HeadLines(r, order);
    HeadLinesAreLines(r, order);
    var fields := head[1..];
    assert forall i :: 0 <= i < |fields| ==> fields[i] == head[i + 1];
    HeaderSectionStopsAtBlank(fields, more);
  }

  /** The headers of a request are those its header section builds. */
  lemma RequestHeadersOf(text: string)
    requires Lines(text) != [] && ' ' in Lines(text)[0]
    ensures RequestLineComplete(text)
    ensures RequestOf(text).headers == HeaderMap(HeaderSection(Lines(text)[1..]))
  {
    AsciiLowerKeepsSpace(Lines(text)[0]);
  }

  /** `ResponseBuilder`: the status code, the headers and the body of the
      response being built. */
  class ResponseBuilder {
    var statusCode: u16
    var headers: map<string, string>
    var body: string

    /** Every header name is stored lower-cased. */
    predicate Valid()
      reads this
    {
      forall k :: k in headers ==> HasNoUpper(k)
    }

    function Snapshot(): Response
      reads this
    {
      Response(statusCode, headers, body)
    }

    /** `ResponseBuilder::new`: status 200, no headers, no body. */
    constructor ()
      ensures Valid()
      ensures statusCode == 200 && headers == map[] && body == []
    {
      statusCode := 200;
      headers := map[];
      body := [];
    }

    /** `status`: overwrites the status code and nothing else. */
    method Status(code: u16)
      modifies this
      requires Valid()
      ensures Valid()
      ensures statusCode == code && headers == old(headers) && body == old(body)
    {
      statusCode := code;
    }

    /** `add_header`: stores the value under the lower-cased name, replacing
        any earlier value; nothing else changes. */
    method AddHeader(name: string, value: string)
      modifies this
      requires Valid()
      ensures Valid()
      ensures headers == old(headers)[AsciiLower(name) := value]
      ensures statusCode == old(statusCode) && body == old(body)
    {
      AsciiLowerNormalises(name);
      headers := headers[AsciiLower(name) := value];
    }

    /** `set_body`: overwrites the body and nothing else. */
    method SetBody(text: string)
      modifies this
      requires Valid()
      ensures Valid()
      ensures body == text && statusCode == old(statusCode) && headers == old(headers)
    {
      body := text;
    }

    /** `stringify_headers`: one CRLF-terminated line per header, the headers
        visited once each in some order. */
    method StringifyHeaders() returns (s: string, order: seq<string>)
      ensures IsOrdering(order, headers.Keys)
      ensures s == JoinCrlf(HeaderLines(order, headers))
    {
      s := [];
      order := [];
      var remaining := headers.Keys;
      while remaining != {}
        invariant remaining <= headers.Keys
        invariant forall k :: k in headers ==> k in remaining || k in order
        invariant forall i :: 0 <= i < |order| ==> order[i] in headers && order[i] !in remaining
        invariant Distinct(order)
        invariant s == JoinCrlf(HeaderLines(order, headers))
        decreases remaining
      {
        var k :| k in remaining;
        var line := HeaderLine(k, headers[k]);
        JoinCrlfSnoc(HeaderLines(order, headers), line);
        assert HeaderLines(order + [k], headers) == HeaderLines(order, headers) + [line];
        s := s + (line + "\r\n");
        order := order + [k];
        remaining := remaining - {k};
      }
    }

    /** `to_string`: the status line, the header lines, the Content-Length line
        when there is a body, an empty line, then the body. Header names are
        stored lower-cased, so no header line is mistaken for the
        Content-Length line: that line is there exactly when the body is. */
    method ToString() returns (s: string, order: seq<string>)
      requires Valid()
      ensures IsOrdering(order, headers.Keys)
      ensures s == Render(Snapshot(), order)
      ensures ContentLengthLine(body) in HeadLines(Snapshot(), order) <==> body != []
    {
      var text := LookupCode(Codes, statusCode);
      s := "HTTP/" + HttpVersion + " " + Decimal(statusCode) + " " + text + "\r\n";
      var lines;
      lines, order := StringifyHeaders();
      s := s + lines;
      ghost var cl: seq<string> := [];
      if body != [] {
        cl := [ContentLengthLine(body)];
        assert JoinCrlf(cl) == "Content-Length: " + Decimal(|Utf8(body)|) + "\r\n";
        s := s + ("Content-Length: " + Decimal(|Utf8(body)|) + "\r\n");
      }
      s := s + "\r\n";
      if body != [] {
        s := s + body;
      }
      RenderLayout(Snapshot(), order);
      assert forall i :: 0 <= i < |order| ==> order[i] in headers;
      ContentLengthIffBody(Snapshot(), order);
    }
  }

  /** The rendered response written out piece by piece, as `to_string`
      pushes them. */
  lemma RenderLayout(r: Response, order: seq<string>)
    requires forall i :: 0 <= i < |order| ==> order[i] in r.headers
    ensures Render(r, order)
            == StatusLine(r.status) + "\r\n" + JoinCrlf(HeaderLines(order, r.headers))
               + JoinCrlf(if r.body != [] then [ContentLengthLine(r.body)] else [])
               + "\r\n" + r.body
  {
    var status := [StatusLine(r.status)];
    var hl := HeaderLines(order, r.headers);
    var cl := if r.body != [] then [ContentLengthLine(r.body)] else [];
    assert HeadLines(r, order) + [[]] == status + hl + cl + [[]];
    JoinCrlfAppend(status + hl + cl, [[]]);
    JoinCrlfAppend(status + hl, cl);
    JoinCrlfAppend(status, hl);
    assert JoinCrlf(status) == StatusLine(r.status) + "\r\n";
    assert JoinCrlf([[]]) == "\r\n";
  }

  // ---------------------------------------------------------------------
  // The handshake
  // ---------------------------------------------------------------------

  /** The builder operations as functions on the response they build. */
  function WithStatus(r: Response, code: u16): Response
  {
    r.(status := code)
  }

  function WithHeader(r: Response, name: string, value: string): Response
  {
    r.(headers := r.headers[AsciiLower(name) := value])
  }

  function WithBody(r: Response, text: string): Response
  {
    r.(body := text)
  }

  /** `handle_handshake` on a parsed request: Ok with the switching response
      for a WebSocket upgrade, Err with the response to send otherwise. */
  function Handshake(request: Request, hashKey: (string, string) -> string): Result<Response, Response>
  {
    var initial := Response(200, map[], []);
    match request.verb
    case Get =>
      if "upgrade" in request.headers && "connection" in request.headers then
        if "sec-websocket-key" in request.headers then
          var accept := hashKey(request.headers["sec-websocket-key"], Guid);
          Ok(WithHeader(WithHeader(WithHeader(WithStatus(initial, 101),
            "Upgrade", "websocket"), "Connection", "Upgrade"), "Sec-Websocket-Accept", accept))
        else
          Err(WithHeader(WithStatus(initial, 404), "Server", ServerName))
      else
        Err(WithBody(WithHeader(WithHeader(WithStatus(initial, 200),
          "Server", ServerName), "Content-Type", "text/plain"), Greeting))
    case Other =>
      Err(WithHeader(initial, "Server", ServerName))
  }

  lemma LowerCaseNames()
    ensures AsciiLower("Upgrade") == "upgrade"
    ensures AsciiLower("Connection") == "connection"
    ensures AsciiLower("Sec-Websocket-Accept") == "sec-websocket-accept"
    ensures AsciiLower("Server") == "server"
    ensures AsciiLower("Content-Type") == "content-type"
  {
  }

  /** The handshake is accepted exactly for a GET carrying upgrade,
      connection and sec-websocket-key headers; the answer is 101 with exactly
      the three upgrade headers, the accept value hashed from the client's key
      as received and the GUID, and no body. */
  lemma HandshakeAccepts(request: Request, hashKey: (string, string) -> string)
    ensures Handshake(request, hashKey).Ok?
            <==> request.verb == Get && "upgrade" in request.headers
                 && "connection" in request.headers && "sec-websocket-key" in request.headers
    ensures Handshake(request, hashKey).Ok? ==>
              Handshake(request, hashKey).value
              == Response(101, map["upgrade" := "websocket", "connection" := "Upgrade",
                                   "sec-websocket-accept" := hashKey(request.headers["sec-websocket-key"], Guid)], [])
  {
    LowerCaseNames();
  }

  /** The three refusals: a non-GET gets 200 with only a server header; an
      upgrade without a key gets 404 with a server header; any other GET gets
      200 with the greeting as plain text. */
  lemma HandshakeRefusals(request: Request, hashKey: (string, string) -> string)
    ensures request.verb == Other ==>
              Handshake(request, hashKey) == Err(Response(200, map["server" := ServerName], []))
    ensures request.verb == Get && "upgrade" in request.headers && "connection" in request.headers
            && "sec-websocket-key" !in request.headers ==>
              Handshake(request, hashKey) == Err(Response(404, map["server" := ServerName], []))
    ensures request.verb == Get && !("upgrade" in request.headers && "connection" in request.headers) ==>
              Handshake(request, hashKey)
              == Err(Response(200, map["server" := ServerName, "content-type" := "text/plain"], Greeting))
  {
    LowerCaseNames();
  }

  /** The response a handshake result carries, accepted or not. */
  function Answer(result: Result<Response, Response>): Response
  {
    match result
    case Ok(r) => r
    case Err(r) => r
  }

  /** `handle_handshake`: parse the request, build the response with a fresh
      builder, and return its text as Ok for an accepted upgrade, Err
      otherwise. */
  method HandleHandshake(text: string, hashKey: (string, string) -> string)
    returns (result: Result<string, string>, order: seq<string>)
    requires RequestLineComplete(text)
    ensures var decided := Handshake(RequestOf(text), hashKey);
            && result.Ok? == decided.Ok?
            && IsOrdering(order, Answer(decided).headers.Keys)
            && (match result case Ok(s) => s case Err(s) => s) == Render(Answer(decided), order)
  {
    var request := ParseRequest(text);
    var builder := new ResponseBuilder();
    var s;
    match request.verb {
      case Get =>
        if "upgrade" in request.headers && "connection" in request.headers {
          if "sec-websocket-key" in request.headers {
            var accept := hashKey(request.headers["sec-websocket-key"], Guid);
            builder.Status(101);
            builder.AddHeader("Upgrade", "websocket");
            builder.AddHeader("Connection", "Upgrade");
            builder.AddHeader("Sec-Websocket-Accept", accept);
            s, order := builder.ToString();
            result := Ok(s);
          } else {
            builder.Status(404);
            builder.AddHeader("Server", ServerName);
            s, order := builder.ToString();
            result := Err(s);
          }
        } else {
          builder.Status(200);
          builder.AddHeader("Server", ServerName);
          builder.AddHeader("Content-Type", "text/plain");
          builder.SetBody(Greeting);
          s, order := builder.ToString();
          result := Err(s);
        }
      case Other =>
        builder.AddHeader("Server", ServerName);
        s, order := builder.ToString();
        result := Err(s);
    }
  }
}
