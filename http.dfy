/** The request/response vocabulary of src/server.rs and its `Server`, which
    owns the two sides of one connection: the unread request text and the
    response text written so far. */
module Http {
  import opened Text

  // ---------------------------------------------------------------------------
  // Request headers

  /** The request headers the server recognises. */
  datatype RequestHeader = Host | Agent | Accept

  /** The error `RequestHeader::from_str` returns for every other name. */
  datatype HeaderNameError = InvalidFormat

  /** The wire name of each recognised header. */
  function HeaderName(h: RequestHeader): string {
    match h
    case Host => "Host"
    case Agent => "User-Agent"
    case Accept => "Accept"
  }

  /** `RequestHeader::from_str`: a case-sensitive lookup of the three names. */
  function RequestHeaderFromStr(s: string): (r: Result<RequestHeader, HeaderNameError>)
    ensures r.Ok? ==> HeaderName(r.value) == s
    ensures r.Err? <==> forall h: RequestHeader :: HeaderName(h) != s
  {
    match s
    case "Host" => Ok(Host)
    case "User-Agent" => Ok(Agent)
    case "Accept" => Ok(Accept)
    case _ => Err(InvalidFormat)
  }

  lemma HeaderNameRoundTrip(h: RequestHeader)
    ensures RequestHeaderFromStr(HeaderName(h)) == Ok(h)
  {
  }

  // ---------------------------------------------------------------------------
  // Response headers

  /** `ResponseHeader`: a status line, a Content-Type or a Content-Length. */
  datatype ResponseHeader = Status(code: int) | Type(contentType: string) | Length(len: int)

  /** The status codes that have a status line: 200-299 and 400-499. */
  predicate HasStatusLine(code: int) {
    200 <= code <= 299 || 400 <= code <= 499
  }

  /** The `Display` text of a header (`header.to_string()`). */
  function Render(h: ResponseHeader): (r: string)
    ensures r == "" <==> h.Status? && !HasStatusLine(h.code)
  {
    match h
    case Status(code) =>
      if 200 <= code <= 299 then "HTTP/1.1 " + IntToDecimal(code) + " OK\r\n"
      else if 400 <= code <= 499 then "HTTP/1.1 " + IntToDecimal(code) + " Not Found\r\n"
      else ""
    case Type(contentType) => "Content-Type: " + contentType + "\r\n"
    case Length(len) => "Content-Length: " + IntToDecimal(len) + "\r\n"
  }

  /** Recognises one rendered header line; the inverse of `Render`. */
  function ParseRendered(line: string): Option<ResponseHeader> {
    if |line| >= 14 && line[..9] == "HTTP/1.1 " && line[|line| - 5..] == " OK\r\n" then
      match DecimalToInt(line[9..|line| - 5])
      case Some(code) => if 200 <= code <= 299 then Some(Status(code)) else None
      case None => None
    else if |line| >= 21 && line[..9] == "HTTP/1.1 " && line[|line| - 12..] == " Not Found\r\n" then
      match DecimalToInt(line[9..|line| - 12])
      case Some(code) => if 400 <= code <= 499 then Some(Status(code)) else None
      case None => None
    else if |line| >= 16 && line[..14] == "Content-Type: " && line[|line| - 2..] == "\r\n" then
      Some(Type(line[14..|line| - 2]))
    else if |line| >= 18 && line[..16] == "Content-Length: " && line[|line| - 2..] == "\r\n" then
      match DecimalToInt(line[16..|line| - 2])
      case Some(len) => Some(Length(len))
      case None => None
    else None
  }

  lemma StatusRoundTrip(code: int)
    requires HasStatusLine(code)
    ensures ParseRendered(Render(Status(code))) == Some(Status(code))
  {
    var line := Render(Status(code));
    var digits := IntToDecimal(code);
    IntDecimalRoundTrip(code, digits);
    if 200 <= code <= 299 {
      assert line[9..|line| - 5] == digits;
    } else {
      assert line[|line| - 5..] != " OK\r\n" by {
        assert line[|line| - 4] == 'n' != ('O' as char);
      }
      assert line[9..|line| - 12] == digits;
    }
  }

  lemma TypeRoundTrip(contentType: string)
    ensures ParseRendered(Render(Type(contentType))) == Some(Type(contentType))
  {
    var line := Render(Type(contentType));
    assert line[..9] != "HTTP/1.1 " by { assert line[0] == 'C'; }
    assert line[14..|line| - 2] == contentType;
  }

  lemma LengthRoundTrip(len: int)
    ensures ParseRendered(Render(Length(len))) == Some(Length(len))
  {
    var line := Render(Length(len));
    var digits := IntToDecimal(len);
    IntDecimalRoundTrip(len, digits);
    assert line[..9] != "HTTP/1.1 " by { assert line[0] == 'C'; }
    assert line[..14] != "Content-Type: " by { assert line[8] == 'L'; }
    assert line[16..|line| - 2] == digits;
  }

  /** A header renders to nothing exactly when it is a status without a status
      line; everything else renders to text that reads back as the same header. */
  lemma RenderRoundTrip(h: ResponseHeader)
    ensures Render(h) == "" <==> h.Status? && !HasStatusLine(h.code)
    ensures Render(h) != "" ==> ParseRendered(Render(h)) == Some(h)
  {
    match h
    case Status(code) =>
      if HasStatusLine(code) {
        StatusRoundTrip(code);
      }
    case Type(contentType) => TypeRoundTrip(contentType);
    case Length(len) => LengthRoundTrip(len);
  }

  /** Every line `ParseRendered` accepts is the rendering of what it returns. */
  lemma ParseRenderedSound(line: string)
    ensures ParseRendered(line).Some? ==> Render(ParseRendered(line).value) == line
  {
    if ParseRendered(line).Some? {
      var h := ParseRendered(line).value;
      if |line| >= 14 && line[..9] == "HTTP/1.1 " && line[|line| - 5..] == " OK\r\n" {
        var mid := line[9..|line| - 5];
        IntDecimalRoundTrip(h.code, mid);
        Pieces(line, 9, |line| - 5);
      } else if |line| >= 21 && line[..9] == "HTTP/1.1 " && line[|line| - 12..] == " Not Found\r\n" {
        var mid := line[9..|line| - 12];
        IntDecimalRoundTrip(h.code, mid);
        Pieces(line, 9, |line| - 12);
      } else if |line| >= 16 && line[..14] == "Content-Type: " && line[|line| - 2..] == "\r\n" {
        Pieces(line, 14, |line| - 2);
      } else {
        var mid := line[16..|line| - 2];
        IntDecimalRoundTrip(h.len, mid);
        Pieces(line, 16, |line| - 2);
      }
    }
  }

  /** Codes 200-299 get the reason "OK" (201 included) and codes 400-499 the
      reason "Not Found"; the status line is always 17 or 24 characters. */
  lemma StatusLineText(code: int)
    requires HasStatusLine(code)
    ensures |IntToDecimal(code)| == 3
    ensures Render(Status(code)) ==
      "HTTP/1.1 " + IntToDecimal(code) + (if code < 300 then " OK\r\n" else " Not Found\r\n")
    ensures |Render(Status(code))| == if code < 300 then 17 else 24
  {
    var s := NatToDecimal(code);
    assert s == NatToDecimal(code / 10) + [DigitChar(code % 10)];
    assert NatToDecimal(code / 10) == NatToDecimal(code / 100) + [DigitChar(code / 10 % 10)];
  }

  /** The status line of the root and echo responses. */
  lemma OkStatusLine()
    ensures Render(Status(200)) == "HTTP/1.1 200 OK\r\n"
  {
    assert NatToDecimal(200) == "200";
  }

  /** The status line of the not-found response. */
  lemma NotFoundStatusLine()
    ensures Render(Status(404)) == "HTTP/1.1 404 Not Found\r\n"
  {
    assert NatToDecimal(404) == "404" by {
      assert NatToDecimal(404) == NatToDecimal(40) + "4";
    }
    assert Render(Status(404)) == "HTTP/1.1 " + "404" + " Not Found\r\n";
  }

  /** 201 is rendered with the reason "OK", and 500 renders to nothing. */
  lemma StatusExamples()
    ensures Render(Status(201)) == "HTTP/1.1 201 OK\r\n"
    ensures Render(Status(500)) == ""
  {
    assert NatToDecimal(201) == "201";
  }

  // ---------------------------------------------------------------------------
  // The header block of a request

  /** What one header line contributes: the recognised name before the first
      ": " and the trimmed text between it and the next ": ", or nothing when
      the line has no ": " or names no recognised header. */
  function LineHeader(line: string): (r: Option<(RequestHeader, string)>)
    ensures r.Some? ==> IndexOf(line, ": ").Some? && line[..IndexOf(line, ": ").value] == HeaderName(r.value.0)
    ensures r.Some? ==> IsTrimmed(r.value.1)
  {
    var tokens := Split(line, ": ");
    if |tokens| < 2 then None
    else
      match RequestHeaderFromStr(tokens[0])
      case Ok(h) => Some((h, Trim(tokens[1])))
      case Err(_) => None
  }

  predicate Names(line: string, h: RequestHeader) {
    LineHeader(line).Some? && LineHeader(line).value.0 == h
  }

  /** One step of the header loop: insert, overwriting, or leave the map alone. */
  function ApplyLine(headers: map<RequestHeader, string>, line: string): (r: map<RequestHeader, string>)
    ensures headers.Keys <= r.Keys
    ensures LineHeader(line).Some? ==> LineHeader(line).value.0 in r && r[LineHeader(line).value.0] == LineHeader(line).value.1
  {
    match LineHeader(line)
    case Some((h, value)) => headers[h := value]
    case None => headers
  }

  /** The header map after reading `lines` in order. */
  function HeaderMap(lines: seq<string>): (r: map<RequestHeader, string>)
    ensures forall h :: h in r ==> IsTrimmed(r[h])
  {
    if lines == [] then map[]
    else ApplyLine(HeaderMap(lines[..|lines| - 1]), lines[|lines| - 1])
  }

  lemma HeaderMapStep(init: seq<string>, last: string)
    ensures HeaderMap(init + [last]) == ApplyLine(HeaderMap(init), last)
  {
    assert (init + [last])[..|init|] == init;
  }

  /** A header is in the map exactly when some line names it. */
  lemma {:induction false} HeaderMapKeys(lines: seq<string>, h: RequestHeader)
    ensures h in HeaderMap(lines) <==> exists i :: 0 <= i < |lines| && Names(lines[i], h)
  {
    if lines != [] {
      var init, last := lines[..|lines| - 1], lines[|lines| - 1];
      HeaderMapKeys(init, h);
      assert lines == init + [last];
      assert forall i :: 0 <= i < |init| ==> init[i] == lines[i];
      if !Names(last, h) {
        assert (exists i :: 0 <= i < |lines| && Names(lines[i], h)) ==>
          exists i :: 0 <= i < |init| && Names(init[i], h);
      }
    }
  }

  /** The map holds, for a header, the value of the last line naming it:
      a later line overwrites an earlier one. */
  lemma {:induction false} HeaderMapLastWins(lines: seq<string>, h: RequestHeader, i: nat)
    requires i < |lines| && Names(lines[i], h)
    requires forall j :: i < j < |lines| ==> !Names(lines[j], h)
    ensures h in HeaderMap(lines) && HeaderMap(lines)[h] == LineHeader(lines[i]).value.1
  {
    var init, last := lines[..|lines| - 1], lines[|lines| - 1];
    assert lines == init + [last];
    HeaderMapStep(init, last);
    if i < |lines| - 1 {
      assert init[i] == lines[i];
      assert forall j :: i < j < |init| ==> init[j] == lines[j];
      HeaderMapLastWins(init, h, i);
      assert !Names(last, h);
      ApplyLineOther(HeaderMap(init), last, h);
    }
  }

  lemma ApplyLineOther(headers: map<RequestHeader, string>, line: string, h: RequestHeader)
    requires !Names(line, h)
    ensures h in ApplyLine(headers, line) <==> h in headers
    ensures h in headers ==> ApplyLine(headers, line)[h] == headers[h]
  {
  }

  lemma NoSeparatorAcrossLineEnd(value: string)
    requires IndexOf(value, ": ").None?
    ensures IndexOf(value + "\r\n", ": ").None?
  {
    var v := value + "\r\n";
    forall j | 0 <= j
      ensures !OccursAt(v, ": ", j)
    {
      if j + 2 <= |value| {
        assert v[j..j + 2] == value[j..j + 2];
        assert !OccursAt(value, ": ", j);
      } else if j + 2 <= |v| {
        assert v[j..j + 2][1] == v[j + 1];
        assert v[j + 1] == '\r' || v[j + 1] == '\n';
      }
    }
  }

  /** A line `name: value\r\n` splits into the name and the rest of the line. */
  lemma SplitNameValue(name: string, value: string)
    requires ':' !in name && IndexOf(value, ": ").None?
    ensures Split(name + ": " + value + "\r\n", ": ") == [name, value + "\r\n"]
  {
    var v := value + "\r\n";
    assert name + ": " + value + "\r\n" == name + ": " + v;
    SplitAfter(name, ": ", v);
    NoSeparatorAcrossLineEnd(value);
    SplitJoin(v, ": ");
  }

  /** Trimming drops the line end of a trimmed value. */
  lemma TrimLineEnd(value: string)
    requires IsTrimmed(value)
    ensures Trim(value + "\r\n") == value
  {
    TrimAround("", value, "\r\n");
    assert "" + value + "\r\n" == value + "\r\n";
  }

  /** A well-formed line `Name: value\r\n` for a recognised header contributes
      exactly that header and value. */
  lemma HeaderLine(h: RequestHeader, value: string)
    requires IndexOf(value, ": ").None? && IsTrimmed(value)
    ensures LineHeader(HeaderName(h) + ": " + value + "\r\n") == Some((h, value))
  {
    assert ':' !in HeaderName(h);
    SplitNameValue(HeaderName(h), value);
    HeaderNameRoundTrip(h);
    TrimLineEnd(value);
  }

  /** Any line whose text before the first ": " is a recognised name
      contributes that header, with the trimmed text between that separator
      and the next one (or the end of the line). */
  lemma LineHeaderOf(line: string, h: RequestHeader)
    requires IndexOf(line, ": ").Some? && line[..IndexOf(line, ": ").value] == HeaderName(h)
    ensures var after := line[IndexOf(line, ": ").value + 2..];
      LineHeader(line) == Some((h, Trim(match IndexOf(after, ": ") case Some(j) => after[..j] case None => after)))
  {
    var i := IndexOf(line, ": ").value;
    var after := line[i + 2..];
    assert Split(line, ": ") == [line[..i]] + Split(after, ": ");
    SplitJoin(after, ": ");
    HeaderNameRoundTrip(h);
  }

  /** A line whose first two pieces are a recognised name and a value. */
  lemma LineTokens(line: string, h: RequestHeader, value: string)
    requires |Split(line, ": ")| >= 2
    requires Split(line, ": ")[0] == HeaderName(h) && Split(line, ": ")[1] == value
    ensures LineHeader(line) == Some((h, Trim(value)))
  {
    HeaderNameRoundTrip(h);
  }

  /** Only the text between the first and the second ": " is kept: whatever
      follows a second separator on the line is dropped. */
  lemma HeaderLineSecondToken(h: RequestHeader, value: string, extra: string)
    requires ':' !in value
    ensures LineHeader(HeaderName(h) + ": " + value + ": " + extra) == Some((h, Trim(value)))
  {
    var name := HeaderName(h);
    var line := name + ": " + value + ": " + extra;
    assert ':' !in name;
    assert line == name + ": " + (value + ": " + extra);
    SplitAfter(name, ": ", value + ": " + extra);
    SplitAfter(value, ": ", extra);
    LineTokens(line, h, value);
  }

  // Reading the header block: the lines up to the first bare "\r\n".

  /** The remaining input holds a bare "\r\n" line, so reading headers stops. */
  predicate HasHeaderTerminator(text: string)
    decreases |text|
  {
    text != "" && (NextLine(text).0 == "\r\n" || HasHeaderTerminator(NextLine(text).1))
  }

  /** The header lines before the terminator, and the text after it. */
  function HeaderBlock(text: string): (r: (seq<string>, string))
    requires HasHeaderTerminator(text)
    ensures Join(r.0, "") + "\r\n" + r.1 == text
    ensures "\r\n" !in r.0
    ensures forall k :: 0 <= k < |r.0| ==> IsLine(r.0[k])
    decreases |text|
  {
    var (line, rest) := NextLine(text);
    if line == "\r\n" then ([], rest)
    else
      var (lines, after) := HeaderBlock(rest);
      assert Join([line] + lines, "") == line + Join(lines, "") by {
        if lines != [] { assert ([line] + lines)[1..] == lines; }
      }
      ([line] + lines, after)
  }

  /** The block is fixed by its contract: header lines other than the bare
      "\r\n", then the terminator, read back as exactly those lines. */
  lemma {:induction false} HeaderBlockOf(lines: seq<string>, rest: string)
    requires forall k :: 0 <= k < |lines| ==> IsLine(lines[k]) && lines[k] != "\r\n"
    ensures HasHeaderTerminator(Join(lines, "") + "\r\n" + rest)
    ensures HeaderBlock(Join(lines, "") + "\r\n" + rest) == (lines, rest)
    decreases |lines|
  {
    if lines == [] {
      assert Join(lines, "") + "\r\n" + rest == "\r\n" + rest;
      NextLineOf("\r\n", rest);
    } else {
      var line := lines[0];
      var tail := Join(lines[1..], "") + "\r\n" + rest;
      assert Join(lines, "") + "\r\n" + rest == line + tail by {
        assert Join(lines, "") == line + Join(lines[1..], "");
        Appended(line, Join(lines[1..], ""), "\r\n");
        Appended(line, Join(lines[1..], "") + "\r\n", rest);
      }
      assert IsLine(line) && line != "\r\n";
      NextLineOf(line, tail);
      HeaderBlockOf(lines[1..], rest);
      assert [line] + lines[1..] == lines;
    }
  }

  /** One line of the header block: the terminator ends it, any other line
      is the first of the block's lines. */
  lemma HeaderBlockStep(text: string)
    requires HasHeaderTerminator(text)
    ensures var (line, rest) := NextLine(text);
      if line == "\r\n" then HeaderBlock(text) == ([], rest)
      else HasHeaderTerminator(rest) && HeaderBlock(text) == ([line] + HeaderBlock(rest).0, HeaderBlock(rest).1)
  {
  }

  /** One turn of the header loop: the block read so far grows by the next
      line, or is complete when that line is the bare "\r\n". */
  lemma ConsumeLine(original: string, consumed: seq<string>, text: string)
    requires HasHeaderTerminator(original) && HasHeaderTerminator(text)
    requires HeaderBlock(original) == (consumed + HeaderBlock(text).0, HeaderBlock(text).1)
    ensures var (line, rest) := NextLine(text);
      if line == "\r\n" then
        HeaderBlock(original) == (consumed, rest)
      else
        && HasHeaderTerminator(rest)
        && HeaderBlock(original) == (consumed + [line] + HeaderBlock(rest).0, HeaderBlock(rest).1)
        && HeaderMap(consumed + [line]) == ApplyLine(HeaderMap(consumed), line)
  {
    HeaderBlockStep(text);
    var (line, rest) := NextLine(text);
    if line == "\r\n" {
      assert consumed + [] == consumed;
    } else {
      HeaderMapStep(consumed, line);
      Appended(consumed, [line], HeaderBlock(rest).0);
    }
  }

  // ---------------------------------------------------------------------------
  // The server

  class Server {
    /** The part of the request not read yet. */
    var input: string
    /** Everything written to the response side. */
    var output: string

    /** `Server::new` over a connection whose request side carries `request`. */
    constructor (request: string)
      ensures input == request && output == ""
    {
      input := request;
      output := "";
    }

    /** `with`: writes the header's text and hands back the same server. */
    method With(header: ResponseHeader) returns (self: Server)
      modifies this`output
      ensures self == this
      ensures output == old(output) + Render(header)
    {
      output := output + Render(header);
      self := this;
    }

    /** `send`: ends the header block, then writes the body if there is one. */
    method Send(body: Option<string>)
      modifies this`output
      ensures output == old(output) + "\r\n" + (if body.Some? then body.value else "")
    {
      output := output + "\r\n";
      if body.Some? {
        output := output + body.value;
      }
    }

    /** `read_line`. */
    method ReadLine() returns (line: string)
      modifies this`input
      ensures (line, input) == NextLine(old(input))
    {
      var r := NextLine(input);
      line := r.0;
      input := r.1;
    }

    /** `read_all`: reads header lines up to the bare "\r\n", keeping the
        recognised ones; the body it returns is always empty. */
    method ReadAll() returns (headers: map<RequestHeader, string>, body: string)
      requires HasHeaderTerminator(input)
      modifies this`input
      ensures headers == HeaderMap(HeaderBlock(old(input)).0)
      ensures input == HeaderBlock(old(input)).1
      ensures body == ""
    {
      headers := map[];
      ghost var consumed: seq<string> := [];
      assert consumed + HeaderBlock(input).0 == HeaderBlock(input).0;
      while true
        invariant HasHeaderTerminator(input)
        invariant HeaderBlock(old(input)) == (consumed + HeaderBlock(input).0, HeaderBlock(input).1)
        invariant headers == HeaderMap(consumed)
        decreases |input|
      {
        ConsumeLine(old(input), consumed, input);
        ghost var previous := headers;
        var line := ReadLine();
        if line == "\r\n" {
          break;
        }
        var tokens := Split(line, ": ");
        if |tokens| >= 2 {
          var value := tokens[1];
          var parsed := RequestHeaderFromStr(tokens[0]);
          if parsed.Ok? {
            headers := headers[parsed.value := Trim(value)];
            assert LineHeader(line) == Some((parsed.value, Trim(value)));
            assert headers == ApplyLine(previous, line);
          } else {
            assert LineHeader(line).None?;
            assert headers == ApplyLine(previous, line);
          }
        } else {
          assert LineHeader(line).None?;
          assert headers == ApplyLine(previous, line);
        }
        consumed := consumed + [line];
      }
      body := "";
    }
  }
}
