/** The response side seen from the client: a reader that takes one HTTP/1.1
    response off the front of a text (status line, header lines up to a bare
    "\r\n", then as many body bytes as Content-Length says). The lemmas
    below relate the server's output to what this reader takes from it. */
module Wire {
  import opened Text
  import opened Http
  import opened Handler

  /** One response as a client reads it. */
  datatype Response = Response(code: int, reason: string, fields: seq<(string, string)>, body: string)

  /** Splits a status line "HTTP/1.1 <code> <reason>\r\n". */
  function ReadStatusLine(line: string): Option<(int, string)> {
    if |line| >= 11 && line[..9] == "HTTP/1.1 " && line[|line| - 2..] == "\r\n" then
      var rest := line[9..|line| - 2];
      match IndexOf(rest, " ")
      case None => None
      case Some(i) =>
        match DecimalToInt(rest[..i])
        case None => None
        case Some(code) => Some((code, rest[i + 1..]))
    else None
  }

  /** Reads "Name: value\r\n" lines up to and including the bare "\r\n". */
  function ReadFields(text: string): Option<(seq<(string, string)>, string)>
    decreases |text|
  {
    var (line, rest) := NextLine(text);
    if line == "\r\n" then Some(([], rest))
    else if |line| < 2 || line[|line| - 2..] != "\r\n" then None
    else
      var content := line[..|line| - 2];
      match IndexOf(content, ": ")
      case None => None
      case Some(i) =>
        match ReadFields(rest)
        case None => None
        case Some(more) => Some(([(content[..i], content[i + 2..])] + more.0, more.1))
  }

  /** The value of the first field with the given name. */
  function FieldValue(fields: seq<(string, string)>, name: string): Option<string> {
    if fields == [] then None
    else if fields[0].0 == name then Some(fields[0].1)
    else FieldValue(fields[1..], name)
  }

  /** Reads one response and returns it with the text that follows it. */
  function ReadResponse(text: string): Option<(Response, string)> {
    var (statusLine, rest) := NextLine(text);
    match ReadStatusLine(statusLine)
    case None => None
    case Some((code, reason)) =>
      match ReadFields(rest)
      case None => None
      case Some((fields, after)) =>
        match FieldValue(fields, "Content-Length")
        case None => Some((Response(code, reason, fields, ""), after))
        case Some(length) =>
          match DecimalToNat(length)
          case None => None
          case Some(n) =>
            match TakeBytes(after, n)
            case None => None
            case Some((body, next)) => Some((Response(code, reason, fields, body), next))
  }

  // ---------------------------------------------------------------------------
  // Reading back what the server writes

  /** The text of header lines for the given fields. */
  function FieldsText(fields: seq<(string, string)>): string {
    if fields == [] then "" else fields[0].0 + ": " + fields[0].1 + "\r\n" + FieldsText(fields[1..])
  }

  predicate FieldWritable(field: (string, string)) {
    ':' !in field.0 && '\n' !in field.0 && '\n' !in field.1
  }

  /** A line ending in "\r\n" with no other '\n' comes off the front of a text. */
  lemma CrlfLine(content: string, rest: string)
    requires '\n' !in content
    ensures NextLine(content + "\r\n" + rest) == (content + "\r\n", rest)
  {
    var line := content + "\r\n";
    assert forall k :: 0 <= k < |line| - 1 ==> line[k] != '\n' by {
      forall k | 0 <= k < |line| - 1 ensures line[k] != '\n' {
        if k < |content| {
          assert line[k] == content[k];
        }
      }
    }
    NextLineOf(line, rest);
  }

  lemma StatusLineRead(digits: string, reason: string, rest: string)
    requires IsCanonicalDecimal(digits) && '\n' !in reason
    ensures var line := "HTTP/1.1 " + digits + " " + reason + "\r\n";
      NextLine(line + rest) == (line, rest) &&
      ReadStatusLine(line) == Some((DigitsValue(digits), reason))
  {
    var middle := digits + " " + reason;
    var content := "HTTP/1.1 " + middle;
    var line := content + "\r\n";
    assert ' ' !in digits && '\n' !in digits by {
      assert forall k :: 0 <= k < |digits| ==> digits[k] != '\n' && digits[k] != ' ';
    }
    assert content == "HTTP/1.1 " + digits + " " + reason;
    assert NextLine(line + rest) == (line, rest) by {
      assert '\n' !in content;
      CrlfLine(content, rest);
    }
    assert ReadStatusLine(line) == Some((DigitsValue(digits), reason)) by {
      assert line[..9] == "HTTP/1.1 " && line[9..|line| - 2] == middle;
      IndexOfAfter(digits, " ", reason);
      assert middle[..|digits|] == digits && middle[|digits| + 1..] == reason;
      assert DecimalToInt(digits) == Some(DigitsValue(digits));
    }
  }

  /** One field line comes off the front and is split at its first ": ". */
  lemma FieldLineRead(name: string, value: string, rest: string)
    requires FieldWritable((name, value)) && ReadFields(rest).Some?
    ensures ReadFields(name + ": " + value + "\r\n" + rest) ==
      Some(([(name, value)] + ReadFields(rest).value.0, ReadFields(rest).value.1))
  {
    var content := name + ": " + value;
    CrlfLine(content, rest);
    var line := content + "\r\n";
    assert line != "\r\n" && line[|line| - 2..] == "\r\n" && line[..|line| - 2] == content;
    IndexOfAfter(name, ": ", value);
    assert content[..|name|] == name && content[|name| + 2..] == value;
  }

  lemma {:induction false} FieldsRead(fields: seq<(string, string)>, rest: string)
    requires forall k :: 0 <= k < |fields| ==> FieldWritable(fields[k])
    ensures ReadFields(FieldsText(fields) + "\r\n" + rest) == Some((fields, rest))
    decreases |fields|
  {
    if fields == [] {
      assert FieldsText(fields) + "\r\n" + rest == "" + "\r\n" + rest;
      CrlfLine("", rest);
    } else {
      var name, value := fields[0].0, fields[0].1;
      var line := name + ": " + value + "\r\n";
      var tail := FieldsText(fields[1..]) + "\r\n" + rest;
      assert ReadFields(tail) == Some((fields[1..], rest)) by {
        FieldsRead(fields[1..], rest);
      }
      assert FieldsText(fields) + "\r\n" + rest == line + tail by {
        assert FieldsText(fields) == line + FieldsText(fields[1..]);
        Appended(line, FieldsText(fields[1..]), "\r\n");
        Appended(line, FieldsText(fields[1..]) + "\r\n", rest);
      }
      assert FieldWritable(fields[0]);
      FieldLineRead(name, value, tail);
      assert [(name, value)] + fields[1..] == fields;
    }
  }

  /** Reading a response whose status line and fields have been read. */
  lemma ResponseRead(text: string, line: string, rest: string, code: int, reason: string,
                     fields: seq<(string, string)>, after: string)
    requires NextLine(text) == (line, rest) && ReadStatusLine(line) == Some((code, reason))
    requires ReadFields(rest) == Some((fields, after))
    ensures FieldValue(fields, "Content-Length").None? ==>
      ReadResponse(text) == Some((Response(code, reason, fields, ""), after))
    ensures forall n: nat :: FieldValue(fields, "Content-Length") == Some(NatToDecimal(n)) ==>
      ReadResponse(text) == (match TakeBytes(after, n)
        case None => None
        case Some(split) => Some((Response(code, reason, fields, split.0), split.1)))
  {
    forall n: nat | FieldValue(fields, "Content-Length") == Some(NatToDecimal(n))
      ensures DecimalToNat(NatToDecimal(n)) == Some(n)
    {
      NatDecimalRoundTrip(n, NatToDecimal(n));
    }
  }

  /** The bare 404 response reads back as status 404, reason "Not Found", no
      fields and no body, and leaves what follows untouched. */
  lemma NotFoundRead(next: string)
    ensures ReadResponse(NotFoundText + next) == Some((Response(404, "Not Found", [], ""), next))
  {
    var line := "HTTP/1.1 " + "404" + " " + "Not Found" + "\r\n";
    var rest := "\r\n" + next;
    assert NextLine(NotFoundText + next) == (line, rest) && ReadStatusLine(line) == Some((404, "Not Found")) by {
      NotFoundDigits();
      StatusLineRead("404", "Not Found", rest);
      NotFoundTextLines();
      Appended(line, "\r\n", next);
    }
    assert ReadFields(rest) == Some(([], next)) by {
      FieldsRead([], next);
      assert FieldsText([]) + "\r\n" + next == rest;
    }
    ResponseRead(NotFoundText + next, line, rest, 404, "Not Found", [], next);
  }

  /** The root response reads back as status 200, reason "OK", no fields and
      no body. */
  lemma RootRead(next: string)
    ensures ReadResponse(RootText + next) == Some((Response(200, "OK", [], ""), next))
  {
    var line := "HTTP/1.1 " + "200" + " " + "OK" + "\r\n";
    var rest := "\r\n" + next;
    assert NextLine(RootText + next) == (line, rest) && ReadStatusLine(line) == Some((200, "OK")) by {
      OkDigits();
      StatusLineRead("200", "OK", rest);
      RootTextLines();
      Appended(line, "\r\n", next);
    }
    assert ReadFields(rest) == Some(([], next)) by {
      FieldsRead([], next);
      assert FieldsText([]) + "\r\n" + next == rest;
    }
    ResponseRead(RootText + next, line, rest, 200, "OK", [], next);
  }

  lemma NotFoundTextLines()
    ensures NotFoundText == "HTTP/1.1 " + "404" + " " + "Not Found" + "\r\n" + "\r\n"
  {
  }

  lemma RootTextLines()
    ensures RootText == "HTTP/1.1 " + "200" + " " + "OK" + "\r\n" + "\r\n"
  {
  }

  /** "200" is the decimal text of 200. */
  lemma OkDigits()
    ensures IsCanonicalDecimal("200") && DigitsValue("200") == 200
  {
    assert NatToDecimal(200) == "200" by {
      assert NatToDecimal(200) == NatToDecimal(20) + "0";
    }
    NatDecimalRoundTrip(200, "200");
  }

  /** "404" is the decimal text of 404. */
  lemma NotFoundDigits()
    ensures IsCanonicalDecimal("404") && DigitsValue("404") == 404
  {
    assert NatToDecimal(404) == "404" by {
      assert NatToDecimal(404) == NatToDecimal(40) + "4";
    }
    NatDecimalRoundTrip(404, "404");
  }

  lemma OkStatusLiteral()
    ensures "HTTP/1.1 " + "200" + " " + "OK" + "\r\n" == "HTTP/1.1 200 OK\r\n"
  {
  }

  lemma EchoFieldsText(digits: string)
    ensures FieldsText([("Content-Type", "text/plain"), ("Content-Length", digits)])
      == "Content-Type: text/plain\r\n" + ("Content-Length: " + digits + "\r\n")
  {
    var fields := [("Content-Type", "text/plain"), ("Content-Length", digits)];
    assert FieldsText(fields[1..][1..]) == "";
    assert FieldsText(fields[1..]) == "Content-Length: " + digits + "\r\n";
  }

  /** The echo head is the status line, the two field lines and the blank line. */
  lemma EchoHeadFields(n: nat)
    ensures EchoHead(n) == "HTTP/1.1 " + "200" + " " + "OK" + "\r\n"
      + FieldsText([("Content-Type", "text/plain"), ("Content-Length", NatToDecimal(n))]) + "\r\n"
  {
    var digits := NatToDecimal(n);
    var status, kind, length := "HTTP/1.1 200 OK\r\n", "Content-Type: text/plain\r\n", "Content-Length: ";
    OkStatusLiteral();
    EchoFieldsText(digits);
    assert status + kind + length + digits + "\r\n" == status + (kind + (length + digits + "\r\n")) by {
      Appended(status + kind, length, digits);
      Appended(status + kind, length + digits, "\r\n");
      Appended(status, kind, length + digits + "\r\n");
    }
  }

  lemma EchoFieldsWritable(digits: string)
    requires IsCanonicalDecimal(digits)
    ensures var fields := [("Content-Type", "text/plain"), ("Content-Length", digits)];
      forall k :: 0 <= k < |fields| ==> FieldWritable(fields[k])
  {
    assert forall k :: 0 <= k < |digits| ==> digits[k] != '\n';
    assert FieldWritable(("Content-Type", "text/plain"));
    assert FieldWritable(("Content-Length", digits));
  }

  /** The echo response frames its body: a client reads status 200, the two
      fields, exactly `s` as the body (Content-Length counts its bytes), and
      the text after it is left for the next read. */
  lemma EchoRead(s: string, next: string)
    ensures ReadResponse(EchoHead(Utf8Len(s)) + s + next) == Some((Response(200, "OK",
      [("Content-Type", "text/plain"), ("Content-Length", NatToDecimal(Utf8Len(s)))], s), next))
  {
    var n := Utf8Len(s);
    var digits := NatToDecimal(n);
    var fields := [("Content-Type", "text/plain"), ("Content-Length", digits)];
    var status := "HTTP/1.1 " + "200" + " " + "OK" + "\r\n";
    var fieldText := FieldsText(fields);
    var rest := fieldText + "\r\n" + (s + next);
    var text := EchoHead(n) + s + next;
    assert text == status + rest by {
      EchoHeadFields(n);
      Appended(status, fieldText, "\r\n");
      Appended(status, fieldText + "\r\n", s);
      Appended(status, fieldText + "\r\n" + s, next);
      Appended(fieldText + "\r\n", s, next);
    }
    assert NextLine(text) == (status, rest) && ReadStatusLine(status) == Some((200, "OK")) by {
      OkDigits();
      StatusLineRead("200", "OK", rest);
    }
    assert ReadFields(rest) == Some((fields, s + next)) by {
      EchoFieldsWritable(digits);
      FieldsRead(fields, s + next);
    }
    assert FieldValue(fields, "Content-Length") == Some(digits);
    assert TakeBytes(s + next, n) == Some((s, next)) by {
      TakeBytesFrames(s, next);
    }
    ResponseRead(text, status, rest, 200, "OK", fields, s + next);
  }

  /** Because the `/echo` branch falls through, a client reading the reply to
      `/echo/<s>` finds two complete responses: the echo of `s`, then a bare
      404, and nothing after them. */
  lemma EchoReplyIsTwoResponses(s: string)
    ensures var reply := Reply("/echo/" + s).value;
      ReadResponse(reply) == Some((Response(200, "OK",
        [("Content-Type", "text/plain"), ("Content-Length", NatToDecimal(Utf8Len(s)))], s), NotFoundText)) &&
      ReadResponse(NotFoundText) == Some((Response(404, "Not Found", [], ""), ""))
  {
    EchoReply(s);
    EchoRead(s, NotFoundText);
    NotFoundRead("");
    assert NotFoundText + "" == NotFoundText;
  }

  /** Every path other than "/" and the `/echo` paths reads as a single bare 404. */
  lemma NotFoundReplyRead(path: string)
    requires path != "/" && !("/echo" <= path)
    ensures ReadResponse(Reply(path).value) == Some((Response(404, "Not Found", [], ""), ""))
  {
    NotFoundReply(path);
    NotFoundRead("");
    assert NotFoundText + "" == NotFoundText;
  }

  /** The root reply reads as a single bare 200. */
  lemma RootReplyRead()
    ensures ReadResponse(Reply("/").value) == Some((Response(200, "OK", [], ""), ""))
  {
    RootReply();
    RootRead("");
    assert RootText + "" == RootText;
  }
}
