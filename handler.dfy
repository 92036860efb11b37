/** The request handling of src/main.rs: the path is taken from the request
    line and routed to one of three fixed responses, written through the
    `Server` of src/server.rs. */
module Handler {
  import opened Text
  import opened Http

  /** The error `parse_path` returns when the request line has no second token. */
  datatype PathError = InvalidHeaderFormat

  /** `parse_path`: the second token of the request line split on single
      spaces (empty tokens count); the first token is never looked at. */
  function ParsePath(header: string): (r: Result<string, PathError>)
    ensures r.Ok? ==> ' ' !in r.value
  {
    var tokens := Split(header, " ");
    if |tokens| >= 2 then
      SplitJoin(header, " ");
      IndexOfChar(tokens[1], ' ');
      Ok(tokens[1])
    else Err(InvalidHeaderFormat)
  }

  /** The request line is accepted exactly when it holds a space, and the path
      taken from it never holds one. */
  lemma ParsePathSucceeds(header: string)
    ensures ParsePath(header).Ok? <==> ' ' in header
    ensures ParsePath(header).Ok? ==> ' ' !in ParsePath(header).value
  {
    var tokens := Split(header, " ");
    SplitJoin(header, " ");
    IndexOfChar(header, ' ');
    if |tokens| >= 2 {
      IndexOfChar(tokens[1], ' ');
    }
  }

  /** Whatever the method token, the path is the text between the first and
      the second space, or the rest of the line when there is no second. */
  lemma ParsePathToken(verb: string, path: string, rest: string)
    requires ' ' !in verb && ' ' !in path
    ensures ParsePath(verb + " " + path) == Ok(path)
    ensures ParsePath(verb + " " + path + " " + rest) == Ok(path)
  {
    SplitAfter(verb, " ", path);
    SplitWithout(path, ' ');
    assert verb + " " + path + " " + rest == verb + " " + (path + " " + rest);
    SplitAfter(verb, " ", path + " " + rest);
    SplitAfter(path, " ", rest);
  }

  // ---------------------------------------------------------------------------
  // Routing

  /** `&path["/echo/".len()..]` only succeeds when byte offset 6 lies inside
      the path and on a character boundary, i.e. after six characters of
      which the sixth is a single-byte one. */
  predicate EchoSliceOk(path: string) {
    |path| >= 6 && path[5] as int < 0x80
  }

  /** The text `handle_request` writes for a path, or None when the slice of
      an `/echo` path panics. The `/echo` branch has no `else`, so the 404
      response is written after the echo response as well. */
  function Reply(path: string): (r: Option<string>)
    ensures r.None? ==> path != "/" && "/echo" <= path
    ensures r.Some? ==> r.value != ""
  {
    if path == "/" then Some(Render(Status(200)) + "\r\n")
    else if "/echo" <= path then
      if EchoSliceOk(path) then
        var value := path[6..];
        Some(Render(Status(200)) + Render(Type("text/plain")) + Render(Length(Utf8Len(value)))
          + "\r\n" + value + Render(Status(404)) + "\r\n")
      else None
    else Some(Render(Status(404)) + "\r\n")
  }

  /** How one request ends. */
  datatype Outcome =
    | Responded      // every write happened
    | BadRequestLine // `parse_path` failed and the error was propagated
    | Panicked       // the `/echo` slice panicked

  /** The outcome of handling a request line and the text written for it. */
  function Handle(line: string): (r: (Outcome, string))
    ensures r.0 == BadRequestLine <==> ' ' !in line
    ensures r.0 == Panicked ==> ParsePath(line).Ok? && "/echo" <= ParsePath(line).value
    ensures r.1 != "" <==> r.0 == Responded
  {
    ParsePathSucceeds(line);
    match ParsePath(line)
    case Err(_) => (BadRequestLine, "")
    case Ok(path) =>
      match Reply(path)
      case None => (Panicked, "")
      case Some(text) => (Responded, text)
  }

  /** `handle_request` on a connection: reads the request line, then routes. */
  method HandleRequest(server: Server) returns (outcome: Outcome)
    modifies server
    ensures server.input == NextLine(old(server.input)).1
    ensures outcome == Handle(NextLine(old(server.input)).0).0
    ensures server.output == old(server.output) + Handle(NextLine(old(server.input)).0).1
  {
    var header := server.ReadLine();
    var parsed := ParsePath(header);
    if parsed.Err? {
      return BadRequestLine;
    }
    outcome := Route(server, parsed.value);
  }

  /** The routing part of `handle_request`: the writes for one path, cut short
      where the `/echo` slice panics. */
  method Route(server: Server, path: string) returns (outcome: Outcome)
    modifies server`output
    ensures outcome == if Reply(path).Some? then Responded else Panicked
    ensures server.output == old(server.output) + if Reply(path).Some? then Reply(path).value else ""
  {
    ghost var before := server.output;
    if path == "/" {
      var s := server.With(Status(200));
      s.Send(None);
      assert server.output == before + Reply(path).value;
    } else {
      ghost var written := "";
      if "/echo" <= path {
        if !EchoSliceOk(path) {
          assert server.output == before + "";
          return Panicked;
        }
        var value := path[6..];
        var s := server.With(Status(200));
        s := s.With(Type("text/plain"));
        Appended(before, Render(Status(200)), Render(Type("text/plain")));
        s := s.With(Length(Utf8Len(value)));
        written := Render(Status(200)) + Render(Type("text/plain"));
        Appended(before, written, Render(Length(Utf8Len(value))));
        written := written + Render(Length(Utf8Len(value)));
        s.Send(Some(value));
        Appended(before, written, "\r\n");
        Appended(before, written + "\r\n", value);
        written := written + "\r\n" + value;
      }
      assert server.output == before + written;
      var s := server.With(Status(404));
      s.Send(None);
      Appended(before, written, Render(Status(404)));
      Appended(before, written + Render(Status(404)), "\r\n");
      assert server.output == before + Reply(path).value;
    }
    outcome := Responded;
  }

  // ---------------------------------------------------------------------------
  // What each route writes


  /** The text of a chain of writes, each ending in "\r\n", that a client
      reads as one complete response. */
  const RootText := "HTTP/1.1 200 OK\r\n\r\n"
  const NotFoundText := "HTTP/1.1 404 Not Found\r\n\r\n"

  /** The head of the echo response for a body of `n` bytes. */
  function EchoHead(n: nat): string {
    "HTTP/1.1 200 OK\r\n" + "Content-Type: text/plain\r\n" + "Content-Length: " + NatToDecimal(n) + "\r\n" + "\r\n"
  }

  /** The root path gets a bare 200 response. */
  lemma RootReply()
    ensures Reply("/") == Some(RootText)
  {
    OkStatusLine();
    assert Reply("/") == Some(Render(Status(200)) + "\r\n");
    assert "HTTP/1.1 200 OK\r\n" + "\r\n" == RootText;
  }

  /** Any path that is neither "/" nor starts with "/echo" gets a bare 404. */
  lemma NotFoundReply(path: string)
    requires path != "/" && !("/echo" <= path)
    ensures Reply(path) == Some(NotFoundText)
  {
    NotFoundStatusLine();
    assert Reply(path) == Some(Render(Status(404)) + "\r\n");
    assert "HTTP/1.1 404 Not Found\r\n" + "\r\n" == NotFoundText;
  }

  /** `/echo/<s>` gets a 200 response whose body is `s` and whose
      Content-Length is the byte length of `s`, immediately followed by a
      bare 404 response. */
  lemma EchoReply(s: string)
    ensures Reply("/echo/" + s) == Some(EchoHead(Utf8Len(s)) + s + NotFoundText)
  {
    OkStatusLine();
    NotFoundStatusLine();
    var path := "/echo/" + s;
    assert "/echo" <= path && path[5] == '/';
    assert path[6..] == s;
    var n := Utf8Len(s);
    var digits := NatToDecimal(n);
    var status, kind := "HTTP/1.1 200 OK\r\n", "Content-Type: text/plain\r\n";
    var length := "Content-Length: " + digits + "\r\n";
    assert Render(Length(n)) == length;
    assert Render(Type("text/plain")) == kind;
    var x := status + kind + length + "\r\n" + s;
    assert Reply(path) == Some(x + Render(Status(404)) + "\r\n");
    Appended(x, "HTTP/1.1 404 Not Found\r\n", "\r\n");
    assert "HTTP/1.1 404 Not Found\r\n" + "\r\n" == NotFoundText;
    Appended(status + kind + "Content-Length: ", digits, "\r\n");
    Appended(status + kind, "Content-Length: ", digits + "\r\n");
    Appended("Content-Length: ", digits, "\r\n");
    assert EchoHead(n) == status + kind + length + "\r\n";
  }

  /** Any single-byte sixth character is skipped, not only '/': `/echo<c><s>`
      is answered like `/echo/<s>`. */
  lemma EchoAnySixth(c: char, s: string)
    requires c as int < 0x80
    ensures Reply("/echo" + [c] + s) == Some(EchoHead(Utf8Len(s)) + s + NotFoundText)
  {
    var path := "/echo" + [c] + s;
    assert "/echo" <= path && path[5] == c && path[6..] == s;
    EchoReply(s);
  }

  /** Exactly the `/echo` paths that are too short, or whose sixth character
      takes more than one byte, make the handler panic. */
  lemma EchoPanics(path: string)
    ensures Reply(path).None? <==> "/echo" <= path && (|path| < 6 || path[5] as int >= 0x80)
  {
  }

  /** Every response other than the root's ends with the bare 404 response. */
  lemma NonRootEndsWithNotFound(path: string)
    requires path != "/" && Reply(path).Some?
    ensures var text := Reply(path).value;
      |text| >= |NotFoundText| && text[|text| - |NotFoundText|..] == NotFoundText
  {
    if "/echo" <= path {
      NotFoundStatusLine();
      var value := path[6..];
      var head := Render(Status(200)) + Render(Type("text/plain")) + Render(Length(Utf8Len(value))) + "\r\n" + value;
      assert Render(Status(404)) + "\r\n" == NotFoundText;
      Appended(head, Render(Status(404)), "\r\n");
      var text := head + NotFoundText;
      assert text[|text| - |NotFoundText|..] == NotFoundText;
    } else {
      NotFoundReply(path);
    }
  }

  /** A request line whose path has a reply is answered with that reply. */
  lemma HandleAnswered(line: string, path: string)
    requires ParsePath(line) == Ok(path) && Reply(path).Some?
    ensures Handle(line) == (Responded, Reply(path).value)
  {
  }

  /** A full request line: the method token does not matter, and an echo
      request line produces the echo response followed by the 404 response. */
  lemma HandleEchoLine(verb: string, s: string, version: string)
    requires ' ' !in verb && ' ' !in s
    ensures Handle(verb + " " + ("/echo/" + s) + " " + version) == (Responded, EchoHead(Utf8Len(s)) + s + NotFoundText)
  {
    var path := "/echo/" + s;
    assert ParsePath(verb + " " + path + " " + version) == Ok(path) by {
      assert ' ' !in path;
      ParsePathToken(verb, path, version);
    }
    assert Reply(path) == Some(EchoHead(Utf8Len(s)) + s + NotFoundText) by {
      EchoReply(s);
    }
    HandleAnswered(verb + " " + path + " " + version, path);
  }
}
