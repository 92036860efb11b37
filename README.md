# A verified model of a minimal HTTP/1.1 server's text handling

The server reads one request per connection. It takes the path from the
request line (`parse_path`) and picks one of three fixed replies
(`handle_request`). Replies are written through a `Server` object
(`src/server.rs`). That object owns the two ends of the connection:

- `read_line` returns the next line of the request;
- `read_all` collects the recognised request headers;
- `with` writes one rendered `ResponseHeader`;
- `send` ends the header block and writes the body.

`handle_request` never calls `read_all`: on the path a request actually
takes, only the request line is read and the request headers stay unread.
`read_all` is modelled as the `Server` operation it is.

The model has four modules:

- `Text` holds the string operations the Rust standard library supplies and
  the code relies on:
  - `split` on a string pattern, `trim` and `str::len` (the UTF-8 byte
    length);
  - `BufRead::read_line`;
  - decimal formatting of integers.

  Each comes with the facts the rest of the proof needs. Examples are the
  join/split round trip, the shape of trimming, the decimal round trip and
  byte-length framing.
- `Http` holds:
  - the request-header vocabulary and `RequestHeader::from_str`;
  - the response-header vocabulary and its `Display` text (`Render`), with
    an inverse `ParseRendered`;
  - the header map that `read_all` builds, as a left fold over the header
    lines (`HeaderMap`);
  - `class Server`, whose fields are the unread request text (`input`) and
    everything written so far (`output`).
- `Handler` holds:
  - `parse_path` (`ParsePath`);
  - the routing decision (`Reply`, `Handle`);
  - `HandleRequest`, which drives a `Server` exactly as `handle_request`
    does.
- `Wire` is a client-side reader of responses. It reads a status line,
  field lines up to the blank line, then as many body bytes as
  Content-Length says. The lemmas relate the server's output to what this
  reader takes from it. They show that:
  - the reply to `/echo/<s>` reads as a 200 response with body exactly `s`,
    then a complete bare 404 response;
  - the reply to `/` reads as one bare 200;
  - every path that is neither `/` nor starts with `/echo` reads as one
    bare 404.

  Other `/echo<c><s>` paths, with a one-byte sixth character `c`, get the
  same reply as `/echo/<s>` (`EchoAnySixth`). `/echo` paths shorter than six
  characters, or whose sixth character takes more than one byte, panic and
  get no reply (`EchoPanics`).

Behaviour follows the code, including where it differs from the behaviour
the project describes for itself:

- The `/echo` branch has no `else`. The 404 response is written after the
  echo response, so the connection carries two responses.
- Codes 200–299 all render with the reason `OK`, 201 included. No
  `Created` line exists.
- The request method token is never examined.
- `read_all` recognises only `Host`, `User-Agent` and `Accept`. It never
  reads a body.
- There are no `/user-agent` or `/files` routes.

## Model

| member | source | states |
|---|---|---|
| Text.NextLine | src/server.rs:34-38 | `read_line` returns a prefix of the input. The prefix is non-empty unless the input is exhausted. It holds no `'\n'` except possibly its last character. Anything left after it means it ended in `'\n'`. |
| Text.NextLineOf | src/server.rs:34-38 | A line ending in its only `'\n'` comes off the front of any input unchanged, and the rest is left unread. |
| Text.IndexOf | src/server.rs:45 | Finds the first occurrence of the separator: it occurs at the returned position and nowhere before it. None means it occurs nowhere. |
| Text.Split | src/server.rs:45 | There is at least one piece. When there are two or more, the first piece is the text before the leftmost occurrence of the separator. |
| Text.SplitJoin | src/server.rs:45 | `split` loses nothing: joining the pieces with the separator gives back the line. There are two or more pieces exactly when the separator occurs. No piece contains the separator. |
| Text.SplitAfter | src/main.rs:49 | When the separator's first character is not in `a`, splitting `a + sep + b` gives `a` followed by the pieces of `b`. |
| Text.IndexOfChar | src/main.rs:49 | A one-character separator occurs exactly when the character is in the text. |
| Text.SplitWithout | src/main.rs:49 | Text without the separator splits into itself alone. |
| Text.Trim | src/server.rs:48 | The trimmed value starts and ends with a non-whitespace character, or is empty. |
| Text.TrimStartShape | src/server.rs:48 | Trimming the start drops a whitespace-only prefix. What remains is a suffix of the input that does not start with whitespace. |
| Text.TrimEndShape | src/server.rs:48 | Trimming the end drops a whitespace-only suffix. What remains is a prefix of the input that does not end with whitespace. |
| Text.TrimAround | src/server.rs:48 | Trimming whitespace + core + whitespace, with the core already trimmed, gives exactly the core. |
| Text.TrimTrimmed | src/server.rs:48 | Trimming leaves an already trimmed value unchanged. |
| Text.NatToDecimal | src/main.rs:39 | The decimal text of a length is canonical: digits only, and no leading zero unless the number is 0. |
| Text.IntToDecimal | src/server.rs:93-99 | The `{}` text of an integer is non-empty and starts with `-` exactly when the integer is negative. |
| Text.NatDecimalRoundTrip | src/main.rs:39 | Decimal text reads back as the same number. The only text that reads back as `n` is the decimal text of `n`. |
| Text.IntDecimalRoundTrip | src/server.rs:93-99 | The `{}` text of an integer (a minus sign for negatives) reads back as the same integer. Reading it back as `i` implies it is the text of `i`. |
| Text.CharUtf8Len | src/main.rs:39 | A character takes 1 to 4 bytes, and exactly 1 when it is ASCII. |
| Text.Utf8Len | src/main.rs:39 | `value.len()` lies between the character count and four times the character count. |
| Text.Utf8LenAscii | src/main.rs:39 | `value.len()` equals the character count exactly when every character is ASCII. |
| Text.Utf8LenConcat | src/main.rs:39 | Byte length adds up over concatenation. |
| Text.TakeBytes | src/main.rs:39-40 | Taking `n` bytes splits the text into two parts that concatenate back to it, and the first part is `n` bytes long. |
| Text.TakeBytesFrames | src/main.rs:39-40 | Taking `value.len()` bytes from `value + rest` yields exactly `value` and `rest`. |
| Http.RequestHeaderFromStr | src/server.rs:68-76 | `from_str` succeeds only on the header's own name, and fails exactly when the text is none of the three names. |
| Http.HeaderNameRoundTrip | src/server.rs:70-73 | Each recognised header's name parses back to that header. |
| Http.Render | src/server.rs:87-101 | A header's text is empty exactly when it is a status whose code is outside 200–299 and 400–499. `RenderRoundTrip` and `ParseRenderedSound` give the line every other header renders to. |
| Http.RenderRoundTrip | src/server.rs:87-101 | A header renders to nothing exactly when it is a status outside 200–299 and 400–499. Every other header renders to a line that parses back to the same header. |
| Http.StatusRoundTrip | src/server.rs:91-96 | A status line for 200–299 or 400–499 parses back to its code. |
| Http.TypeRoundTrip | src/server.rs:98 | A Content-Type line parses back to its content type. |
| Http.LengthRoundTrip | src/server.rs:99 | A Content-Length line parses back to its length. |
| Http.ParseRenderedSound | src/server.rs:87-101 | Every line the inverse accepts is exactly the rendering of the header it returns. |
| Http.StatusLineText | src/server.rs:92-95 | A code with a status line has three digits. Its line is `HTTP/1.1 <code> OK` below 300 and `HTTP/1.1 <code> Not Found` otherwise: 17 or 24 characters. |
| Http.OkStatusLine | src/server.rs:93 | Status 200 renders `HTTP/1.1 200 OK\r\n`. |
| Http.NotFoundStatusLine | src/server.rs:94 | Status 404 renders `HTTP/1.1 404 Not Found\r\n`. |
| Http.StatusExamples | src/server.rs:93-95 | 201 renders `HTTP/1.1 201 OK\r\n`, and 500 renders nothing. |
| Http.LineHeader | src/server.rs:45-48 | A line contributes a header only when the text before its first `": "` is that header's exact name. The value it contributes is trimmed. |
| Http.LineHeaderOf | src/server.rs:45-48 | A line whose text before its first `": "` is a recognised name always contributes that header. The value is the trimmed text after that separator, up to the next `": "` or the end of the line. |
| Http.ApplyLine | src/server.rs:46-49 | One turn of the loop never removes a header. A line naming a header sets that header to the line's value, overwriting any earlier one. |
| Http.HeaderMap | src/server.rs:42-52 | Every value in the map built from the header lines is trimmed. |
| Http.HeaderMapStep | src/server.rs:42-52 | Reading one more header line applies that line to the map built so far. |
| Http.HeaderMapKeys | src/server.rs:45-49 | A header is in the map exactly when some header line names it. |
| Http.HeaderMapLastWins | src/server.rs:48 | A header's value in the map is the trimmed value from the last line naming it. Later lines overwrite earlier ones. |
| Http.ApplyLineOther | src/server.rs:46-49 | A line that does not name a header leaves that header's presence and value unchanged. |
| Http.HeaderLine | src/server.rs:45-48 | A line `Name: value\r\n` for a recognised name contributes exactly that header and value, when the value is trimmed and holds no `": "`. The line end is trimmed away. |
| Http.HeaderLineSecondToken | src/server.rs:45-48 | Only the text between the first and second `": "` is kept, trimmed. Anything after a second separator is dropped. |
| Http.HeaderBlock | src/server.rs:42-44 | The header block is the lines before the first bare `"\r\n"` line: those lines, the terminator and the rest put back together give the input. Each line is a complete `read_line` line, ending in its only `'\n'`, and none of them is `"\r\n"`. |
| Http.HeaderBlockOf | src/server.rs:42-44 | Complete lines other than `"\r\n"`, then `"\r\n"`, then any rest, read back as exactly those lines and that rest. So the block ends at the first bare `"\r\n"` line and nowhere else. |
| Http.HeaderBlockStep | src/server.rs:43-44 | Reading the terminator ends the block. Reading any other line adds it to the block. |
| Http.ConsumeLine | src/server.rs:42-52 | One turn of the header loop either completes the block or extends it by one line, and the map by that line. |
| Http.Server.constructor | src/server.rs:13-18 | A new server has the whole request unread and has written nothing. |
| Http.Server.With | src/server.rs:20-23 | Appends the header's rendering to the output and returns the same server. |
| Http.Server.Send | src/server.rs:25-32 | Appends `"\r\n"` and then the body, if there is one. |
| Http.Server.ReadLine | src/server.rs:34-38 | Returns the next line and leaves the rest of the input unread. |
| Http.Server.ReadAll | src/server.rs:40-55 | Consumes the header block and its terminator, the first bare `"\r\n"` line. The returned map is the fold of the block's lines, and the body is empty. |
| Handler.ParsePath | src/main.rs:48-55 | A path returned by `parse_path` never holds a space. |
| Handler.ParsePathSucceeds | src/main.rs:48-55 | `parse_path` succeeds exactly when the request line holds a space. The path never holds one. |
| Handler.ParsePathToken | src/main.rs:49-51 | For `verb path` and `verb path rest`, with no space in verb or path, the path returned is `path`, whatever the verb. |
| Handler.Reply | src/main.rs:32-44 | Only an `/echo` path can panic, and an answered path always gets some text. `RootReply`, `EchoReply`, `EchoAnySixth` and `NotFoundReply` give the exact text per route. |
| Handler.Handle | src/main.rs:28-46 | The request line is rejected exactly when it holds no space. A panic happens only on an `/echo` path. Text is written exactly when the request is answered. |
| Handler.HandleRequest | src/main.rs:28-46 | Reads exactly one line. The outcome (responded, bad request line, panicked) and the text appended to the output are those `Handle` assigns to that line. |
| Handler.Route | src/main.rs:32-44 | The path's reply is appended when there is one. When the `/echo` slice panics, nothing is written. |
| Handler.RootReply | src/main.rs:33 | `/` gets exactly `HTTP/1.1 200 OK\r\n\r\n`. |
| Handler.NotFoundReply | src/main.rs:42 | A path that is neither `/` nor starts with `/echo` gets exactly `HTTP/1.1 404 Not Found\r\n\r\n`. |
| Handler.EchoReply | src/main.rs:35-42 | `/echo/<s>` gets status 200, Content-Type `text/plain`, Content-Length equal to the byte length of `s`, then body `s`, then the full 404 response. |
| Handler.EchoAnySixth | src/main.rs:35-36 | The slice skips six characters whatever the sixth one is, when it is a single byte: `/echo<c><s>` is answered exactly like `/echo/<s>`, echoing `<s>` and then the bare 404. |
| Handler.EchoPanics | src/main.rs:36 | The handler panics exactly on `/echo` paths shorter than six characters or whose sixth character is not one byte. |
| Handler.NonRootEndsWithNotFound | src/main.rs:34-43 | Every reply other than the root's ends with the bare 404 response. |
| Handler.HandleEchoLine | src/main.rs:30-42 | A full request line `verb /echo/<s> version` yields the echo response followed by the 404 response. |
| Wire.StatusLineRead | src/server.rs:93-94 | A rendered status line comes off the front of the text and reads back as its code and reason. |
| Wire.FieldLineRead | src/server.rs:98-99 | A rendered header line reads back as its name and value. |
| Wire.FieldsRead | src/server.rs:98-99 | Any sequence of rendered header lines plus the blank line reads back as those fields, with the rest left over. |
| Wire.RootRead | src/main.rs:33 | The root response reads as status 200 `OK`, no fields and no body. |
| Wire.NotFoundRead | src/main.rs:42 | The 404 response reads as status 404 `Not Found`, no fields and no body. What follows is untouched. |
| Wire.EchoRead | src/main.rs:37-40 | The echo response reads as status 200 with its two fields and body exactly `s`. Content-Length frames the body, and what follows is left for the next read. |
| Wire.EchoReplyIsTwoResponses | src/main.rs:35-42 | The reply to `/echo/<s>` reads as the echo of `s`, followed by a complete 404 response, and then nothing. |
| Wire.RootReplyRead | src/main.rs:33 | The reply to `/` reads as one bare 200 and nothing after it. |
| Wire.NotFoundReplyRead | src/main.rs:42 | The reply to any other non-echo path reads as one bare 404 and nothing after it. |

## Left out

- `main` (src/main.rs:7-26) is left out:
  - the TCP listener and accept loop;
  - the log lines it prints;
  - the `expect` that stops the whole process when one request fails or panics.

  `HandleRequest` reports each request's `Outcome` instead.
- `Server::new`'s stream cloning and the `BufReader`/`BufWriter` layers are
  not modelled. The request is a string and the response is the text
  written. `flush` is not modelled.
- Read and write I/O errors are left out (the `?` and `expect` on each
  write, the `Err` of `read_line`). Without them neither a write nor a read ever
  fails. At the end of the text a read returns an empty line, as
  `read_line` returns `Ok("")` at end of input.
- Http.Server.ReadAll: requires a bare `"\r\n"` line in the remaining input.
  At end of input without one, `read_line` keeps returning an empty line
  and the source loops forever. The same happens for repeated read errors,
  which the source skips. The model does not include that non-terminating
  case.
- Text.NextLine: works on characters. The UTF-8 validation `read_line`
  performs on bytes is left out, so input is assumed to be valid UTF-8.
- Http.Server.With, Handler.Reply: `ResponseHeader` carries mathematical
  integers. The `value.len() as i32` cast in src/main.rs:39 would wrap
  for bodies of 2^31 bytes or more, and that wrap-around is not modelled.
- Text.Split: models `str::split` only for a non-empty string separator,
  which is the only kind the code uses (`" "` and `": "`).
- Handler.HandleRequest: a panic is an `Outcome` value (`Panicked`).
  Unwinding is not modelled. Whatever was written before the panic stays
  as written, which for the `/echo` slice is nothing.

Behaviour the project describes for itself but the code does not have is
not modelled, because the code does not contain it:

- the `Created` reason for 201;
- checking the method token;
- a `Content-Length` request header and reading a request body;
- the `/user-agent` and `/files` routes.
