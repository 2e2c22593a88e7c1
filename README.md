# A Dafny model of the request handling of a small Java web server

The server accepts a socket per client and hands it to a new
`ClientHandler`. The handler does the following:
- It filters the client address against the accepted and rejected
  addresses of the XML configuration.
- It reads the request line and routes its target:
  - `/status` is answered with a page of machine figures;
  - `/` stands for `/index.html`;
  - any other target is a file below the configured root.
- It answers a file according to its MIME type:
  - media files are sent as Base64 text;
  - HTML files are sent after each `<code interpreteur="…">…</code>` block
    has been replaced by the output of the named interpreter;
  - anything else is sent as raw bytes.
- It answers a missing file with a 404 page.
- It counts active connections in an `int` field.

The model is split into these modules:

- `JavaLang` (`java_lang.dfy`): the library behaviour the server relies on,
  stated on Dafny values.
  - `int`/`long` wrap-around.
  - `String.trim`, `split(" ")` and `split("\\s+")`.
  - `Integer.parseInt`, and the decimal printing of integers.
- `Base64` (`base64.dfy`): the encoder of `Base64.getEncoder()`, which is
  section 4 of RFC 4648 with `=` padding. Its decoder is the partner.
  It rejects non-zero pad bits, as section 3.5 of RFC 4648 allows.
  The two are inverse in both directions, so no byte is lost and the
  text is the one canonical encoding.
- `Utf8` (`utf8.dfy`): `getBytes(StandardCharsets.UTF_8)`, following RFC 3629.
- `CodeTemplate` (`code_template.dfy`): the embedded-code engine of
  `sendFileResponse`.
  - A hand-written matcher for the one regular expression
    `<code\s+interpreteur="(.*?)">(.*?)</code>`, with `java.util.regex`
    semantics: lazy groups, `.` stopping at line terminators, and the
    leftmost match attempt.
  - The `find()` loop.
  - `appendReplacement` with its `$n` and `\x` syntax, and `appendTail`.
- `Config` (`config.dfy`): `ConfigLoader` as a class whose `LoadConfig`
  fills the settings map and the two address sets. The parsed XML document
  is a sequence of (tag, text content) elements, and `None` stands for a
  file that does not parse.
- `Status` (`status.dfy`): `MachineStatus.getStatusHtml`. The runtime's
  figures are an input.
- `Handler` (`handler.dfy`): `ClientHandler` as a class with its
  `connectionCount` field and a `Run` method.
  - The socket's request line, the file system, the default-charset
    decoder, the interpreters and the machine figures are inputs.
  - What reaches the client is a sequence of chunks in wire order: text
    through the writer, which is flushed before raw bytes follow, and raw
    bytes.
  - The log lines, the interpreter calls and the way `run` ended are
    outputs.

Each method is proved equal to a specification function. The properties the
code promises are proved as lemmas about those functions.

Two behaviours of the code deserve a note.
- The interpreter output is not inserted literally. The code hands it to
  `Matcher.appendReplacement`, which reads `$n` as a group reference and
  `\x` as an escape, and throws on a malformed reference. So:
  - `CodeTemplate.Expand` spells the expansion out;
  - the throw ends `run` with nothing sent (`Aborted`);
  - the literal insertion is proved for outputs without `$` and `\`.
- A failing `socket.close()` after a refusal skips the decrement at line 50.
  The model keeps that path (`CloseFailed`).

## Model

| member | source | states |
|---|---|---|
| JavaLang.IncDecBalance | Project/src/ClientHandler.java:42-50 | one `++` followed by one `--` on the `int` counter restores it, the wrap-around at both ends of the range included |
| JavaLang.Wrap64 | Project/src/MachineStatus.java:25-28 | the `long` value differs from the exact one by a multiple of 2^64 and equals it when it fits |
| JavaLang.Wrap64Add | Project/src/MachineStatus.java:25-28 | reducing a running sum to a `long` at every step gives the reduced total |
| JavaLang.Trim | Project/src/ConfigLoader.java:58 | `trim()` keeps an infix whose first and last characters are above U+0020, every character removed around it being at or below U+0020 |
| JavaLang.TrimBlank | Project/src/ConfigLoader.java:58 | `trim()` yields the empty string exactly when every character is at or below U+0020 |
| JavaLang.PiecesJoin | Project/src/ClientHandler.java:67 | joining the pieces between separators gives the string back, and no piece holds the separator |
| JavaLang.DropTrailingEmpty | Project/src/ClientHandler.java:67 | `split` drops only trailing empty strings: the result is a prefix ending on a non-empty piece, and what was dropped is empty |
| JavaLang.SplitOnSpaceSpec | Project/src/ClientHandler.java:67 | `split(" ")` returns a string without a space whole; otherwise it returns a prefix of the pieces between spaces, ending on a non-empty piece and dropping only empty pieces, none of them holding a space |
| JavaLang.SplitJoin | Project/src/ClientHandler.java:67 | `split(" ")` gives back space-free fields joined by single spaces when the last field is non-empty |
| JavaLang.WsPiecesNoSpace | Project/src/ConfigLoader.java:58 | the pieces between runs of `\s` hold no `\s` |
| JavaLang.WsPiecesInner | Project/src/ConfigLoader.java:58 | only the first and the last piece can be empty |
| JavaLang.WsPiecesEnds | Project/src/ConfigLoader.java:58 | for a non-empty text, the first piece is empty only when the text starts with `\s`, and the last only when it ends with `\s` |
| JavaLang.WhitespaceSplit | Project/src/ConfigLoader.java:58 | `split("\\s+")` of a text that neither starts nor ends with `\s` gives non-empty tokens free of `\s` that together hold its non-space characters in order |
| JavaLang.WsPiecesJoin | Project/src/ConfigLoader.java:58 | joining the pieces between runs of `\s` with single spaces gives the text with each run squeezed to one space |
| JavaLang.WsPiecesSqueeze | Project/src/ConfigLoader.java:58 | the pieces between runs of `\s` are exactly the pieces between single spaces of the squeezed text: the text is cut at every run and nowhere else |
| JavaLang.WhitespaceSplitSqueeze | Project/src/ConfigLoader.java:58 | `split("\\s+")` of a text not ending with `\s` gives the pieces between single spaces of the squeezed text, and joining its tokens with single spaces gives the squeezed text |
| JavaLang.Tokens | Project/src/ConfigLoader.java:58 | `trim().split("\\s+")` of an element text; its meaning is stated by TokensSpec |
| JavaLang.ParseInt | Project/src/ConfigLoader.java:100 | `Integer.parseInt` on ASCII signs and digits, `None` for the NumberFormatException; its meaning is stated by ParseDecimal and the port lemmas |
| JavaLang.WsPiecesConcat | Project/src/ConfigLoader.java:58 | together the pieces hold exactly the non-`\s` characters, in order |
| JavaLang.TokensSpec | Project/src/ConfigLoader.java:58 | `trim().split("\\s+")` of a blank text is `[""]`; of any other text it is non-empty tokens free of `\s` that together hold its non-space characters in order, and these tokens are the pieces between single spaces once every run of `\s` is squeezed to one space |
| JavaLang.ParseDecimal | Project/src/ConfigLoader.java:100 | `Integer.parseInt` reads back every printed `int` |
| JavaLang.DecimalInjective | Project/src/MachineStatus.java:38-41 | distinct numbers print differently |
| Base64.Encode | Project/src/ClientHandler.java:207-209 | the section 4 encoding of RFC 4648 with `=` padding and zero pad bits; its meaning is stated by DecodeEncode, EncodeDecode and EncodeLength |
| Base64.EncodeLength | Project/src/ClientHandler.java:207-209 | the encoding has 4·⌈n/3⌉ characters for n bytes |
| Base64.DecodeEncode | Project/src/ClientHandler.java:207-209 | decoding the encoding gives back exactly the bytes |
| Base64.EncodeDecode | Project/src/ClientHandler.java:207-209 | every text the canonical decoder accepts (pad bits zero, section 3.5 of RFC 4648) is exactly the encoding of the bytes it decodes to, so the encoding is the only text for its bytes |
| Base64.IndexCharRoundTrip | Project/src/ClientHandler.java:207-209 | the alphabet of section 4 of RFC 4648 is one-to-one and avoids the padding character |
| Utf8.EncodeChar | Project/src/ClientHandler.java:148 | each character takes one to four bytes, one byte exactly for U+0000..U+007F, with UTF-8 lead and continuation byte ranges |
| Utf8.EncodeLength | Project/src/ClientHandler.java:148 | the encoding has between n and 4n bytes; it has exactly n bytes iff the text is ASCII, and then each byte is the character's code |
| CodeTemplate.SpaceRunEnd | Project/src/ClientHandler.java:135 | greedy `\s+` stops at the first non-`\s` character |
| CodeTemplate.LazyUntil | Project/src/ClientHandler.java:135 | a lazy `(.*?)` followed by a literal ends at the first occurrence of the literal, and fails when a line terminator comes first |
| CodeTemplate.MatchAt | Project/src/ClientHandler.java:135 | a reported match starts at the attempted position and matches the pattern, each lazy group ending at the first occurrence of the literal after it |
| CodeTemplate.MatchAtSpec | Project/src/ClientHandler.java:135 | a match attempt succeeds exactly when the pattern matches there, and reports the match that backtracking tries first (shortest first group, then shortest second group) |
| CodeTemplate.Find | Project/src/ClientHandler.java:139 | `find()` reports the match at the leftmost position where an attempt succeeds, and none when no attempt succeeds |
| CodeTemplate.Blocks | Project/src/ClientHandler.java:139-145 | successive `find()` calls report, in text order and without overlap, each the match the regex engine reports at its start, so each block ends at the first `</code>` after its `">` |
| CodeTemplate.BlocksLeftmost | Project/src/ClientHandler.java:139-145 | no match attempt succeeds in the text before, between or after the reported matches |
| CodeTemplate.ReadGroupRef | Project/src/ClientHandler.java:144 | a `$` reference passes over digits only, and stops at the first character that is not a digit or would push the number past the group count (`$12` is group 1 then `2`) |
| CodeTemplate.ReadGroupRefValue | Project/src/ClientHandler.java:144 | the group number read is the first digit extended by the decimal value of the digits passed over |
| CodeTemplate.Expand | Project/src/ClientHandler.java:144 | `appendReplacement`'s reading of the replacement; its meaning is stated by ExpandPlain, ExpandQuote and ExpandMissingGroup |
| CodeTemplate.ExpandPlain | Project/src/ClientHandler.java:144 | a replacement without `$` or `\` is inserted unchanged |
| CodeTemplate.ExpandQuote | Project/src/ClientHandler.java:144 | a replacement quoted with a backslash before every `\` and `$` is inserted literally |
| CodeTemplate.ExpandMissingGroup | Project/src/ClientHandler.java:144 | a reference to group 3 to 9 throws, since the pattern has two groups |
| CodeTemplate.Groups | Project/src/ClientHandler.java:140-141 | the three groups (whole match, interpreter, code) of a match |
| CodeTemplate.SubstituteHtml | Project/src/ClientHandler.java:135-146 | the `while (matcher.find())` loop with `appendReplacement` and `appendTail` produces the substitution `SubstituteFrom` defines, or the calls made before `appendReplacement` threw |
| CodeTemplate.NoBlockUnchanged | Project/src/ClientHandler.java:139-146 | a document without a match is returned unchanged and no interpreter runs |
| CodeTemplate.SpliceIdentity | Project/src/ClientHandler.java:144-146 | splicing each block's own text back in gives the document, so the splice keeps all text outside the blocks in order |
| CodeTemplate.CallsOf | Project/src/ClientHandler.java:140-143 | one interpreter call per block |
| CodeTemplate.Outputs | Project/src/ClientHandler.java:143 | one interpreter output per block |
| CodeTemplate.SubstituteSplices | Project/src/ClientHandler.java:139-146 | when outputs hold neither `$` nor `\`, the result is the document with each block replaced by its output and everything else kept, with one call per block in order |
| CodeTemplate.SubstituteCallsAll | Project/src/ClientHandler.java:139-145 | a completed loop called the interpreter once per block, in text order |
| CodeTemplate.SubstituteCallsThrew | Project/src/ClientHandler.java:139-145 | a loop cut short by `appendReplacement` made the calls of the first blocks, the failing one included, in order |
| Config.Texts | Project/src/ConfigLoader.java:86-88 | `getElementsByTagName` yields exactly the texts of the elements carrying the tag |
| Config.TagValue | Project/src/ConfigLoader.java:85-92 | `getTagValue`; its meaning is stated by TagValueFirst and TagValueDefault |
| Config.TagValueFirst | Project/src/ConfigLoader.java:85-92 | `getTagValue` is the text of the first element with the tag in document order |
| Config.TagValueDefault | Project/src/ConfigLoader.java:85-92 | `getTagValue` is the default when no element carries the tag |
| Config.Settings | Project/src/ConfigLoader.java:50-53 | exactly the keys port, root, accesslog and errorlog are stored |
| Config.DefaultPortIs80 | Project/src/ConfigLoader.java:50 | the default port text parses as 80 |
| Config.PortDefault | Project/src/ConfigLoader.java:99-101 | without a port element, `getPort` is 80 |
| Config.PortPrinted | Project/src/ConfigLoader.java:99-101 | a first port element holding a printed `int` gives that number back |
| Config.PortNotTrimmed | Project/src/ConfigLoader.java:99-101 | the port text is not trimmed: a leading space makes `getPort` throw |
| Config.ConfigLoader.GetPort | Project/src/ConfigLoader.java:99-101 | `getPort`; its value is stated by the constructor and by PortDefault, PortPrinted and PortNotTrimmed |
| Config.AddressesOfSpec | Project/src/ConfigLoader.java:57-61 | an address is in the union exactly when one of the texts lists it |
| Config.AddressesSpec | Project/src/ConfigLoader.java:56-71 | an address is in a set exactly when some element with that tag lists it among the tokens of its trimmed text |
| Config.AddressShape | Project/src/ConfigLoader.java:58-61 | every address is a run of non-space characters or the empty string, and the empty string comes only from a blank element |
| Config.BlankAddsEmpty | Project/src/ConfigLoader.java:58-61 | a blank element adds the empty string to the set |
| Config.AddressesOrderFree | Project/src/ConfigLoader.java:56-71 | the sets depend only on which texts carry the tag, not on element order or repetition |
| Config.ConfigLoader.constructor | Project/src/ConfigLoader.java:29-34 | a loaded document gives its settings and address sets; a document that does not parse leaves everything empty, so the root directory is null and the port cannot be parsed |
| Config.ConfigLoader.LoadConfig | Project/src/ConfigLoader.java:41-75 | the four settings overwrite earlier values and every listed address is added to its set; a parse failure changes nothing |
| Config.ConfigLoader.AddAccepted | Project/src/ConfigLoader.java:56-62 | the outer loop adds exactly the tokens of every accept text, leaving the settings and the rejected set alone |
| Config.ConfigLoader.AcceptEach | Project/src/ConfigLoader.java:59-61 | the inner loop adds each token of one accept text and touches nothing else |
| Config.ConfigLoader.AddRejected | Project/src/ConfigLoader.java:65-71 | the outer loop adds exactly the tokens of every reject text, leaving the settings and the accepted set alone |
| Config.ConfigLoader.RejectEach | Project/src/ConfigLoader.java:68-70 | the inner loop adds each token of one reject text and touches nothing else |
| Status.FreeSpaceTotal | Project/src/MachineStatus.java:24-28 | the accumulated free space is the total reduced to a `long`, and the total itself when it fits |
| Status.GetStatusHtml | Project/src/MachineStatus.java:18-45 | the loop and the appends produce the fixed page: head, heading, memory, disk, processor and connection paragraphs, tail |
| Status.TrailingNumber | Project/src/MachineStatus.java:41 | the longest run of digits and minus signs ending the text |
| Status.ConnectionCountRoundTrip | Project/src/MachineStatus.java:41 | the number closing the page's last paragraph is the connection count it was given, whatever the machine figures |
| Status.StatusPageInjective | Project/src/MachineStatus.java:41 | pages for different counts differ |
| Handler.IsAccepted | Project/src/ClientHandler.java:190-199 | `isAccepted`; its meaning is stated by AcceptanceRules |
| Handler.AcceptanceRules | Project/src/ClientHandler.java:190-199 | a rejected address is refused whatever the accept set holds; otherwise an address is accepted exactly when the accept set is empty or holds it; adding accepted addresses to a non-empty accept set never shuts out one already let in (an empty set lets everyone in, so its first address shuts out the rest) |
| Handler.BlankAcceptRestricts | Project/src/ClientHandler.java:195 | a blank accept element makes the accept set non-empty, so only listed addresses get in |
| Handler.EncodeFileBase64 | Project/src/ClientHandler.java:207-209 | the text decodes back to the file and has 4·⌈n/3⌉ characters |
| Handler.NotMedia | Project/src/ClientHandler.java:126 | neither the fallback type nor `text/html` starts with image, video or audio |
| Handler.ClientHandler.constructor | Project/src/ClientHandler.java:24-33 | a new handler's counter is 0 |
| Handler.ClientHandler.SendStatusResponse | Project/src/ClientHandler.java:175-182 | the status line, `Content-Type: text/html`, the blank line, then the status page for the current counter |
| Handler.ClientHandler.SendErrorResponse | Project/src/ClientHandler.java:219-225 | the status line with code and message, `Content-Type: text/html`, the blank line and the HTML body |
| Handler.ClientHandler.SendFileResponse | Project/src/ClientHandler.java:118-167 | the chunks and calls of `FileResponse`, the function that defines the three MIME branches |
| Handler.ClientHandler.ServeRequest | Project/src/ClientHandler.java:54-99 | reading, routing and answering the request give what `HandleRequest` specifies |
| Handler.ClientHandler.RouteRequest | Project/src/ClientHandler.java:74-92 | a well-formed request gets the status page for `/status`, otherwise the file under the root (`/` meaning `/index.html`), a read error in the log, or the 404 page, as `Route` specifies |
| Handler.ClientHandler.Run | Project/src/ClientHandler.java:41-107 | what is sent, logged and run is `Handle` at the incremented counter; the counter is back to its old value on every exit except a failing close after a refusal, which leaves it incremented |
| Handler.ServeConnection | Project/src/HttpServer.java:33 | a new handler serves the request with the counter at 1 and ends at 0, or at 1 after a failing close |
| Handler.RefusedGetsNothing | Project/src/ClientHandler.java:46-52 | a refused client is sent nothing and runs nothing; the refusal is logged first, and the exit is CloseFailed exactly when closing failed |
| Handler.EmptyRequest | Project/src/ClientHandler.java:58-63 | a null or empty request line logs one error and sends nothing |
| Handler.ShortLine | Project/src/ClientHandler.java:67-72 | a line that `split(" ")` cuts into fewer than two parts is logged as received and as invalid, and nothing is sent |
| Handler.FewerThanTwoParts | Project/src/ClientHandler.java:67-68 | a word without a space, alone or followed by one space, splits into fewer than two parts |
| Handler.TargetIsSecondField | Project/src/ClientHandler.java:67-74 | for `method target version` the target is the second part |
| Handler.TargetDecides | Project/src/ClientHandler.java:64-92 | a well-formed line is logged, then answered according to its second part alone |
| Handler.SlashIsIndex | Project/src/ClientHandler.java:78-80 | `/` is served exactly like `/index.html` |
| Handler.StatusIgnoresFiles | Project/src/ClientHandler.java:75-76 | `/status` is answered with the status page whatever the file system holds, and the page reports the counter |
| Handler.StatusReportsOne | Project/src/ClientHandler.java:42-76 | on a new handler, an accepted `/status` request is answered with a page reporting one connection |
| Handler.OnlyResolvedPathConsulted | Project/src/ClientHandler.java:82-85 | only the root directory followed by the target is looked up, with no normalisation |
| Handler.NotFoundResponse | Project/src/ClientHandler.java:219-225 | the 404 answer is `HTTP/1.1 404 Not Found`, `Content-Type: text/html`, the blank line and `<html><body><h1>404 Not Found</h1></body></html>`, with no Content-Length |
| Handler.MissingFileIsNotFound | Project/src/ClientHandler.java:85-91 | a missing file or a directory gets the 404 answer and the log line with the full path |
| Handler.FileResponseShape | Project/src/ClientHandler.java:118-164 | every file answer is the status line, the probed or fallback type, a Content-Length equal to the body's size, the blank line and the body |
| Handler.MediaResponse | Project/src/ClientHandler.java:126-133 | media files are sent as Base64 text that decodes to the file, with Content-Length 4·⌈n/3⌉, and no interpreter runs |
| Handler.OtherTypeIsRaw | Project/src/ClientHandler.java:156-163 | a file whose type is neither media nor `text/html` is sent under that type as its own bytes, with its byte count as Content-Length, and no interpreter runs |
| Handler.UnknownTypeIsRaw | Project/src/ClientHandler.java:119-164 | a file without a probed type is sent as `application/octet-stream`, byte for byte, with its byte count as Content-Length |
| Handler.HtmlResponse | Project/src/ClientHandler.java:134-155 | an HTML file whose interpreter outputs hold neither `$` nor `\` is sent as the UTF-8 bytes of the document with each block replaced by its output, the headers before the body, and the Content-Length equal to the byte count |
| Handler.StaticHtmlUnchanged | Project/src/ClientHandler.java:134-155 | an ASCII HTML file without blocks is sent byte for byte and runs nothing |
| Handler.HtmlThrowSendsNothing | Project/src/ClientHandler.java:134-146 | when `appendReplacement` throws, nothing is sent and the calls made are those of the first blocks, in order |

## Left out

- Sockets, threads and the accept loop of `HttpServer` are not modelled. One `Run` call on a new handler stands for one connection. The request line, a failed read and a failed `socket.close()` are inputs.
- Concurrency is not modelled: the counter is per instance and no two threads share a handler.
- `DynamicCodeExecutor.execute` is the parameter `execute`, left uninterpreted, because it spawns a process. Being a function, it is also deterministic: the same interpreter and code always give the same output, which a real process need not do.
- The log files are not modelled: timestamps, file appends and failures to write a log are left out. Logging is a sequence of access and error entries in the order they are emitted.
- `Files.probeContentType`, `File.exists`, `File.isDirectory` and `Files.readAllBytes` are the input `fs`. Its `Unreadable` case stands for the IOException that the type probe or the read throws.
- XML parsing is not modelled. A parsed document is its elements in document order, each with its tag name and `getTextContent()`.
- The message printed when a configuration fails to load is left out.
- `Runtime.freeMemory`, `File.listRoots`/`getFreeSpace` and `getAvailableProcessors` are the input `Machine`.
- `new String(fileData)` with the platform's default charset is the parameter `decode`. The charset the writer uses for the text chunks is not modelled: text is kept as characters.
- A failure while writing the response (an IOException from the writer or the stream) is not modelled. Neither is what the client then received.
- Java bytes are modelled by their unsigned value (the same bits).
- Arrays and strings longer than the `int` range are not modelled.
- Strings are modelled as sequences of Unicode scalar values. Unpaired surrogates are not modelled.
- JavaLang.ParseInt: accepts only the ASCII digits `0`-`9`. `Integer.parseInt` reads digits through `Character.digit`, which also accepts the other Unicode decimal digits (a port written `٨٠` is 80 in Java and a NumberFormatException here).
- Config.ConfigLoader.GetAccessLog: has no contract. Its value is stated by the constructor and LoadConfig through `Settings`.
- Config.ConfigLoader.GetErrorLog: has no contract. Its value is stated by the constructor and LoadConfig through `Settings`.
- Config.ConfigLoader.GetAccept: has no contract. Its value is stated by the constructor and LoadConfig through `Addresses`.
- Config.ConfigLoader.GetReject: has no contract. Its value is stated by the constructor and LoadConfig through `Addresses`.
