# Remote shell: command grammar and line framing

A Dafny model of the two pieces of pure logic in a small client/server
remote shell written in Rust:

- the server's **command grammar**: `Command::parse` splits a request line
  on whitespace, picks `Echo`, `Ls`, `Cd`, `Cat` or `Exit` by the first word
  and reports anything else as a `BadCommandError` with a fixed message;
- the **line framing** of the CRLF library and its copy in the client
  (`read_crlf_line` scans the bytes the stream has buffered for the first
  CR LF; `write_crlf_line` sends payload, CR LF and flushes), and the
  server's `write_line`, which frames with a bare LF instead.

Files:

| file | module | models |
|---|---|---|
| `results.dfy` | `Results` | Rust's `Result` |
| `whitespace.dfy` | `Whitespace` | `str::split_whitespace` and itertools' `join(" ")` |
| `commands.dfy` | `Commands` | `server/src/command.rs` |
| `bufstream.dfy` | `BufStream` | the write/flush side of a `BufStream` |
| `crlf.dfy` | `Crlf` | `crlf/src/lib.rs` |
| `client_crlf.dfy` | `ClientCrlf` | `client/src/crlf.rs` |
| `writeline.dfy` | `ServerWriteLine` | `server/src/writeline.rs` |

Modelling choices:

- Whitespace is Rust's `char::is_whitespace`, the Unicode White_Space
  characters, written out as a set of code points.
- Bytes are `bv8`. A Rust `String` is a sequence of UTF-8 bytes, so the
  caller's string that `read_crlf_line` appends to is a byte sequence, and
  "is valid UTF-8" is a parameter `valid` of the read functions. Nothing
  about UTF-8 itself is modelled.
- `fill_buf` is replaced by its result: the read functions take the
  buffered bytes `fill` and return, besides the count and the extended
  string, the bytes `consume` leaves for the next read.
- A stream is the bytes delivered to the transport plus the bytes written
  but not yet flushed. Whether the transport fails, and at which step
  (payload write, terminator write, flush), is a parameter of the writers.
- The client's `crlf.rs` is a copy of the library. The model reuses the
  library's scan and writer for it, and the client read is the library
  read with the error unwrapped: invalid UTF-8 becomes a precondition.

The grammar checks no arity: extra words after `ls`, `exit`, `cd <dir>`
and `cat <file>` are dropped, and `expected_arguments` is declared but never consulted. The
model follows the code; `Commands.ParseLsIgnoresArity` and
`Commands.ParseCdIgnoresArity` pin the difference down.

The read keeps the source's best-effort framing: a terminator whose CR
ends one fill and whose LF starts the next is not recognised, so the CR
stays with the first line and the LF starts the next one
(`Crlf.SplitTerminatorExample`). This follows from the end-of-buffer rule
commented at crlf/src/lib.rs:23-24; the model keeps it rather than correcting it.

## Model

| member | source | states |
|---|---|---|
| `Whitespace.Split` | server/src/command.rs:36 | every word `split_whitespace` yields is non-empty and free of whitespace |
| `Whitespace.SplitEmptyIff` | server/src/command.rs:36-37 | a line yields no first word exactly when it is all whitespace |
| `Whitespace.SplitAround` | server/src/command.rs:36 | a non-empty whitespace run separates words: the words of `a + w + b` are those of `a` followed by those of `b` |
| `Whitespace.SplitJoin` | server/src/command.rs:36-40 | splitting words re-joined with single spaces gives back the same words |
| `Whitespace.IsWhitespaceCodePoints` | server/src/command.rs:36 | the characters `split_whitespace` splits on are exactly the 25 Unicode White_Space code points |
| `Whitespace.JoinShape` | server/src/command.rs:40 | joining words with `" "` gives a text that starts with the first word, has a single space after it when more words follow, is empty only for no words, and neither starts nor ends with whitespace |
| `Commands.Parse` | server/src/command.rs:35-71 | "Missing command" is returned exactly for blank lines; every command parse returns is well formed (path arguments are single words, the echo message is single-spaced words) |
| `Commands.MessagesDiffer` | server/src/command.rs:35-71 | a non-empty word list never yields the "Missing command" error |
| `Commands.ParseEcho` | server/src/command.rs:39-41 | `echo` never fails; it is chosen exactly when the first word is `echo`; the message is the other words joined by single spaces and splits back into them |
| `Commands.ParseCd` | server/src/command.rs:45-51 | `cd` yields `Cd` of the first argument exactly when an argument follows (later words ignored), and "Missing argument to cd" exactly for a lone `cd` |
| `Commands.ParseCat` | server/src/command.rs:52-58 | `cat` yields `Cat` of the first argument exactly when an argument follows, and "Missing argument to cat" exactly for a lone `cat` |
| `Commands.ParseLsExit` | server/src/command.rs:42-61 | `ls` and `exit` succeed exactly when they are the first word, whatever follows |
| `Commands.ParseUnknown` | server/src/command.rs:62-64 | a first word that is not one of the five keywords, compared exactly and case-sensitively, gives "Unknown command <word>", and only such a word does |
| `Commands.ParseCollapsesWhitespace` | server/src/command.rs:36 | any non-empty whitespace run between words parses like a single space |
| `Commands.ParseTrimsWhitespace` | server/src/command.rs:36 | leading and trailing whitespace do not change the result |
| `Commands.ParseRender` | server/src/command.rs:35-71 | every well-formed command is parsed back from its canonical line (keyword and arguments single-spaced) |
| `Commands.ParseReadsPrefix` | server/src/command.rs:35-71 | a successful parse uses a prefix of the line's words and ignores the rest; the canonical line of the result parses to the same result |
| `Commands.ExpectedArgumentsOf` | server/src/command.rs:73-81 | total: `Echo` takes any number of words, `Ls` and `Exit` none, `Cd` and `Cat` exactly one, matching the arguments each command carries |
| `Commands.ParseLsIgnoresArity` | server/src/command.rs:42-81 | `ls x` parses as `Ls` although `ls` declares no arguments |
| `Commands.ParseCdIgnoresArity` | server/src/command.rs:45-81 | `cd a b` parses as `Cd("a")` although `cd` declares exactly one argument |
| `Commands.ParseEchoExample` | server/src/command.rs:89-94 | the test `parses_echo`: `echo some sample text` gives `Echo("some sample text")` |
| `Commands.ParseCdExample` | server/src/command.rs:97-102 | the test `parses_cd`: `cd dir` gives `Cd("dir")` |
| `Commands.ParseCaseSensitiveExample` | server/src/command.rs:38-63 | `ECHO hi` is an unknown command: keywords are case-sensitive |
| `Crlf.LineEnd` | crlf/src/lib.rs:21-31 | the line ends at the first CR LF, or at the end of the buffer when there is none; no terminator starts before it |
| `Crlf.LineEndUnique` | crlf/src/lib.rs:21-31 | the first-terminator position is determined uniquely by those properties |
| `Crlf.ScanCrlf` | crlf/src/lib.rs:21-31 | the short-circuit loop reads only in-bounds bytes and stops exactly at the line end, a trailing lone CR included in the line |
| `Crlf.ReadCrlfLine` | crlf/src/lib.rs:14-42 | empty buffer: count 0, nothing changes; otherwise the old string stays a prefix, the appended bytes are the buffer's bytes before the first CR LF and contain none; count is payload + 2 when a terminator was found, else the whole buffer; count never exceeds the buffer; invalid UTF-8 is an error that appends nothing |
| `Crlf.ReadCrlfLineSteps` | crlf/src/lib.rs:14-42 | the source's sequence of steps (early return, scan, UTF-8 check, append, `+= 2`, consume) computes that result |
| `Crlf.WriteCrlfLine` | crlf/src/lib.rs:50-55 | succeeds exactly when no I/O step fails; then the transport has received the old bytes, the payload and CR LF, and nothing stays buffered |
| `Crlf.LineEndOfFramed` | crlf/src/lib.rs:21-31 | in a payload without CR LF followed by CR LF, the scan stops right after the payload, whatever follows |
| `Crlf.CrlfRoundTrip` | crlf/src/lib.rs:14-55 | for a payload without CR LF, reading back what `write_crlf_line` sent appends exactly the payload, consumes payload + 2 bytes and leaves the following bytes |
| `Crlf.ReadFrames` | crlf/src/lib.rs:14-55 | successive reads from one filled buffer holding the framed lines yield each payload in order |
| `Crlf.TrailingCrKept` | crlf/src/lib.rs:23-41 | with no terminator in the buffer, everything is appended and consumed, a trailing lone CR included |
| `Crlf.SplitTerminatorExample` | crlf/src/lib.rs:23-41 | a CR LF split across two fills is not recognised: the CR stays on the first line and the LF starts the next |
| `BufStream.WriteTerminated` | server/src/writeline.rs:10-13 | a failing step is reported as the error; on success payload and terminator, in order, have reached the transport and nothing is left buffered |
| `ClientCrlf.ReadCrlfLine` | client/src/crlf.rs:14-43 | for payloads that are valid UTF-8: same appended prefix, no CR LF in it, count payload + 2 or the whole buffer, never beyond it; count 0 exactly for an empty buffer |
| `ClientCrlf.ClientAgreesWithLibrary` | client/src/crlf.rs:33-34 | the client panics exactly where the library returns an error, and otherwise both compute the same result |
| `ClientCrlf.ClientCrlfRoundTrip` | client/src/crlf.rs:14-56 | for a payload without CR LF, a line written by `write_crlf_line` is read back by the client as exactly its payload, consuming payload + 2 bytes |
| `ServerWriteLine.WriteLine` | server/src/writeline.rs:9-14 | succeeds exactly when no I/O step fails; then the transport has received the old bytes, the line's bytes unaltered and a single LF, and nothing stays buffered |
| `ServerWriteLine.TerminatorsDisagree` | server/src/writeline.rs:10-11 | on the same stream and payload the CRLF writer's output is the LF writer's with a CR inserted before the final LF, so the two differ |
| `ServerWriteLine.LfLineNotFramedByCrlfReader` | server/src/writeline.rs:9-14 | for a payload that contains no CR LF and does not end in CR, a line written by `write_line` and read by `read_crlf_line` keeps its LF in the appended payload |
| `ServerWriteLine.LfLineEndingInCr` | server/src/writeline.rs:9-14 | for a payload that ends in CR and has no CR LF before it, the LF `write_line` appends completes a CR LF: `read_crlf_line` appends the payload without its final CR and consumes payload + 1 bytes |

## Left out

- The session loop, the accept loop and the client's prompt loop (`server/src/main.rs`, `client/src/main.rs`): sockets, TLS setup, stdin and stdout.
- Flag parsing and password generation (`server/src/args.rs`, `client/src/args.rs`): library configuration with no logic of their own.
- A password handshake, `pwd`, `help`, `ls <dir>`, arity errors and filesystem dispatch: the code has none of them.
- `fill_buf`'s own I/O error: it is passed on unchanged before any logic runs; the read functions start from the bytes it returned.
- The internals of `BufStream`: when its write buffer flushes to the transport on its own, and the clamping in `consume`, which never matters here because the count never exceeds the buffer.
- Crlf.ReadFrames: covers lines that all sit in one filled buffer; a frame straddling two fills is split as `Crlf.SplitTerminatorExample` shows, because every read only scans the bytes its own `fill_buf` returned.
- BufStream.WriteTerminated: the stream after a failed step is not modelled (bytes already accepted may stay buffered or be partly delivered); only the failing step is reported, because every caller abandons the stream on error.
- Crlf.WriteCrlfLine: the terminator is sent with `write`, not `write_all`; the model treats that call as writing both bytes, as the buffered writer does when it accepts the write, and does not model a short write of the terminator.
- UTF-8 validation: an arbitrary predicate supplied by the caller; decoding is not needed because a string is its UTF-8 bytes.
- `BadCommandError::from_string` and `from_str`: plain constructors, modelled by the datatype's constructor.
- The `Debug` formatting derived for `Command` and `BadCommandError`.
