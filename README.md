# HTTP request reader: a Dafny model of `src/lib.rs`

This project models the request reader of a minimal HTTP/1.1 server.
`HTTPRequest::new` reads the connection line by line, the way
`BufRead::lines` does. It keeps the lines up to the first empty one,
which are the request line and the header lines.
`HTTPRequest::request` gives no request when nothing was collected.
Otherwise it passes the first line to `ParsedHTTPRequest::new`. That
function splits the line at whitespace (`str::split_whitespace`) and takes
parts 0, 1 and 2 as method, path and version. The header map is left
empty and the body is `None`. A line with fewer than three parts makes the
indexing panic.

The model is pure, because the source is iterator pipelines and field
initialisation with no state updated in place:

- `wrappers.dfy`: `Option` and `Result`.
- `seqs.dfy`: three generic sequence identities used by the proofs.
- `whitespace.dfy`: `split_whitespace`, written as Rust's standard library
  defines it. The string is split at every whitespace character and the
  empty pieces are dropped. The lemmas prove that the result is exactly
  the maximal whitespace-free runs of the input, in order, in both
  directions.
- `lines.dfy`: `BufRead::lines` and `take_while(|line| !line.is_empty())`.
  The lemmas prove a round trip: lines terminated by LF or CRLF, with an
  optional unterminated last line, are read back exactly. They also prove
  the converse: every input has that shape.
- `http_request.dfy`: `HTTPRequest::new`, `HTTPRequest::request`,
  `ParsedHTTPRequest::new` and the `it_works` unit test.
- `test_message.dfy`: the message `EXAMPLE_HTTP_POST` of that test.

A panic is modelled as `Err(IndexOutOfBounds(index, len))`. The first out-of-range index
is `len`, the number of parts. `request` returns
`Result<Option<ParsedRequest>, Panic>`, where `Ok(None)` is Rust's `None`
and `Err` is the panic raised inside `ParsedHTTPRequest::new`.

Section 3 of RFC 9112 defines the request line as method, SP,
request-target, SP, HTTP-version. The code is looser than that, and the
model does what the code does:

- Any run of whitespace separates the parts, and leading and trailing
  whitespace is ignored.
- A request line with more than three parts is accepted and the extra
  parts are ignored.
- Method and version are not validated.
- Headers are never parsed, and no body is ever read.
- An I/O failure is an `unwrap`, not a typed error.

## Model

| member | source | states |
|---|---|---|
| Whitespace.SplitWhitespace | src/lib.rs:48 | every part is a non-empty run of non-whitespace characters |
| Whitespace.SplitWhitespaceCharacterization | src/lib.rs:48 | `split_whitespace(s)` is `tokens` if and only if `s` is those tokens, in order, separated by non-empty whitespace runs, with optional whitespace at either end |
| Whitespace.SplitWhitespaceOfLayout | src/lib.rs:48 | tokens laid out with whitespace gaps between them are recovered exactly |
| Whitespace.SplitWhitespaceLaysOut | src/lib.rs:48 | every string is its parts laid out with whitespace gaps |
| Whitespace.SplitWhitespaceOfToken | src/lib.rs:48 | a single token gives just that token |
| Whitespace.SplitWhitespaceAtChar | src/lib.rs:48 | one whitespace character separates: the parts of `a + [c] + b` are those of `a` followed by those of `b` |
| Whitespace.SplitWhitespaceAtGap | src/lib.rs:48 | a non-empty whitespace run separates what is on either side of it |
| Whitespace.SplitWhitespaceDropsLeading | src/lib.rs:48 | leading whitespace does not change the parts |
| Whitespace.SplitWhitespaceDropsTrailing | src/lib.rs:48 | trailing whitespace does not change the parts |
| Whitespace.SplitWhitespaceCollapsesRuns | src/lib.rs:48 | a run of whitespace between parts counts as a single space |
| Lines.SplitLines | src/lib.rs:13-14 | no line holds a line feed; the input has no lines exactly when it is empty |
| Lines.SplitLinesCharacterization | src/lib.rs:13-14 | `lines()` of `s` is `r` if and only if `s` is `r`'s lines each terminated by LF or CRLF, where a line ending in CR must have CRLF, and the last line may be unterminated |
| Lines.SplitLinesOfEncoding | src/lib.rs:13-14 | lines written with LF or CRLF terminators are read back exactly, whatever follows them |
| Lines.SplitLinesOfTerminated | src/lib.rs:13-14 | one terminated line comes back without its terminator |
| Lines.SplitLinesOfReassembly | src/lib.rs:13-14 | terminated lines followed by an unterminated tail are read back as the lines and then the tail |
| Lines.SplitLinesReassembles | src/lib.rs:13-14 | every input is its lines with terminators restored, followed by an unterminated tail |
| Lines.TakeWhileNonEmpty | src/lib.rs:16 | the result is a prefix of the lines, every line in it is non-empty, and the next line, if any, is empty |
| Lines.TakeWhileNonEmptyStopsAtBlank | src/lib.rs:16 | non-empty lines followed by an empty line give exactly those lines, whatever comes after |
| HttpParser.NewHttpRequest | src/lib.rs:11-22 | the collected lines are a prefix of the input's lines; each is non-empty and has no line feed; reading stopped at an empty line or at the end of the input |
| HttpParser.NewHttpRequestOfMessage | src/lib.rs:11-22 | for a header block ended by a blank line, exactly the header block's lines are collected, and nothing after the blank line |
| HttpParser.NewHttpRequestEmpty | src/lib.rs:11-22 | nothing is collected exactly when the input is empty or starts with LF or CRLF |
| HttpParser.ParseRequestLine | src/lib.rs:47-58 | parsing succeeds exactly when there are at least three parts; otherwise it panics at index = number of parts (< 3); method, path and version are tokens; headers are empty and the body is `None` |
| HttpParser.ParseRequestLineAccepts | src/lib.rs:47-58 | the result is method `m`, path `p`, version `v` if and only if the line is `m p v` followed by any further tokens, with any whitespace |
| HttpParser.ParseRequestLineRejects | src/lib.rs:47-58 | the parse panics if and only if the line holds fewer than three tokens |
| HttpParser.ParseRequestLineIgnoresSpacing | src/lib.rs:47-58 | leading whitespace, the width of the gaps, and anything after the third part (when it starts with whitespace) do not change the result |
| HttpParser.Request | src/lib.rs:24-35 | `None` exactly when no line was collected; a panic exactly when the first line's parse panics, with the same panic; otherwise the parse of the first line |
| HttpParser.RequestOfMessage | src/lib.rs:11-35 | for a header block whose first line is `m p v ...`, reading and then requesting gives method `m`, path `p`, version `v` |
| HttpParser.RequestNone | src/lib.rs:24-35 | no request exactly when the input is empty or starts with a blank line |
| TestMessage.ExampleHttpPostRuns | src/lib.rs:65 | the test message is six runs, each a piece of the test's literal, in the literal's order |
| HttpParser.ExampleRequestLine | src/lib.rs:65 | the request line of the test message splits into POST, `/` and HTTP/1.1 |
| HttpParser.ItWorks | src/lib.rs:65-82 | `ParsedHTTPRequest::new` on the whole test message gives method POST, version HTTP/1.1, path `/`, empty headers and no body |
| HttpParser.ExampleRequest | src/lib.rs:11-35 | an example beyond the unit test: the test message of line 65, read through `HTTPRequest::new`, collects its three header lines, and `request` then gives the request the unit test expects |

## Left out

- The `TcpStream` and the `BufReader` around it: the input is the whole content of the connection as an in-memory string. A live socket that never sends a blank line blocks `take_while`, and that is not modelled.
- The `stream` field of `HTTPRequest` and its lifetime: `HttpRequest` keeps only `request_vec`.
- `result.unwrap()` on a failed read: an I/O error, or invalid UTF-8, in the lines read up to and including the first empty line makes `unwrap` panic. Because `take_while` is lazy, nothing after that line is read, so bytes there cannot cause a panic. The input here is a sequence of characters, so neither failure can occur. What follows the empty line is unconstrained in the model too (`rest` in `HttpParser.NewHttpRequestOfMessage`).
- `println!("Request was of length 0")`: output is not modelled; only the `None` result is.
- Whitespace.IsWhitespace: covers only the ASCII whitespace characters (U+0009..U+000D and space). `split_whitespace` also splits at the other Unicode White_Space characters (U+0085, U+00A0, U+1680, U+2000..U+200A, U+2028, U+2029, U+202F, U+205F, U+3000); a request line containing them is tokenised differently here.
- The `HashMap` is a Dafny `map`, which the code always leaves empty (`Default::default()`); hashing and iteration order are not modelled.
- Header-field parsing and body framing: `src/lib.rs` does not implement them (the `TODO` at line 54).
- TestMessage.ExampleHttpPostRuns: the constant is proved equal to six runs copied from the literal at line 65, not to that single 123-character literal; the verifier does not decide an equality of string literals that long in reasonable time, so that the runs spell the literal is checked by reading them side by side.
- The test's `assert_eq!` on each field is stated as one equality of the whole `ParsedRequest`.
