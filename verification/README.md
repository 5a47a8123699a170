# lollipop: a model of the request-to-response path

lollipop is a small static-file HTTP server. Each accepted connection runs on
its own thread, and a `ThreadGuard` holds that connection's place in a shared
in-flight counter. The thread reads up to 8192 bytes from the socket into a
fixed buffer and decodes them lossily as UTF-8. It picks a response from the
first line of the request, writes the response back in as many pieces as the
socket takes, and flushes.

This project models that path in Dafny, with the socket and the filesystem
replaced by plain values:

- `Utf8`: `String::from_utf8_lossy` and `str::as_bytes`. Decoding follows the
  standard library's rule: each well-formed sequence gives its scalar value,
  and each maximal invalid subpart gives one U+FFFD. The lemmas show that
  decoding is exact on well-formed input, in both directions.
- `FileResolver`: `read_file`. The filesystem is a `map<string, seq<byte>>`.
  The content type comes from the path suffix, the head is always
  `HTTP/1.1 200 OK`, and a failed read recurses into `public/404.html`.
  `ReadFile` requires that the path or `public/404.html` exists. These are
  exactly the inputs on which the recursion stops. `Unfold` runs the
  recursion with a bound, and `MissingFallbackDiverges` shows that no bound
  is enough when both files are missing.
- `Router`: the `match` in `handle_connection`. It covers `lines().next()`,
  `split_whitespace().nth(1)` and the four answers. The lemmas relate it to
  the request-line shape `method SP request-target SP HTTP-version` of
  section 3 of RFC 9112, and show that only the first line matters.
- `Connection`: the bounded read loop over an `array` of 8192 bytes, the
  partial-write loop and `handle_connection` itself, as methods. Each method
  is proved against a function of the socket script.
  - The peer's bytes are `incoming`.
  - Each read is a `ReadStep`: at most `size` bytes are ready, or the read
    fails.
  - Each write is a `WriteStep`: the socket takes at most `room` bytes, or
    the write fails.
  - The flush outcome is a boolean.
- `Guard`: the `AtomicUsize` counter and `ThreadGuard` as classes whose
  methods update the count in place. Increments and decrements wrap modulo
  2^64, as `fetch_add` and `fetch_sub` do on a 64-bit target. A sequence of connection starts
  and finishes is replayed one event at a time.

`read_file` has no built-in fallback page. When the path cannot be read it
calls `read_file("public/404.html")`. When that file is missing too, the
call repeats with the same argument without end. The model's precondition
names the inputs on which `read_file` returns, and `Unfold` shows that it
never answers on the others. A failed read in `handle_connection` returns
through `?` before the write loop and the flush, so nothing is written or
flushed; the model does the same.

## Model

| member | source | states |
|---|---|---|
| `Utf8.Decode` | lollipop/src/main.rs:70 | the lossily decoded text is empty exactly when the bytes are, and never has more characters than there are bytes |
| `Utf8.LeadChunk` | lollipop/src/main.rs:70 | the chunk at the head of the bytes is one to four bytes long, and is a one-byte character exactly when the first byte is ASCII; `Utf8.DecodeEncodeChar` and `Utf8.EncodeLeadChunk` show that its characters are exactly those `as_bytes` encodes |
| `Utf8.Encode` | lollipop/src/main.rs:87 | `as_bytes` gives at least one and at most four bytes per character; `Utf8.EncodeIsValid`, `Utf8.DecodeEncode` and `Utf8.EncodeInjective` carry the rest of its contract |
| `Utf8.DecodeAfterEncode` | lollipop/src/main.rs:113-118 | decoding the encoding of a string followed by any bytes gives back the string, then the decoding of those bytes; so the `format!` head comes through `from_utf8_lossy` unchanged |
| `Utf8.DecodeEncode` | lollipop/src/main.rs:118 | the lossy decoder reads back every encoded string exactly |
| `Utf8.EncodeAfterDecode` | lollipop/src/main.rs:118 | on well-formed UTF-8, lossy decoding followed by `as_bytes` returns the original bytes |
| `Utf8.EncodeIsValid` | lollipop/src/main.rs:87 | `as_bytes` always yields well-formed UTF-8 |
| `Utf8.EncodeInjective` | lollipop/src/main.rs:87 | two response texts with the same bytes are the same text |
| `Utf8.DecodeSplit` | lollipop/src/main.rs:70 | decoding splits at an ASCII byte: no decoded character straddles it |
| `Utf8.DecodeWithoutNewline` | lollipop/src/main.rs:70-71 | a line feed in the decoded request can come only from a 0x0A byte |
| `Utf8.DecodeEncodeChar` | lollipop/src/main.rs:118 | the encoding of a character, followed by any bytes, is read back as one chunk holding that character |
| `Utf8.EncodeLeadChunk` | lollipop/src/main.rs:118 | a well-formed leading chunk is exactly the encoding of the character it decodes to |
| `FileResolver.ContentType` | lollipop/src/main.rs:105-111 | `text/css` exactly for a `.css` suffix, `application/javascript` exactly for a `.js` suffix that is not `.css`, `text/html` for everything else |
| `FileResolver.ContentTypeBySuffix` | lollipop/src/main.rs:105-111 | the content type depends only on the last four characters of the path |
| `FileResolver.Header` | lollipop/src/main.rs:113 | no ensures of its own: the `format!` head; `FileResolver.ReadFileStatusOk` and `FileResolver.ServedBytes` state what it contributes to the answer |
| `FileResolver.ReadStep` | lollipop/src/main.rs:103-120 | no ensures of its own: one activation of `read_file`, answering or recursing on `public/404.html`; its contract is carried by `FileResolver.ReadFile` and `FileResolver.UnfoldAgrees` |
| `FileResolver.Unfold` | lollipop/src/main.rs:102-122 | no ensures of its own: `read_file` run for a bounded number of activations; `FileResolver.UnfoldAgrees` and `FileResolver.MissingFallbackDiverges` state when it answers and what |
| `FileResolver.ReadFile` | lollipop/src/main.rs:102-122 | an existing file gives the 200 head with its content type, then the decoded file; a missing one gives the 200 head with `text/html`, then the decoded `public/404.html` |
| `FileResolver.ServedBytes` | lollipop/src/main.rs:113-118 | the bytes sent are exactly the head's bytes followed by the file's bytes if and only if the file is well-formed UTF-8; any other file reaches the peer altered |
| `FileResolver.MissingServesFallback` | lollipop/src/main.rs:120 | a missing path is answered exactly as a request for `public/404.html` |
| `FileResolver.ReadFileStatusOk` | lollipop/src/main.rs:113 | every answer of `read_file` starts with `HTTP/1.1 200 OK`, the fallback page included |
| `FileResolver.MissingFallbackDiverges` | lollipop/src/main.rs:120 | when the path and `public/404.html` are both missing, the recursion gives no answer at any depth |
| `FileResolver.UnfoldAgrees` | lollipop/src/main.rs:102-122 | `read_file` answers at some depth exactly when `ReadFile`'s precondition holds (at depth 1 for an existing file, at depth 2 through the fallback), and then gives `ReadFile`'s answer |
| `FileResolver.EncodeAppend` | lollipop/src/main.rs:114-116 | `as_bytes` of two strings joined is their bytes joined, as the response vector is built |
| `Router.UpToNewline` | lollipop/src/main.rs:71 | the first line is the longest prefix with no line feed, and a line feed or the end of the text follows it |
| `Router.FirstLine` | lollipop/src/main.rs:71 | there is no line exactly when the request is empty; otherwise the line has no line feed and is a prefix of the request |
| `Router.FirstLineIsLine` | lollipop/src/main.rs:71 | the line of a non-empty request is all of it when it has no line feed, or else the text before its first line feed with one carriage return just before that feed dropped |
| `Router.FirstLineBeforeFeed` | lollipop/src/main.rs:71 | for text with no line feed followed by a line feed and anything, the first line is that text less one carriage return at its end |
| `Router.FirstLineCrLf` | lollipop/src/main.rs:71 | a line ended by CR LF is the first line, without the CR |
| `Router.UpToNewlineBefore` | lollipop/src/main.rs:71 | the first line ends at the first line feed, whatever follows it |
| `Router.LeadingWord` | lollipop/src/main.rs:81 | the leading word is the longest prefix with no whitespace |
| `Router.Words` | lollipop/src/main.rs:81 | every word from `split_whitespace` is non-empty and contains no whitespace |
| `Router.WordsKeepText` | lollipop/src/main.rs:81 | joining the words gives the text with its whitespace removed: splitting drops whitespace and nothing else |
| `Router.WordsCons` | lollipop/src/main.rs:81 | a word followed by whitespace or by the end of the text is the first word |
| `Router.WordsAfterWhitespace` | lollipop/src/main.rs:81 | any leading whitespace character yields no word; with `Router.WordsCons` this fixes the words of every text |
| `Router.SecondWordOrRoot` | lollipop/src/main.rs:81 | no ensures of its own: the second word, or `/` when there are fewer than two; `Router.RequestLineWords` and `Router.DispatchRequestLine` state it picks the request-target |
| `Router.RequestLineWords` | lollipop/src/main.rs:81 | the words of `method SP target SP version` are exactly the method, the target and the version |
| `Router.RequestLinePrefix` | lollipop/src/main.rs:72-73 | such a request-line starts with `m SP t SP` exactly when its method is `m` and its target is `t` |
| `Router.DispatchRequestLine` | lollipop/src/main.rs:71-83 | a request opening with a request-line and CRLF is routed to the index page for `GET /`, the About page for `GET /about`, and otherwise to `public` followed by its target, whatever the method |
| `Router.RouteCases` | lollipop/src/main.rs:71-85 | the empty request gets the 500 text; a first line starting `GET / ` gets `public/index.html`; one starting `GET /about ` gets the About page; any other gets `public` followed by the second word, or `/` when there is none |
| `Router.Dispatch` | lollipop/src/main.rs:71-85 | no ensures of its own: which arm of the `match` the first line selects; `Router.RouteCases`, `Router.DispatchRequestLine` and `Router.FirstLineDecides` carry its contract |
| `Router.Route` | lollipop/src/main.rs:71-85 | no ensures of its own: the response text of the `match`; `Router.RouteCases` and `Router.RouteStatus` carry its contract |
| `Router.AboutIsNotIndex` | lollipop/src/main.rs:72-73 | a first line starting `GET /about ` never starts `GET / `, so the About arm is reachable |
| `Router.AboutIgnoresFiles` | lollipop/src/main.rs:73-79 | the About answer is the same whatever the filesystem holds |
| `Router.RouteStatus` | lollipop/src/main.rs:71-85 | the answer is the 500 text exactly when the request is empty; every other answer starts with `HTTP/1.1 200 OK` |
| `Router.FirstLineDecides` | lollipop/src/main.rs:71 | requests that agree up to and including the first line feed are routed alike |
| `Connection.Gathered` | lollipop/src/main.rs:57-68 | the read loop ends with a `total_read` between the starting amount and both the buffer size and the number of bytes the peer sent; its only error is a failed read |
| `Connection.ReadCount` | lollipop/src/main.rs:58 | no ensures of its own: the bytes one `stream.read` delivers into the free tail, or its error; `Connection.Gathered` bounds the running total, and `Connection.GatheredStopsOnEmptyRead` uses it to name the call the loop stops on |
| `Connection.ReadRequest` | lollipop/src/main.rs:54-70 | a failed read gives that error; otherwise the request is `buffer[..total_read]`, the first `Gathered` bytes the peer sent, at most 8192 of them |
| `Connection.GatheredAll` | lollipop/src/main.rs:57-68 | when every read delivers at least one byte and the script has at least one read per byte still to come, the request is everything the peer sent, cut at 8192 bytes |
| `Connection.GatheredStopsOnEmptyRead` | lollipop/src/main.rs:58-67 | a request shorter than the buffer means the loop reaches a read, with the final `total_read` in the buffer, that returns zero bytes; every call before it delivered bytes and left the buffer short of full, and there are at most as many of them as bytes read |
| `Connection.Sent` | lollipop/src/main.rs:88-96 | the write loop ends with `written` between its starting value and the response length |
| `Connection.WriteCount` | lollipop/src/main.rs:91-94 | no ensures of its own: the bytes one `stream.write` takes, or its failure; `Connection.Sent` bounds the running total, and `Connection.SentStopsOnStalledWrite` uses it to name the call the loop stops on |
| `Connection.WriteResponse` | lollipop/src/main.rs:87-96 | the peer receives exactly the first `Sent` bytes of the response, in order |
| `Connection.SentAll` | lollipop/src/main.rs:90-96 | when every write takes at least one byte and the script has at least one write per byte still to send, the whole response is written |
| `Connection.SentStopsOnStalledWrite` | lollipop/src/main.rs:90-96 | a response cut short means the loop reaches a write, with the final `written`, that returns `Ok(0)` or fails; every call before it took bytes, and there are at most as many of them as bytes sent |
| `Connection.HandleConnection` | lollipop/src/main.rs:53-100 | a failed read returns the read error and writes nothing; otherwise the peer receives the written prefix of the encoded answer to the decoded request, and the result is `Ok` exactly when the flush succeeds |
| `Connection.Respond` | lollipop/src/main.rs:70-87 | no ensures of its own: the response bytes for the bytes read; `Connection.RespondErrorIff` and `Connection.FirstLineBytesDecide` carry its contract |
| `Connection.FirstLineBytesDecide` | lollipop/src/main.rs:70-71 | changing the bytes after the first 0x0A byte does not change the response bytes |
| `Connection.RespondErrorIff` | lollipop/src/main.rs:84 | the 500 response goes out exactly when zero bytes were read |
| `Guard.AtomicCounter.constructor` | lollipop/src/main.rs:15 | the counter starts at the given value |
| `Guard.AtomicCounter.FetchAdd` | lollipop/src/main.rs:40 | `fetch_add(1)` returns the old value and adds one modulo 2^64 |
| `Guard.AtomicCounter.FetchSub` | lollipop/src/main.rs:49 | `fetch_sub(1)` returns the old value and subtracts one modulo 2^64 |
| `Guard.ThreadGuard.constructor` | lollipop/src/main.rs:39-44 | making a guard adds one to the shared counter and keeps a reference to it |
| `Guard.ThreadGuard.Drop` | lollipop/src/main.rs:47-51 | dropping a live guard takes one from the shared counter |
| `Guard.CounterCountsRunning` | lollipop/src/main.rs:38-51 | after any possible sequence of starts and finishes, the counter is its starting value plus the number of running connections, modulo 2^64 |
| `Guard.CounterFromStart` | lollipop/src/main.rs:38-51 | from any counter value below 2^64 and no connection running, the counter after the events is that value plus the running connections, modulo 2^64 |
| `Guard.CounterBalanced` | lollipop/src/main.rs:38-51 | once every started connection has finished, the counter is back at its starting value |
| `Guard.RunConnections` | lollipop/src/main.rs:24-51 | replaying starts and finishes with real guards leaves the counter at its old value plus the number of guards still alive, and each of those guards is live and refers to the counter |

## Left out

- The accept loop in `main`, the `yield_now` busy-wait against `MAX_THREADS`, `thread::spawn`, `Arc` and the memory orderings of the atomic operations (lollipop/src/main.rs:11-32). The point of that code is concurrency, and its check-then-increment race cannot be captured by a sequential model. The counter is modelled one operation at a time.
- Dropping a guard during panic unwinding is not modelled separately. A finish event stands for every way a thread ends.
- `TcpListener::bind`, real socket reads, writes and the flush call. These are replaced by the read and write scripts and a flush outcome. A read delivers at most the free room in the buffer, as `Read::read` promises. A write takes at most the offered bytes, as `Write::write` promises. Reads past the end of the read script see the peer closed. Writes past the end of the write script fail.
- Closing the stream when `handle_connection` returns. The model has no socket resource to release.
- `fs::read` as an operating-system call. Permission errors and every other read failure are "the path is not in the map", as the code collapses them into one case.
- `println!` and `eprintln!` logging. The error that `handle_connection` returns is part of the result; printing it is not modelled.
- `lines()` follows the current standard library: a carriage return is removed only before a line feed. Older releases also removed one at the very end of the text. The two never route differently, because both routing prefixes end in a space and `split_whitespace` treats the carriage return as whitespace; this argument is not proved.
- `usize` is taken to be 64 bits wide, so `UsizeModulus` is 2^64. On a 32-bit target the counter would wrap modulo 2^32; that width is not modelled.
