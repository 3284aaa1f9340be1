# multipart-rs request adapters, modelled in Dafny

The `multipart` crate's server side decodes a `multipart/form-data` body from
any request type that can say what its boundary is and hand out its body as a
byte stream. This project models two of those request adapters:

- the `tiny_http` adapter's `multipart_boundary` (`TinyHttp` in
  `tiny_http.dfy`, with the `str` operations it uses in `text.dfy`): take the
  first `Content-Type` header, find the first `boundary=` in its value, keep
  the text after it up to the first `;`, and strip one pair of surrounding
  double quotes when both are there;
- the mock transport of `src/mock.rs` (`Mock` in `mock.dfy`): `HttpBuffer`,
  a sink that accepts a random-sized prefix of every write, and
  `ServerRequest`, a cursor over a byte slice that hands out a random-sized
  prefix on every read, so that tests see a network-like stream.

Strings are `seq<char>`. Rust indexes strings by byte, but every pattern here
(`boundary=`, `;`, `"`) is ASCII, so the substrings cut out are the same.
Headers are a sequence of (field, value) pairs; the field match follows
`tiny_http`'s `HeaderField::equiv`, an ASCII case-insensitive comparison
(`tiny_http` itself is not part of this model). Bytes are a `uint8` newtype
and `content_len` a `u64` newtype.

The random generator is not state in the model. `Mock.Read` and `Mock.Write`
take the length `gen_range(1..=n)` would have drawn, required to satisfy
`1 <= len <= n` whenever `n > 0` (for `n == 0` the source returns before
drawing). The loops that drive them take an `Rng`, a function from (draw number,
upper bound) to a length, constrained by `ValidRng` to stay in range, so
their contracts hold for every possible sequence of draws.

## Model

| member | source | states |
|---|---|---|
| Text.Find | src/server/tiny_http.rs:27 | `str::find`: a found index is an occurrence with none before it; `None` exactly when the pattern occurs nowhere |
| Text.FindFrom | src/server/tiny_http.rs:27 | the search behind `find`: the first occurrence at or after a start index, or none at all from there on |
| Text.SplitOnce | src/server/tiny_http.rs:29-32 | `split_once(';')`: `None` iff `;` is absent; otherwise the input is before + `;` + after and `before` holds no `;` |
| Text.StripPrefix | src/server/tiny_http.rs:37 | `strip_prefix('"')` succeeds iff the first character is a quote, and the input is that quote + the result |
| Text.StripSuffix | src/server/tiny_http.rs:38 | `strip_suffix('"')` succeeds iff the last character is a quote, and the input is the result + that quote |
| TinyHttp.FindContentType | src/server/tiny_http.rs:19-22 | `iter().find(..)`: the index of the first `Content-Type` header, or `None` iff no header matches |
| TinyHttp.BoundaryParam | src/server/tiny_http.rs:27-33 | `None` iff `boundary=` does not occur in the value; otherwise the text starting right after its first occurrence, running up to the first `;` or the end, with no `;` in it |
| TinyHttp.Unquote | src/server/tiny_http.rs:36-39 | a value quoted at both ends (two distinct characters) loses exactly that one pair; any other value, a lone `"` included, comes back unchanged |
| TinyHttp.BoundaryFromValue | src/server/tiny_http.rs:27-41 | `None` iff the value has no `boundary=`; a result is a contiguous substring of the value, no longer than it, with no `;` |
| TinyHttp.MultipartBoundary | src/server/tiny_http.rs:16-42 | `None` when no header matches `Content-Type`; otherwise `Some` iff the first matching header's value contains `boundary=`, and the token is a `;`-free substring of that value |
| TinyHttp.OnlyFirstContentTypeConsulted | src/server/tiny_http.rs:19-24 | the result is decided by the first `Content-Type` header's value alone |
| TinyHttp.LaterHeadersIgnored | src/server/tiny_http.rs:19-22 | appending any headers after a `Content-Type` header never changes the result |
| TinyHttp.ContentTypeNameMatch | src/server/tiny_http.rs:22 | four sample names: `content-type` and `CONTENT-TYPE` match, `Content-Length` and `Content-Type-X` do not |
| TinyHttp.FirstBoundaryAfter | src/server/tiny_http.rs:27 | when the text before a `boundary=` hides no other occurrence, `find` lands exactly there |
| TinyHttp.RawParamRoundTrip | src/server/tiny_http.rs:27-33 | a `;`-free token written after `boundary=` and closed by `;` or the end of the value is extracted verbatim |
| TinyHttp.PlainTokenRoundTrip | src/server/tiny_http.rs:27-41 | an unquoted `;`-free token comes back exactly, surrounding whitespace included (no trimming) |
| TinyHttp.QuotedTokenRoundTrip | src/server/tiny_http.rs:27-41 | any `;`-free token written inside one pair of quotes comes back with that pair removed |
| TinyHttp.EmptyTokenBeforeSemicolon | src/server/tiny_http.rs:28-30 | `boundary=;x` gives `Some("")`, not `None` |
| TinyHttp.EmptyTokenAtEnd | src/server/tiny_http.rs:28-31 | a value ending in `boundary=` gives `Some("")` |
| TinyHttp.EmptyQuotedToken | src/server/tiny_http.rs:36-39 | `boundary=""` gives `Some("")` |
| TinyHttp.LoneQuoteKept | src/server/tiny_http.rs:36-39 | `boundary="` gives `Some("\"")`: one quote character is not a pair |
| TinyHttp.OpeningQuoteOnlyKept | src/server/tiny_http.rs:36-39 | an opening quote without a closing one is kept in the token |
| TinyHttpExamples.LiteralValueExample | src/server/tiny_http.rs:27-41 | the value `x; boundary= abc ;y` gives the token ` abc `, blanks kept |
| TinyHttp.OnlyOnePairStripped | src/server/tiny_http.rs:36-39 | a doubly quoted token keeps its inner pair of quotes |
| Mock.WithBuf | src/mock.rs:35-43 | the buffer holds exactly the given bytes, boundary and content length |
| Mock.NewEmpty | src/mock.rs:30-33 | an empty buffer with the given boundary and content length |
| Mock.ForServer | src/mock.rs:45-53 | the request reads exactly the buffer's bytes and carries its boundary and content length |
| Mock.NewRequest | src/mock.rs:99-110 | a request over the given bytes and boundary, with no content length |
| Mock.MultipartBoundary | src/mock.rs:132 | the mock always reports its boundary |
| Mock.ReadSlice | src/mock.rs:124 | reading from the byte slice copies exactly `min(remaining, destination length)` bytes into the front of the destination, leaves the rest of it alone, and advances the slice by that count |
| Mock.Read | src/mock.rs:113-125 | an empty output gives 0 with nothing changed; otherwise `n` is exactly `min(len, remaining data)`, so 0 only at end of data and the whole remainder when the draw allows it; `n` is at most the output length, the drawn length and the remaining data; `out[..n]` is the first `n` remaining bytes, the rest of `out` is untouched, the cursor advances by exactly `n`, and boundary and content length are unchanged |
| Mock.ReadSplitsData | src/mock.rs:124 | the chunk a read delivers, followed by what the cursor still holds, is exactly the data before the read |
| Mock.ReadAllLossless | src/mock.rs:113-125 | after any sequence of reads with any valid lengths, the bytes delivered followed by the bytes still unread are the original data |
| Mock.ReadAllProgress | src/mock.rs:122-124 | each read while data remains consumes at least one byte, so after as many reads as there were bytes nothing is left |
| Mock.ReadToEnd | src/mock.rs:113-125 | reading until a read returns 0 delivers exactly the original data, whatever lengths are drawn, in at most one read per byte plus the final empty one |
| Mock.Write | src/mock.rs:56-69 | empty input gives 0 and leaves the buffer alone; otherwise exactly the first `len` input bytes (1 <= `len` <= input length) are appended, `len` is returned, and earlier contents, boundary and content length are kept |
| Mock.WriteAppends | src/mock.rs:66-68 | after a write the old contents are a prefix of the buffer and exactly the first `n` input bytes follow them |
| Mock.WriteAll | src/mock.rs:59-68 | repeating writes on the unwritten rest, as `write_all` does, appends exactly the whole input, in at most one write per byte |
| Mock.TransportLossless | src/mock.rs:45-53 | bytes written into an empty buffer under any chunking and read back from `for_server` under any chunking arrive unchanged, with boundary and content length intact |

## Left out

- The multipart decoder itself (`Multipart`, `read_entry`, the part reader) is not part of this model; only the adapters and test doubles that feed it are.
- `rand::thread_rng` / `gen_range`: foreign randomness, replaced by a drawn-length parameter (`Read`, `Write`) or an `Rng` function (`ReadAll`, `ReadToEnd`, `WriteAll`).
- `tiny_http`'s `headers()` and `as_reader` (the adapter's `body`): foreign library calls; headers are a sequence of pairs and the body stream is not modelled.
- `HeaderField::equiv`: modelled as ASCII case-insensitive equality of the whole name, as `tiny_http` documents it; its code is not part of this model.
- The mock's `body()` (src/mock.rs:134-136) returns the request itself; it has no behaviour beyond the `Read` model.
- `HttpBuffer::flush`: forwards to `Vec<u8>::flush`, which does nothing.
- `StdoutTee`: duplicates writes to stdout, which is I/O.
- The `fmt::Debug` impl of `HttpBuffer`: formatting only.
- `debug!` logging calls: diagnostic only.
- `fuzz/fuzzers/server_basic.rs` and `fuzz/fuzzers/logger.rs`: fuzzing and logging harness around the decoder, which is not modelled.
- `Mock.WriteAll` models the standard library's `write_all` loop, which lives in `std` rather than in this crate; it shows that repeated `Write` calls lose nothing.
- `Mock.ReadAll`: its own contract only fixes the output buffer's length and keeps boundary and content length; what it delivers is stated by `ReadAllLossless` and `ReadAllProgress`.
