# prestino header encoder and request layer, in Dafny

This project models two parts of prestino, a Rust client for the Trino (Presto)
query engine.

1. The **header encoder** is in `headers.dfy`, with `strings.dfy` and `http.dfy` beneath it.
   - `HeaderField` is the closed set of nine client header fields. Each field has a fixed name: `X-Trino-` followed by the field's key.
   - `HeaderBuilder` keeps the fields in the order they were added.
   - `set_headers` writes one header per field onto an HTTP request builder.
   - For `Session`, the value is built from the map: each entry is formatted as `key=value`, the strings are sorted and then joined with `,`. The sort is on the whole `key=value` strings, not on the keys: `a-=y` comes before `a=x`, because `-` is below `=`, although key `a` is below key `a-` (`SessionSortsEntriesNotKeys`).
2. The **request layer** is in `presto_api.dfy`, with `utf8.dfy`.
   - The status decision of `parse_response` reads the body only on 200. A 503 panics (`unimplemented!()`). Any other status is an error that carries the code.
   - The two request builders produce the statement POST and the next-page GET. Each carries the single fixed `X-Trino-User` header.

Modules:

- `Strings`:
  - the order of Rust strings (byte-wise on UTF-8, which is the same as code-point order);
  - `slice::sort` as an in-place insertion sort on an `array`, proved equal to the unique sorted arrangement `SortBag` of its contents;
  - `join`, together with a `Split` that inverts it for a non-empty list of parts (`Split("", ',')` is `[""]`, not `[]`).
- `Http`: the shape of the `http::request::Builder` the code uses, as a value. It has a method, a URI and an ordered header list, and `header` appends (as `HeaderMap::append` does).
- `Headers`:
  - `HeaderField` and its `GetKey`;
  - `HeaderBuilder` as a class whose `headers` field its methods update;
  - the specification functions:
    - `EntryBag`: the multiset of formatted entries of a map;
    - `SessionValue`: the serialized session;
    - `Pairs`: the header list a field list becomes.
  - `SerializeSession`, `CollectEntries` and `SetHeaders` are methods with loops, proved against those functions.
  - HashMap iteration order is unspecified. The collect loop models it by picking any remaining key (`:|`). The result is still unique, because sorting erases the order (`Strings.SortedUnique`).
- `Utf8`: well-formed UTF-8 as section 4 of RFC 3629 defines it. It stands for the check `String::from_utf8` makes.
- `PrestoApi`: status classification, `parse_response`, `get_results` and the two request builders.

Several facts are proved as lemmas:

- Fields of different variants have different names; fields of the same variant share one.
- A non-empty session value splits back into one segment per entry, in ascending order, when no key or value contains a `,`. The empty session's value `""` splits into one empty segment (`SessionEmptySplit`).
- Two different sessions can serialize to the same value, because nothing is escaped (`SessionAmbiguous`).
- The encoder's two tests hold: `ScalarHeadersExample` and `SessionHeaderExample`.
- A statement request gives back its base URL and its statement.
- The user header of both requests is exactly the pair the encoder writes for `User("jagill")`.

## Model

| member | source | states |
|---|---|---|
| `Headers.HeaderField.GetKey` | src/headers.rs:23-35 | `get_key`: every key is a valid header-name token; the nine keys themselves are in `HeaderNameTable`, and their distinctness in `HeaderNameDeterminesVariant` |
| `Headers.HeaderBuilder.GetPrefix` | src/headers.rs:51-53 | `get_prefix`: the eight-character prefix is a valid token; `HeaderNameShape` shows every name starts with it |
| `Headers.HeaderName` | src/headers.rs:66 | the `format!` of prefix and key is always a valid header name, so the request builder never rejects it |
| `Headers.Format` | src/headers.rs:57 | the entry is the key, `=`, then the value, each readable back at its own place |
| `Headers.FormatInjective` | src/headers.rs:57 | when no key contains `=`, two entries are equal only if their keys and values are |
| `Headers.HeaderNameTable` | src/headers.rs:23-34 | each of the nine fields is sent under its full name, `X-Trino-User` … `X-Trino-Client-Tags` (note `Client-Tags` with an s for `ClientTag`) |
| `Headers.HeaderNameShape` | src/headers.rs:51-66 | every header name is the prefix `X-Trino-` followed by the field's key |
| `Headers.HeaderNameDeterminesVariant` | src/headers.rs:23-34 | two fields have the same key, and the same header name, if and only if they are the same variant |
| `Headers.HeaderBuilder.constructor` | src/headers.rs:42-46 | a new builder holds no fields |
| `Headers.HeaderBuilder.AddHeader` | src/headers.rs:47-50 | the field is appended after all earlier ones, and the same builder is handed back |
| `Headers.HeaderBuilder.SerializeSession` | src/headers.rs:54-63 | the result is `SessionValue(session)`: the formatted entries, sorted, joined with `,`, whatever order the map yields them in |
| `Headers.HeaderBuilder.CollectEntries` | src/headers.rs:55-58 | a fresh vector holding exactly the formatted entries of the map, one per key, with multiplicity |
| `Headers.HeaderBuilder.FieldValue` | src/headers.rs:67-77 | the value sent for a field: its own string, or the serialized session for `Session` |
| `Headers.HeaderBuilder.SetHeaders` | src/headers.rs:64-81 | the builder's method and URI are unchanged, and its headers gain one pair per field, in insertion order: `Pairs(headers)` |
| `Headers.PairsLength` | src/headers.rs:65-79 | one header pair per field, for every list including the empty one |
| `Headers.PairsAt` | src/headers.rs:65-78 | there is one pair per field, and the i-th pair is the i-th field's prefixed name with its value |
| `Headers.PairsStep` | src/headers.rs:65-79 | one turn of the `set_headers` loop adds exactly the current field's name and value after the pairs written so far |
| `Headers.PairsAppend` | src/headers.rs:65-79 | writing two field lists in turn is writing their concatenation |
| `Headers.EntryBagSize` | src/headers.rs:55-58 | there is one formatted entry per key |
| `Headers.EntryBagRemove` | src/headers.rs:55-58 | the bag is the same whichever key is taken out first: an iteration order does not matter |
| `Headers.EntryBagMembers` | src/headers.rs:57 | a string is in the bag if and only if it is `key=value` for some entry of the map |
| `Headers.EntryBagAdd` | src/headers.rs:57 | an entry under a new key adds exactly its formatted string |
| `Headers.SessionEmpty` | src/headers.rs:59-61 | an empty session serializes to the empty string |
| `Headers.SessionEmptySplit` | src/headers.rs:59-61 | the empty session's value splits at `,` into one empty segment, so the segment count matches the entry count only for a non-empty session |
| `Headers.SessionOne` | src/headers.rs:57-61 | a one-entry session is that entry, formatted |
| `Headers.SessionTwo` | src/headers.rs:57-61 | a two-entry session is the smaller formatted entry, a `,`, then the larger |
| `Headers.SessionSegments` | src/headers.rs:54-63 | for a non-empty session with no `,` in keys or values, splitting the value at `,` gives one segment per entry, sorted, each segment some entry's `key=value` and each entry's `key=value` among the segments |
| `Headers.SessionAmbiguous` | src/headers.rs:57-61 | `{a: "b,c=d"}` and `{a: "b", c: "d"}` are different sessions with the same value `a=b,c=d` |
| `Headers.SessionSortsEntriesNotKeys` | src/headers.rs:57-59 | the order is that of the formatted strings: `{a: x, a-: y}` gives `a-=y,a=x` although `a` is below `a-` |
| `Headers.SessionExample` | src/headers.rs:144-154 | the session `{key2: value2, key1: value1}` serializes to `key1=value1,key2=value2` |
| `Headers.SessionPair` | src/headers.rs:73 | a `Session` field becomes the `X-Trino-Session` header with the session's value |
| `Headers.SessionHeaderExample` | src/headers.rs:141-156 | the encoder's session test: the request carries exactly `X-Trino-Session: key1=value1,key2=value2` |
| `Headers.ScalarPairs` | src/headers.rs:65-78 | the eight scalar fields, for any values, become their eight full names with the values unchanged, in order |
| `Headers.ScalarHeadersExample` | src/headers.rs:91-138 | the encoder's test of the eight scalar fields: the model's header list holds exactly the eight expected name/value pairs, in their written case |
| `Headers.CollectStep` | src/headers.rs:55-58 | taking one entry out of the unvisited part of the map moves exactly its formatted string into the collection |
| `Http.TokenConcat` | src/headers.rs:66 | two header-name tokens glued together are a token |
| `Strings.LessEqTotal` | src/headers.rs:59 | any two strings are comparable in Rust's string order |
| `Strings.LessEqAntisymmetric` | src/headers.rs:59 | strings ordered both ways are equal |
| `Strings.LessEqTransitive` | src/headers.rs:59 | the string order is transitive |
| `Strings.SortBag` | src/headers.rs:59 | every multiset of strings has an ascending arrangement |
| `Strings.SortedUnique` | src/headers.rs:59 | two ascending sequences with the same contents are equal, so the sorted vector does not depend on the order it was collected in |
| `Strings.SortInPlace` | src/headers.rs:59 | `c.sort()`: afterwards ascending, a permutation of before, and so exactly `SortBag` of the old contents |
| `Strings.SplitJoin` | src/headers.rs:61 | for a non-empty list of parts, none containing `,`, splitting their `join(",")` at `,` gives back the parts |
| `PrestoApi.ClassifyStatus` | src/presto_api.rs:22-26 | 200 reads the body, 503 is unimplemented, and every other code is a status error with that same code; exactly one of the three holds |
| `PrestoApi.StatusErrorKeepsCode` | src/presto_api.rs:25 | a status error determines its code: two statuses give the same error if and only if they are equal |
| `PrestoApi.ParseResponse` | src/presto_api.rs:19-38 | it panics if and only if the status is 503, or the status is 200 and the body is not UTF-8. It yields a value if and only if the status is 200, the body is UTF-8 and the decoder accepts it. It gives a decode error if and only if the decoder rejects a UTF-8 200 body. Any other status is an error with that code |
| `PrestoApi.ParseIgnoresBodyUnlessOk` | src/presto_api.rs:22-26 | unless the status is 200, neither the body nor the decoder affects the outcome |
| `PrestoApi.ParseStatusErrorIsStatus` | src/presto_api.rs:25 | a status error names the response's status, which was neither 200 nor 503 |
| `PrestoApi.ParseAsciiBody` | src/presto_api.rs:33-38 | a 200 response with an ASCII body is passed to the decoder, and the outcome is what the decoder says |
| `PrestoApi.GetResults` | src/presto_api.rs:11-17 | a failed exchange is a transport error, and only a failed exchange is; otherwise the response is parsed |
| `PrestoApi.PostStatementRequest` | src/presto_api.rs:41-55 | a POST to the base URL followed by `/v1/statement`, with the single header `X-Trino-User: jagill` and the statement as body |
| `PrestoApi.GetResultsRequest` | src/presto_api.rs:57-65 | a GET of the next URI verbatim, with the single header `X-Trino-User: jagill` and an empty body |
| `PrestoApi.StatementBase` | src/presto_api.rs:45 | a URI it accepts is the returned base followed by `/v1/statement` |
| `PrestoApi.PostStatementRoundTrip` | src/presto_api.rs:45-52 | the base URL and the statement can be read back from a statement request |
| `PrestoApi.PostStatementInjective` | src/presto_api.rs:41-55 | different base URLs or statements give different statement requests |
| `PrestoApi.RequestsDiffer` | src/presto_api.rs:47-62 | the two requests differ in method and in the model's body (a text body against `Empty`), and carry the same headers |
| `PrestoApi.UserHeaderIsEncoderUser` | src/presto_api.rs:47-62 | the header list of both requests is exactly what the header encoder writes for `User("jagill")`; no other field is sent |
| `Utf8.AsciiValid` | src/presto_api.rs:35 | bytes below 0x80 always form valid UTF-8 |
| `Utf8.InvalidLead` | src/presto_api.rs:35 | a body starting with a continuation byte, 0xC0, 0xC1 or a byte from 0xF5 up is not valid UTF-8 |

## Left out

- Network I/O (`http_client.request(...).await`) is left out. `GetResults` receives the exchange's outcome as a value, and `None` stands for a transport failure.
- Reading the body in chunks (`while let Some(chunk) = ...`) is left out, because it is I/O over hyper's `HttpBody`. The model takes the whole body as one byte sequence. It does not model a chunk that fails partway through.
- JSON decoding (`serde_json::from_slice` into `QueryResultsValue`) is left out, because `results.rs` is not part of this model. The decoder is a parameter, and a decoded page is opaque.
- The contents of `crate::error::Error` and `Error::from_status_code` are not part of this model. An error is only a status code, a decode error or a transport error.
- Logging (`println!`) is left out. The only effect kept from the debug print is the panic on a body that is not UTF-8.
- An empty statement is sent as `Text("")`. hyper's `Body::from` of an empty string is the empty body, which the model keeps distinct from `Empty`, because hyper's body type is not part of this model.
- The `Result` returned by `post_statement_request` and `get_results_request` is not modelled. The builders' validation of URIs and header strings is not modelled, so both functions always succeed and return the request itself.
- The polling loop, the 503 backoff and retries are left out, because the code does not implement them.
- `add_header` takes the builder by value and returns it. The model updates the `HeaderBuilder` object in place and returns the same reference.
- Rust's `HeaderMap` is modelled as an ordered list of pairs, to which `header` appends. Looking up a header by name, and the case-insensitivity of names, are not modelled. `http` stores header names normalised to lower case (`x-trino-user`), while the model keeps the names as the source writes them (`X-Trino-User`).
- `Strings.SortInPlace` is an insertion sort. It carries only the contract that `slice::sort` gives (ascending, a permutation); stability does not matter for strings that compare equal only when they are equal.
