# Ratpack response commit: a verified Dafny model

This project models Ratpack's HTTP response object, `DefaultResponse`, and
proves properties of the model. A response holds four things until it is sent:

- a pending status, 200 by default;
- a header store behind a wrapper that keeps a `contentTypeSet` flag;
- a lazily created cookie set;
- an append-only list of before-send finalizers.

Every `send` variant commits in the same way:

1. Buffer sends write `Content-Length`. Those given bytes, a buffer or text
   first choose a default content type if none is set; `send()` with no
   body chooses none.
2. The finalizers run one after another, in registration order.
3. One `Set-Cookie` header is added per recorded cookie.
4. The transmitter is called once, with a buffer, a file or a stream.

## Layout

- `header_store.dfy` (`HeaderStore`): the wrapped header store. It is an
  ordered list of (name, value) lines. Names compare ASCII
  case-insensitively. The module has the store's add, set, set-many and remove,
  and lemmas on what each does, and what appending lines does, to the values
  under every name. The store's copy is modelled as appending lines, in
  `ContentTypeTracking.Tracked.Copy`.
- `content_type_tracking.dfy` (`ContentTypeTracking`): the wrapper's
  operations as values. `Tracked` is the store plus the flag. The flag rules
  are exactly the code's.
- `decimal.dfy` (`Decimal`): the decimal text of the `Content-Length`
  value, and a parser that reads it back.
- `utf8.dfy` (`Utf8`): UTF-8 encoding of the text given to `send(text)`.
- `response_model.dfy` (`ResponseModel`): the response metadata as a value.
  It also holds the calls a finalizer can make, the commit sequence, and
  the lemmas about the commit.
- `response.dfy` (`Response`): the imperative model. `MutableHeadersWrapper`
  and `DefaultResponse` are classes whose methods update fields in place.
  Each method is proved against the value-level functions. `FinalizeResponse`
  drains the finalizer list with a loop. `SetCookieHeader` loops over the
  cookie set.
- `scenarios.dfy` (`Scenarios`): a client that uses only the contracts. It
  registers two finalizers and sends three bytes. It shows the trace order
  and that a cookie recorded by a finalizer reaches the transmitted headers.

The transmitter is modelled as the ghost event log `events`. Running
finalizer `k` appends `Started(k)` and then `Completed(k)`. A transmission
appends `Transmitted(status, headers, payload)`, which records the status
and the header lines at the moment of the call.

A finalizer is modelled as an identifier plus the list of calls it makes on
the response metadata it is given. These calls are status, header
operations, content type, noCompress, and cookie and expireCookie.

### Where the code departs from the intended design

- **The flag is not always accurate.** The flag is meant to say whether a
  Content-Type header is present, after every operation. The code
  keeps this for add, set, remove, clear and copy (`FlagStaysAccurate`). It
  does not keep it in two cases:
  - `setDate` bypasses the flag (`SetDateLeavesFlagDown`);
  - `set("Content-Type", no values)` leaves the flag up while no
    Content-Type line remains (`SetValuesAccuracy`).
- **`send()` sets no content type.** It commits an empty buffer with
  `Content-Length: 0` and applies no default content type.
- **Nothing stops a second send.** A second `send` runs the finalizers again
  and transmits again; the model allows this as the code does.

## Model

All source paths are relative to the repository root.

| member | source | states |
|---|---|---|
| Response.MutableHeadersWrapper.constructor | ratpack-core/src/main/java/ratpack/http/internal/DefaultResponse.java:63-69 | the wrapper holds the given store and the flag starts false, whatever the store holds |
| Response.MutableHeadersWrapper.Add | ratpack-core/src/main/java/ratpack/http/internal/DefaultResponse.java:71-79 | a Content-Type name (any case) raises the flag, and any other name leaves it as it was; the line is appended to the store |
| Response.MutableHeadersWrapper.Set | ratpack-core/src/main/java/ratpack/http/internal/DefaultResponse.java:81-89 | same flag rule as add; the store's lines for that name are replaced by the one value |
| Response.MutableHeadersWrapper.SetDate | ratpack-core/src/main/java/ratpack/http/internal/DefaultResponse.java:91-95 | the store is set and the flag is left untouched, even for Content-Type |
| Response.MutableHeadersWrapper.SetValues | ratpack-core/src/main/java/ratpack/http/internal/DefaultResponse.java:97-105 | same flag rule as add; that name's lines become one line per given value |
| Response.MutableHeadersWrapper.Remove | ratpack-core/src/main/java/ratpack/http/internal/DefaultResponse.java:107-115 | removing Content-Type (any case) lowers the flag, and any other name leaves it; every line with that name is dropped |
| Response.MutableHeadersWrapper.Clear | ratpack-core/src/main/java/ratpack/http/internal/DefaultResponse.java:117-122 | the flag is false and the store is empty |
| Response.MutableHeadersWrapper.Copy | ratpack-core/src/main/java/ratpack/http/internal/DefaultResponse.java:124-131 | the copied lines are appended; the flag is raised when they contain Content-Type and is never lowered |
| HeaderStore.Contains | ratpack-core/src/main/java/ratpack/http/internal/DefaultResponse.java:172-180 | contains(name) holds exactly when some line carries the name, ASCII case-insensitively: the lower-cased name is among the store's lower-cased names |
| HeaderStore.GetAll | ratpack-core/src/main/java/ratpack/http/internal/DefaultResponse.java:162-170 | getAll(name) gives one value per line carrying the name: its length plus the number of lines remove(name) keeps is the store's length |
| HeaderStore.Get | ratpack-core/src/main/java/ratpack/http/internal/DefaultResponse.java:138-148 | get(name) has a value exactly when the store contains the name, and the value is the first one stored |
| HeaderStore.ContainsIffValues | ratpack-core/src/main/java/ratpack/http/internal/DefaultResponse.java:172-180 | contains(name) holds exactly when getAll(name) is non-empty |
| HeaderStore.ValuesOfConcat | ratpack-core/src/main/java/ratpack/http/internal/DefaultResponse.java:125-126 | after appending lines, each name's values are its old values followed by the appended ones |
| HeaderStore.ValuesAfterRemove | ratpack-core/src/main/java/ratpack/http/internal/DefaultResponse.java:113 | remove(name) drops exactly that name's values (any case) and keeps every other name's values in order |
| HeaderStore.ValuesOfLines | ratpack-core/src/main/java/ratpack/http/internal/DefaultResponse.java:103 | the lines written by set(name, values) show exactly `values` under that name and nothing under other names |
| HeaderStore.AppendAddsValue | ratpack-core/src/main/java/ratpack/http/internal/DefaultResponse.java:77 | add appends the value to the end of that name's values; other names are unchanged |
| HeaderStore.ReplaceSetsValue | ratpack-core/src/main/java/ratpack/http/internal/DefaultResponse.java:87 | after set(name, value) the name's values are exactly [value]; other names are unchanged |
| HeaderStore.ReplaceAllSetsValues | ratpack-core/src/main/java/ratpack/http/internal/DefaultResponse.java:103 | after set(name, values) the name's values are exactly `values`; other names are unchanged |
| HeaderStore.ContainsAfterOperations | ratpack-core/src/main/java/ratpack/http/internal/DefaultResponse.java:72-131 | gives the presence of every name after add, set, set-many, remove and copy, both directions |
| ContentTypeTracking.FlagStaysAccurate | ratpack-core/src/main/java/ratpack/http/internal/DefaultResponse.java:72-131 | if the flag says whether Content-Type is present, it still does after add, set, remove, clear and copy with any arguments |
| ContentTypeTracking.SetValuesAccuracy | ratpack-core/src/main/java/ratpack/http/internal/DefaultResponse.java:97-105 | set(name, values) keeps an accurate flag accurate iff it does not set Content-Type to no values |
| ContentTypeTracking.SetDateLeavesFlagDown | ratpack-core/src/main/java/ratpack/http/internal/DefaultResponse.java:91-95 | setDate(Content-Type, d) on a lowered flag stores a Content-Type while the flag stays false |
| ContentTypeTracking.FlagOnlyLoweredByRemoveOrClear | ratpack-core/src/main/java/ratpack/http/internal/DefaultResponse.java:107-131 | a raised flag stays raised under add, set, setDate, set-many and copy; only remove(Content-Type) and clear lower it |
| ContentTypeTracking.StoreReceivesMutation | ratpack-core/src/main/java/ratpack/http/internal/DefaultResponse.java:72-131 | each wrapper operation always reaches the store: the values under every name after add, set, setDate, set-many, remove, clear and copy |
| Response.DefaultResponse.constructor | ratpack-core/src/main/java/ratpack/http/internal/DefaultResponse.java:47-61 | the status is 200; the flag is down; there is no cookie set and no finalizer |
| Response.DefaultResponse.Status | ratpack-core/src/main/java/ratpack/http/internal/DefaultResponse.java:197-210 | the pending status becomes the code; nothing else changes |
| ResponseModel.StatusOnlyChangedByStatusCall | ratpack-core/src/main/java/ratpack/http/internal/DefaultResponse.java:201-205 | only status(code) changes the status; every other metadata call keeps it |
| Response.DefaultResponse.NoCompress | ratpack-core/src/main/java/ratpack/http/internal/DefaultResponse.java:212-216 | Content-Encoding's only value becomes `identity` |
| ResponseModel.NoCompressForcesIdentity | ratpack-core/src/main/java/ratpack/http/internal/DefaultResponse.java:213-215 | noCompress leaves `identity` as the only Content-Encoding value and does not move the flag |
| Response.DefaultResponse.ContentTypeIfNotSet | ratpack-core/src/main/java/ratpack/http/internal/DefaultResponse.java:227-233 | with the flag up the headers are unchanged; with it down the supplied value becomes the only Content-Type and the flag rises |
| Response.DefaultResponse.ContentType | ratpack-core/src/main/java/ratpack/http/internal/DefaultResponse.java:235-239 | afterwards the flag is up and the value is the only Content-Type |
| ResponseModel.DefaultOnlyWhenUnset | ratpack-core/src/main/java/ratpack/http/internal/DefaultResponse.java:228-232 | with the flag up contentTypeIfNotSet changes nothing; with it down the value becomes the only Content-Type and the flag rises |
| ResponseModel.ExplicitContentTypeWins | ratpack-core/src/main/java/ratpack/http/internal/DefaultResponse.java:236-238 | contentType always overwrites, and no later default can displace it |
| Response.DefaultResponse.Commit | ratpack-core/src/main/java/ratpack/http/internal/DefaultResponse.java:318-324 | sets Content-Length to the readable byte count, then runs the commit sequence with the buffer |
| ResponseModel.ContentLengthIsPayloadSize | ratpack-core/src/main/java/ratpack/http/internal/DefaultResponse.java:318-319 | Content-Length's only value is the decimal byte count, which parses back to that count; Content-Type and the flag are untouched |
| Decimal.NatToDecimal | ratpack-core/src/main/java/ratpack/http/internal/DefaultResponse.java:319 | the Content-Length text is a non-empty run of digits with no leading zero |
| Decimal.DecimalRoundTrip | ratpack-core/src/main/java/ratpack/http/internal/DefaultResponse.java:319 | parsing the Content-Length text gives back exactly the byte count |
| Response.DefaultResponse.Send | ratpack-core/src/main/java/ratpack/http/internal/DefaultResponse.java:223-225 | commits an empty buffer without choosing a content type |
| Response.DefaultResponse.SendBytes | ratpack-core/src/main/java/ratpack/http/internal/DefaultResponse.java:251-254 | octet-stream only if no content type was set, then commits the bytes as a buffer |
| Response.DefaultResponse.SendTypedBytes | ratpack-core/src/main/java/ratpack/http/internal/DefaultResponse.java:256-258 | the given content type, then send(bytes) |
| Response.DefaultResponse.SendBuffer | ratpack-core/src/main/java/ratpack/http/internal/DefaultResponse.java:265-268 | octet-stream only if no content type was set, then commits the buffer |
| Response.DefaultResponse.SendTypedBuffer | ratpack-core/src/main/java/ratpack/http/internal/DefaultResponse.java:260-263 | the given content type, then send(buffer) |
| ResponseModel.SendBytesPrepared | ratpack-core/src/main/java/ratpack/http/internal/DefaultResponse.java:251-254 | before the finalizers run, Content-Length is the byte count; Content-Type is octet-stream iff none was set, and otherwise is unchanged |
| Response.DefaultResponse.SendText | ratpack-core/src/main/java/ratpack/http/internal/DefaultResponse.java:241-244 | commits the UTF-8 bytes of the text with plain-text UTF-8 as the default type |
| Response.DefaultResponse.SendTypedText | ratpack-core/src/main/java/ratpack/http/internal/DefaultResponse.java:246-249 | the given content type, then send(text) |
| ResponseModel.SendTextPrepared | ratpack-core/src/main/java/ratpack/http/internal/DefaultResponse.java:241-244 | Content-Length is the UTF-8 byte count, between 1 and 4 bytes per character; plain-text UTF-8 is used only if no content type was set |
| ResponseModel.SendWithExplicitType | ratpack-core/src/main/java/ratpack/http/internal/DefaultResponse.java:246-263 | with send(contentType, …) the explicit type is the only Content-Type, whatever defaults follow, and Content-Length is the byte count |
| Utf8.EncodeScalar | ratpack-core/src/main/java/ratpack/http/internal/DefaultResponse.java:242 | each code point encodes to 1 to 4 bytes, one byte exactly for ASCII, and that byte is its code |
| Utf8.Encode | ratpack-core/src/main/java/ratpack/http/internal/DefaultResponse.java:242 | the encoded text has between one and four bytes per character |
| Utf8.AsciiEncodesToCodes | ratpack-core/src/main/java/ratpack/http/internal/DefaultResponse.java:242 | ASCII text encodes to one byte per character, each equal to the character's code |
| Response.DefaultResponse.SendFile | ratpack-core/src/main/java/ratpack/http/internal/DefaultResponse.java:270-275 | runs the commit sequence with the file and no Content-Length |
| Response.DefaultResponse.SendStream | ratpack-core/src/main/java/ratpack/http/internal/DefaultResponse.java:277-283 | runs the commit sequence and hands the publisher to the transmitter |
| Response.DefaultResponse.BeforeSend | ratpack-core/src/main/java/ratpack/http/internal/DefaultResponse.java:285-289 | the finalizer is appended to the list; the metadata is unchanged |
| Response.DefaultResponse.GetCookies | ratpack-core/src/main/java/ratpack/http/internal/DefaultResponse.java:291-296 | creates the empty set on first use and otherwise returns the existing set |
| Response.DefaultResponse.AddCookie | ratpack-core/src/main/java/ratpack/http/internal/DefaultResponse.java:298-302 | the cookie (name, value, no max-age) is returned and recorded in the set |
| Response.DefaultResponse.ExpireCookie | ratpack-core/src/main/java/ratpack/http/internal/DefaultResponse.java:304-308 | the recorded and returned cookie has the name, an empty value and max-age 0 |
| ResponseModel.ExpireCookieRecorded | ratpack-core/src/main/java/ratpack/http/internal/DefaultResponse.java:304-308 | expireCookie creates the set if needed and adds exactly (name, "", max-age 0) |
| Response.DefaultResponse.Apply | ratpack-core/src/main/java/ratpack/http/internal/DefaultResponse.java:329 | a finalizer's call on the response has the same effect as the matching metadata operation |
| Response.DefaultResponse.SetCookieHeader | ratpack-core/src/main/java/ratpack/http/internal/DefaultResponse.java:310-316 | for some order that visits each cookie once, one Set-Cookie line per cookie is added through the wrapper; with no cookies nothing is added |
| ResponseModel.EnumerationSize | ratpack-core/src/main/java/ratpack/http/internal/DefaultResponse.java:312 | an iteration that visits each cookie of the set exactly once has as many steps as the set has cookies |
| ResponseModel.CookieHeadersAppend | ratpack-core/src/main/java/ratpack/http/internal/DefaultResponse.java:312-314 | adding the cookie headers appends one Set-Cookie line per cookie, in order, and leaves the flag alone |
| ResponseModel.ValuesOfCookieLines | ratpack-core/src/main/java/ratpack/http/internal/DefaultResponse.java:313 | the appended lines show exactly the encoded cookies under Set-Cookie and nothing under other names |
| Response.DefaultResponse.FinalizeResponse | ratpack-core/src/main/java/ratpack/http/internal/DefaultResponse.java:326-335 | runs the finalizers in order, then adds the cookie headers and transmits once |
| ResponseModel.RanLogShape | ratpack-core/src/main/java/ratpack/http/internal/DefaultResponse.java:326-335 | the finalizer events are Started(k), Completed(k) for each finalizer in registration order, with no transmission among them |
| ResponseModel.CommitOrdersFinalizersThenTransmits | ratpack-core/src/main/java/ratpack/http/internal/DefaultResponse.java:320-335 | every finalizer runs once, in order, each starting after the previous completed; the transmitter is then called exactly once, last, with the payload |
| ResponseModel.OneSetCookiePerCookie | ratpack-core/src/main/java/ratpack/http/internal/DefaultResponse.java:310-323 | at commit the Set-Cookie count grows by exactly the number of cookies and every cookie's encoding is present before transmission; with no cookies nothing changes |
| ResponseModel.ApplyKeepsValues | ratpack-core/src/main/java/ratpack/http/internal/DefaultResponse.java:329 | a finalizer call that does not name a header leaves that header's values unchanged |
| ResponseModel.RunOpsKeepsValues | ratpack-core/src/main/java/ratpack/http/internal/DefaultResponse.java:329 | the same holds for a finalizer's whole sequence of calls |
| ResponseModel.RunAllKeepsValues | ratpack-core/src/main/java/ratpack/http/internal/DefaultResponse.java:326-335 | finalizers that leave a header alone keep its values through the whole drain |
| ResponseModel.TransmittedContentLength | ratpack-core/src/main/java/ratpack/http/internal/DefaultResponse.java:318-324 | unless a finalizer touches Content-Length, the transmitted headers carry exactly the payload's byte count as Content-Length |

## Left out

- The asynchronous hand-off through `ExecControl.current().nest` is
  modelled as a sequential loop over the finalizer list.
  - A finalizer is modelled as a list of metadata calls. Arbitrary code in a
    finalizer is not modelled: suspension, exceptions, and registering
    further finalizers during the drain.
- `ResponseTransmitter` and `Publisher.subscribe` are transport I/O. A
  transmission is a ghost `Transmitted` event with the status, headers and
  payload. A stream is an opaque publisher number, so the chunks it would
  push are not modelled.
- `ByteBuf` and `ByteBufAllocator` are modelled as a value holding the
  readable bytes. Pooling, reference counting and aliasing of buffers are not
  modelled.
- `ServerCookieEncoder.encode` is a foreign library call. It is the function
  `cookieEncoder`, given to the constructor. The cookie wire format from
  section 4.1 of RFC 6265 is not modelled.
- `ByteBufUtil.encodeString` is modelled as UTF-8 encoding of code points.
  Dafny characters are scalar values, so the replacement of unpaired
  surrogates is not modelled.
- The wrapped `MutableHeaders` implementation is not part of this model. Its
  add, set, set-many, remove and clear are modelled on Netty's
  ordered multi-map. Its `copy` is modelled as appending every line of the
  other headers.
- `Response.MutableHeadersWrapper.SetDate` takes the date as the
  already-formatted header text; HTTP-date formatting is not modelled.
- The read accessors of the wrapper pass straight through to the store:
  - `get`, `getAll` and `contains` are `HeaderStore.Get`, `GetAll` and
    `Contains`;
  - `getDate`, `getNames`, `asMultiValueMap` and `getNettyHeaders` are views
    and are left out.
- `HttpResponseStatus.valueOf` and its reason phrases are left out. The
  status is its integer code, and `getStatus` only reads it.
- Response.DefaultResponse.ContentTypeIfNotSet: the supplier is modelled as
  a pure function. So the model does not capture that the code calls the
  supplier only when no content type is set, nor any side effects of the
  call; it shows only that the result ignores the supplier when the flag is
  up.
- Response.DefaultResponse.Status: the exception `HttpResponseStatus.valueOf`
  throws for a negative code is not modelled; `Status(-1)` stores -1.
- Java's `int` is not modelled: byte counts are unbounded naturals, so
  payloads of 2^31 bytes or more are not ruled out.
- Cookies are values (name, value, max-age), and the set holds distinct
  values. Netty's `DefaultCookie` equality, which goes by name (with path and
  domain), is not modelled. Changing a cookie object after it was returned is
  not modelled either.
- Response.DefaultResponse.ExpireCookie (and `ResponseModel.ExpireCookieRecorded`):
  the model adds the expired cookie `(name, "", max-age 0)` to the set even
  when a cookie of that name is already there. In the code the hash set sees
  the new cookie as equal to the existing one, so the add is a no-op and
  max-age 0 is set on a cookie that is not in the set. After
  `cookie("a", "1")` and then `expireCookie("a")` the code keeps only `a=1`
  and expires nothing; the model keeps both cookies.
- Response.DefaultResponse.GetCookies: the returned set is a copy. A caller
  that adds, removes or clears cookies through the returned set changes what
  the code emits as `Set-Cookie`, but the model does not capture this
  aliasing. Cookies can only be added, through `AddCookie`, `ExpireCookie` and
  the matching finalizer calls, and never removed.
- Response.DefaultResponse.AddCookie and Response.DefaultResponse.ExpireCookie:
  the `DefaultCookie` constructor trims the name and throws for an empty name.
  Neither is modelled: the name is recorded as given, and an empty name is
  accepted.
- The session layer is not part of this model: `SessionAdapter`,
  `SessionService`, `JavaSerializationSessionValueSerializer` and the
  client-side cookie codec. So are the launch configuration
  (`DelegatingLaunchConfig`) and the Groovy handler factory
  (`GroovyScriptFileHandlerFactory`). They are delegation, interfaces,
  foreign serialization, or file-system and dependency-injection wiring.
