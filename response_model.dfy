/**
 * The response's metadata as a value (status, tracked headers, the lazily
 * created cookie set), the operations a handler or a before-send finalizer
 * performs on it, and the commit sequence: run the finalizers in order, add
 * one `Set-Cookie` header per cookie, transmit once.
 */
module ResponseModel {
  import opened Wrappers
  import opened HeaderStore
  import opened ContentTypeTracking
  import opened Decimal
  import opened Utf8

  const DEFAULT_STATUS: int := 200
  const CONTENT_LENGTH: string := "content-length"
  const CONTENT_ENCODING: string := "content-encoding"
  const IDENTITY: string := "identity"
  const SET_COOKIE: string := "Set-Cookie"
  const PLAIN_TEXT_UTF8: string := "text/plain;charset=UTF-8"
  const OCTET_STREAM: string := "application/octet-stream"

  /** A cookie as recorded by the response; `maxAge` is `None` until it is given one. */
  datatype Cookie = Cookie(name: string, value: string, maxAge: Option<int>)

  /** A buffer of bytes; its readable bytes are the payload. */
  datatype ByteBuf = ByteBuf(readable: seq<byte>)

  /** What the transmitter is handed: a buffer, a file, or a stream publisher. */
  datatype Payload =
    | BufferPayload(buffer: ByteBuf)
    | FilePayload(path: string)
    | StreamPayload(publisher: nat)

  /** Observable steps of a commit, in the order they happen. */
  datatype Event =
    | Started(finalizer: nat)
    | Completed(finalizer: nat)
    | Transmitted(status: int, headers: seq<Header>, payload: Payload)

  /** One call a finalizer makes on the response metadata it is given. */
  datatype MetaOp =
    | ChangeStatus(code: int)
    | AddHeader(name: string, value: string)
    | SetHeader(name: string, value: string)
    | SetHeaderValues(name: string, values: seq<string>)
    | SetDateHeader(name: string, date: string)
    | RemoveHeader(name: string)
    | ClearHeaders
    | CopyHeaders(other: seq<Header>)
    | SetContentType(value: string)
    | DefaultContentType(value: string)
    | DisableCompression
    | RecordCookie(name: string, value: string)
    | RecordExpiredCookie(name: string)

  /** A before-send action: an identity and the calls it makes when executed. */
  datatype Finalizer = Finalizer(id: nat, ops: seq<MetaOp>)

  datatype ResponseMetaData = ResponseMetaData(status: int, headers: Tracked, cookies: Option<set<Cookie>>)
  {
    function CookieSet(): (r: set<Cookie>) {
      if cookies.Some? then cookies.value else {}
    }

    function WithStatus(code: int): (r: ResponseMetaData) {
      this.(status := code)
    }

    /** contentType(value): always overwrites. */
    function ContentType(value: string): (r: ResponseMetaData) {
      this.(headers := headers.Set(CONTENT_TYPE, value))
    }

    /** contentTypeIfNotSet(value): writes only while the flag is down. */
    function ContentTypeIfNotSet(value: string): (r: ResponseMetaData) {
      if headers.contentTypeSet then this else ContentType(value)
    }

    function NoCompress(): (r: ResponseMetaData) {
      this.(headers := headers.Set(CONTENT_ENCODING, IDENTITY))
    }

    /** cookie(name, value): creates the set on first use and records the cookie. */
    function WithCookie(c: Cookie): (r: ResponseMetaData) {
      this.(cookies := Some(CookieSet() + {c}))
    }

    function Apply(op: MetaOp): (r: ResponseMetaData) {
      match op
      case ChangeStatus(code) => WithStatus(code)
      case AddHeader(n, v) => this.(headers := headers.Add(n, v))
      case SetHeader(n, v) => this.(headers := headers.Set(n, v))
      case SetHeaderValues(n, vs) => this.(headers := headers.SetValues(n, vs))
      case SetDateHeader(n, d) => this.(headers := headers.SetDate(n, d))
      case RemoveHeader(n) => this.(headers := headers.Remove(n))
      case ClearHeaders => this.(headers := headers.Clear())
      case CopyHeaders(o) => this.(headers := headers.Copy(o))
      case SetContentType(v) => ContentType(v)
      case DefaultContentType(v) => ContentTypeIfNotSet(v)
      case DisableCompression => NoCompress()
      case RecordCookie(n, v) => WithCookie(Cookie(n, v, None))
      case RecordExpiredCookie(n) => WithCookie(Cookie(n, "", Some(0)))
    }

    /** The first step of commit(buffer): Content-Length becomes the readable byte count. */
    function PrepareCommit(buffer: ByteBuf): (r: ResponseMetaData) {
      this.(headers := headers.Set(CONTENT_LENGTH, NatToDecimal(|buffer.readable|)))
    }

    /** setCookieHeader: one add(Set-Cookie, encoded cookie) per cookie, in `order`. */
    function WithCookieHeaders(order: seq<Cookie>, encode: Cookie -> string): (r: ResponseMetaData) {
      this.(headers := AddCookieHeaders(headers, order, encode))
    }
  }

  function AddCookieHeaders(t: Tracked, order: seq<Cookie>, encode: Cookie -> string): (r: Tracked)
    decreases |order|
  {
    if order == [] then t
    else AddCookieHeaders(t, order[..|order| - 1], encode).Add(SET_COOKIE, encode(order[|order| - 1]))
  }

  /** The header lines setCookieHeader appends for `order`. */
  function CookieLines(order: seq<Cookie>, encode: Cookie -> string): (r: seq<Header>)
    ensures |r| == |order|
  {
    seq(|order|, i requires 0 <= i < |order| => Header(SET_COOKIE, encode(order[i])))
  }

  function Encoded(order: seq<Cookie>, encode: Cookie -> string): (r: seq<string>)
    ensures |r| == |order|
  {
    seq(|order|, i requires 0 <= i < |order| => encode(order[i]))
  }

  /** `order` visits every cookie of `s` exactly once: one way to iterate the set. */
  ghost predicate IsEnumeration(order: seq<Cookie>, s: set<Cookie>) {
    && (forall i, j :: 0 <= i < j < |order| ==> order[i] != order[j])
    && (forall c :: c in order <==> c in s)
  }

  function RunOps(m: ResponseMetaData, ops: seq<MetaOp>): (r: ResponseMetaData)
    decreases |ops|
  {
    if ops == [] then m else RunOps(m, ops[..|ops| - 1]).Apply(ops[|ops| - 1])
  }

  /** The metadata after every finalizer has executed, in registration order. */
  function RunAll(m: ResponseMetaData, fs: seq<Finalizer>): (r: ResponseMetaData)
    decreases |fs|
  {
    if fs == [] then m else RunOps(RunAll(m, fs[..|fs| - 1]), fs[|fs| - 1].ops)
  }

  /** The events of running `fs`: each finalizer starts, then completes, before the next starts. */
  function RanLog(fs: seq<Finalizer>): (r: seq<Event>)
    decreases |fs|
  {
    if fs == [] then [] else RanLog(fs[..|fs| - 1]) + [Started(fs[|fs| - 1].id), Completed(fs[|fs| - 1].id)]
  }

  function Transmissions(trace: seq<Event>): (r: nat)
    decreases |trace|
  {
    if trace == [] then 0
    else Transmissions(trace[..|trace| - 1]) + (if trace[|trace| - 1].Transmitted? then 1 else 0)
  }

  /**
   * What finalizeResponse does from `before`: the finalizers `fs` run in
   * order, then for some iteration order of the cookie set one Set-Cookie
   * header is added per cookie, and then the transmitter is called once with
   * the status, the headers as they now are, and `payload`.
   */
  ghost predicate Committed(before: ResponseMetaData, fs: seq<Finalizer>, encode: Cookie -> string,
                            payload: Payload, after: ResponseMetaData, trace: seq<Event>)
  {
    exists order ::
      && IsEnumeration(order, RunAll(before, fs).CookieSet())
      && after == RunAll(before, fs).WithCookieHeaders(order, encode)
      && trace == RanLog(fs) + [Transmitted(after.status, after.headers.store, payload)]
  }

  // ---------------------------------------------------------------------------
  // Content type and Content-Length.

  /**
   * contentTypeIfNotSet never overwrites a content type already recorded by
   * the flag, and otherwise leaves exactly the given value under Content-Type.
   */
  lemma {:induction false} DefaultOnlyWhenUnset(m: ResponseMetaData, value: string)
    ensures m.headers.contentTypeSet ==> m.ContentTypeIfNotSet(value) == m
    ensures !m.headers.contentTypeSet ==>
      && GetAll(m.ContentTypeIfNotSet(value).headers.store, CONTENT_TYPE) == [value]
      && m.ContentTypeIfNotSet(value).headers.contentTypeSet
    ensures m.ContentTypeIfNotSet(value).status == m.status
    ensures m.ContentTypeIfNotSet(value).cookies == m.cookies
  {
    ReplaceSetsValue(m.headers.store, CONTENT_TYPE, value, CONTENT_TYPE);
  }

  /** contentType always overwrites, and a later default cannot displace it. */
  lemma {:induction false} ExplicitContentTypeWins(m: ResponseMetaData, value: string, default: string)
    ensures GetAll(m.ContentType(value).headers.store, CONTENT_TYPE) == [value]
    ensures m.ContentType(value).headers.contentTypeSet
    ensures m.ContentType(value).ContentTypeIfNotSet(default) == m.ContentType(value)
  {
    ReplaceSetsValue(m.headers.store, CONTENT_TYPE, value, CONTENT_TYPE);
  }

  /** noCompress leaves `identity` as the only Content-Encoding and leaves the flag alone. */
  lemma {:induction false} NoCompressForcesIdentity(m: ResponseMetaData)
    ensures GetAll(m.NoCompress().headers.store, CONTENT_ENCODING) == [IDENTITY]
    ensures m.NoCompress().headers.contentTypeSet == m.headers.contentTypeSet
  {
    ReplaceSetsValue(m.headers.store, CONTENT_ENCODING, IDENTITY, CONTENT_ENCODING);
    assert !IsContentType(CONTENT_ENCODING) by {
      assert |LowerAscii(CONTENT_ENCODING)| != |LowerAscii(CONTENT_TYPE)|;
    }
  }

  /**
   * commit(buffer) writes the readable byte count as the only Content-Length
   * value, which reads back as that count, and touches nothing else a sender
   * relies on: the content type values and the flag are as they were.
   */
  lemma {:induction false} ContentLengthIsPayloadSize(m: ResponseMetaData, buffer: ByteBuf)
    ensures GetAll(m.PrepareCommit(buffer).headers.store, CONTENT_LENGTH) == [NatToDecimal(|buffer.readable|)]
    ensures ParseDecimal(NatToDecimal(|buffer.readable|)) == Some(|buffer.readable|)
    ensures GetAll(m.PrepareCommit(buffer).headers.store, CONTENT_TYPE) == GetAll(m.headers.store, CONTENT_TYPE)
    ensures m.PrepareCommit(buffer).headers.contentTypeSet == m.headers.contentTypeSet
  {
    var n := NatToDecimal(|buffer.readable|);
    ReplaceSetsValue(m.headers.store, CONTENT_LENGTH, n, CONTENT_LENGTH);
    ReplaceSetsValue(m.headers.store, CONTENT_LENGTH, n, CONTENT_TYPE);
    assert !NameEquals(CONTENT_LENGTH, CONTENT_TYPE) by {
      assert |LowerAscii(CONTENT_LENGTH)| != |LowerAscii(CONTENT_TYPE)|;
    }
    DecimalRoundTrip(|buffer.readable|);
  }

  /**
   * send(bytes) and send(buffer): octet-stream only when no content type was
   * set; Content-Length is the byte count, 0 for the empty buffer of send().
   */
  lemma {:induction false} SendBytesPrepared(m: ResponseMetaData, bytes: seq<byte>)
    ensures var p := m.ContentTypeIfNotSet(OCTET_STREAM).PrepareCommit(ByteBuf(bytes));
      && GetAll(p.headers.store, CONTENT_LENGTH) == [NatToDecimal(|bytes|)]
      && GetAll(p.headers.store, CONTENT_TYPE)
         == (if m.headers.contentTypeSet then GetAll(m.headers.store, CONTENT_TYPE) else [OCTET_STREAM])
      && p.headers.contentTypeSet
  {
    DefaultOnlyWhenUnset(m, OCTET_STREAM);
    ContentLengthIsPayloadSize(m.ContentTypeIfNotSet(OCTET_STREAM), ByteBuf(bytes));
  }

  /**
   * send(text): plain-text UTF-8 only when no content type was set (the
   * octet-stream default that follows is then a no-op); Content-Length is the
   * number of UTF-8 bytes of the text.
   */
  lemma {:induction false} SendTextPrepared(m: ResponseMetaData, text: string)
    ensures var p := m.ContentTypeIfNotSet(PLAIN_TEXT_UTF8).ContentTypeIfNotSet(OCTET_STREAM)
                      .PrepareCommit(ByteBuf(Encode(text)));
      && GetAll(p.headers.store, CONTENT_LENGTH) == [NatToDecimal(|Encode(text)|)]
      && |text| <= |Encode(text)| <= 4 * |text|
      && GetAll(p.headers.store, CONTENT_TYPE)
         == (if m.headers.contentTypeSet then GetAll(m.headers.store, CONTENT_TYPE) else [PLAIN_TEXT_UTF8])
  {
    DefaultOnlyWhenUnset(m, PLAIN_TEXT_UTF8);
    var m1 := m.ContentTypeIfNotSet(PLAIN_TEXT_UTF8);
    DefaultOnlyWhenUnset(m1, OCTET_STREAM);
    ContentLengthIsPayloadSize(m1, ByteBuf(Encode(text)));
  }

  /**
   * send(contentType, ...) on any body: the explicit type is the only Content-Type,
   * both for text (two defaults follow) and for bytes or a buffer (one default follows).
   */
  lemma {:induction false} SendWithExplicitType(m: ResponseMetaData, contentType: string, bytes: seq<byte>)
    ensures var p := m.ContentType(contentType).ContentTypeIfNotSet(PLAIN_TEXT_UTF8)
                      .ContentTypeIfNotSet(OCTET_STREAM).PrepareCommit(ByteBuf(bytes));
      && GetAll(p.headers.store, CONTENT_TYPE) == [contentType]
      && GetAll(p.headers.store, CONTENT_LENGTH) == [NatToDecimal(|bytes|)]
    ensures var p := m.ContentType(contentType).ContentTypeIfNotSet(OCTET_STREAM).PrepareCommit(ByteBuf(bytes));
      && GetAll(p.headers.store, CONTENT_TYPE) == [contentType]
      && GetAll(p.headers.store, CONTENT_LENGTH) == [NatToDecimal(|bytes|)]
  {
    ExplicitContentTypeWins(m, contentType, PLAIN_TEXT_UTF8);
    ExplicitContentTypeWins(m, contentType, OCTET_STREAM);
    ContentLengthIsPayloadSize(m.ContentType(contentType), ByteBuf(bytes));
  }

  /** expireCookie(name) records a cookie with that name, an empty value and max-age 0. */
  lemma ExpireCookieRecorded(m: ResponseMetaData, name: string)
    ensures m.Apply(RecordExpiredCookie(name)).cookies.Some?
    ensures Cookie(name, "", Some(0)) in m.Apply(RecordExpiredCookie(name)).CookieSet()
    ensures m.Apply(RecordExpiredCookie(name)).CookieSet() == m.CookieSet() + {Cookie(name, "", Some(0))}
  {
  }

  /** Only status(code) changes the status; every other metadata call keeps it. */
  lemma StatusOnlyChangedByStatusCall(m: ResponseMetaData, op: MetaOp)
    ensures op.ChangeStatus? ==> m.Apply(op).status == op.code
    ensures !op.ChangeStatus? ==> m.Apply(op).status == m.status
  {
  }

  // ---------------------------------------------------------------------------
  // Finalizer order and the single transmission.

  lemma {:induction false} RanLogShape(fs: seq<Finalizer>)
    ensures |RanLog(fs)| == 2 * |fs|
    ensures forall i :: 0 <= i < |fs| ==> RanLog(fs)[2 * i] == Started(fs[i].id)
    ensures forall i :: 0 <= i < |fs| ==> RanLog(fs)[2 * i + 1] == Completed(fs[i].id)
    ensures Transmissions(RanLog(fs)) == 0
    decreases |fs|
  {
    if fs != [] {
      var pre := fs[..|fs| - 1];
      RanLogShape(pre);
      var last := [Started(fs[|fs| - 1].id), Completed(fs[|fs| - 1].id)];
      assert RanLog(fs) == RanLog(pre) + last;
      forall i | 0 <= i < |fs|
        ensures RanLog(fs)[2 * i] == Started(fs[i].id) && RanLog(fs)[2 * i + 1] == Completed(fs[i].id)
      {
        if i < |pre| {
          assert pre[i] == fs[i];
        }
      }
      assert (RanLog(pre) + [Started(fs[|fs| - 1].id)])[..|RanLog(pre)|] == RanLog(pre);
      assert RanLog(fs)[..|RanLog(fs)| - 1] == RanLog(pre) + [Started(fs[|fs| - 1].id)];
    }
  }

  /**
   * A commit runs every finalizer exactly once in registration order, each
   * starting only after the previous one completed, and then calls the
   * transmitter exactly once, last, with the payload it was given.
   */
  lemma {:induction false} CommitOrdersFinalizersThenTransmits(before: ResponseMetaData, fs: seq<Finalizer>,
                                                               encode: Cookie -> string, payload: Payload,
                                                               after: ResponseMetaData, trace: seq<Event>)
    requires Committed(before, fs, encode, payload, after, trace)
    ensures |trace| == 2 * |fs| + 1
    ensures forall i :: 0 <= i < |fs| ==> trace[2 * i] == Started(fs[i].id) && trace[2 * i + 1] == Completed(fs[i].id)
    ensures trace[2 * |fs|] == Transmitted(after.status, after.headers.store, payload)
    ensures Transmissions(trace) == 1
  {
    RanLogShape(fs);
    var t := Transmitted(after.status, after.headers.store, payload);
    assert trace == RanLog(fs) + [t];
    assert trace[..|trace| - 1] == RanLog(fs);
  }

  // ---------------------------------------------------------------------------
  // Cookie headers.

  lemma {:induction false} EnumerationSize(order: seq<Cookie>, s: set<Cookie>)
    requires IsEnumeration(order, s)
    ensures |order| == |s|
    decreases |order|
  {
    if order == [] {
      assert forall c :: c !in s;
      assert s == {};
    } else {
      var last := order[|order| - 1];
      var pre := order[..|order| - 1];
      forall c
        ensures c in pre <==> c in s - {last}
      {
        if c in pre {
          var i :| 0 <= i < |pre| && pre[i] == c;
          assert order[i] == c;
        }
        if c in s - {last} {
          var i :| 0 <= i < |order| && order[i] == c;
          assert i < |pre|;
        }
      }
      EnumerationSize(pre, s - {last});
    }
  }

  lemma {:induction false} CookieHeadersAppend(t: Tracked, order: seq<Cookie>, encode: Cookie -> string)
    ensures AddCookieHeaders(t, order, encode) == Tracked(t.store + CookieLines(order, encode), t.contentTypeSet)
    decreases |order|
  {
    if order != [] {
      var pre := order[..|order| - 1];
      CookieHeadersAppend(t, pre, encode);
      assert CookieLines(order, encode) == CookieLines(pre, encode) + [Header(SET_COOKIE, encode(order[|order| - 1]))];
      assert !IsContentType(SET_COOKIE) by {
        assert |LowerAscii(SET_COOKIE)| != |LowerAscii(CONTENT_TYPE)|;
      }
    }
  }

  lemma {:induction false} ValuesOfCookieLines(order: seq<Cookie>, encode: Cookie -> string, name: string)
    ensures GetAll(CookieLines(order, encode), name) == if NameEquals(SET_COOKIE, name) then Encoded(order, encode) else []
  {
    assert CookieLines(order, encode) == Lines(SET_COOKIE, Encoded(order, encode));
    ValuesOfLines(SET_COOKIE, Encoded(order, encode), name);
  }

  /**
   * At commit exactly one Set-Cookie value is appended per recorded cookie,
   * each the encoding of a cookie of the set; no other header, the status,
   * the cookies and the flag are left as the finalizers left them. With no
   * cookie recorded (or the set never created) nothing is appended.
   */
  lemma {:induction false} OneSetCookiePerCookie(before: ResponseMetaData, fs: seq<Finalizer>,
                                                 encode: Cookie -> string, payload: Payload,
                                                 after: ResponseMetaData, trace: seq<Event>)
    requires Committed(before, fs, encode, payload, after, trace)
    ensures var mid := RunAll(before, fs);
      |GetAll(after.headers.store, SET_COOKIE)| == |GetAll(mid.headers.store, SET_COOKIE)| + |mid.CookieSet()|
    ensures var mid := RunAll(before, fs);
      forall c :: c in mid.CookieSet() ==> encode(c) in GetAll(after.headers.store, SET_COOKIE)
    ensures var mid := RunAll(before, fs);
      forall name :: !NameEquals(SET_COOKIE, name) ==> GetAll(after.headers.store, name) == GetAll(mid.headers.store, name)
    ensures var mid := RunAll(before, fs);
      after.status == mid.status && after.cookies == mid.cookies
      && after.headers.contentTypeSet == mid.headers.contentTypeSet
    ensures RunAll(before, fs).CookieSet() == {} ==> after == RunAll(before, fs)
  {
    var mid := RunAll(before, fs);
    var order :| && IsEnumeration(order, mid.CookieSet())
                 && after == mid.WithCookieHeaders(order, encode)
                 && trace == RanLog(fs) + [Transmitted(after.status, after.headers.store, payload)];
    EnumerationSize(order, mid.CookieSet());
    CookieHeadersAppend(mid.headers, order, encode);
    ValuesOfConcat(mid.headers.store, CookieLines(order, encode), SET_COOKIE);
    ValuesOfCookieLines(order, encode, SET_COOKIE);
    forall c | c in mid.CookieSet()
      ensures encode(c) in GetAll(after.headers.store, SET_COOKIE)
    {
      var i :| 0 <= i < |order| && order[i] == c;
      assert Encoded(order, encode)[i] == encode(c);
    }
    forall name | !NameEquals(SET_COOKIE, name)
      ensures GetAll(after.headers.store, name) == GetAll(mid.headers.store, name)
    {
      ValuesOfConcat(mid.headers.store, CookieLines(order, encode), name);
      ValuesOfCookieLines(order, encode, name);
    }
    if mid.CookieSet() == {} {
      assert order == [];
      assert mid.headers.store + [] == mid.headers.store;
    }
  }

  // ---------------------------------------------------------------------------
  // Content-Length survives finalizers that leave it alone.

  /** Whether `op` leaves every value stored under `name` as it is. */
  predicate Leaves(op: MetaOp, name: string) {
    match op
    case ChangeStatus(_) => true
    case AddHeader(n, _) => !NameEquals(n, name)
    case SetHeader(n, _) => !NameEquals(n, name)
    case SetHeaderValues(n, _) => !NameEquals(n, name)
    case SetDateHeader(n, _) => !NameEquals(n, name)
    case RemoveHeader(n) => !NameEquals(n, name)
    case ClearHeaders => false
    case CopyHeaders(o) => !Contains(o, name)
    case SetContentType(_) => !NameEquals(CONTENT_TYPE, name)
    case DefaultContentType(_) => !NameEquals(CONTENT_TYPE, name)
    case DisableCompression => !NameEquals(CONTENT_ENCODING, name)
    case RecordCookie(_, _) => true
    case RecordExpiredCookie(_) => true
  }

  predicate FinalizersLeave(fs: seq<Finalizer>, name: string) {
    forall i, j :: 0 <= i < |fs| && 0 <= j < |fs[i].ops| ==> Leaves(fs[i].ops[j], name)
  }

  lemma {:induction false} ApplyKeepsValues(m: ResponseMetaData, op: MetaOp, name: string)
    requires Leaves(op, name)
    ensures GetAll(m.Apply(op).headers.store, name) == GetAll(m.headers.store, name)
  {
    match op
    case ChangeStatus(_) =>
    case AddHeader(n, v) => StoreReceivesMutation(m.headers, n, v, [], [], name);
    case SetHeader(n, v) => StoreReceivesMutation(m.headers, n, v, [], [], name);
    case SetHeaderValues(n, vs) => StoreReceivesMutation(m.headers, n, "", vs, [], name);
    case SetDateHeader(n, d) => StoreReceivesMutation(m.headers, n, d, [], [], name);
    case RemoveHeader(n) => StoreReceivesMutation(m.headers, n, "", [], [], name);
    case CopyHeaders(o) =>
      StoreReceivesMutation(m.headers, "", "", [], o, name);
      ContainsIffValues(o, name);
    case SetContentType(v) => ReplaceSetsValue(m.headers.store, CONTENT_TYPE, v, name);
    case DefaultContentType(v) => ReplaceSetsValue(m.headers.store, CONTENT_TYPE, v, name);
    case DisableCompression => ReplaceSetsValue(m.headers.store, CONTENT_ENCODING, IDENTITY, name);
    case RecordCookie(_, _) =>
    case RecordExpiredCookie(_) =>
  }

  lemma {:induction false} RunAllKeepsValues(m: ResponseMetaData, fs: seq<Finalizer>, name: string)
    requires FinalizersLeave(fs, name)
    ensures GetAll(RunAll(m, fs).headers.store, name) == GetAll(m.headers.store, name)
    decreases |fs|
  {
    if fs != [] {
      var pre := fs[..|fs| - 1];
      assert FinalizersLeave(pre, name) by {
        forall i, j | 0 <= i < |pre| && 0 <= j < |pre[i].ops|
          ensures Leaves(pre[i].ops[j], name)
        {
          assert pre[i] == fs[i];
        }
      }
      RunAllKeepsValues(m, pre, name);
      var ops := fs[|fs| - 1].ops;
      RunOpsKeepsValues(RunAll(m, pre), ops, name);
    }
  }

  lemma {:induction false} RunOpsKeepsValues(m: ResponseMetaData, ops: seq<MetaOp>, name: string)
    requires forall j :: 0 <= j < |ops| ==> Leaves(ops[j], name)
    ensures GetAll(RunOps(m, ops).headers.store, name) == GetAll(m.headers.store, name)
    decreases |ops|
  {
    if ops != [] {
      var pre := ops[..|ops| - 1];
      assert forall j :: 0 <= j < |pre| ==> pre[j] == ops[j];
      RunOpsKeepsValues(m, pre, name);
      ApplyKeepsValues(RunOps(m, pre), ops[|ops| - 1], name);
    }
  }

  /**
   * When no finalizer touches Content-Length, the headers handed to the
   * transmitter carry exactly the payload's byte count as Content-Length.
   */
  lemma {:induction false} TransmittedContentLength(m: ResponseMetaData, buffer: ByteBuf, fs: seq<Finalizer>,
                                                    encode: Cookie -> string, after: ResponseMetaData,
                                                    trace: seq<Event>)
    requires Committed(m.PrepareCommit(buffer), fs, encode, BufferPayload(buffer), after, trace)
    requires FinalizersLeave(fs, CONTENT_LENGTH)
    ensures GetAll(after.headers.store, CONTENT_LENGTH) == [NatToDecimal(|buffer.readable|)]
    ensures trace[|trace| - 1] == Transmitted(after.status, after.headers.store, BufferPayload(buffer))
  {
    ContentLengthIsPayloadSize(m, buffer);
    RunAllKeepsValues(m.PrepareCommit(buffer), fs, CONTENT_LENGTH);
    OneSetCookiePerCookie(m.PrepareCommit(buffer), fs, encode, BufferPayload(buffer), after, trace);
    assert !NameEquals(SET_COOKIE, CONTENT_LENGTH) by {
      assert |LowerAscii(SET_COOKIE)| != |LowerAscii(CONTENT_LENGTH)|;
    }
    CommitOrdersFinalizersThenTransmits(m.PrepareCommit(buffer), fs, encode, BufferPayload(buffer), after, trace);
  }
}
