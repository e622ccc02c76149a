/**
 * The response object itself. `MutableHeadersWrapper` wraps the header store
 * and keeps the content-type flag; `DefaultResponse` holds the pending
 * status, the wrapper, the lazily created cookie set and the before-send
 * finalizers, and commits through a transmitter recorded as `events`.
 */
module Response {
  import opened Wrappers
  import opened HeaderStore
  import opened ContentTypeTracking
  import opened Decimal
  import opened Utf8
  import opened ResponseModel

  class MutableHeadersWrapper {
    var wrapped: seq<Header>
    var contentTypeSet: bool

    /** The flag starts down whatever the wrapped store already holds. */
    constructor (wrapped: seq<Header>)
      ensures this.wrapped == wrapped && !contentTypeSet
    {
      this.wrapped := wrapped;
      contentTypeSet := false;
    }

    function State(): (r: Tracked)
      reads this
    {
      Tracked(wrapped, contentTypeSet)
    }

    method Add(name: string, value: string)
      modifies this
      ensures contentTypeSet == (old(contentTypeSet) || IsContentType(name))
      ensures wrapped == Append(old(wrapped), name, value)
      ensures State() == old(State()).Add(name, value)
    {
      if !contentTypeSet && IsContentType(name) {
        contentTypeSet := true;
      }
      wrapped := Append(wrapped, name, value);
    }

    method Set(name: string, value: string)
      modifies this
      ensures contentTypeSet == (old(contentTypeSet) || IsContentType(name))
      ensures wrapped == Replace(old(wrapped), name, value)
      ensures State() == old(State()).Set(name, value)
    {
      if !contentTypeSet && IsContentType(name) {
        contentTypeSet := true;
      }
      wrapped := Replace(wrapped, name, value);
    }

    /** setDate goes straight to the store: the flag is not updated, even for Content-Type. */
    method SetDate(name: string, date: string)
      modifies this
      ensures contentTypeSet == old(contentTypeSet)
      ensures wrapped == Replace(old(wrapped), name, date)
      ensures State() == old(State()).SetDate(name, date)
    {
      wrapped := Replace(wrapped, name, date);
    }

    method SetValues(name: string, values: seq<string>)
      modifies this
      ensures contentTypeSet == (old(contentTypeSet) || IsContentType(name))
      ensures wrapped == ReplaceAll(old(wrapped), name, values)
      ensures State() == old(State()).SetValues(name, values)
    {
      if !contentTypeSet && IsContentType(name) {
        contentTypeSet := true;
      }
      wrapped := ReplaceAll(wrapped, name, values);
    }

    method Remove(name: string)
      modifies this
      ensures contentTypeSet == (if IsContentType(name) then false else old(contentTypeSet))
      ensures wrapped == HeaderStore.Remove(old(wrapped), name)
      ensures State() == old(State()).Remove(name)
    {
      if IsContentType(name) {
        contentTypeSet := false;
      }
      wrapped := HeaderStore.Remove(wrapped, name);
    }

    method Clear()
      modifies this
      ensures !contentTypeSet && wrapped == []
      ensures State() == old(State()).Clear()
    {
      contentTypeSet := false;
      wrapped := [];
    }

    /** copy raises the flag when `other` has a Content-Type and never lowers it. */
    method Copy(other: seq<Header>)
      modifies this
      ensures contentTypeSet == (old(contentTypeSet) || Contains(other, CONTENT_TYPE))
      ensures wrapped == old(wrapped) + other
      ensures State() == old(State()).Copy(other)
    {
      wrapped := wrapped + other;
      if Contains(other, CONTENT_TYPE) {
        contentTypeSet := true;
      }
    }
  }

  class DefaultResponse {
    var status: int
    const headers: MutableHeadersWrapper
    var cookies: Option<set<Cookie>>
    var responseFinalizers: seq<Finalizer>
    /** How a cookie is rendered as a Set-Cookie value. */
    const cookieEncoder: Cookie -> string
    /** What the finalizers and the transmitter were observed doing, oldest first. */
    ghost var events: seq<Event>

    constructor (initialHeaders: seq<Header>, cookieEncoder: Cookie -> string)
      ensures fresh(headers)
      ensures status == DEFAULT_STATUS
      ensures headers.wrapped == initialHeaders && !headers.contentTypeSet
      ensures cookies == None && responseFinalizers == [] && events == []
      ensures this.cookieEncoder == cookieEncoder
    {
      status := DEFAULT_STATUS;
      headers := new MutableHeadersWrapper(initialHeaders);
      cookies := None;
      responseFinalizers := [];
      this.cookieEncoder := cookieEncoder;
      events := [];
    }

    function MetaData(): (r: ResponseMetaData)
      reads this, headers
    {
      ResponseMetaData(status, headers.State(), cookies)
    }

    method Status(code: int)
      modifies this
      ensures status == code
      ensures MetaData() == old(MetaData()).WithStatus(code)
      ensures responseFinalizers == old(responseFinalizers) && events == old(events)
    {
      status := code;
    }

    method NoCompress()
      modifies headers
      ensures GetAll(headers.wrapped, CONTENT_ENCODING) == [IDENTITY]
      ensures MetaData() == old(MetaData()).NoCompress()
    {
      headers.Set(CONTENT_ENCODING, IDENTITY);
      NoCompressForcesIdentity(old(MetaData()));
    }

    method ContentType(value: string)
      modifies headers
      ensures headers.contentTypeSet && GetAll(headers.wrapped, CONTENT_TYPE) == [value]
      ensures MetaData() == old(MetaData()).ContentType(value)
    {
      headers.Set(CONTENT_TYPE, value);
      ExplicitContentTypeWins(old(MetaData()), value, value);
    }

    /**
     * With a content type already set the headers are left as they were;
     * otherwise the supplied value becomes the only Content-Type.
     */
    method ContentTypeIfNotSet(supplier: () -> string)
      modifies headers
      ensures old(headers.contentTypeSet) ==> unchanged(headers)
      ensures !old(headers.contentTypeSet) ==>
                headers.contentTypeSet && GetAll(headers.wrapped, CONTENT_TYPE) == [supplier()]
      ensures MetaData() == old(MetaData()).ContentTypeIfNotSet(supplier())
    {
      if !headers.contentTypeSet {
        ContentType(supplier());
      }
    }

    method BeforeSend(finalizer: Finalizer)
      modifies this
      ensures responseFinalizers == old(responseFinalizers) + [finalizer]
      ensures MetaData() == old(MetaData()) && events == old(events)
    {
      responseFinalizers := responseFinalizers + [finalizer];
    }

    /** Creates the cookie set on first use. */
    method GetCookies() returns (s: set<Cookie>)
      modifies this
      ensures cookies == Some(old(MetaData()).CookieSet()) && s == cookies.value
      ensures status == old(status) && responseFinalizers == old(responseFinalizers) && events == old(events)
    {
      if cookies.None? {
        cookies := Some({});
      }
      s := cookies.value;
    }

    method AddCookie(name: string, value: string) returns (c: Cookie)
      modifies this
      ensures c == Cookie(name, value, None)
      ensures MetaData() == old(MetaData()).Apply(RecordCookie(name, value))
      ensures responseFinalizers == old(responseFinalizers) && events == old(events)
    {
      c := Cookie(name, value, None);
      var s := GetCookies();
      cookies := Some(s + {c});
    }

    /** Records an empty-valued cookie with max-age 0, telling the client to delete it. */
    method ExpireCookie(name: string) returns (c: Cookie)
      modifies this
      ensures c == Cookie(name, "", Some(0)) && c in MetaData().CookieSet()
      ensures MetaData() == old(MetaData()).Apply(RecordExpiredCookie(name))
      ensures responseFinalizers == old(responseFinalizers) && events == old(events)
    {
      c := Cookie(name, "", Some(0));
      var s := GetCookies();
      cookies := Some(s + {c});
    }

    /** One call made by a finalizer on the response metadata. */
    method Apply(op: MetaOp)
      modifies this, headers
      ensures MetaData() == old(MetaData()).Apply(op)
      ensures responseFinalizers == old(responseFinalizers) && events == old(events)
    {
      match op
      case ChangeStatus(code) => Status(code);
      case AddHeader(n, v) => headers.Add(n, v);
      case SetHeader(n, v) => headers.Set(n, v);
      case SetHeaderValues(n, vs) => headers.SetValues(n, vs);
      case SetDateHeader(n, d) => headers.SetDate(n, d);
      case RemoveHeader(n) => headers.Remove(n);
      case ClearHeaders => headers.Clear();
      case CopyHeaders(o) => headers.Copy(o);
      case SetContentType(v) => ContentType(v);
      case DefaultContentType(v) =>
        ContentTypeIfNotSet(() => v);
      case DisableCompression => NoCompress();
      case RecordCookie(n, v) =>
        var _ := AddCookie(n, v);
      case RecordExpiredCookie(n) =>
        var _ := ExpireCookie(n);
    }

    /** Adds one Set-Cookie header per cookie, visiting the set in some order. */
    method SetCookieHeader() returns (ghost order: seq<Cookie>)
      modifies headers
      ensures IsEnumeration(order, MetaData().CookieSet())
      ensures headers.State() == AddCookieHeaders(old(headers.State()), order, cookieEncoder)
    {
      order := [];
      if cookies.Some? && cookies.value != {} {
        var remaining := cookies.value;
        while remaining != {}
          invariant remaining <= cookies.value
          invariant IsEnumeration(order, cookies.value - remaining)
          invariant headers.State() == AddCookieHeaders(old(headers.State()), order, cookieEncoder)
          decreases remaining
        {
          var c :| c in remaining;
          headers.Add(SET_COOKIE, cookieEncoder(c));
          assert (order + [c])[..|order|] == order;
          order := order + [c];
          remaining := remaining - {c};
        }
      }
    }

    /** Runs every finalizer in registration order, then adds cookie headers and transmits `payload`. */
    method FinalizeResponse(payload: Payload)
      modifies this, headers
      ensures responseFinalizers == old(responseFinalizers)
      ensures |events| > |old(events)| && events[..|old(events)|] == old(events)
      ensures Committed(old(MetaData()), responseFinalizers, cookieEncoder, payload, MetaData(), events[|old(events)|..])
    {
      ghost var m0 := MetaData();
      var fs := responseFinalizers;
      var i := 0;
      while i < |fs|
        invariant 0 <= i <= |fs|
        invariant responseFinalizers == fs == old(responseFinalizers)
        invariant MetaData() == RunAll(m0, fs[..i])
        invariant events == old(events) + RanLog(fs[..i])
      {
        var f := fs[i];
        events := events + [Started(f.id)];
        var j := 0;
        while j < |f.ops|
          invariant 0 <= j <= |f.ops|
          invariant responseFinalizers == fs
          invariant MetaData() == RunOps(RunAll(m0, fs[..i]), f.ops[..j])
          invariant events == old(events) + RanLog(fs[..i]) + [Started(f.id)]
        {
          Apply(f.ops[j]);
          assert f.ops[..j + 1][..j] == f.ops[..j];
          j := j + 1;
        }
        assert f.ops[..j] == f.ops;
        events := events + [Completed(f.id)];
        assert fs[..i + 1][..i] == fs[..i];
        i := i + 1;
      }
      assert fs[..i] == fs;
      ghost var mid := MetaData();
      ghost var order := SetCookieHeader();
      assert MetaData() == mid.WithCookieHeaders(order, cookieEncoder);
      events := events + [Transmitted(status, headers.wrapped, payload)];
      assert events[|old(events)|..] == RanLog(fs) + [Transmitted(status, headers.wrapped, payload)];
    }

    method Commit(buffer: ByteBuf)
      modifies this, headers
      ensures responseFinalizers == old(responseFinalizers)
      ensures |events| > |old(events)| && events[..|old(events)|] == old(events)
      ensures Committed(old(MetaData()).PrepareCommit(buffer), responseFinalizers, cookieEncoder,
                        BufferPayload(buffer), MetaData(), events[|old(events)|..])
    {
      headers.Set(CONTENT_LENGTH, NatToDecimal(|buffer.readable|));
      FinalizeResponse(BufferPayload(buffer));
    }

    /** send(): an empty buffer, without any default content type. */
    method Send()
      modifies this, headers
      ensures responseFinalizers == old(responseFinalizers)
      ensures |events| > |old(events)| && events[..|old(events)|] == old(events)
      ensures Committed(old(MetaData()).PrepareCommit(ByteBuf([])), responseFinalizers, cookieEncoder,
                        BufferPayload(ByteBuf([])), MetaData(), events[|old(events)|..])
    {
      Commit(ByteBuf([]));
    }

    method SendBuffer(buffer: ByteBuf)
      modifies this, headers
      ensures responseFinalizers == old(responseFinalizers)
      ensures |events| > |old(events)| && events[..|old(events)|] == old(events)
      ensures Committed(old(MetaData()).ContentTypeIfNotSet(OCTET_STREAM).PrepareCommit(buffer),
                        responseFinalizers, cookieEncoder, BufferPayload(buffer), MetaData(), events[|old(events)|..])
    {
      ContentTypeIfNotSet(() => OCTET_STREAM);
      Commit(buffer);
    }

    method SendTypedBuffer(contentType: string, buffer: ByteBuf)
      modifies this, headers
      ensures responseFinalizers == old(responseFinalizers)
      ensures |events| > |old(events)| && events[..|old(events)|] == old(events)
      ensures Committed(old(MetaData()).ContentType(contentType).ContentTypeIfNotSet(OCTET_STREAM).PrepareCommit(buffer),
                        responseFinalizers, cookieEncoder, BufferPayload(buffer), MetaData(), events[|old(events)|..])
    {
      ContentType(contentType);
      SendBuffer(buffer);
    }

    /** send(bytes) wraps the array as a buffer without copying. */
    method SendBytes(bytes: seq<byte>)
      modifies this, headers
      ensures responseFinalizers == old(responseFinalizers)
      ensures |events| > |old(events)| && events[..|old(events)|] == old(events)
      ensures Committed(old(MetaData()).ContentTypeIfNotSet(OCTET_STREAM).PrepareCommit(ByteBuf(bytes)),
                        responseFinalizers, cookieEncoder, BufferPayload(ByteBuf(bytes)), MetaData(),
                        events[|old(events)|..])
    {
      ContentTypeIfNotSet(() => OCTET_STREAM);
      Commit(ByteBuf(bytes));
    }

    method SendTypedBytes(contentType: string, bytes: seq<byte>)
      modifies this, headers
      ensures responseFinalizers == old(responseFinalizers)
      ensures |events| > |old(events)| && events[..|old(events)|] == old(events)
      ensures Committed(old(MetaData()).ContentType(contentType).ContentTypeIfNotSet(OCTET_STREAM)
                          .PrepareCommit(ByteBuf(bytes)),
                        responseFinalizers, cookieEncoder, BufferPayload(ByteBuf(bytes)), MetaData(),
                        events[|old(events)|..])
    {
      ContentType(contentType);
      SendBytes(bytes);
    }

    /** send(text): the UTF-8 bytes of the text, plain text by default. */
    method SendText(text: string)
      modifies this, headers
      ensures responseFinalizers == old(responseFinalizers)
      ensures |events| > |old(events)| && events[..|old(events)|] == old(events)
      ensures Committed(old(MetaData()).ContentTypeIfNotSet(PLAIN_TEXT_UTF8).ContentTypeIfNotSet(OCTET_STREAM)
                          .PrepareCommit(ByteBuf(Encode(text))),
                        responseFinalizers, cookieEncoder, BufferPayload(ByteBuf(Encode(text))), MetaData(),
                        events[|old(events)|..])
    {
      var buffer := ByteBuf(Encode(text));
      ContentTypeIfNotSet(() => PLAIN_TEXT_UTF8);
      SendBuffer(buffer);
    }

    method SendTypedText(contentType: string, text: string)
      modifies this, headers
      ensures responseFinalizers == old(responseFinalizers)
      ensures |events| > |old(events)| && events[..|old(events)|] == old(events)
      ensures Committed(old(MetaData()).ContentType(contentType).ContentTypeIfNotSet(PLAIN_TEXT_UTF8)
                          .ContentTypeIfNotSet(OCTET_STREAM).PrepareCommit(ByteBuf(Encode(text))),
                        responseFinalizers, cookieEncoder, BufferPayload(ByteBuf(Encode(text))), MetaData(),
                        events[|old(events)|..])
    {
      ContentType(contentType);
      SendText(text);
    }

    /** sendFile: no Content-Length and no default content type; the transmitter handles the file. */
    method SendFile(path: string)
      modifies this, headers
      ensures responseFinalizers == old(responseFinalizers)
      ensures |events| > |old(events)| && events[..|old(events)|] == old(events)
      ensures Committed(old(MetaData()), responseFinalizers, cookieEncoder, FilePayload(path), MetaData(),
                        events[|old(events)|..])
    {
      FinalizeResponse(FilePayload(path));
    }

    /** sendStream: the transmitter's subscriber is handed the publisher once the finalizers are done. */
    method SendStream(publisher: nat)
      modifies this, headers
      ensures responseFinalizers == old(responseFinalizers)
      ensures |events| > |old(events)| && events[..|old(events)|] == old(events)
      ensures Committed(old(MetaData()), responseFinalizers, cookieEncoder, StreamPayload(publisher), MetaData(),
                        events[|old(events)|..])
    {
      FinalizeResponse(StreamPayload(publisher));
    }
  }
}
