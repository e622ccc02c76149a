/**
 * A client of the response: two finalizers, one of which records a cookie,
 * followed by send(bytes). Only the contracts above are used.
 */
module Scenarios {
  import opened Wrappers
  import opened HeaderStore
  import opened ResponseModel
  import opened Response

  method SendWithTwoFinalizers(encode: Cookie -> string)
  {
    var r := new DefaultResponse([], encode);
    assert r.status == 200;
    r.BeforeSend(Finalizer(1, [SetHeader("X-First", "a")]));
    r.BeforeSend(Finalizer(2, [RecordCookie("session", "s1")]));
    ghost var before := r.MetaData();
    r.SendBytes([1, 2, 3]);
    ghost var trace := r.events;
    ghost var prepared := before.ContentTypeIfNotSet(OCTET_STREAM).PrepareCommit(ByteBuf([1, 2, 3]));
    CommitOrdersFinalizersThenTransmits(prepared, r.responseFinalizers, encode,
                                        BufferPayload(ByteBuf([1, 2, 3])), r.MetaData(), trace);
    var fs := r.responseFinalizers;
    assert fs[0].id == 1 && fs[1].id == 2;
    assert trace[2 * 0] == Started(1) && trace[2 * 0 + 1] == Completed(1);
    assert trace[2 * 1] == Started(2) && trace[2 * 1 + 1] == Completed(2);
    assert trace[4].Transmitted? && trace[4].payload == BufferPayload(ByteBuf([1, 2, 3]));
    // The cookie recorded by the second finalizer reaches the transmitted headers.
    OneSetCookiePerCookie(prepared, fs, encode, BufferPayload(ByteBuf([1, 2, 3])), r.MetaData(), trace);
    assert fs[..1][..0] == [] && fs[..1] == [fs[0]] && fs[..2] == fs;
    assert Cookie("session", "s1", None) in RunAll(prepared, fs).CookieSet();
    assert encode(Cookie("session", "s1", None)) in GetAll(r.headers.wrapped, SET_COOKIE);
  }
}
