/** The request-preparation half of the XMLHttpRequest adapter: what happens
    to `config.headers` before the request is sent (the `Content-Type` of a
    `FormData` body, the Basic `Authorization` header, the XSRF header, the
    `setRequestHeader` loop), the method and URL given to `open`, and the
    body given to `send`. */
module XhrSetup {
  import opened Wrappers
  import opened Strings
  import opened Headers
  import opened Base64
  import UriEncoding
  import BuildUrl

  /** `config.data`, as far as the adapter looks at it. `Other` stands for
      every other value (a number, a boolean, a Blob, ...), with its
      JavaScript truthiness. */
  datatype Body = Undefined | Null | FormData | Text(text: string) | Other(truthy: bool)

  predicate IsFalsy(b: Body) {
    b.Undefined? || b.Null? || b == Text("") || b == Other(false)
  }

  /** The argument of `request.send`: a falsy body is sent as `null`. */
  function SentBody(data: Body): (r: Body)
    ensures IsFalsy(data) ==> r == Null
    ensures !IsFalsy(data) ==> r == data && !r.Null?
  {
    if IsFalsy(data) then Null else data
  }

  // ---------------------------------------------------------------------
  // Basic authentication (section 2 of RFC 7617)

  /** `config.auth`. */
  datatype Auth = Auth(username: Option<string>, password: Option<string>)

  /** `x || ""` for a string that may be missing. */
  function OrEmpty(s: Option<string>): (r: string)
    ensures s.Some? ==> r == s.value
    ensures s.None? ==> r == ""
  {
    if s.Some? then s.value else ""
  }

  /** The characters of a list of byte values. */
  function ByteChars(bs: seq<nat>): (r: string)
    requires forall i :: 0 <= i < |bs| ==> bs[i] < 256
    ensures |r| == |bs| && forall i :: 0 <= i < |bs| ==> r[i] as int == bs[i]
  {
    seq(|bs|, i requires 0 <= i < |bs| => bs[i] as char)
  }

  /** `unescape(encodeURIComponent(p))`: the UTF-8 bytes of `p`, one
      character per byte. */
  function Utf8Binary(p: string): (r: string)
    ensures IsBinaryString(r)
    ensures |r| >= |p|
  {
    if p == [] then [] else ByteChars(UriEncoding.Utf8(p[0])) + Utf8Binary(p[1..])
  }

  /** `username + ":" + password` as the adapter builds it: missing parts
      become "", and the password is turned into UTF-8 bytes first. */
  function Credentials(auth: Auth): string {
    OrEmpty(auth.username) + ":" + (if auth.password.Some? && auth.password.value != "" then Utf8Binary(auth.password.value) else "")
  }

  /** `"Basic " + btoa(credentials)`. `btoa` throws for a character above
      0xFF; only the username can hold one, the password having been turned
      into bytes. */
  function AuthorizationValue(auth: Auth): (r: Result<string, InvalidCharacterError>)
    ensures r.Err? <==> !IsBinaryString(OrEmpty(auth.username))
    ensures r.Ok? ==> |r.value| >= 6 && r.value[..6] == "Basic "
                      && Decode(r.value[6..]) == Some(Codes(Credentials(auth)))
  {
    var c := Credentials(auth);
    BinaryCredentials(auth);
    match Btoa(c)
    case Err(e) => Err(e)
    case Ok(b) =>
      BtoaRoundTrip(c);
      assert ("Basic " + b)[6..] == b;
      Ok("Basic " + b)
  }

  /** The credentials are a binary string exactly when the username is. */
  lemma BinaryCredentials(auth: Auth)
    ensures IsBinaryString(Credentials(auth)) <==> IsBinaryString(OrEmpty(auth.username))
  {
    var u := OrEmpty(auth.username);
    var c := Credentials(auth);
    assert c[..|u|] == u;
    if !IsBinaryString(u) {
      var i :| 0 <= i < |u| && u[i] as int >= 256;
      assert c[i] == u[i];
    }
  }

  /** A password made of ASCII characters is used as it is. */
  lemma {:induction false} AsciiPasswordKept(p: string)
    requires forall i :: 0 <= i < |p| ==> p[i] as int < 0x80
    ensures Utf8Binary(p) == p
  {
    if p != [] {
      AsciiPasswordKept(p[1..]);
      assert [p[0]] + p[1..] == p;
    }
  }

  /** With neither part given, the credentials are just ":". */
  lemma MissingPartsEmpty()
    ensures Credentials(Auth(None, None)) == ":"
    ensures Credentials(Auth(Some(""), Some(""))) == ":"
  {
  }

  // ---------------------------------------------------------------------
  // The header steps, one function each

  /** `delete requestHeaders["Content-Type"]` for a `FormData` body, so the
      browser writes the multipart boundary itself. The key is matched
      exactly. */
  function WithoutFormDataType(es: seq<Entry>, data: Body): (r: seq<Entry>)
    ensures data.FormData? ==> Lookup(r, "Content-Type") == None
    ensures forall k :: k != "Content-Type" ==> Lookup(r, k) == Lookup(es, k)
    ensures !data.FormData? ==> r == es
  {
    if data.FormData? then Remove(es, "Content-Type") else es
  }

  /** `requestHeaders.Authorization = "Basic " + btoa(...)`, overwriting any
      value already there; absent `auth` changes nothing. */
  function WithAuthorization(es: seq<Entry>, auth: Option<Auth>): (r: Result<seq<Entry>, InvalidCharacterError>)
    ensures auth.None? ==> r == Ok(es)
    ensures auth.Some? ==> (r.Err? <==> AuthorizationValue(auth.value).Err?)
    ensures r.Ok? && auth.Some? ==> Lookup(r.value, "Authorization") == Some(AuthorizationValue(auth.value).value)
    ensures r.Ok? ==> forall k :: k != "Authorization" ==> Lookup(r.value, k) == Lookup(es, k)
  {
    if auth.None? then Ok(es)
    else match AuthorizationValue(auth.value)
      case Err(e) => Err(e)
      case Ok(v) => Ok(Put(es, "Authorization", v))
  }

  /** `requestHeaders[xsrfHeaderName] = xsrfValue` when the cookie value is
      truthy. Whether a value is read at all (standard browser, credentials
      or same origin, cookie name set) is decided outside and given here as
      the header name and the value read. */
  function WithXsrf(es: seq<Entry>, xsrf: Option<Entry>): (r: seq<Entry>)
    ensures xsrf.Some? && xsrf.value.value != "" ==> Lookup(r, xsrf.value.name) == Some(xsrf.value.value)
    ensures xsrf.None? || xsrf.value.value == "" ==> r == es
    ensures forall k :: xsrf.None? || k != xsrf.value.name ==> Lookup(r, k) == Lookup(es, k)
  {
    if xsrf.Some? && xsrf.value.value != "" then Put(es, xsrf.value.name, xsrf.value.value) else es
  }

  /** The headers after the three steps, in the order `dispatchXhrRequest`
      runs them; a failing `btoa`
      stops everything. */
  function Prepared(es: seq<Entry>, data: Body, auth: Option<Auth>, xsrf: Option<Entry>): (r: Result<seq<Entry>, InvalidCharacterError>)
    ensures r.Err? <==> auth.Some? && !IsBinaryString(OrEmpty(auth.value.username))
  {
    match WithAuthorization(WithoutFormDataType(es, data), auth)
    case Err(e) => Err(e)
    case Ok(hs) => Ok(WithXsrf(hs, xsrf))
  }

  lemma PreparedKeepsDistinct(es: seq<Entry>, data: Body, auth: Option<Auth>, xsrf: Option<Entry>)
    requires DistinctKeys(es)
    requires Prepared(es, data, auth, xsrf).Ok?
    ensures DistinctKeys(Prepared(es, data, auth, xsrf).value)
  {
    var a := WithoutFormDataType(es, data);
    if data.FormData? {
      RemoveKeepsDistinct(es, "Content-Type");
    }
    var b := WithAuthorization(a, auth).value;
    if auth.Some? {
      PutKeepsDistinct(a, "Authorization", AuthorizationValue(auth.value).value);
    }
    if xsrf.Some? && xsrf.value.value != "" {
      PutKeepsDistinct(b, xsrf.value.name, xsrf.value.value);
    }
  }

  /** A `FormData` body loses exactly "Content-Type": a differently written
      "content-type" is left in place. */
  lemma FormDataKeepsOtherSpelling(es: seq<Entry>)
    ensures Lookup(WithoutFormDataType(es, FormData), "Content-Type") == None
    ensures Lookup(WithoutFormDataType(es, FormData), "content-type") == Lookup(es, "content-type")
  {
    assert "content-type" != "Content-Type" by {
      assert "content-type"[0] != "Content-Type"[0];
    }
  }

  /** With `auth` given and a username `btoa` accepts, the Authorization
      header holds "Basic " and the Base 64 of the credentials, whatever it
      held before, unless the XSRF header has that same name. */
  lemma AuthorizationSet(es: seq<Entry>, data: Body, auth: Auth, xsrf: Option<Entry>)
    requires IsBinaryString(OrEmpty(auth.username))
    requires xsrf.None? || xsrf.value.name != "Authorization"
    ensures Prepared(es, data, Some(auth), xsrf).Ok?
    ensures var v := Lookup(Prepared(es, data, Some(auth), xsrf).value, "Authorization");
            v.Some? && v.value[..6] == "Basic "
            && Decode(v.value[6..]) == Some(Codes(Credentials(auth)))
  {
  }

  // ---------------------------------------------------------------------
  // The `setRequestHeader` loop

  /** Whether the loop passes a header on: with an `undefined` body, those
      whose lower-cased name is "content-type" are deleted instead. */
  predicate Kept(data: Body, name: string) {
    !(data.Undefined? && ToLower(name) == "content-type")
  }

  /** The headers the loop passes to `setRequestHeader`, in order. */
  function Sendable(es: seq<Entry>, data: Body): seq<Entry> {
    if es == [] then []
    else (if Kept(data, es[0].name) then [es[0]] else []) + Sendable(es[1..], data)
  }

  lemma {:induction false} SendableSnoc(es: seq<Entry>, e: Entry, data: Body)
    ensures Sendable(es + [e], data) == Sendable(es, data) + (if Kept(data, e.name) then [e] else [])
  {
    if es == [] {
      assert [] + [e] == [e];
      assert Sendable([e], data) == (if Kept(data, e.name) then [e] else []) + Sendable([], data);
    } else {
      assert (es + [e])[1..] == es[1..] + [e];
      SendableSnoc(es[1..], e, data);
    }
  }

  /** No entry of `es` is named `k`. */
  predicate Absent(es: seq<Entry>, k: string) {
    forall j :: 0 <= j < |es| ==> es[j].name != k
  }

  lemma {:induction false} SendableAbsent(es: seq<Entry>, data: Body, k: string)
    requires Absent(es, k)
    ensures Absent(Sendable(es, data), k)
  {
    if es != [] {
      SendableAbsent(es[1..], data, k);
    }
  }

  /** `Remove` looks at one entry at a time. */
  lemma RemoveCons(x: Entry, es: seq<Entry>, k: string)
    ensures x.name == k ==> Remove([x] + es, k) == Remove(es, k)
    ensures x.name != k ==> Remove([x] + es, k) == [x] + Remove(es, k)
  {
    assert ([x] + es)[1..] == es;
  }

  /** `delete obj[k]` spelled out entry by entry. */
  function Drop(es: seq<Entry>, k: string): seq<Entry> {
    if es == [] then []
    else if es[0].name == k then Drop(es[1..], k)
    else [es[0]] + Drop(es[1..], k)
  }

  lemma {:induction false} RemoveIsDrop(es: seq<Entry>, k: string)
    ensures Remove(es, k) == Drop(es, k)
  {
    if es != [] {
      RemoveIsDrop(es[1..], k);
      RemoveCons(es[0], es[1..], k);
      assert [es[0]] + es[1..] == es;
    }
  }

  lemma {:induction false} DropAbsent(es: seq<Entry>, k: string)
    requires Absent(es, k)
    ensures Drop(es, k) == es
  {
    if es != [] {
      DropAbsent(es[1..], k);
    }
  }

  /** Deleting a key that occurs once removes just that entry. */
  lemma {:induction false} DropOnce(a: seq<Entry>, e: Entry, b: seq<Entry>)
    requires Absent(a, e.name) && Absent(b, e.name)
    ensures Drop(a + [e] + b, e.name) == a + b
  {
    var t := a + [e] + b;
    if a == [] {
      assert t[1..] == b;
      DropAbsent(b, e.name);
    } else {
      assert t[1..] == a[1..] + [e] + b;
      DropOnce(a[1..], e, b);
      assert a + b == [a[0]] + (a[1..] + b);
    }
  }

  /** The name at position i occurs nowhere else in the object, and so not
      in what the loop kept from before it. */
  lemma NameOnce(es: seq<Entry>, i: int, data: Body)
    requires DistinctKeys(es) && 0 <= i < |es|
    ensures Absent(Sendable(es[..i], data), es[i].name)
    ensures Absent(es[i + 1..], es[i].name)
  {
    SendableAbsent(es[..i], data, es[i].name);
  }

  /** One round of the loop when the header is deleted: the entry leaves
      the object, and nothing is added to what was sent. */
  lemma DeleteStep(es: seq<Entry>, i: int, data: Body)
    requires DistinctKeys(es) && 0 <= i < |es| && !Kept(data, es[i].name)
    ensures Remove(Sendable(es[..i], data) + es[i..], es[i].name) == Sendable(es[..i + 1], data) + es[i + 1..]
  {
    var e := es[i];
    var done := Sendable(es[..i], data);
    NameOnce(es, i, data);
    SendStep(es, i, data);
    assert done + es[i..] == done + [e] + es[i + 1..];
    RemoveOnce(done, e, es[i + 1..]);
  }

  /** Deleting a key that occurs once, at a known place, removes that entry. */
  lemma RemoveOnce(a: seq<Entry>, e: Entry, b: seq<Entry>)
    requires Absent(a, e.name) && Absent(b, e.name)
    ensures Remove(a + [e] + b, e.name) == a + b
  {
    RemoveIsDrop(a + [e] + b, e.name);
    DropOnce(a, e, b);
  }

  /** One round of the loop adds the entry to what was sent exactly when
      it is kept. */
  lemma SendStep(es: seq<Entry>, i: int, data: Body)
    requires 0 <= i < |es|
    ensures Sendable(es[..i + 1], data) == Sendable(es[..i], data) + (if Kept(data, es[i].name) then [es[i]] else [])
    ensures es[i..] == [es[i]] + es[i + 1..]
  {
    SendableSnoc(es[..i], es[i], data);
    assert es[..i + 1] == es[..i] + [es[i]];
  }

  /** `utils.forEach(requestHeaders, setRequestHeader)`: the headers are
      visited in key order; each one is either deleted from the object or
      passed to `setRequestHeader`, and `sent` lists the calls made. */
  method SendHeaders(headers: HeaderObject, data: Body) returns (sent: seq<Entry>)
    requires headers.Valid()
    modifies headers
    ensures headers.Valid()
    ensures sent == Sendable(old(headers.entries), data)
    ensures headers.entries == sent
  {
    var es := headers.entries;
    sent := [];
    var i := 0;
    while i < |es|
      invariant 0 <= i <= |es|
      invariant sent == Sendable(es[..i], data)
      invariant headers.entries == sent + es[i..]
    {
      sent := VisitHeader(headers, data, es, i, sent);
      i := i + 1;
    }
    assert es[..i] == es;
    SendableKeepsDistinct(es, data);
  }

  lemma {:induction false} SendableKeepsDistinct(es: seq<Entry>, data: Body)
    requires DistinctKeys(es)
    ensures DistinctKeys(Sendable(es, data))
  {
    if es != [] {
      SendableKeepsDistinct(es[1..], data);
      SendableAbsent(es[1..], data, es[0].name);
    }
  }

  /** The callback `setRequestHeader(val, key)`, called for the header at
      position i of the object as it was when the loop began: delete it
      when it is a "content-type" header and the body is `undefined`,
      otherwise pass it to `request.setRequestHeader`, recorded by
      appending it to `sent`. */
  method VisitHeader(headers: HeaderObject, data: Body, es: seq<Entry>, i: int, sent: seq<Entry>)
    returns (sent': seq<Entry>)
    requires DistinctKeys(es) && 0 <= i < |es|
    requires sent == Sendable(es[..i], data) && headers.entries == sent + es[i..]
    modifies headers
    ensures sent' == Sendable(es[..i + 1], data) && headers.entries == sent' + es[i + 1..]
  {
    var e := es[i];
    SendStep(es, i, data);
    if data.Undefined? && ToLower(e.name) == "content-type" {
      DeleteStep(es, i, data);
      headers.Delete(e.name);
      sent' := sent;
    } else {
      // request.setRequestHeader(key, val)
      sent' := sent + [e];
    }
  }

  /** What `setRequestHeader` receives, header by header: with an
      `undefined` body no header named "content-type" in any letter case,
      and every other header with its value. */
  lemma {:induction false} SendableLookup(es: seq<Entry>, data: Body, k: string)
    ensures Lookup(Sendable(es, data), k) == if Kept(data, k) then Lookup(es, k) else None
  {
    if es != [] {
      SendableLookup(es[1..], data, k);
      var rest := Sendable(es[1..], data);
      if Kept(data, es[0].name) {
        assert Sendable(es, data) == [es[0]] + rest;
        assert ([es[0]] + rest)[1..] == rest;
      } else {
        assert Sendable(es, data) == rest;
      }
    }
  }

  lemma UndefinedBodyDropsContentType(es: seq<Entry>, k: string)
    ensures ToLower(k) == "content-type" ==> Lookup(Sendable(es, Undefined), k) == None
    ensures ToLower(k) != "content-type" ==> Lookup(Sendable(es, Undefined), k) == Lookup(es, k)
  {
    SendableLookup(es, Undefined, k);
  }

  /** With any other body every header is sent, in order. */
  lemma {:induction false} DefinedBodySendsAll(es: seq<Entry>, data: Body)
    requires !data.Undefined?
    ensures Sendable(es, data) == es
  {
    if es != [] {
      DefinedBodySendsAll(es[1..], data);
      assert [es[0]] + es[1..] == es;
    }
  }

  // ---------------------------------------------------------------------
  // The whole preparation

  /** The parts of `config` the preparation reads. `fullPath` is what
      `buildFullPath(baseURL, url)` returned. */
  datatype RequestConfig = RequestConfig(
    data: Body,
    auth: Option<Auth>,
    httpMethod: string,
    fullPath: string,
    params: Option<BuildUrl.Params>,
    paramsSerializer: Option<BuildUrl.Params -> string>)

  /** What reaches the XMLHttpRequest: `open(method, url)`, the
      `setRequestHeader` calls in order, and `send(body)`. */
  datatype Sent = Sent(httpMethod: string, url: string, headers: seq<Entry>, body: Body)

  /** The preparation inside `dispatchXhrRequest`, up to `send`. A `btoa`
      failure rejects the request before anything is opened. */
  method Prepare(config: RequestConfig, headers: HeaderObject, xsrf: Option<Entry>)
    returns (r: Result<Sent, InvalidCharacterError>)
    requires headers.Valid()
    modifies headers
    ensures headers.Valid()
    ensures r.Err? <==> Prepared(old(headers.entries), config.data, config.auth, xsrf).Err?
    ensures r.Err? ==> headers.entries == WithoutFormDataType(old(headers.entries), config.data)
    ensures r.Ok? ==>
      var p := Prepared(old(headers.entries), config.data, config.auth, xsrf).value;
      && r.value.httpMethod == ToUpper(config.httpMethod)
      && r.value.url == BuildUrl.BuildUrlSpec(config.fullPath, config.params, config.paramsSerializer)
      && r.value.headers == Sendable(p, config.data)
      && headers.entries == r.value.headers
      && r.value.body == SentBody(config.data)
  {
    var es0 := headers.entries;
    var requestData := config.data;
    if requestData.FormData? {
      headers.Delete("Content-Type");
    }
    if config.auth.Some? {
      var value := AuthorizationValue(config.auth.value);
      if value.Err? {
        return Err(value.error);
      }
      headers.Set("Authorization", value.value);
    }
    var httpMethod := ToUpper(config.httpMethod);
    var url := BuildUrl.BuildUrl(config.fullPath, config.params, config.paramsSerializer);
    if xsrf.Some? && xsrf.value.value != "" {
      headers.Set(xsrf.value.name, xsrf.value.value);
    }
    assert headers.entries == Prepared(es0, config.data, config.auth, xsrf).value;
    var sent := SendHeaders(headers, requestData);
    if IsFalsy(requestData) {
      requestData := Null;
    }
    return Ok(Sent(httpMethod, url, sent, requestData));
  }
}
