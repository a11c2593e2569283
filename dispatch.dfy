/**
  `http_server_netconn_serve` (http_server.c, lines 308-610): one request
  from its fragments to the trace of what the server does. The request
  line chooses a route by substring search in a fixed order; a `Host`
  that names a foreign site is first redirected to the access point.

  The collaborators (configuration store, Wi-Fi manager, TCP/IP adapter,
  embedded assets) enter as an `Env` of answers; their calls leave events
  in the trace.
*/
module Dispatch {
  import opened Wrappers
  import opened CStrings
  import opened Receive
  import opened Parser
  import opened Responses
  import opened Portal

  /** The sizes of the `ssid` and `password` fields of the station configuration. */
  const MaxSsidSize: nat := 32
  const MaxPasswordSize: nat := 64

  const CustomPrefix: string := "X-Custom-"
  const FwUrlName: string := "fwurl"

  datatype Route =
    | Index | CodeJs | StyleCss | JqueryJs | PopperJs | BootstrapJs | BootstrapCss
    | ScanJson | ApJson | ConfigJson | ConfigPost | ConnectPost | ConnectDelete
    | RebootOtaPost | RebootPost | RecoveryPost | StatusJson

  /** The patterns of lines 389-570, in the order they are tried. */
  const Routes: seq<(string, Route)> := [
    ("GET / ", Index),
    ("GET /code.js ", CodeJs),
    ("GET /style.css ", StyleCss),
    ("GET /jquery.js ", JqueryJs),
    ("GET /popper.js ", PopperJs),
    ("GET /bootstrap.js ", BootstrapJs),
    ("GET /bootstrap.css ", BootstrapCss),
    ("GET /scan.json ", ScanJson),
    ("GET /ap.json ", ApJson),
    ("GET /config.json ", ConfigJson),
    ("POST /config.json ", ConfigPost),
    ("POST /connect.json ", ConnectPost),
    ("DELETE /connect.json ", ConnectDelete),
    ("POST /reboot_ota.json ", RebootOtaPost),
    ("POST /reboot.json ", RebootPost),
    ("POST /recovery.json ", RecoveryPost),
    ("GET /status.json ", StatusJson)
  ]

  ghost predicate Mentions(line: string, pattern: string) {
    exists i :: OccursAt(line, pattern, i)
  }

  /** The index of the first pattern of `table` from `k` on that `strstr` finds in the line. */
  function MatchFrom(table: seq<(string, Route)>, line: string, k: nat): (r: Option<nat>)
    requires k <= |table|
    decreases |table| - k
    ensures r.Some? ==> k <= r.value < |table|
  {
    if k == |table| then None
    else if FindFrom(line, table[k].0, 0).Some? then Some(k)
    else MatchFrom(table, line, k + 1)
  }

  /** The route of the request line; None is the final `else` of line 591, a 400. */
  function SelectRoute(line: string): Option<Route> {
    match MatchFrom(Routes, line, 0)
    case None => None
    case Some(k) => Some(Routes[k].1)
  }

  /** The chosen pattern occurs in the line and no earlier pattern does; no match at all exactly when none occurs. */
  lemma {:induction false} MatchFromSpec(table: seq<(string, Route)>, line: string, k: nat)
    requires k <= |table|
    decreases |table| - k
    ensures MatchFrom(table, line, k).None? <==> forall j :: k <= j < |table| ==> !Mentions(line, table[j].0)
    ensures MatchFrom(table, line, k).Some? ==> Mentions(line, table[MatchFrom(table, line, k).value].0)
    ensures MatchFrom(table, line, k).Some? ==> forall j :: k <= j < MatchFrom(table, line, k).value ==> !Mentions(line, table[j].0)
  {
    if k < |table| {
      var r := FindFrom(line, table[k].0, 0);
      FindFromSpec(line, table[k].0, 0);
      if r.Some? {
        assert OccursAt(line, table[k].0, r.value);
      } else {
        MatchFromSpec(table, line, k + 1);
      }
    }
  }

  /** A line that mentions a route's pattern and none of the patterns tried before it selects that route. */
  lemma SelectRouteOwnPattern(line: string, k: nat)
    requires k < |Routes| && Mentions(line, Routes[k].0)
    requires forall j :: 0 <= j < k ==> !Mentions(line, Routes[j].0)
    ensures SelectRoute(line) == Some(Routes[k].1)
  {
    MatchFromSpec(Routes, line, 0);
    var r := MatchFrom(Routes, line, 0);
    assert r.Some?;
    assert r.value == k;
  }

  /** The embedded web assets (opaque bytes). */
  datatype Assets = Assets(indexHtml: string, codeJs: string, styleCss: string,
    jqueryGz: string, popperGz: string, bootstrapJsGz: string, bootstrapCssGz: string)

  /**
    The answers of the collaborators for one request: the configured AP
    address (None when it cannot be read), the station address, the
    adapter's host name, whether the status lock is obtained within its
    wait, the JSON documents (None when rendering fails), whether the
    resource header can be allocated, and the assets.
  */
  datatype Env = Env(apIp: Option<string>, staIp: string, hostName: Option<string>,
    jsonLock: bool, apListJson: Option<string>, ipInfoJson: Option<string>,
    configJson: Option<string>, headerAllocOk: bool, assets: Assets)

  /** 200 with the document, or 503 when it cannot be produced. */
  function JsonResponse(doc: Option<string>): seq<Event> {
    match doc
    case None => [Header(Unavailable)]
    case Some(d) => [Header(JsonOk), Body(d)]
  }

  /**
    GET /ap.json with the list fetched before anything is written: the
    list or a 503, then one scan request whatever happened.
  */
  function ApJsonTrace(env: Env): seq<Event> {
    JsonResponse(if env.jsonLock then env.apListJson else None) + [ScanAsync]
  }

  /** Lines 419-443 as written: the 200 header goes out before the list is fetched, so a failure appends a 503 header. */
  function ApJsonAsWritten(env: Env): seq<Event> {
    (if env.jsonLock then
       [Header(JsonOk)] + (match env.apListJson case Some(d) => [Body(d)] case None => [Header(Unavailable)])
     else [Header(Unavailable)])
    + [ScanAsync]
  }

  /** When the list cannot be rendered the client gets two status lines in one response. */
  lemma ApJsonAsWrittenTwoHeaders(env: Env)
    requires env.jsonLock && env.apListJson.None?
    ensures ApJsonAsWritten(env) == [Header(JsonOk), Header(Unavailable), ScanAsync]
    ensures !OneResponse(ApJsonAsWritten(env))
  {
    var t := ApJsonAsWritten(env);
    var heads := [Header(JsonOk), Header(Unavailable)];
    assert t == heads + [ScanAsync];
    WritesPair(Header(JsonOk), Header(Unavailable));
    WritesSingle(Header(JsonOk));
    WritesSingle(Header(Unavailable));
    WritesSingle(ScanAsync);
    WritesAppend(heads, [ScanAsync]);
    SecondHeader(t, JsonOk, Unavailable);
  }

  /** Two headers in the writes are not one response. */
  lemma SecondHeader(t: seq<Event>, a: Head, b: Head)
    requires Writes(t) == [Header(a), Header(b)]
    ensures !OneResponse(t)
  {
    assert !Writes(t)[1].Body?;
  }

  /** The number of scan requests in a trace. */
  function ScanCount(t: seq<Event>): nat {
    if t == [] then 0 else (if t[0].ScanAsync? then 1 else 0) + ScanCount(t[1..])
  }

  lemma {:induction false} ScanCountSnoc(t: seq<Event>, e: Event)
    ensures ScanCount(t + [e]) == ScanCount(t) + (if e.ScanAsync? then 1 else 0)
  {
    if t != [] {
      assert (t + [e])[1..] == t[1..] + [e];
      ScanCountSnoc(t[1..], e);
    }
  }

  lemma {:induction false} NoScans(t: seq<Event>)
    requires forall k :: 0 <= k < |t| ==> !t[k].ScanAsync?
    ensures ScanCount(t) == 0
  {
    if t != [] {
      NoScans(t[1..]);
    }
  }

  /**
    GET /ap.json requests exactly one scan, as its last step, whether or
    not the lock is obtained and the list rendered; so does the code as
    written (line 441 follows both branches of line 422).
  */
  lemma ApJsonScansOnce(env: Env, s: string, rest: nat)
    requires rest <= |s|
    ensures var t := RouteTrace(Some(ApJson), env, s, rest);
      ScanCount(t) == 1 && t[|t| - 1] == ScanAsync
    ensures ScanCount(ApJsonAsWritten(env)) == 1
  {
    var answer := JsonResponse(if env.jsonLock then env.apListJson else None);
    NoScans(answer);
    ScanCountSnoc(answer, ScanAsync);
    var written := ApJsonAsWritten(env)[..|ApJsonAsWritten(env)| - 1];
    assert ApJsonAsWritten(env) == written + [ScanAsync];
    NoScans(written);
    ScanCountSnoc(written, ScanAsync);
  }

  // ---- POST /config.json ----

  /** The configuration write one custom field asks for: none for an unnamed field or for `fwurl`. */
  function FieldStore(s: string, f: Field): seq<Event>
    requires f.ValueEnd() <= |s|
  {
    match f.name
    case None => []
    case Some(n) => if n == FwUrlName then [] else [ConfigSet(n, FieldValue(s, f))]
  }

  function StoreEvents(s: string, fs: seq<Field>): seq<Event>
    requires forall k :: 0 <= k < |fs| ==> fs[k].ValueEnd() <= |s|
  {
    if fs == [] then [] else StoreEvents(s, fs[..|fs| - 1]) + FieldStore(s, fs[|fs| - 1])
  }

  /** The value of the last field named `fwurl`: each one replaces `otaURL` (line 471). */
  function LastFwUrl(s: string, fs: seq<Field>): Option<string>
    requires forall k :: 0 <= k < |fs| ==> fs[k].ValueEnd() <= |s|
  {
    if fs == [] then None
    else
      var f := fs[|fs| - 1];
      if f.name == Some(FwUrlName) then Some(FieldValue(s, f)) else LastFwUrl(s, fs[..|fs| - 1])
  }

  /**
    Lines 450-503: every named custom field except `fwurl` is stored in
    order, the answer is always 200 (`bErrorFound` is never set), and an
    OTA reboot with the last `fwurl` value follows the answer.
  */
  function ConfigPostTrace(s: string, rest: nat, bufEnd: nat): seq<Event>
    requires bufEnd <= |s|
  {
    var fs := Fields(s, rest, bufEnd, CustomPrefix);
    StoreEvents(s, fs) + [Header(JsonOk)]
      + (match LastFwUrl(s, fs) case None => [] case Some(u) => [RebootOta(u)])
  }

  /** Storing writes nothing to the socket: every stored event is a configuration write. */
  lemma {:induction false} StoreEventsAreSets(s: string, fs: seq<Field>)
    requires forall k :: 0 <= k < |fs| ==> fs[k].ValueEnd() <= |s|
    ensures forall k :: 0 <= k < |StoreEvents(s, fs)| ==> StoreEvents(s, fs)[k].ConfigSet?
  {
    if fs != [] {
      StoreEventsAreSets(s, fs[..|fs| - 1]);
    }
  }

  /**
    The OTA reboot (line 497) comes only as the last event, right after
    the 200 header of line 489: every configuration write precedes it.
  */
  lemma ConfigPostRebootLast(s: string, rest: nat, bufEnd: nat)
    requires bufEnd <= |s|
    ensures var t := ConfigPostTrace(s, rest, bufEnd);
      forall i :: 0 <= i < |t| && t[i].RebootOta? ==> 0 < i == |t| - 1 && t[i - 1] == Header(JsonOk)
  {
    var fs := Fields(s, rest, bufEnd, CustomPrefix);
    var stores := StoreEvents(s, fs);
    StoreEventsAreSets(s, fs);
    var ota := match LastFwUrl(s, fs) case None => [] case Some(u) => [RebootOta(u)];
    var t := stores + [Header(JsonOk)] + ota;
    assert t == ConfigPostTrace(s, rest, bufEnd);
    assert forall i :: 0 <= i < |stores| ==> t[i] == stores[i];
    assert t[|stores|] == Header(JsonOk);
  }

  /** POST /config.json always answers one 200 header, and nothing else reaches the socket. */
  lemma ConfigPostAnswer(s: string, rest: nat, bufEnd: nat)
    requires bufEnd <= |s|
    ensures Writes(ConfigPostTrace(s, rest, bufEnd)) == [Header(JsonOk)]
  {
    var fs := Fields(s, rest, bufEnd, CustomPrefix);
    var stores := StoreEvents(s, fs);
    StoreEventsAreSets(s, fs);
    WritesNone(stores);
    var ota := match LastFwUrl(s, fs) case None => [] case Some(u) => [RebootOta(u)];
    WritesNone(ota);
    WritesAppend(stores, [Header(JsonOk)]);
    WritesAppend(stores + [Header(JsonOk)], ota);
    WritesSingle(Header(JsonOk));
  }

  /**
    A configuration write happens exactly for a custom field with that
    name and value, and never for `fwurl`.
  */
  lemma {:induction false} StoreEventsSpec(s: string, fs: seq<Field>, key: string, value: string)
    requires forall k :: 0 <= k < |fs| ==> fs[k].ValueEnd() <= |s|
    ensures ConfigSet(key, value) in StoreEvents(s, fs) <==>
      key != FwUrlName && exists i :: 0 <= i < |fs| && fs[i].name == Some(key) && FieldValue(s, fs[i]) == value
  {
    if fs != [] {
      var init, f := fs[..|fs| - 1], fs[|fs| - 1];
      StoreEventsSpec(s, init, key, value);
      var stores := StoreEvents(s, fs);
      assert stores == StoreEvents(s, init) + FieldStore(s, f);
      if ConfigSet(key, value) in stores {
        if ConfigSet(key, value) in StoreEvents(s, init) {
          var i :| 0 <= i < |init| && init[i].name == Some(key) && FieldValue(s, init[i]) == value;
          assert fs[i] == init[i];
        } else {
          assert ConfigSet(key, value) in FieldStore(s, f);
        }
      }
      if key != FwUrlName && exists i :: 0 <= i < |fs| && fs[i].name == Some(key) && FieldValue(s, fs[i]) == value {
        var i :| 0 <= i < |fs| && fs[i].name == Some(key) && FieldValue(s, fs[i]) == value;
        if i < |init| {
          assert init[i] == fs[i];
        } else {
          assert ConfigSet(key, value) in FieldStore(s, f);
        }
      }
    }
  }

  /**
    An OTA reboot is asked for exactly when some custom field is named
    `fwurl`, and its address is the value of the last such field.
  */
  lemma {:induction false} LastFwUrlSpec(s: string, fs: seq<Field>)
    requires forall k :: 0 <= k < |fs| ==> fs[k].ValueEnd() <= |s|
    ensures LastFwUrl(s, fs).Some? <==> exists i :: 0 <= i < |fs| && fs[i].name == Some(FwUrlName)
    ensures LastFwUrl(s, fs).Some? ==>
      exists i :: (0 <= i < |fs| && fs[i].name == Some(FwUrlName)
        && FieldValue(s, fs[i]) == LastFwUrl(s, fs).value
        && forall j :: i < j < |fs| ==> fs[j].name != Some(FwUrlName))
  {
    if fs != [] {
      var init, last := fs[..|fs| - 1], |fs| - 1;
      if fs[last].name == Some(FwUrlName) {
        assert LastFwUrl(s, fs) == Some(FieldValue(s, fs[last]));
      } else {
        LastFwUrlSpec(s, init);
        assert LastFwUrl(s, fs) == LastFwUrl(s, init);
        if LastFwUrl(s, init).Some? {
          var i :| 0 <= i < |init| && init[i].name == Some(FwUrlName)
            && FieldValue(s, init[i]) == LastFwUrl(s, init).value
            && forall j :: i < j < |init| ==> init[j].name != Some(FwUrlName);
          assert fs[i] == init[i];
          forall j | i < j < |fs|
            ensures fs[j].name != Some(FwUrlName)
          {
            if j < last {
              assert fs[j] == init[j];
            }
          }
        } else {
          forall i | 0 <= i < |fs|
            ensures fs[i].name != Some(FwUrlName)
          {
            if i < last {
              assert fs[i] == init[i];
            }
          }
        }
      }
    }
  }

  /**
    The loop of lines 462-485 over the receive buffer, which every search
    modifies by terminating the value it found.
  */
  method ServeConfigPost(buf: array<char>, rest: nat, bufEnd: nat) returns (trace: seq<Event>)
    requires bufEnd <= buf.Length
    modifies buf
    ensures trace == ConfigPostTrace(old(buf[..]), rest, bufEnd)
  {
    ghost var s := buf[..];
    ghost var found: seq<Field> := [];
    ghost var pending := Fields(s, rest, bufEnd, CustomPrefix);
    var next: nat := rest;
    var stores: seq<Event> := [];
    var otaUrl: Option<string> := None;
    var more := true;
    while more
      invariant buf.Length == |s|
      invariant Progress(s, rest, next, bufEnd, found, pending, more)
      invariant forall k :: next <= k < bufEnd ==> buf[k] == s[k]
      invariant stores == StoreEvents(s, found)
      invariant otaUrl == LastFwUrl(s, found)
      decreases more, if next < bufEnd then bufEnd - next else 0
    {
      var r := NextField(buf, next, bufEnd, s);
      if r.None? {
        LoopEnd(s, rest, next, bufEnd, found, pending);
        more := false;
        pending := [];
      } else {
        var f := r.value;
        var value := buf[f.valueStart..f.ValueEnd()];
        if f.name.Some? {
          if f.name.value == FwUrlName {
            otaUrl := Some(value);
          } else {
            stores := stores + [ConfigSet(f.name.value, value)];
          }
        }
        LoopStep(s, rest, next, bufEnd, found, pending, f);
        found := found + [f];
        pending := pending[1..];
        next := f.next;
      }
    }
    assert found + [] == found;
    trace := stores + [Header(JsonOk)] + (if otaUrl.Some? then [RebootOta(otaUrl.value)] else []);
  }

  /**
    One call of `http_server_search_header` from `next` in the loop: it
    finds what the search over the original request `s` finds, as the
    bytes from `next` on are still the original ones, and it leaves the
    value and every byte after the field untouched.
  */
  method NextField(buf: array<char>, next: nat, bufEnd: nat, ghost s: string) returns (r: Option<Field>)
    requires bufEnd <= buf.Length == |s|
    requires forall k :: next <= k < bufEnd ==> buf[k] == s[k]
    modifies buf
    ensures r == SearchField(s, next, bufEnd, CustomPrefix)
    ensures r.Some? ==> buf[r.value.valueStart..r.value.ValueEnd()] == FieldValue(s, r.value)
    ensures r.Some? ==> forall k :: r.value.next <= k < bufEnd ==> buf[k] == s[k]
    ensures r.None? ==> forall k :: next <= k < bufEnd ==> buf[k] == s[k]
  {
    SearchFieldLocal(buf[..], s, next, bufEnd, CustomPrefix);
    ghost var before := buf[..];
    r := SearchHeader(buf, next, CustomPrefix, bufEnd);
    if r.Some? {
      ValueUntouched(before, buf[..], s, next, bufEnd, r.value);
    }
  }

  /**
    Where the loop stands: `found` are the fields met so far, `pending`
    those still ahead of `next`, and together they are all the custom
    fields of the request.
  */
  ghost predicate Progress(s: string, rest: nat, next: nat, bufEnd: nat, found: seq<Field>, pending: seq<Field>, more: bool) {
    && bufEnd <= |s|
    && (forall k :: 0 <= k < |found| ==> found[k].ValueEnd() <= bufEnd)
    && Fields(s, rest, bufEnd, CustomPrefix) == found + pending
    && (more ==> pending == Fields(s, next, bufEnd, CustomPrefix))
    && (!more ==> pending == [])
  }

  /** The iteration that finds no field more: every field has been met. */
  lemma LoopEnd(s: string, rest: nat, next: nat, bufEnd: nat, found: seq<Field>, pending: seq<Field>)
    requires Progress(s, rest, next, bufEnd, found, pending, true)
    requires SearchField(s, next, bufEnd, CustomPrefix).None?
    ensures Progress(s, rest, next, bufEnd, found, [], false)
    ensures Fields(s, rest, bufEnd, CustomPrefix) == found
  {
    FieldsStep(s, next, bufEnd, CustomPrefix);
    assert found + [] == found;
  }

  /** The bookkeeping of one iteration that finds the field `f`. */
  lemma LoopStep(s: string, rest: nat, next: nat, bufEnd: nat, found: seq<Field>, pending: seq<Field>, f: Field)
    requires Progress(s, rest, next, bufEnd, found, pending, true)
    requires SearchField(s, next, bufEnd, CustomPrefix) == Some(f)
    ensures Progress(s, rest, f.next, bufEnd, found + [f], pending[1..], true)
    ensures f.ValueEnd() <= bufEnd
    ensures StoreEvents(s, found + [f]) == StoreEvents(s, found) + FieldStore(s, f)
    ensures LastFwUrl(s, found + [f]) == if f.name == Some(FwUrlName) then Some(FieldValue(s, f)) else LastFwUrl(s, found)
  {
    FieldsStep(s, next, bufEnd, CustomPrefix);
    Shift(found, pending, f, Fields(s, f.next, bufEnd, CustomPrefix));
    AppendField(s, found, f);
  }

  /** Moving the head of the pending fields to the found ones. */
  lemma Shift<T>(found: seq<T>, pending: seq<T>, x: T, tail: seq<T>)
    requires pending == [x] + tail
    ensures found + pending == (found + [x]) + pending[1..]
    ensures pending[1..] == tail
  {
  }

  /** One more field extends the stores and the OTA address by that field alone. */
  lemma AppendField(s: string, fs: seq<Field>, f: Field)
    requires forall k :: 0 <= k < |fs| ==> fs[k].ValueEnd() <= |s|
    requires f.ValueEnd() <= |s|
    ensures StoreEvents(s, fs + [f]) == StoreEvents(s, fs) + FieldStore(s, f)
    ensures LastFwUrl(s, fs + [f]) == if f.name == Some(FwUrlName) then Some(FieldValue(s, f)) else LastFwUrl(s, fs)
  {
    assert (fs + [f])[..|fs|] == fs;
  }

  /**
    After the search writes its terminator, the value bytes still are those
    of the original request, and so is every byte from the next position on.
  */
  lemma ValueUntouched(before: string, after: string, s: string, next: nat, bufEnd: nat, f: Field)
    requires bufEnd <= |before| == |after| == |s|
    requires forall k :: next <= k < bufEnd ==> before[k] == s[k]
    requires SearchField(before, next, bufEnd, CustomPrefix) == Some(f)
    requires f.ValueEnd() < bufEnd ==> after == before[f.ValueEnd() := NUL]
    requires f.ValueEnd() == bufEnd ==> after == before
    ensures after[f.valueStart..f.ValueEnd()] == FieldValue(s, f)
    ensures forall k :: f.next <= k < bufEnd ==> after[k] == s[k]
  {
  }

  // ---- POST /connect.json ----

  const SsidName: string := "X-Custom-ssid: "
  const PasswordName: string := "X-Custom-pwd: "
  const HostNameName: string := "X-Custom-host_name: "

  /**
    Lines 504-544 over the headers after the request line: a non-empty
    `host_name` is stored first; the connection is started and answered
    200 only when both credentials are present and fit their fields,
    otherwise the answer is 400.
  */
  function ConnectTrace(headers: string): seq<Event> {
    ConnectEvents(HeaderValue(headers, SsidName), HeaderValue(headers, PasswordName), HeaderValue(headers, HostNameName))
  }

  /** The events of POST /connect.json given the three header values. */
  function ConnectEvents(ssid: Option<string>, password: Option<string>, hostName: Option<string>): seq<Event> {
    HostNameStore(hostName) + CredentialsAnswer(ssid, password)
  }

  const HostNameKey: string := "host_name"

  /** Lines 512-520: a non-empty host name is stored. */
  function HostNameStore(hostName: Option<string>): seq<Event> {
    if hostName.Some? && |hostName.value| > 0 then [ConfigSet(HostNameKey, hostName.value)] else []
  }

  /** Both credentials present and fitting their fields. */
  predicate CredentialsFit(ssid: Option<string>, password: Option<string>) {
    ssid.Some? && |ssid.value| <= MaxSsidSize && password.Some? && |password.value| <= MaxPasswordSize
  }

  /** Lines 522-541: the connection request and 200, or 400. */
  function CredentialsAnswer(ssid: Option<string>, password: Option<string>): seq<Event> {
    if CredentialsFit(ssid, password) then [ConnectAsync(ssid.value, password.value), Header(JsonOk)]
    else [Header(BadRequest)]
  }

  /** Some event of the trace starts a connection. */
  ghost predicate StartsConnection(t: seq<Event>) {
    exists k :: 0 <= k < |t| && t[k].ConnectAsync?
  }

  /** The answer is one header: 200 exactly when a connection was started, 400 otherwise. */
  lemma ConnectAnswer(ssid: Option<string>, password: Option<string>, hostName: Option<string>)
    ensures var t := ConnectEvents(ssid, password, hostName);
      && |Writes(t)| == 1
      && (Writes(t)[0] == Header(JsonOk) <==> StartsConnection(t))
      && (Writes(t)[0] != Header(JsonOk) ==> Writes(t)[0] == Header(BadRequest))
  {
    var a := HostNameStore(hostName);
    if CredentialsFit(ssid, password) {
      ConnectAccepted(a, ConnectAsync(ssid.value, password.value));
    } else {
      ConnectRefused(a);
      NoConnectAfter(a, Header(BadRequest));
    }
  }

  /** Configuration writes, the connection request and 200: one 200 header, and a connection started. */
  lemma ConnectAccepted(a: seq<Event>, e: Event)
    requires forall k :: 0 <= k < |a| ==> a[k].ConfigSet?
    requires e.ConnectAsync?
    ensures Writes(a + [e, Header(JsonOk)]) == [Header(JsonOk)]
    ensures StartsConnection(a + [e, Header(JsonOk)])
  {
    WritesNone(a);
    CallsThenWrites(a, [e, Header(JsonOk)]);
    WritesHeaderAndCall(JsonOk, e);
    assert (a + [e, Header(JsonOk)])[|a|] == e;
  }

  /** Configuration writes and 400: one 400 header. */
  lemma ConnectRefused(a: seq<Event>)
    requires forall k :: 0 <= k < |a| ==> a[k].ConfigSet?
    ensures Writes(a + [Header(BadRequest)]) == [Header(BadRequest)]
  {
    WritesNone(a);
    CallsThenWrites(a, [Header(BadRequest)]);
    WritesSingle(Header(BadRequest));
  }

  /** Configuration writes followed by an event that starts no connection start none. */
  lemma NoConnectAfter(a: seq<Event>, e: Event)
    requires forall k :: 0 <= k < |a| ==> a[k].ConfigSet?
    requires !e.ConnectAsync?
    ensures !StartsConnection(a + [e])
  {
    var t := a + [e];
    forall k | 0 <= k < |t|
      ensures !t[k].ConnectAsync?
    {
      if k < |a| {
        assert t[k] == a[k];
      }
    }
  }

  /** A connection is started with exactly the credentials of the request, when both fit. */
  lemma ConnectCredentials(headers: string, ssid: string, password: string)
    ensures ConnectAsync(ssid, password) in ConnectTrace(headers) <==>
      && HeaderValue(headers, SsidName) == Some(ssid) && |ssid| <= MaxSsidSize
      && HeaderValue(headers, PasswordName) == Some(password) && |password| <= MaxPasswordSize
  {
  }

  /** The host name is stored exactly when its header carries a non-empty value. */
  lemma ConnectStoresHostName(headers: string, name: string)
    ensures ConfigSet(HostNameKey, name) in ConnectTrace(headers) <==>
      HeaderValue(headers, HostNameName) == Some(name) && |name| > 0
  {
  }

  // ---- the routes ----

  /**
    What the chosen route does (lines 389-600); `s` is the request buffer
    after `strtok_r` and `rest` where the headers start. None is the
    final `else`: 400.
  */
  function RouteTrace(route: Option<Route>, env: Env, s: string, rest: nat): seq<Event>
    requires rest <= |s|
  {
    match route
    case None => [Header(BadRequest)]
    case Some(r) =>
      match r
      case Index => [Header(HtmlOk), Body(env.assets.indexHtml)]
      case CodeJs => [Header(JsOk), Body(env.assets.codeJs)]
      case StyleCss => [Header(CssOk), Body(env.assets.styleCss)]
      case JqueryJs => ResourceResponse(env.assets.jqueryGz, "text/javascript", "gzip", env.headerAllocOk)
      case PopperJs => ResourceResponse(env.assets.popperGz, "text/javascript", "gzip", env.headerAllocOk)
      case BootstrapJs => ResourceResponse(env.assets.bootstrapJsGz, "text/javascript", "gzip", env.headerAllocOk)
      case BootstrapCss => ResourceResponse(env.assets.bootstrapCssGz, "text/css", "gzip", env.headerAllocOk)
      case ScanJson => [ScanAsync]
      case ApJson => ApJsonTrace(env)
      case ConfigJson => JsonResponse(env.configJson)
      case ConfigPost => ConfigPostTrace(s, rest, |s|)
      case ConnectPost => ConnectTrace(s[rest..])
      case ConnectDelete => [DisconnectAsync, Header(JsonOk)]
      case RebootOtaPost => [Header(JsonOk), Reboot(Ota)]
      case RebootPost => [Header(JsonOk), Reboot(Restart)]
      case RecoveryPost => [Header(JsonOk), Reboot(Recovery)]
      case StatusJson => JsonResponse(if env.jsonLock then env.ipInfoJson else None)
  }

  /** The chosen route run over the request buffer; only POST /config.json writes into it. */
  method ServeRoute(buf: array<char>, route: Option<Route>, env: Env, rest: nat) returns (trace: seq<Event>)
    requires rest <= buf.Length
    modifies buf
    ensures trace == RouteTrace(route, env, old(buf[..]), rest)
  {
    if route == Some(ConfigPost) {
      trace := ServeConfigPost(buf, rest, buf.Length);
    } else {
      trace := RouteTrace(route, env, buf[..], rest);
    }
  }

  /** The writes of a response made of a header and a body, or of a header alone. */
  lemma WritesOfResponse(h: Head, body: Option<string>)
    ensures Writes([Header(h)]) == [Header(h)]
    ensures body.Some? ==> Writes([Header(h), Body(body.value)]) == [Header(h), Body(body.value)]
  {
    WritesSingle(Header(h));
    if body.Some? {
      WritesPair(Header(h), Body(body.value));
      WritesSingle(Body(body.value));
    }
  }

  /** A header and a collaborator call, in either order: the header is the only write. */
  lemma WritesHeaderAndCall(h: Head, e: Event)
    requires !e.IsWrite()
    ensures Writes([Header(h), e]) == [Header(h)] && Writes([e, Header(h)]) == [Header(h)]
  {
    WritesPair(Header(h), e);
    WritesPair(e, Header(h));
    WritesSingle(Header(h));
    WritesSingle(e);
  }

  /** The writes of a JSON answer, and of the ap.json answer followed by its scan request. */
  lemma WritesOfJson(doc: Option<string>)
    ensures Writes(JsonResponse(doc)) == JsonResponse(doc)
    ensures Writes(JsonResponse(doc) + [ScanAsync]) == JsonResponse(doc)
  {
    WritesOfResponse(Unavailable, None);
    WritesOfResponse(JsonOk, doc);
    WritesAppend(JsonResponse(doc), [ScanAsync]);
    WritesSingle(ScanAsync);
  }

  /**
    What every answer of a route looks like: one response, none only when
    `silent`, never a redirect or a 404, and an error header alone.
  */
  ghost predicate ProperAnswer(t: seq<Event>, silent: bool) {
    var w := Writes(t);
    && OneResponse(t)
    && (w == [] <==> silent)
    && (w != [] ==> !w[0].head.Found? && !w[0].head.NotFound?)
    && (w != [] && w[0].head.IsError() ==> |w| == 1)
  }

  /** Every route gives a proper answer; only GET /scan.json writes nothing. */
  lemma RouteAnswer(route: Option<Route>, env: Env, s: string, rest: nat)
    requires rest <= |s|
    ensures ProperAnswer(RouteTrace(route, env, s, rest), route == Some(ScanJson))
  {
    match route
    case None => HeaderAnswer(BadRequest, None);
    case Some(r) =>
      if r.Index? || r.CodeJs? || r.StyleCss? || r.JqueryJs? || r.PopperJs? || r.BootstrapJs? || r.BootstrapCss? {
        AssetAnswer(r, env, s, rest);
      } else if r.ScanJson? || r.ApJson? || r.ConfigJson? || r.StatusJson? {
        QueryAnswer(r, env, s, rest);
      } else {
        CommandAnswer(r, env, s, rest);
      }
  }

  /** The embedded pages and the compressed assets. */
  lemma AssetAnswer(r: Route, env: Env, s: string, rest: nat)
    requires rest <= |s|
    requires r.Index? || r.CodeJs? || r.StyleCss? || r.JqueryJs? || r.PopperJs? || r.BootstrapJs? || r.BootstrapCss?
    ensures ProperAnswer(RouteTrace(Some(r), env, s, rest), false)
  {
    var a := env.assets;
    match r {
      case Index => HeaderAnswer(HtmlOk, Some(a.indexHtml));
      case CodeJs => HeaderAnswer(JsOk, Some(a.codeJs));
      case StyleCss => HeaderAnswer(CssOk, Some(a.styleCss));
      case JqueryJs => ResourceAnswer(a.jqueryGz, "text/javascript", env.headerAllocOk);
      case PopperJs => ResourceAnswer(a.popperGz, "text/javascript", env.headerAllocOk);
      case BootstrapJs => ResourceAnswer(a.bootstrapJsGz, "text/javascript", env.headerAllocOk);
      case BootstrapCss => ResourceAnswer(a.bootstrapCssGz, "text/css", env.headerAllocOk);
    }
  }

  /** The scan request and the three JSON documents. */
  lemma QueryAnswer(r: Route, env: Env, s: string, rest: nat)
    requires rest <= |s|
    requires r.ScanJson? || r.ApJson? || r.ConfigJson? || r.StatusJson?
    ensures ProperAnswer(RouteTrace(Some(r), env, s, rest), r.ScanJson?)
  {
    match r {
      case ScanJson => WritesSingle(ScanAsync);
      case ApJson => ApJsonAnswer(env);
      case ConfigJson => JsonAnswer(env.configJson);
      case StatusJson => JsonAnswer(if env.jsonLock then env.ipInfoJson else None);
    }
  }

  /** The POST and DELETE requests. */
  lemma CommandAnswer(r: Route, env: Env, s: string, rest: nat)
    requires rest <= |s|
    requires r.ConfigPost? || r.ConnectPost? || r.ConnectDelete? || r.RebootOtaPost? || r.RebootPost? || r.RecoveryPost?
    ensures ProperAnswer(RouteTrace(Some(r), env, s, rest), false)
  {
    if r.ConfigPost? {
      ConfigPostAnswer(s, rest, |s|);
    } else if r.ConnectPost? {
      var h := s[rest..];
      ConnectAnswer(HeaderValue(h, SsidName), HeaderValue(h, PasswordName), HeaderValue(h, HostNameName));
    } else {
      ControlAnswer(r, env, s, rest);
    }
  }

  /** Disconnect and the three reboots: a 200 and the collaborator call. */
  lemma ControlAnswer(r: Route, env: Env, s: string, rest: nat)
    requires rest <= |s|
    requires r.ConnectDelete? || r.RebootOtaPost? || r.RebootPost? || r.RecoveryPost?
    ensures ProperAnswer(RouteTrace(Some(r), env, s, rest), false)
  {
    var t := RouteTrace(Some(r), env, s, rest);
    match r {
      case ConnectDelete =>
        assert t == [DisconnectAsync, Header(JsonOk)];
        WritesHeaderAndCall(JsonOk, DisconnectAsync);
      case RebootOtaPost =>
        assert t == [Header(JsonOk), Reboot(Ota)];
        WritesHeaderAndCall(JsonOk, Reboot(Ota));
      case RebootPost =>
        assert t == [Header(JsonOk), Reboot(Restart)];
        WritesHeaderAndCall(JsonOk, Reboot(Restart));
      case RecoveryPost =>
        assert t == [Header(JsonOk), Reboot(Recovery)];
        WritesHeaderAndCall(JsonOk, Reboot(Recovery));
    }
    HeaderOnly(t, JsonOk);
  }

  /** A trace whose only write is one success header answers properly. */
  lemma HeaderOnly(t: seq<Event>, h: Head)
    requires Writes(t) == [Header(h)] && !h.Found? && !h.NotFound?
    ensures ProperAnswer(t, false)
  {
  }

  lemma HeaderAnswer(h: Head, body: Option<string>)
    requires !h.Found? && !h.NotFound?
    ensures ProperAnswer([Header(h)], false)
    ensures body.Some? && !h.IsError() ==> ProperAnswer([Header(h), Body(body.value)], false)
  {
    WritesOfResponse(h, body);
  }

  lemma JsonAnswer(doc: Option<string>)
    ensures ProperAnswer(JsonResponse(doc), false)
  {
    WritesOfJson(doc);
  }

  lemma ApJsonAnswer(env: Env)
    ensures ProperAnswer(ApJsonTrace(env), false)
  {
    WritesOfJson(if env.jsonLock then env.apListJson else None);
  }

  /** A compressed asset is a 200 with its bytes, or a 503 alone. */
  lemma ResourceAnswer(asset: string, contentType: string, allocOk: bool)
    ensures Writes(ResourceResponse(asset, contentType, "gzip", allocOk)) == ResourceResponse(asset, contentType, "gzip", allocOk)
    ensures ProperAnswer(ResourceResponse(asset, contentType, "gzip", allocOk), false)
  {
    WritesOfResponse(Unavailable, None);
    WritesOfResponse(AssetOk(contentType, |asset|, "gzip"), Some(asset));
  }
}
