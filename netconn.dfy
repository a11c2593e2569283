/**
  `http_server_netconn_serve` (http_server.c, lines 308-610) end to end:
  the fragments of one connection, the answers of the collaborators, and
  the trace of what the server does with them.
*/
module Netconn {
  import opened Wrappers
  import opened CStrings
  import opened Receive
  import opened Parser
  import opened Responses
  import opened Portal
  import opened Dispatch

  /**
    The request buffer after `strtok_r`: the newline that ended the
    request line, when there was one, is overwritten with NUL.
  */
  function Tokenized(content: string, t: Token): (s: string)
    requires t.end <= t.rest <= |content|
    ensures |s| == |content|
    ensures forall k :: 0 <= k < |s| && k != t.end ==> s[k] == content[k]
  {
    if t.end < t.rest then content[t.end := NUL] else content
  }

  /** The header `http_server_netconn_serve` asks `http_server_get_header` for. */
  const HostPrefix: string := "Host: "

  /** The copied `Host` value (lines 355-360): empty when the header is missing. */
  function RequestHost(content: string, rest: nat): string
    requires rest <= |content|
  {
    match HeaderValue(content[rest..], HostPrefix)
    case None => ""
    case Some(h) => h
  }

  /**
    One connection. No AP address: 503 before anything is read. A failed
    growth of the receive buffer: 503. Otherwise the received request.
  */
  function ServeSpec(frags: seq<string>, allocOk: seq<bool>, env: Env): seq<Event>
    requires |allocOk| == |frags|
  {
    if env.apIp.None? || Accepted(frags, allocOk) < |frags| then [Header(Unavailable)]
    else RequestTrace(Concat(frags), env.apIp.value, env)
  }

  /** Nothing received: no answer. No request line: 404. Otherwise the request line decides. */
  function RequestTrace(content: string, apIp: string, env: Env): seq<Event> {
    if content == [] then []
    else
      match Strtok(CStr(content))
      case None => [Header(NotFound)]
      case Some(t) => LineTrace(content, t, apIp, env)
  }

  /** A foreign `Host` is redirected; otherwise the route of the request line answers. */
  function LineTrace(content: string, t: Token, apIp: string, env: Env): seq<Event>
    requires t.start <= t.end <= t.rest <= |content|
  {
    if IsRedirect(RequestHost(content, t.rest), apIp, env.staIp, env.hostName) then
      [Header(Found(apIp))]
    else
      RouteTrace(SelectRoute(content[t.start..t.end]), env, Tokenized(content, t), t.rest)
  }

  /**
    The body of `http_server_netconn_serve`: receive, then handle what
    arrived.
  */
  method Serve(frags: seq<string>, allocOk: seq<bool>, env: Env) returns (trace: seq<Event>)
    requires |allocOk| == |frags|
    ensures trace == ServeSpec(frags, allocOk, env)
  {
    if env.apIp.None? {
      return [Header(Unavailable)];
    }
    var content, capacity, received := Receive.Receive(frags, allocOk);
    if received < |frags| {
      return [Header(Unavailable)];
    }
    assert frags[..received] == frags;
    trace := HandleRequest(content, env.apIp.value, env);
  }

  /** Cut the request line with `strtok_r`, or answer 404 when there is none. */
  method HandleRequest(content: string, apIp: string, env: Env) returns (trace: seq<Event>)
    ensures trace == RequestTrace(content, apIp, env)
  {
    if |content| == 0 {
      return [];
    }
    var tok := Strtok(CStr(content));
    if tok.None? {
      return [Header(NotFound)];
    }
    var t := tok.value;
    assert CStr(content)[t.start..t.end] == content[t.start..t.end];
    var buf := new char[|content|](k requires 0 <= k < |content| => content[k]);
    if t.end < t.rest {
      buf[t.end] := NUL;
    }
    assert buf[..] == Tokenized(content, t);
    trace := HandleLine(buf, content, t, apIp, env);
  }

  /** Read `Host`, redirect or dispatch; the request sits in `buf` with its line terminated. */
  method HandleLine(buf: array<char>, ghost content: string, t: Token, apIp: string, env: Env) returns (trace: seq<Event>)
    requires t.start <= t.end <= t.rest <= |content|
    requires buf[..] == Tokenized(content, t)
    modifies buf
    ensures trace == LineTrace(content, t, apIp, env)
  {
    var found, start, len := GetHeader(buf[t.rest..], HostPrefix);
    HostOfBuffer(buf[..], content, t, found, start, len);
    var host := if found then buf[t.rest + start..t.rest + start + len] else "";
    if IsRedirect(host, apIp, env.staIp, env.hostName) {
      return [Header(Found(apIp))];
    }
    var line := buf[t.start..t.end];
    assert line == content[t.start..t.end];
    trace := ServeRoute(buf, SelectRoute(line), env, t.rest);
  }

  /** The NUL written by `strtok_r` lies before the headers. */
  lemma SuffixUntouched(content: string, t: Token)
    requires t.end <= t.rest <= |content|
    ensures Tokenized(content, t)[t.rest..] == content[t.rest..]
  {
  }

  /** The `Host` value `GetHeader` designates in the tokenized buffer is the request's. */
  lemma HostOfBuffer(b: string, content: string, t: Token, found: bool, start: nat, len: nat)
    requires t.start <= t.end <= t.rest <= |content| && b == Tokenized(content, t)
    requires found <==> HeaderSpan(b[t.rest..], HostPrefix).Some?
    requires found ==> HeaderSpan(b[t.rest..], HostPrefix) == Some(Span(start, len))
    ensures found ==> t.rest + start + len <= |b|
    ensures (if found then b[t.rest + start..t.rest + start + len] else "") == RequestHost(content, t.rest)
  {
    SuffixUntouched(content, t);
    if found {
      HeaderValueAt(content[t.rest..], HostPrefix, Span(start, len));
      SliceOfSuffix(b, content, t.rest, start, len);
    }
  }

  /** A slice of a shared suffix. */
  lemma SliceOfSuffix(a: string, c: string, r: nat, start: nat, len: nat)
    requires r <= |a| && r <= |c| && a[r..] == c[r..] && start + len <= |c| - r
    ensures a[r + start..r + start + len] == c[r..][start..start + len]
  {
    assert a[r + start..r + start + len] == a[r..][start..start + len];
  }

  /**
    The request line is answered by a redirect exactly when the portal
    decides so (no route ever answers 302), and the redirect's status line
    says 302.
  */
  lemma LineRedirectIff(content: string, t: Token, apIp: string, env: Env)
    requires t.start <= t.end <= t.rest <= |content|
    ensures var w := Writes(LineTrace(content, t, apIp, env));
      (w != [] && w[0].Header? && w[0].head.Found?) <==> IsRedirect(RequestHost(content, t.rest), apIp, env.staIp, env.hostName)
    ensures IsRedirect(RequestHost(content, t.rest), apIp, env.staIp, env.hostName) ==>
      Status(HeadText(Writes(LineTrace(content, t, apIp, env))[0].head)) == 302
  {
    if IsRedirect(RequestHost(content, t.rest), apIp, env.staIp, env.hostName) {
      WritesSingle(Header(Found(apIp)));
      HeadStatus(Found(apIp));
    } else {
      RouteAnswer(SelectRoute(content[t.start..t.end]), env, Tokenized(content, t), t.rest);
    }
  }

  /**
    What every connection gets: at most one response, silent only when
    nothing was received or the request was GET /scan.json.
  */
  ghost predicate ProperConnection(tr: seq<Event>) {
    OneResponse(tr) && (Writes(tr) == [] ==> tr == [] || tr == [ScanAsync])
  }

  /**
    Every connection is answered properly; it is silent only when nothing
    was received or GET /scan.json was asked for.
  */
  lemma ServeAnswer(frags: seq<string>, allocOk: seq<bool>, env: Env)
    requires |allocOk| == |frags|
    ensures ProperConnection(ServeSpec(frags, allocOk, env))
    ensures Writes(ServeSpec(frags, allocOk, env)) == [] ==>
      env.apIp.Some? && Accepted(frags, allocOk) == |frags| && (Concat(frags) == [] || ServeSpec(frags, allocOk, env) == [ScanAsync])
  {
    var tr := ServeSpec(frags, allocOk, env);
    if env.apIp.None? || Accepted(frags, allocOk) < |frags| {
      UnavailableAnswer(tr);
    } else {
      var content := Concat(frags);
      assert tr == RequestTrace(content, env.apIp.value, env);
      RequestAnswer(content, env.apIp.value, env);
    }
  }

  /** The 503 answer is a proper, non-silent one. */
  lemma UnavailableAnswer(tr: seq<Event>)
    requires tr == [Header(Unavailable)]
    ensures ProperConnection(tr) && Writes(tr) != []
  {
    WritesSingle(Header(Unavailable));
  }

  lemma RequestAnswer(content: string, apIp: string, env: Env)
    ensures ProperConnection(RequestTrace(content, apIp, env))
    ensures RequestTrace(content, apIp, env) == [] ==> content == []
  {
    if content != [] {
      match Strtok(CStr(content))
      case None => WritesSingle(Header(NotFound));
      case Some(t) => LineAnswer(content, t, apIp, env);
    }
  }

  lemma LineAnswer(content: string, t: Token, apIp: string, env: Env)
    requires t.start <= t.end <= t.rest <= |content|
    ensures ProperConnection(LineTrace(content, t, apIp, env))
    ensures LineTrace(content, t, apIp, env) != []
  {
    if IsRedirect(RequestHost(content, t.rest), apIp, env.staIp, env.hostName) {
      WritesSingle(Header(Found(apIp)));
    } else {
      RouteAnswer(SelectRoute(content[t.start..t.end]), env, Tokenized(content, t), t.rest);
    }
  }
}
