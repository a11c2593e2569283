/**
  What the server writes back (http_server.c, lines 83-92 and 201-235):
  the fixed response headers, the header built for a compressed asset, and
  the trace of observable effects a request leaves: socket writes and calls
  into the Wi-Fi manager and the configuration store.
*/
module Responses {
  import opened Wrappers
  import opened CStrings
  import Receive
  import Parser

  /** The status line starts with the protocol, then the three-digit code; the constants below are written that way. */
  const Http11: string := "HTTP/1.1 "

  const HtmlHdr: string := Http11 + "200" + " OK\nContent-type: text/html\nAccess-Control-Allow-Origin: *\nAccept-Encoding: identity\n\n"
  const CssHdr: string := Http11 + "200" + " OK\nContent-type: text/css\nCache-Control: public, max-age=31536000\nAccess-Control-Allow-Origin: *\n\n"
  const JsHdr: string := Http11 + "200" + " OK\nContent-type: text/javascript\nAccess-Control-Allow-Origin: *\n\n"
  const Hdr400: string := Http11 + "400" + " Bad Request\nContent-Length: 0\n\n"
  const Hdr404: string := Http11 + "404" + " Not Found\nContent-Length: 0\n\n"
  const Hdr503: string := Http11 + "503" + " Service Unavailable\nContent-Length: 0\n\n"
  const OkJsonHdr: string := Http11 + "200" + " OK\nContent-type: application/json\nCache-Control: no-store, no-cache, must-revalidate, max-age=0\nPragma: no-cache\nAccess-Control-Allow-Origin: *\nAccept-Encoding: identity\n\n"
  const RedirectStart: string := "HTTP/1.1 302 Found\nLocation: http://"
  const RedirectEnd: string := "/\n\n"

  /** The format of line 83; `%s`, `%d`, `%s` take the content type, the length and the encoding. */
  const HdrTemplate: string := "HTTP/1.1 200 OK\nContent-type: %s\nAccept-Ranges: bytes\nContent-Length: %d\nContent-Encoding: %s\nAccess-Control-Allow-Origin: *\n\n"

  datatype RebootMode = Ota | Restart | Recovery

  /** The response headers the server writes; `HeadText` gives their bytes. */
  datatype Head =
    | HtmlOk | CssOk | JsOk | JsonOk
    | BadRequest | NotFound | Unavailable
    | Found(apIp: string)
    | AssetOk(contentType: string, size: nat, encoding: string)
  {
    predicate IsError() { BadRequest? || NotFound? || Unavailable? }
  }

  /** The bytes of each header (lines 83-92, 212 and 382-384). */
  function HeadText(h: Head): string {
    match h
    case HtmlOk => HtmlHdr
    case CssOk => CssHdr
    case JsOk => JsHdr
    case JsonOk => OkJsonHdr
    case BadRequest => Hdr400
    case NotFound => Hdr404
    case Unavailable => Hdr503
    case Found(apIp) => RedirectHeader(apIp)
    case AssetOk(contentType, size, encoding) => ResourceHeader(contentType, size, encoding)
  }

  /**
    One observable effect. `Header` is a write that starts a response (a
    status line and its header fields), `Body` a write of payload bytes;
    the others are calls into collaborators, in the order they are made.
  */
  datatype Event =
    | Header(head: Head)
    | Body(bytes: string)
    | ScanAsync
    | ConnectAsync(ssid: string, password: string)
    | DisconnectAsync
    | ConfigSet(key: string, value: string)
    | Reboot(mode: RebootMode)
    | RebootOta(url: string)
  {
    predicate IsWrite() { Header? || Body? }
  }

  /** The socket writes of a trace, in order. */
  function Writes(trace: seq<Event>): (w: seq<Event>)
    ensures |w| <= |trace|
    ensures forall k :: 0 <= k < |w| ==> w[k].IsWrite()
  {
    if trace == [] then []
    else
      var last := trace[|trace| - 1];
      Writes(trace[..|trace| - 1]) + (if last.IsWrite() then [last] else [])
  }

  lemma {:induction false} WritesAppend(a: seq<Event>, b: seq<Event>)
    ensures Writes(a + b) == Writes(a) + Writes(b)
    decreases |b|
  {
    if b == [] {
      assert a + b == a;
    } else {
      assert (a + b)[..|a + b| - 1] == a + b[..|b| - 1];
      WritesAppend(a, b[..|b| - 1]);
    }
  }

  lemma WritesSingle(e: Event)
    ensures Writes([e]) == if e.IsWrite() then [e] else []
  {
    assert [e][..0] == [];
  }

  /** A trace whose events are all collaborator calls writes nothing. */
  lemma {:induction false} WritesNone(trace: seq<Event>)
    requires forall k :: 0 <= k < |trace| ==> !trace[k].IsWrite()
    ensures Writes(trace) == []
  {
    if trace != [] {
      WritesNone(trace[..|trace| - 1]);
    }
  }

  lemma WritesPair(e: Event, f: Event)
    ensures Writes([e, f]) == Writes([e]) + Writes([f])
  {
    WritesAppend([e], [f]);
    assert [e] + [f] == [e, f];
  }

  /** Collaborator calls in front of a trace do not change its writes. */
  lemma CallsThenWrites(a: seq<Event>, b: seq<Event>)
    requires Writes(a) == []
    ensures Writes(a + b) == Writes(b)
  {
    WritesAppend(a, b);
  }

  /**
    The writes form one response: nothing at all, or one header followed
    only by payload.
  */
  ghost predicate OneResponse(trace: seq<Event>) {
    var w := Writes(trace);
    w == [] || (w[0].Header? && forall k :: 1 <= k < |w| ==> w[k].Body?)
  }

  function DigitValue(c: char): nat
    requires IsDigit(c)
  {
    c as int - '0' as int
  }

  /** The status code of a header, read from its status line; 0 when there is none. */
  function Status(h: string): (code: nat)
    ensures code < 1000
    ensures code != 0 ==> Http11 <= h && |h| >= |Http11| + 3
  {
    if |h| >= 12 && h[..9] == Http11 && IsDigit(h[9]) && IsDigit(h[10]) && IsDigit(h[11]) then
      100 * DigitValue(h[9]) + 10 * DigitValue(h[10]) + DigitValue(h[11])
    else 0
  }

  /** A status line followed by anything keeps its code. */
  lemma StatusOfPrefix(code: string, rest: string)
    requires |code| == 3 && IsDigit(code[0]) && IsDigit(code[1]) && IsDigit(code[2])
    ensures Status(Http11 + code + rest) == 100 * DigitValue(code[0]) + 10 * DigitValue(code[1]) + DigitValue(code[2])
  {
    var h := Http11 + code + rest;
    assert h[..9] == Http11;
    assert h[9..12] == code;
  }

  /** The status codes of the fixed headers. */
  lemma FixedStatuses()
    ensures Status(HtmlHdr) == 200 && Status(CssHdr) == 200 && Status(JsHdr) == 200
    ensures Status(OkJsonHdr) == 200
    ensures Status(Hdr400) == 400 && Status(Hdr404) == 404 && Status(Hdr503) == 503
  {
    StatusOfPrefix("200", HtmlHdr[12..]);
    StatusOfPrefix("200", CssHdr[12..]);
    StatusOfPrefix("200", JsHdr[12..]);
    StatusOfPrefix("200", OkJsonHdr[12..]);
    StatusOfPrefix("400", Hdr400[12..]);
    StatusOfPrefix("404", Hdr404[12..]);
    StatusOfPrefix("503", Hdr503[12..]);
  }

  // ---- http_server_send_resource_file ----

  /** The header of line 212 once the template is filled in with the given digits. */
  function ResourceHeaderText(contentType: string, digits: string, encoding: string): (h: string)
    ensures |h| == |HdrTemplate| - 6 + |contentType| + |digits| + |encoding|
  {
    "HTTP/1.1 200 OK\nContent-type: " + contentType + "\nAccept-Ranges: bytes\nContent-Length: " + digits
      + "\nContent-Encoding: " + encoding + "\nAccess-Control-Allow-Origin: *\n\n"
  }

  /** What `snprintf(buf, size, ...)` leaves in `buf`: at most `size - 1` bytes of the output. */
  function Snprintf(output: string, size: nat): (w: string)
    ensures w <= output
    ensures size > |output| ==> w == output
    ensures size <= |output| ==> |w| == if size == 0 then 0 else size - 1
  {
    if size == 0 then [] else output[..if |output| < size - 1 then |output| else size - 1]
  }

  /** `buff_length` of line 203: the template with its terminator plus both strings. */
  function HeaderBufferLength(contentType: string, encoding: string): nat {
    |HdrTemplate| + 1 + |contentType| + |encoding|
  }

  /** The Content-Length digits as written: the size goes through `uint16_t len` (line 202). */
  function ContentLengthAsWritten(size: nat): string {
    Decimal(size % Receive.U16)
  }

  /** Lines 202-212 as written: the 16-bit length printed by `snprintf` into `buff_length - 1` bytes. */
  function ResourceHeaderAsWritten(contentType: string, size: nat, encoding: string): string {
    Snprintf(ResourceHeaderText(contentType, ContentLengthAsWritten(size), encoding),
      HeaderBufferLength(contentType, encoding) - 1)
  }

  /** The buffer is always large enough for the 16-bit length: at most five digits never truncate the header. */
  lemma AsWrittenHeaderNotTruncated(contentType: string, size: nat, encoding: string)
    ensures ResourceHeaderAsWritten(contentType, size, encoding)
      == ResourceHeaderText(contentType, ContentLengthAsWritten(size), encoding)
  {
    DecimalWidth(size % Receive.U16);
  }

  /** An asset of 64 KiB or more announces its length modulo 65536. */
  lemma AsWrittenContentLengthWraps(size: nat)
    ensures ParseDecimal(ContentLengthAsWritten(size)) == size % Receive.U16
    ensures size >= Receive.U16 ==> ParseDecimal(ContentLengthAsWritten(size)) != size
  {
    DecimalRoundTrip(size % Receive.U16);
  }

  /** The header announcing an asset of `size` bytes, with the full length. */
  function ResourceHeader(contentType: string, size: nat, encoding: string): string {
    ResourceHeaderText(contentType, Decimal(size), encoding)
  }

  /** A reader of the corrected header gets the asset's exact length back. */
  lemma ContentLengthRoundTrip(size: nat)
    ensures ParseDecimal(Decimal(size)) == size
    ensures size < Receive.U16 ==> Decimal(size) == ContentLengthAsWritten(size)
  {
    DecimalRoundTrip(size);
    if size < Receive.U16 {
      assert size % Receive.U16 == size;
    }
  }

  /**
    `http_server_send_resource_file`: the header and the asset, or a 503
    when the header buffer cannot be allocated.
  */
  function ResourceResponse(asset: string, contentType: string, encoding: string, allocOk: bool): seq<Event> {
    if allocOk then [Header(AssetOk(contentType, |asset|, encoding)), Body(asset)]
    else [Header(Unavailable)]
  }

  /** The header of the captive-portal redirect: three writes that make one header. */
  function RedirectHeader(apIp: string): string {
    RedirectStart + apIp + RedirectEnd
  }

  /** The redirect is a 302. */
  lemma RedirectStatus(apIp: string)
    ensures Status(RedirectHeader(apIp)) == 302
  {
    var r := RedirectHeader(apIp);
    assert r[..|RedirectStart|] == RedirectStart;
    assert r[..9] == RedirectStart[..9] == Http11;
    assert RedirectStart[9] == '3' && RedirectStart[10] == '0' && RedirectStart[11] == '2';
    assert r[9] == '3' && r[10] == '0' && r[11] == '2';
  }

  /** Every resource header is a 200. */
  lemma ResourceStatus(contentType: string, size: nat, encoding: string)
    ensures Status(ResourceHeader(contentType, size, encoding)) == 200
  {
    var h := ResourceHeader(contentType, size, encoding);
    var lead := "HTTP/1.1 200 OK\nContent-type: ";
    assert h[..|lead|] == lead;
    assert h[..9] == lead[..9] == Http11;
    assert h[9] == '2' && h[10] == '0' && h[11] == '0';
  }

  /**
    The status line of every header carries the code its kind stands for:
    302 exactly for the redirect, 400 and above exactly for the errors,
    200 for the rest.
  */
  lemma HeadStatus(h: Head)
    ensures Status(HeadText(h)) == match h
      case BadRequest => 400
      case NotFound => 404
      case Unavailable => 503
      case Found(_) => 302
      case _ => 200
    ensures Status(HeadText(h)) == 302 <==> h.Found?
    ensures Status(HeadText(h)) >= 400 <==> h.IsError()
  {
    match h
    case Found(apIp) => RedirectStatus(apIp);
    case AssetOk(contentType, size, encoding) => ResourceStatus(contentType, size, encoding);
    case _ => FixedStatuses();
  }

  /** A client reading the redirect finds the access point's address in its `Location` field. */
  lemma RedirectLocation(apIp: string)
    requires forall k :: 0 <= k < |apIp| ==> !IsLineStop(apIp[k])
    ensures Parser.HeaderValue(RedirectHeader(apIp), "Location: ") == Some("http://" + apIp + "/")
  {
    var s := RedirectHeader(apIp);
    LocationFieldAt(apIp);
    var e := |RedirectStart| + |apIp| + 1;
    assert s[e] == '\n';
    assert forall k :: 29 <= k < e ==> !StopsAt(s[k], AtLineStop) by {
      forall k | 29 <= k < e ensures !IsLineStop(s[k]) {
        if k < |RedirectStart| {
          assert s[k] == RedirectStart[k];
        } else if k < |RedirectStart| + |apIp| {
          assert s[k] == apIp[k - |RedirectStart|];
        }
      }
    }
    ScanIs(s, 29, |s|, AtLineStop, e);
    assert s[29..e] == "http://" + apIp + "/";
  }

  /** The field name `Location: ` first occurs at offset 19 of the redirect header. */
  lemma LocationFieldAt(apIp: string)
    ensures CFind(RedirectHeader(apIp), "Location: ", 0, |RedirectHeader(apIp)|) == Some(19)
  {
    var s := RedirectHeader(apIp);
    var name := "Location: ";
    assert s[..|RedirectStart|] == RedirectStart;
    forall j | 0 <= j < 19 ensures s[j] != NUL && !OccursAt(s, name, j) {
      assert s[j..j + |name|] == RedirectStart[j..j + |name|];
    }
    assert s[19..29] == name;
    CFindIs(s, name, 0, |s|, 19);
  }
}
