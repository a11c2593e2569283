# Request handling of the captive-portal HTTP server

This project models the request handling of `components/wifi-manager/http_server.c` in Dafny and proves properties of it. This is the small HTTP-like server a Wi-Fi device runs while it acts as an access point. The server:

- reassembles a request from the fragments of one connection;
- splits off the request line;
- reads the `Host` header and redirects foreign hosts to the access point (the captive portal);
- otherwise picks a route by substring search on the request line and answers it;
- for `POST /config.json`, walks the `X-Custom-<name>: <value>` header lines and stores each one as a configuration key;
- for `POST /connect.json`, passes the credentials to the Wi-Fi manager.

`strreplace`, the in-place string rewrite at the end of the file, is modelled as well.

Modules, one per file:

- `CStrings` (cstrings.dfy): the C library primitives the server relies on.
  - `strlen` bounded by the buffer.
  - `strstr`, as `FindFrom`.
  - `strstr` stopping at the first NUL, as `CFind`.
  - `strcasestr`.
  - What `%d` prints.
- `Receive` (receive.dfy): the receive loop.
  - `RecvBuffer` is a class over an `array<char>`. `Append` copies each fragment in, and `Receive` feeds it the fragments.
  - The loop as written is kept separately, with 16-bit lengths and its own growth formula (`StepAsWritten`, `RunAsWritten`), to exhibit its defects.
- `Parser` (parser.dfy):
  - the request line split by `strtok_r`;
  - `http_server_get_header` (`HeaderSpan`, with the method `GetHeader`);
  - `http_server_search_header` (`SearchField`, with the method `SearchHeader` over the buffer, which it writes into);
  - the repeated search that enumerates the custom fields (`Fields`).
- `Responses` (responses.dfy):
  - the fixed response headers;
  - the header built by `http_server_send_resource_file`;
  - `Event`, one observable effect: a socket write or a call into a collaborator;
  - `Writes`, the socket writes of a trace.
- `Portal` (portal.dfy): the captive-portal decision.
- `Dispatch` (dispatch.dfy):
  - the ordered route table and the route choice;
  - the trace of every route;
  - the `POST /config.json` loop as a method over the buffer;
  - `POST /connect.json`.
- `Netconn` (netconn.dfy): `http_server_netconn_serve` end to end, as functions (`ServeSpec`, `RequestTrace`, `LineTrace`) and as methods proved against them (`Serve`, `HandleRequest`, `HandleLine`).
- `Replace` (replace.dfy): `strreplace`. It has three definitions, each proved to agree with the next:
  - `ReplaceAll`, the result as a value;
  - `ReplaceScan`, an independent character-by-character definition;
  - `StrReplace`, the in-place method over an array.

The collaborators enter as an `Env` of answers. These are the configuration store, the Wi-Fi manager, the TCP/IP adapter, the status lock and the embedded assets. Each call the server makes to a collaborator leaves an event in the trace, in order. Where the code has a defect, the model keeps two versions:

- an "as written" member that exhibits the defect;
- a corrected member, which the rest of the model uses (see "## Findings").

Notes on what the code does, which the model follows:

- The `Host` value is compared with `strcasestr`: case-insensitive substring containment, not equality (`Portal.LongerHostNotRedirected`).
- Routes match by `strstr` anywhere in the request line, not by an exact method and path.
- A failed allocation is not always turned into a 503 with nothing written before it:
  - the receive loop does not check `realloc`;
  - `GET /ap.json` writes its 200 header before the list is fetched.

  Both are listed under "## Findings".
- A host name is stored for `POST /connect.json` only when its value is non-empty.

## Model

| member | source | states |
|---|---|---|
| CStrings.ScanSpec | components/wifi-manager/http_server.c:140-143 | a pointer loop that stops at a byte class passes only bytes outside the class, and halts on a byte of the class unless it reached the end |
| CStrings.ScanIs | components/wifi-manager/http_server.c:140-143 | conversely, a position with those two properties is where the loop halts |
| CStrings.CStr | components/wifi-manager/http_server.c:353-354 | the C string at the start of the buffer is a prefix of the received bytes, holds no NUL, and is followed by a NUL when shorter than the buffer |
| CStrings.FindFromSpec | components/wifi-manager/http_server.c:638 | `strstr` returns None exactly when the needle occurs nowhere from the start position, and otherwise an occurrence with none before it |
| CStrings.CFindSpec | components/wifi-manager/http_server.c:136 | an occurrence `strstr` finds starts inside the C string with none before it; when it finds none, no occurrence starting inside the C string fits below the end |
| CStrings.CFindIs | components/wifi-manager/http_server.c:155 | the first occurrence before any NUL is what `strstr` returns |
| CStrings.CFindLocal | components/wifi-manager/http_server.c:155 | the search reads only the bytes between its start and the end of the received data |
| CStrings.LowerOccursIff | components/wifi-manager/http_server.c:376-380 | an occurrence in the case-folded strings is a case-insensitive match at the same position, in both directions |
| CStrings.StrCaseStrSpec | components/wifi-manager/http_server.c:376-380 | `strcasestr` finds nothing exactly when there is no case-insensitive match, and what it finds is the first match |
| CStrings.DecimalRoundTrip | components/wifi-manager/http_server.c:212 | the digits `%d` prints read back as the printed value |
| CStrings.DecimalWidth | components/wifi-manager/http_server.c:202-203 | a 16-bit length never needs more than five digits |
| Receive.ConcatLength | components/wifi-manager/http_server.c:342-343 | the reassembled length is the sum of the fragment lengths |
| Receive.ConcatAppend | components/wifi-manager/http_server.c:342-343 | appending fragments in order appends their bytes in order |
| Receive.SplitFragment | components/wifi-manager/http_server.c:332-345 | the reassembled request does not depend on where the fragment boundaries fall |
| Receive.GrowCapacity | components/wifi-manager/http_server.c:338-341 | after growth the capacity holds the held and the new bytes; it never shrinks, and each growth adds at least 2048 |
| Receive.RecvBuffer.constructor | components/wifi-manager/http_server.c:311-312 | the buffer starts empty, with no capacity |
| Receive.RecvBuffer.Append | components/wifi-manager/http_server.c:336-343 | a fragment is appended after the held bytes with the corrected growth; when the needed allocation fails, nothing changes |
| Receive.ReceiveFrom | components/wifi-manager/http_server.c:332-347 | reception stops only at a fragment whose growth allocation failed |
| Receive.Receive | components/wifi-manager/http_server.c:330-347 | the held bytes are the in-order concatenation of the accepted fragments; their number is the sum of their lengths; the capacity covers them; an early stop means a failed allocation for a fragment that did not fit |
| Receive.StepAsWritten | components/wifi-manager/http_server.c:338-343 | one fragment as written keeps both lengths 16-bit when the copy fits |
| Receive.AsWrittenOverrunIff | components/wifi-manager/http_server.c:339 | without wrap-around, the growth formula falls short exactly when bytes are already held and the fragment exceeds the free room plus 2048 |
| Receive.AsWrittenSmallFragmentsFit | components/wifi-manager/http_server.c:339 | fragments of at most 2048 bytes always fit while no length wraps |
| Receive.AsWrittenShortfall | components/wifi-manager/http_server.c:339-342 | fragments of 2000 and then 3000 bytes get 4096 bytes allocated for 5000 |
| Receive.AsWrittenReallocUnchecked | components/wifi-manager/http_server.c:340-342 | a failed `realloc` leads to a copy through NULL |
| Receive.AsWrittenNoRoomForTerminator | components/wifi-manager/http_server.c:339-342 | a 2048-byte fragment fills its allocation exactly, leaving no byte for a NUL |
| Receive.AsWrittenCapacityWraps | components/wifi-manager/http_server.c:312 | 32 fragments of 2048 bytes make the 16-bit capacity wrap to 0 while 65536 bytes are to be held |
| Parser.Strtok | components/wifi-manager/http_server.c:354 | the token is non-empty and lies before the rest of the request |
| Parser.StrtokSpec | components/wifi-manager/http_server.c:354 | a NULL line exactly when the request holds only newlines; otherwise the token is the first maximal run of non-newline bytes, and the headers resume after its newline or at the end |
| Parser.StrtokRestNewlib | components/wifi-manager/http_server.c:354-355 | whenever newlib leaves `save_ptr` set, it points where the glibc-style model puts the rest of the request |
| Parser.NewlibRestIsNull | components/wifi-manager/http_server.c:354-355 | a request line without a newline leaves `save_ptr` NULL under newlib |
| Parser.HeaderSpan | components/wifi-manager/http_server.c:131-147 | a value found lies after the name, inside the request |
| Parser.HeaderSpanSpec | components/wifi-manager/http_server.c:131-147 | not found exactly when the name does not occur in the C string; otherwise the value starts right after the first occurrence and runs to the first NUL, CR or LF |
| Parser.HeaderValue | components/wifi-manager/http_server.c:138-144 | a returned value contains no NUL, CR or LF |
| Parser.GetHeader | components/wifi-manager/http_server.c:131-147 | the scanning loop finds the value exactly as `HeaderSpan` says, with length 0 when the name is absent; the request is not modified |
| Parser.ParseField | components/wifi-manager/http_server.c:159-195 | the value ends at or before `bufEnd`, and the next search resumes one past its end |
| Parser.ParseFieldSpec | components/wifi-manager/http_server.c:164-189 | the name runs from the end of the prefix to a ':' on the same line; spaces after ':' are skipped; the value is one line ending at a NUL, CR, LF or `bufEnd` |
| Parser.ParseFieldLocal | components/wifi-manager/http_server.c:164-189 | reading a field looks only at the bytes below `bufEnd` |
| Parser.SearchField | components/wifi-manager/http_server.c:155-196 | a field found starts at or after the search position, ends by `bufEnd`, and the next position is one past its value |
| Parser.SearchFieldSpec | components/wifi-manager/http_server.c:148-199 | no field exactly when the search starts at or past `bufEnd` or the prefix does not occur before `bufEnd` in the C string; otherwise the first occurrence and a field with every property `FieldOk` lists |
| Parser.FoundFieldOk | components/wifi-manager/http_server.c:158-195 | the field read after the first match has the properties `FieldOk` lists |
| Parser.ScanLoop | components/wifi-manager/http_server.c:164-189 | a pointer loop over the buffer stops where `Scan` says |
| Parser.ReadField | components/wifi-manager/http_server.c:159-189 | the name, the spaces and the value read from the buffer form the field `ParseField` describes |
| Parser.SearchHeader | components/wifi-manager/http_server.c:148-199 | the search over the buffer returns `SearchField` of the old contents, writes one NUL at the value end when that end is below `bufEnd`, and changes nothing else |
| Parser.AsWrittenWritesAtBufEnd | components/wifi-manager/http_server.c:186-191 | for a field whose value runs to the end of the data, line 191 writes at `bufEnd` itself |
| Parser.Fields | components/wifi-manager/http_server.c:462-485 | every enumerated field starts at or after the starting position, and its value ends before its resume position, which is at most one past `bufEnd` |
| Parser.FieldsStep | components/wifi-manager/http_server.c:462-485 | the enumeration is the field the search finds, followed by the fields after it |
| Parser.FieldsEnumerate | components/wifi-manager/http_server.c:462-485 | the enumeration is exactly the chain of searches, each starting at the previous resume position, ending where the search finds nothing |
| Parser.FieldsLeftToRight | components/wifi-manager/http_server.c:195 | the fields come out strictly left to right: each starts after the previous one's resume position |
| Parser.SearchFieldLocal | components/wifi-manager/http_server.c:155-189 | the search reads only the bytes from its start position to `bufEnd` |
| Parser.FieldsLocal | components/wifi-manager/http_server.c:462-485 | the enumeration reads only the bytes from its start position to `bufEnd` |
| Responses.Status | components/wifi-manager/http_server.c:83-92 | the status code read off a header is below 1000, and it is non-zero only when the header starts with a `HTTP/1.1 ` status line and its three digits |
| Responses.StatusOfPrefix | components/wifi-manager/http_server.c:83-92 | a status line keeps its three-digit code whatever follows it |
| Responses.FixedStatuses | components/wifi-manager/http_server.c:84-90 | the fixed headers carry 200, 400, 404 and 503 |
| Responses.ResourceHeaderText | components/wifi-manager/http_server.c:83 | the filled-in template has the length of the template without its three conversions, plus the lengths of the three inserted strings |
| Responses.Snprintf | components/wifi-manager/http_server.c:212 | `snprintf` keeps a prefix of its output of at most `size - 1` bytes, and all of it when it fits |
| Responses.AsWrittenHeaderNotTruncated | components/wifi-manager/http_server.c:202-212 | the header buffer always holds the whole header with its 16-bit length |
| Responses.AsWrittenContentLengthWraps | components/wifi-manager/http_server.c:202 | the announced length is the asset size modulo 65536, which is wrong from 64 KiB on |
| Responses.ContentLengthRoundTrip | components/wifi-manager/http_server.c:202-212 | the corrected header announces the exact size, and agrees with the header as written below 64 KiB |
| Responses.RedirectStatus | components/wifi-manager/http_server.c:91-92 | the redirect is a 302 |
| Responses.ResourceStatus | components/wifi-manager/http_server.c:83 | every resource header is a 200 |
| Responses.HeadStatus | components/wifi-manager/http_server.c:83-92 | every header carries the code of its kind: 302 exactly for the redirect, 400 and above exactly for the errors, 200 for the rest |
| Responses.RedirectLocation | components/wifi-manager/http_server.c:382-384 | a client reading the redirect's `Location` field gets `http://` + AP address + `/` |
| Responses.LocationFieldAt | components/wifi-manager/http_server.c:91 | `Location: ` first occurs at offset 19 of the redirect header |
| Portal.RedirectIff | components/wifi-manager/http_server.c:376-380 | redirect exactly when the `Host` value is non-empty and contains, case-insensitively, none of the AP address, the station address and the host name (a missing host name never matches) |
| Portal.ApHostNotRedirected | components/wifi-manager/http_server.c:376-380 | a `Host` naming the AP address, in any letter case, is never redirected |
| Portal.NoHostNotRedirected | components/wifi-manager/http_server.c:380 | without a `Host` value there is no redirect |
| Portal.LongerHostNotRedirected | components/wifi-manager/http_server.c:380 | a host that merely contains the AP address is not redirected |
| Dispatch.MatchFrom | components/wifi-manager/http_server.c:389-570 | the chosen index lies within the table, at or after the start |
| Dispatch.MatchFromSpec | components/wifi-manager/http_server.c:389-591 | no route exactly when no pattern occurs in the line; otherwise the chosen pattern occurs and no earlier one does |
| Dispatch.SelectRouteOwnPattern | components/wifi-manager/http_server.c:389-570 | a line that mentions a route's pattern and none of the patterns tried before it selects that route |
| Dispatch.ApJsonAsWrittenTwoHeaders | components/wifi-manager/http_server.c:422-433 | as written, a failed AP list gives a 200 and then a 503 header: not one response |
| Dispatch.ApJsonScansOnce | components/wifi-manager/http_server.c:419-443 | `GET /ap.json` asks for exactly one scan, as its last event, whether or not the lock is obtained and the list produced; the trace as written does too |
| Dispatch.StoreEventsAreSets | components/wifi-manager/http_server.c:474-479 | storing the fields only makes configuration writes |
| Dispatch.StoreEventsSpec | components/wifi-manager/http_server.c:466-479 | a key is stored with a value exactly when some custom field has that name and value and the name is not `fwurl` |
| Dispatch.LastFwUrlSpec | components/wifi-manager/http_server.c:468-473 | an OTA address is captured exactly when a field is named `fwurl`, and it is the value of the last such field |
| Dispatch.ConfigPostRebootLast | components/wifi-manager/http_server.c:486-499 | an OTA reboot in the `POST /config.json` trace is its last event and comes right after the 200 header, after every configuration write |
| Dispatch.ConfigPostAnswer | components/wifi-manager/http_server.c:486-490 | `POST /config.json` always writes exactly one 200 header (no error is ever flagged) |
| Dispatch.ServeConfigPost | components/wifi-manager/http_server.c:450-503 | the loop over the buffer stores every field in order, answers 200, and then asks for the OTA reboot with the last `fwurl`, as `ConfigPostTrace` of the original request says |
| Dispatch.NextField | components/wifi-manager/http_server.c:465 | a search in the loop finds what the search over the original request finds; the value and every byte after the field are still the original ones |
| Dispatch.ValueUntouched | components/wifi-manager/http_server.c:191 | the NUL a search writes leaves the value and every byte after the field unchanged |
| Dispatch.ConnectAnswer | components/wifi-manager/http_server.c:522-541 | `POST /connect.json` writes exactly one header: 200 exactly when a connection is started, 400 otherwise |
| Dispatch.ConnectCredentials | components/wifi-manager/http_server.c:509-528 | a connection is started with given credentials exactly when they are the header values and fit their fields (32 and 64 bytes) |
| Dispatch.ConnectStoresHostName | components/wifi-manager/http_server.c:511-520 | the host name is stored exactly when its header has a non-empty value, whatever the credentials |
| Dispatch.ServeRoute | components/wifi-manager/http_server.c:389-594 | running the chosen route over the buffer gives the trace `RouteTrace` assigns to the original request |
| Dispatch.RouteAnswer | components/wifi-manager/http_server.c:389-594 | every route writes one response (a header, then only body bytes), never a redirect or a 404, and an error header alone; only `GET /scan.json` writes nothing |
| Dispatch.AssetAnswer | components/wifi-manager/http_server.c:389-412 | the pages and compressed assets answer properly |
| Dispatch.QueryAnswer | components/wifi-manager/http_server.c:415-449 | the scan request, ap.json, config.json and status.json answer properly; the scan is silent |
| Dispatch.CommandAnswer | components/wifi-manager/http_server.c:450-569 | the POST and DELETE requests answer properly |
| Dispatch.ControlAnswer | components/wifi-manager/http_server.c:545-569 | disconnect and the three reboots write one 200 header beside their call |
| Dispatch.HeaderAnswer | components/wifi-manager/http_server.c:592 | a lone header, or a success header with its body, is a proper answer |
| Dispatch.JsonAnswer | components/wifi-manager/http_server.c:220-234 | a JSON document is answered with 200 and its body, or a lone 503 |
| Dispatch.ApJsonAnswer | components/wifi-manager/http_server.c:419-443 | with the list fetched before writing, `GET /ap.json` is one response |
| Dispatch.ResourceAnswer | components/wifi-manager/http_server.c:201-218 | a compressed asset is a 200 with its bytes, or a lone 503 |
| Netconn.Tokenized | components/wifi-manager/http_server.c:354 | `strtok_r` changes at most the byte that ended the request line |
| Netconn.Serve | components/wifi-manager/http_server.c:308-347 | one connection gives the trace of `ServeSpec`: 503 without an AP address or after a failed allocation, otherwise the request's trace |
| Netconn.HandleRequest | components/wifi-manager/http_server.c:349-354 | nothing received gives no answer, no request line a 404, otherwise the line's trace |
| Netconn.HandleLine | components/wifi-manager/http_server.c:355-385 | the `Host` value is read from the tokenized buffer; the portal redirects or the route answers, as `LineTrace` says |
| Netconn.HostOfBuffer | components/wifi-manager/http_server.c:355-360 | the `Host` value read from the tokenized buffer is the one in the received request |
| Netconn.LineRedirectIff | components/wifi-manager/http_server.c:363-386 | the answer is a redirect exactly when the portal decides so, and then its status is 302 |
| Netconn.ServeAnswer | components/wifi-manager/http_server.c:308-610 | every connection gets at most one response; it is silent only when nothing was received or `GET /scan.json` was asked for |
| Netconn.RequestAnswer | components/wifi-manager/http_server.c:349-600 | a received request always gets a proper answer |
| Netconn.LineAnswer | components/wifi-manager/http_server.c:363-600 | a request line always gets a proper, non-empty trace |
| Replace.ScanKeepsPrefix | components/wifi-manager/http_server.c:636-653 | where `str` does not start, the character-by-character rewrite keeps the character |
| Replace.ReplaceFromIsScan | components/wifi-manager/http_server.c:636-653 | rewriting from a position is the character-by-character rewrite of the suffix |
| Replace.ReplaceAllIsScan | components/wifi-manager/http_server.c:636-653 | `strreplace`'s result equals the independent character-by-character definition |
| Replace.ReplaceAbsent | components/wifi-manager/http_server.c:638-639 | without an occurrence the string is unchanged |
| Replace.ReplaceLength | components/wifi-manager/http_server.c:641 | each replacement changes the length by the length of `rep` minus that of `str` |
| Replace.ReplaceGrows | components/wifi-manager/http_server.c:641 | with `rep` at least as long as `str`, the string never shrinks |
| Replace.ReplaceSelf | components/wifi-manager/http_server.c:650 | the search resumes after the inserted text, so replacing `str` by itself changes nothing |
| Replace.ReplaceFromSuffix | components/wifi-manager/http_server.c:650 | rewriting from a position is rewriting the suffix there on its own |
| Replace.StepUnfold | components/wifi-manager/http_server.c:638-650 | the first occurrence is replaced and the tail is rewritten on its own |
| Replace.StepLengths | components/wifi-manager/http_server.c:641-649 | the string after one step is no longer than the original or than the final result, so a buffer that holds both holds it |
| Replace.Copy | components/wifi-manager/http_server.c:645-649 | copying writes the data from the given index and changes nothing else |
| Replace.Scratch | components/wifi-manager/http_server.c:641-648 | the scratch array holds the prefix, `rep`, the tail and a NUL |
| Replace.ReplaceStep | components/wifi-manager/http_server.c:641-649 | one step leaves the rewritten string and its NUL in the buffer, and the rest of the buffer as it was |
| Replace.LeavesUnchanged | components/wifi-manager/http_server.c:638-639 | without an occurrence the buffer already holds the result |
| Replace.StrReplace | components/wifi-manager/http_server.c:636-653 | the buffer ends up holding `ReplaceAll` of the old C string and a NUL, with the bytes before it and beyond both strings unchanged |
| Replace.Strlen | components/wifi-manager/http_server.c:641 | `strlen` is the length of the C string at the index |
| Replace.ScratchOverrun | components/wifi-manager/http_server.c:641-648 | the terminator of the last `strncat` lands at index `len`, one past the scratch array |
| Replace.ScratchOverrunExample | components/wifi-manager/http_server.c:641-646 | `strreplace("a", "a", "")` allocates a scratch array of no bytes |

## Left out

- Task creation, the accept loop, the configuration mutex and the RTOS wrappers (lines 95-128 and 612-634) are scheduling and concurrency. The status lock's outcome is an input (`Env.jsonLock`).
- The netconn calls, the 50 ms receive timeout, `netconn_getaddr` and logging are I/O.
  - The request is the given sequence of fragments, and its end is where the fragments stop.
  - Closing the connection and freeing the buffers are not modelled.
- Collaborators are inputs or trace events: the configuration store, the Wi-Fi manager, `tcpip_adapter_get_hostname`, `config_alloc_get_json` and the reboot calls.
  - A failed `config_set_value` is only logged, so it does not appear.
  - Filling the station configuration (lines 523-526) is the single `ConnectAsync` event.
- `MAX_SSID_SIZE` and `MAX_PASSWORD_SIZE` are 32 and 64, the sizes of the station configuration fields; the header that defines them is not part of this model.
- The embedded assets are opaque strings, and their bytes are not modelled.
- `snprintf` is modelled only as truncation of the filled-in template.
- `dump_net_buffer` (lines 296-306) and `http_server_process_config` (lines 236-294) are left out. The first only logs; the second is never called (line 460).
- `strreplace`'s `memset` of the scratch array (line 643) is not modelled: the three copies overwrite every byte of it.
- Netconn.HandleLine: a failed `malloc` of the host copy (line 356) is not modelled.
- Parser.SearchHeader: the loops of lines 164, 180 and 186 read the byte at `bufEnd` before testing the bound, and line 167 tests it with no bound at all. The model treats every byte at or past `bufEnd` as a stop. So a ':' sitting at `bufEnd` makes the source name a field, write its NUL at `bufEnd + 1` and resume at `bufEnd + 2`, where the model reads an unnamed field.
- Parser.GetHeader: the value loop of line 140 has no bound and reads until a NUL, CR or LF. The model stops it at the end of the received bytes.
- Parser.SearchHeader: the field name is a value, so a failed `malloc` of the name (lines 171-175) is not modelled.
- Dispatch.ServeConfigPost: keeps only the last `fwurl` value. The `strdup` copies of earlier ones, which the source leaks (line 471), are not modelled.
- Netconn.Serve: the 302 redirect is one `Header` event, though the source sends it in three writes (lines 382-384).
- Netconn.Serve: `strtok_r`, `strstr` and `strcasestr` see only the received bytes. The source reads past them until it meets a NUL, and there is none in the buffer.
- Netconn.Serve: it answers a failed growth of the receive buffer with a 503. The source does not check that allocation (see "## Findings").
- Replace.StrReplace: it requires the caller's buffer to hold the result and its NUL, as the source expects of its callers. It also requires `str` to be non-empty, without which the recursion of line 650 never ends.
- Parser.Strtok: it follows glibc, leaving `save_ptr` at the end of the string when no newline ends the line. Newlib's NULL there is a finding.
- The status lines end with a bare LF, as in the source (lines 83-92), not with CRLF as section 2.1 of RFC 9112 requires.

## Findings

| source | as written | input that shows it | evidently intended | confidence | as-written member | corrected member |
|---|---|---|---|---|---|---|
| components/wifi-manager/http_server.c:339 | growth adds `rcvlen - bufsize` (at least 2048), ignoring the bytes already held | fragments of 2000 then 3000 bytes: 4096 bytes allocated, 5000 copied | grow by the shortfall `buflen + rcvlen - bufsize`, at least 2048 | not executed | Receive.AsWrittenShortfall | Receive.GrowCapacity |
| components/wifi-manager/http_server.c:312 | `buflen` and `bufsize` are `u16_t` | 32 fragments of 2048 bytes: `bufsize` wraps to 0, then 65536 bytes are copied | lengths that cannot wrap | not executed | Receive.AsWrittenCapacityWraps | Receive.Receive |
| components/wifi-manager/http_server.c:340 | the result of `realloc` is not checked | any fragment that needs growth while memory is short: `memcpy` to NULL | stop and answer 503 | not executed | Receive.AsWrittenReallocUnchecked | Receive.RecvBuffer.Append |
| components/wifi-manager/http_server.c:342 | the buffer is never NUL-terminated, but it is parsed as a C string | one 2048-byte fragment fills its allocation exactly | parse only the received bytes | not executed | Receive.AsWrittenNoRoomForTerminator | CStrings.CStr |
| components/wifi-manager/http_server.c:191 | the value's NUL is written even when the value ends at `bufEnd` | `X-Custom-a: b` as the last 13 bytes of the request: a write at `bufEnd` | write the NUL only inside the received bytes | not executed | Parser.AsWrittenWritesAtBufEnd | Parser.SearchHeader |
| components/wifi-manager/http_server.c:641-648 | the scratch array `r[len]` has no room for the NUL the copies append | `strreplace("a", "a", "")`: `r` has 0 bytes and `r[0]` is written | `r[len + 1]` | not executed | Replace.ScratchOverrun | Replace.Scratch |
| components/wifi-manager/http_server.c:423-433 | the 200 header is written before the AP list is fetched, so a failure adds a 503 header | `GET /ap.json` with the lock obtained and the list rendering failing | fetch first, then answer 200 with the list or 503 alone | not executed | Dispatch.ApJsonAsWrittenTwoHeaders | Dispatch.ApJsonAnswer |
| components/wifi-manager/http_server.c:202 | the asset length goes through `uint16_t` | a 65536-byte asset is announced as `Content-Length: 0` | the full length | not executed | Responses.AsWrittenContentLengthWraps | Responses.ContentLengthRoundTrip |
| components/wifi-manager/http_server.c:354-355 | newlib's `strtok_r` sets `save_ptr` to NULL when the token runs to the end of the string, and line 355 passes it to `strstr` | a request of `GET / HTTP/1.1` with no newline | search an empty header block | not executed | Parser.NewlibRestIsNull | Parser.StrtokSpec |
