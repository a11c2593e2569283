/**
  The request parser of http_server.c: the split of the request line
  (`strtok_r` at line 354), `http_server_get_header` (lines 131-147) and
  `http_server_search_header` (lines 148-200), which enumerates the
  `X-Custom-<name>: <value>` fields.

  Scans are bounded by the end of the received bytes (`bufEnd`); the
  source lets `strstr` and `strtok_r` run to the first NUL, which the
  receive buffer does not contain.
*/
module Parser {
  import opened Wrappers
  import opened CStrings

  // ---- Request line: strtok_r(buf, "\n", &save_ptr) ----

  /** The first request-line token: `v[start..end]`; the headers resume at `rest`. */
  datatype Token = Token(start: nat, end: nat, rest: nat)

  /**
    `strtok_r` with delimiter "\n" over the C string `v`: leading newlines
    are skipped; None (a NULL line) when nothing else is left; otherwise the
    token runs to the next newline, which is overwritten by NUL, and the
    rest starts after it, or at the end when there is no newline.
  */
  function Strtok(v: string): (r: Option<Token>)
    ensures r.Some? ==> r.value.start < r.value.end <= r.value.rest <= |v|
  {
    var st := Scan(v, 0, |v|, AtNonNewline);
    if st == |v| then None
    else
      ScanSpec(v, 0, |v|, AtNonNewline);
      var e := Scan(v, st, |v|, AtNewline);
      Some(Token(st, e, if e < |v| then e + 1 else e))
  }

  /** What the tokenizer promises: the token is the first maximal run of non-newline bytes. */
  lemma StrtokSpec(v: string)
    ensures Strtok(v).None? <==> forall k :: 0 <= k < |v| ==> v[k] == '\n'
    ensures Strtok(v).Some? ==> var t := Strtok(v).value;
      && (forall k :: 0 <= k < t.start ==> v[k] == '\n')
      && (forall k :: t.start <= k < t.end ==> v[k] != '\n')
      && (t.end < |v| ==> v[t.end] == '\n' && t.rest == t.end + 1)
      && (t.end == |v| ==> t.rest == |v|)
  {
    ScanSpec(v, 0, |v|, AtNonNewline);
    var st := Scan(v, 0, |v|, AtNonNewline);
    if st < |v| {
      ScanSpec(v, st, |v|, AtNewline);
    }
  }

  /**
    Where `save_ptr` points after the call in newlib's `strtok_r`, the C
    library of the device: None (NULL) when no token was found or when the
    token runs to the end of the string.
  */
  function StrtokRestNewlib(v: string): (r: Option<nat>)
    ensures r.Some? ==> Strtok(v).Some? && r.value == Strtok(v).value.rest <= |v|
  {
    match Strtok(v)
    case None => None
    case Some(t) => if t.end < |v| then Some(t.rest) else None
  }

  /** A request without any newline leaves `save_ptr` NULL under newlib; line 355 then passes NULL to `strstr`. */
  lemma NewlibRestIsNull()
    ensures Strtok("GET / HTTP/1.1").Some?
    ensures StrtokRestNewlib("GET / HTTP/1.1").None?
  {
    var v := "GET / HTTP/1.1";
    ScanIs(v, 0, |v|, AtNonNewline, 0);
    ScanIs(v, 0, |v|, AtNewline, |v|);
  }

  // ---- http_server_get_header ----

  datatype Span = Span(start: nat, len: nat)

  /**
    `http_server_get_header(request, name, &len)`: None (NULL, len 0) when
    `name` does not occur in the C string; otherwise the value starts right
    after the first occurrence and runs up to the first NUL, CR or LF.
  */
  function HeaderSpan(request: string, name: string): (r: Option<Span>)
    ensures r.Some? ==> |name| <= r.value.start && r.value.start + r.value.len <= |request|
  {
    match CFind(request, name, 0, |request|)
    case None => None
    case Some(p) =>
      var start := p + |name|;
      Some(Span(start, Scan(request, start, |request|, AtLineStop) - start))
  }

  /**
    The header is found exactly when the name occurs inside the C string;
    the span is then the rest of that line after the first occurrence.
  */
  lemma HeaderSpanSpec(request: string, name: string)
    ensures HeaderSpan(request, name).None? <==> forall j :: 0 <= j <= CLen(request) ==> !OccursAt(request, name, j)
    ensures HeaderSpan(request, name).Some? ==> var sp := HeaderSpan(request, name).value;
      var p := sp.start - |name|;
      && p <= CLen(request) && OccursAt(request, name, p)
      && (forall j :: 0 <= j < p ==> !OccursAt(request, name, j))
      && (forall k :: sp.start <= k < sp.start + sp.len ==> !IsLineStop(request[k]))
      && (sp.start + sp.len < |request| ==> IsLineStop(request[sp.start + sp.len]))
  {
    CFindSpec(request, name, 0, |request|);
    match CFind(request, name, 0, |request|)
    case None =>
    case Some(p) =>
      ScanSpec(request, p + |name|, |request|, AtLineStop);
  }

  /** The value bytes `HeaderSpan` designates. */
  function HeaderValue(request: string, name: string): (v: Option<string>)
    ensures v.Some? ==> NUL !in v.value && '\n' !in v.value && '\r' !in v.value
  {
    match HeaderSpan(request, name)
    case None => None
    case Some(sp) =>
      HeaderSpanSpec(request, name);
      var v := request[sp.start..sp.start + sp.len];
      assert forall k :: 0 <= k < |v| ==> !IsLineStop(v[k]) by {
        forall k | 0 <= k < |v| ensures !IsLineStop(v[k]) {
          assert v[k] == request[sp.start + k];
        }
      }
      Some(v)
  }

  /** `HeaderValue` at a known span. */
  lemma HeaderValueAt(request: string, name: string, sp: Span)
    requires HeaderSpan(request, name) == Some(sp)
    ensures sp.start + sp.len <= |request|
    ensures HeaderValue(request, name) == Some(request[sp.start..sp.start + sp.len])
  {
  }

  /** The scanning loop of `http_server_get_header`; reads `request` and writes nothing. */
  method GetHeader(request: string, name: string) returns (found: bool, start: nat, len: nat)
    ensures found <==> HeaderSpan(request, name).Some?
    ensures found ==> HeaderSpan(request, name) == Some(Span(start, len))
    ensures !found ==> len == 0
  {
    len := 0;
    start := 0;
    var p := CFind(request, name, 0, |request|);
    if p.None? {
      return false, 0, 0;
    }
    start := p.value + |name|;
    var ptr := start;
    while ptr < |request| && !IsLineStop(request[ptr])
      invariant start <= ptr <= |request|
      invariant len == ptr - start
      invariant forall k :: start <= k < ptr ==> !IsLineStop(request[k])
    {
      len := len + 1;
      ptr := ptr + 1;
    }
    ScanIs(request, start, |request|, AtLineStop, ptr);
    found := true;
  }

  // ---- http_server_search_header ----

  /**
    One custom field: the match of the prefix at `at`, the field name (None
    when no ':' ends it on its line), the value `[valueStart, valueStart +
    valueLen)` and the position the next search resumes from.
  */
  datatype Field = Field(at: nat, name: Option<string>, valueStart: nat, valueLen: nat, next: nat) {
    function ValueEnd(): nat { valueStart + valueLen }
  }

  /** The name of `f` is what lies between the end of the prefix and ':'; spaces after ':' are skipped. */
  ghost predicate NameOk(s: string, bufEnd: nat, nameStart: nat, f: Field)
    requires bufEnd <= |s|
  {
    match f.name
    case Some(n) =>
      var colon := nameStart + |n|;
      && f.valueStart <= bufEnd
      && colon < f.valueStart && colon < bufEnd && s[nameStart..colon] == n && s[colon] == ':'
      && (forall k :: nameStart <= k < colon ==> !IsLineStop(s[k]) && s[k] != ':')
      && (forall k :: colon < k < f.valueStart ==> s[k] == ' ')
      && (f.valueStart < bufEnd ==> s[f.valueStart] != ' ')
    case None =>
      && f.valueLen == 0 && nameStart <= f.valueStart <= bufEnd
      && (forall k :: nameStart <= k < f.valueStart ==> !IsLineStop(s[k]) && s[k] != ':')
      && (f.valueStart < bufEnd ==> IsLineStop(s[f.valueStart]))
  }

  /** Everything `http_server_search_header` promises about a field it returns. */
  ghost predicate FieldOk(s: string, from: nat, bufEnd: nat, prefix: string, f: Field)
    requires bufEnd <= |s|
  {
    && from <= f.at < bufEnd && OccursAt(s, prefix, f.at)
    && (forall j :: from <= j < f.at ==> s[j] != NUL && !OccursAt(s, prefix, j))
    && f.at + |prefix| <= f.valueStart <= f.ValueEnd() <= bufEnd
    && f.next == f.ValueEnd() + 1
    && (forall k :: f.valueStart <= k < f.ValueEnd() ==> !IsLineStop(s[k]))
    && (f.ValueEnd() < bufEnd ==> IsLineStop(s[f.ValueEnd()]))
    && NameOk(s, bufEnd, f.at + |prefix|, f)
  }

  /**
    The part of `http_server_search_header` after the prefix matched at `at`
    (lines 159-195): the name up to ':' on the same line, the spaces after
    it, and the value up to the end of the line or `bufEnd`.
  */
  function ParseField(s: string, at: nat, nameStart: nat, bufEnd: nat): (f: Field)
    requires nameStart <= bufEnd <= |s|
    ensures f.at == at && nameStart <= f.valueStart && f.ValueEnd() <= bufEnd
    ensures f.next == f.ValueEnd() + 1
  {
    var q := Scan(s, nameStart, bufEnd, AtNameEnd);
    var named := q < bufEnd && s[q] == ':';
    var vs := if named then Scan(s, q + 1, bufEnd, AtNonSpace) else q;
    var ve := Scan(s, vs, bufEnd, AtLineStop);
    Field(at, if named then Some(s[nameStart..q]) else None, vs, ve - vs, ve + 1)
  }

  /** The field read after the prefix has its name and value where `NameOk` says and a value that is one line. */
  lemma ParseFieldSpec(s: string, at: nat, nameStart: nat, bufEnd: nat)
    requires nameStart <= bufEnd <= |s|
    ensures var f := ParseField(s, at, nameStart, bufEnd);
      && (forall k :: f.valueStart <= k < f.ValueEnd() ==> !IsLineStop(s[k]))
      && (f.ValueEnd() < bufEnd ==> IsLineStop(s[f.ValueEnd()]))
      && NameOk(s, bufEnd, nameStart, f)
  {
    ScanSpec(s, nameStart, bufEnd, AtNameEnd);
    var q := Scan(s, nameStart, bufEnd, AtNameEnd);
    var named := q < bufEnd && s[q] == ':';
    if named {
      ScanSpec(s, q + 1, bufEnd, AtNonSpace);
    }
    var vs := if named then Scan(s, q + 1, bufEnd, AtNonSpace) else q;
    ScanSpec(s, vs, bufEnd, AtLineStop);
  }

  lemma ParseFieldLocal(s: string, t: string, at: nat, nameStart: nat, bufEnd: nat)
    requires nameStart <= bufEnd <= |s| == |t|
    requires forall k :: nameStart <= k < bufEnd ==> s[k] == t[k]
    ensures ParseField(s, at, nameStart, bufEnd) == ParseField(t, at, nameStart, bufEnd)
  {
    ScanLocal(s, t, nameStart, bufEnd, AtNameEnd);
    var q := Scan(s, nameStart, bufEnd, AtNameEnd);
    if q < bufEnd && s[q] == ':' {
      ScanLocal(s, t, q + 1, bufEnd, AtNonSpace);
      assert s[nameStart..q] == t[nameStart..q];
      ScanLocal(s, t, Scan(s, q + 1, bufEnd, AtNonSpace), bufEnd, AtLineStop);
    } else {
      ScanLocal(s, t, q, bufEnd, AtLineStop);
    }
  }

  /**
    `http_server_search_header(s + from, prefix, ..., s + bufEnd)`: None when
    the search starts at or past `bufEnd` or the prefix does not occur in
    the C string inside `[from, bufEnd)`; otherwise the first match and the
    field it introduces.
  */
  function SearchField(s: string, from: nat, bufEnd: nat, prefix: string): (r: Option<Field>)
    requires bufEnd <= |s|
    ensures r.Some? ==> from <= r.value.at <= r.value.valueStart && r.value.ValueEnd() <= bufEnd
    ensures r.Some? ==> r.value.next == r.value.ValueEnd() + 1
  {
    if from >= bufEnd then None
    else
      match CFind(s, prefix, from, bufEnd)
      case None => None
      case Some(p) => Some(ParseField(s, p, p + |prefix|, bufEnd))
  }

  /** The search fails exactly when there is no match; a field it returns has every property `FieldOk` lists. */
  lemma SearchFieldSpec(s: string, from: nat, bufEnd: nat, prefix: string)
    requires bufEnd <= |s|
    ensures SearchField(s, from, bufEnd, prefix).None? <==>
      from >= bufEnd || forall j :: from <= j <= CEnd(s, from, bufEnd) ==> !OccursAt(s, prefix, j) || j + |prefix| > bufEnd
    ensures SearchField(s, from, bufEnd, prefix).Some? ==> FieldOk(s, from, bufEnd, prefix, SearchField(s, from, bufEnd, prefix).value)
  {
    if from < bufEnd {
      CFindSpec(s, prefix, from, bufEnd);
      var c := CFind(s, prefix, from, bufEnd);
      if c.Some? {
        var p := c.value;
        assert !OccursAt(s, prefix, p) || p + |prefix| > bufEnd ==> false;
        FoundFieldOk(s, from, bufEnd, prefix, p);
      }
    }
  }

  /** The field read after the first match `p` of the prefix. */
  lemma FoundFieldOk(s: string, from: nat, bufEnd: nat, prefix: string, p: nat)
    requires from <= bufEnd <= |s|
    requires p < bufEnd && p + |prefix| <= bufEnd && OccursAt(s, prefix, p)
    requires from <= p <= CEnd(s, from, bufEnd)
    requires forall j :: from <= j < p ==> !OccursAt(s, prefix, j)
    ensures FieldOk(s, from, bufEnd, prefix, ParseField(s, p, p + |prefix|, bufEnd))
  {
    ScanSpec(s, from, bufEnd, AtNul);
    ParseFieldSpec(s, p, p + |prefix|, bufEnd);
  }

  /** The value bytes of a field. */
  function FieldValue(s: string, f: Field): string
    requires f.ValueEnd() <= |s|
  {
    s[f.valueStart..f.ValueEnd()]
  }

  /** One of the pointer loops of lines 164-189 over the buffer; reads the buffer and writes nothing. */
  method ScanLoop(buf: array<char>, i: nat, end: nat, stop: Stop) returns (e: nat)
    requires i <= end <= buf.Length
    ensures e == Scan(buf[..], i, end, stop)
  {
    e := i;
    while e < end && !StopsAt(buf[e], stop)
      invariant i <= e <= end
      invariant forall k :: i <= k < e ==> !StopsAt(buf[k], stop)
    {
      e := e + 1;
    }
    ScanIs(buf[..], i, end, stop, e);
  }

  /**
    The search over the buffer. It writes a NUL at the end of the value when
    that end lies inside the received bytes, and nothing else.
  */
  method SearchHeader(buf: array<char>, from: nat, prefix: string, bufEnd: nat) returns (r: Option<Field>)
    requires bufEnd <= buf.Length
    modifies buf
    ensures r == SearchField(old(buf[..]), from, bufEnd, prefix)
    ensures r.Some? && r.value.ValueEnd() < bufEnd ==> buf[..] == old(buf[..])[r.value.ValueEnd() := NUL]
    ensures r.None? || r.value.ValueEnd() == bufEnd ==> buf[..] == old(buf[..])
  {
    if from >= bufEnd {
      return None;
    }
    var p := CFind(buf[..], prefix, from, bufEnd);
    if p.None? {
      return None;
    }
    var f := ReadField(buf, p.value, p.value + |prefix|, bufEnd);
    if f.ValueEnd() < bufEnd {
      buf[f.ValueEnd()] := NUL;
    }
    r := Some(f);
  }

  /** Lines 159-189: the name, the spaces after ':', and the value, read from the buffer. */
  method ReadField(buf: array<char>, at: nat, ret: nat, bufEnd: nat) returns (f: Field)
    requires ret <= bufEnd <= buf.Length
    ensures f == ParseField(buf[..], at, ret, bufEnd)
  {
    var ptr := ScanLoop(buf, ret, bufEnd, AtNameEnd);
    var name: Option<string> := None;
    if ptr < bufEnd && buf[ptr] == ':' {
      name := Some(buf[ret..ptr]);
      ptr := ScanLoop(buf, ptr + 1, bufEnd, AtNonSpace);
    }
    var valueStart := ptr;
    ptr := ScanLoop(buf, valueStart, bufEnd, AtLineStop);
    f := Field(at, name, valueStart, ptr - valueStart, ptr + 1);
  }

  /** Where line 191 writes its NUL as written: at the end of the value even when that end is `bufEnd`. */
  function TerminatorIndexAsWritten(f: Field): nat {
    f.ValueEnd()
  }

  /** A field whose value runs to the end of the received bytes: line 191 writes at `bufEnd` itself. */
  lemma AsWrittenWritesAtBufEnd()
    ensures SearchField("X-Custom-a: b", 0, 13, "X-Custom-").Some?
    ensures TerminatorIndexAsWritten(SearchField("X-Custom-a: b", 0, 13, "X-Custom-").value) == 13
  {
    var s := "X-Custom-a: b";
    assert OccursAt(s, "X-Custom-", 0);
    ScanIs(s, 9, 13, AtNameEnd, 10);
    ScanIs(s, 11, 13, AtNonSpace, 12);
    ScanIs(s, 12, 13, AtLineStop, 13);
  }

  /** Repeated searches from each returned `next` position until none is found. */
  function Fields(s: string, from: nat, bufEnd: nat, prefix: string): (fs: seq<Field>)
    requires bufEnd <= |s|
    decreases if from < bufEnd then bufEnd - from else 0
    ensures forall k :: 0 <= k < |fs| ==> from <= fs[k].at <= fs[k].valueStart
    ensures forall k :: 0 <= k < |fs| ==> fs[k].ValueEnd() < fs[k].next <= bufEnd + 1
  {
    match SearchField(s, from, bufEnd, prefix)
    case None => []
    case Some(f) => [f] + Fields(s, f.next, bufEnd, prefix)
  }

  /** One step of the enumeration: the field the search finds, then the fields after it. */
  lemma FieldsStep(s: string, from: nat, bufEnd: nat, prefix: string)
    requires bufEnd <= |s|
    ensures SearchField(s, from, bufEnd, prefix).None? ==> Fields(s, from, bufEnd, prefix) == []
    ensures SearchField(s, from, bufEnd, prefix).Some? ==> var f := SearchField(s, from, bufEnd, prefix).value;
      Fields(s, from, bufEnd, prefix) == [f] + Fields(s, f.next, bufEnd, prefix)
  {
  }

  /** The enumeration is exactly the chain of searches, and the search after the last field finds nothing. */
  lemma {:induction false} FieldsEnumerate(s: string, from: nat, bufEnd: nat, prefix: string)
    requires bufEnd <= |s|
    decreases if from < bufEnd then bufEnd - from else 0
    ensures var fs := Fields(s, from, bufEnd, prefix);
      && (fs == [] <==> SearchField(s, from, bufEnd, prefix).None?)
      && (fs != [] ==> SearchField(s, from, bufEnd, prefix) == Some(fs[0]))
      && (forall k :: 0 <= k < |fs| - 1 ==> SearchField(s, fs[k].next, bufEnd, prefix) == Some(fs[k + 1]))
      && (fs != [] ==> SearchField(s, fs[|fs| - 1].next, bufEnd, prefix).None?)
  {
    var fs := Fields(s, from, bufEnd, prefix);
    match SearchField(s, from, bufEnd, prefix)
    case None =>
    case Some(f) =>
      var tail := Fields(s, f.next, bufEnd, prefix);
      assert fs == [f] + tail;
      FieldsEnumerate(s, f.next, bufEnd, prefix);
      forall k | 0 <= k < |fs| - 1
        ensures SearchField(s, fs[k].next, bufEnd, prefix) == Some(fs[k + 1])
      {
        if k > 0 {
          assert fs[k] == tail[k - 1] && fs[k + 1] == tail[k];
        }
      }
  }

  /** Fields come out strictly left to right: each one starts after the end of the previous value. */
  lemma {:induction false} FieldsLeftToRight(s: string, from: nat, bufEnd: nat, prefix: string)
    requires bufEnd <= |s|
    decreases if from < bufEnd then bufEnd - from else 0
    ensures forall i, j :: 0 <= i < j < |Fields(s, from, bufEnd, prefix)| ==>
      Fields(s, from, bufEnd, prefix)[i].next <= Fields(s, from, bufEnd, prefix)[j].at
  {
    var fs := Fields(s, from, bufEnd, prefix);
    FieldsEnumerate(s, from, bufEnd, prefix);
    forall k | 0 <= k < |fs| - 1 ensures fs[k].next <= fs[k + 1].at {
      assert SearchField(s, fs[k].next, bufEnd, prefix) == Some(fs[k + 1]);
    }
    ChainOrdered(fs, 0);
  }

  /** Neighbours in order and each field ending after it starts put every pair in order. */
  lemma {:induction false} ChainOrdered(fs: seq<Field>, i: nat)
    requires forall k :: 0 <= k < |fs| ==> fs[k].at < fs[k].next
    requires forall k :: 0 <= k < |fs| - 1 ==> fs[k].next <= fs[k + 1].at
    decreases |fs| - i
    ensures forall j :: i < j < |fs| ==> fs[i].next <= fs[j].at
    ensures i < |fs| ==> forall i', j :: i <= i' < j < |fs| ==> fs[i'].next <= fs[j].at
  {
    if i + 1 < |fs| {
      ChainOrdered(fs, i + 1);
    }
  }

  /** The search reads only the bytes in `[from, bufEnd)`. */
  lemma SearchFieldLocal(s: string, t: string, from: nat, bufEnd: nat, prefix: string)
    requires bufEnd <= |s| == |t|
    requires forall k :: from <= k < bufEnd ==> s[k] == t[k]
    ensures SearchField(s, from, bufEnd, prefix) == SearchField(t, from, bufEnd, prefix)
  {
    if from < bufEnd {
      CFindLocal(s, t, prefix, from, bufEnd);
      var c := CFind(s, prefix, from, bufEnd);
      if c.Some? {
        var p := c.value;
        ParseFieldLocal(s, t, p, p + |prefix|, bufEnd);
        FoundLocal(s, t, from, bufEnd, prefix, p);
      }
    }
  }

  /** The same where the search matches at `p` in both and the fields read there agree. */
  lemma FoundLocal(s: string, t: string, from: nat, bufEnd: nat, prefix: string, p: nat)
    requires from < bufEnd <= |s| == |t| && p + |prefix| <= bufEnd
    requires CFind(s, prefix, from, bufEnd) == Some(p) && CFind(t, prefix, from, bufEnd) == Some(p)
    requires ParseField(s, p, p + |prefix|, bufEnd) == ParseField(t, p, p + |prefix|, bufEnd)
    ensures SearchField(s, from, bufEnd, prefix) == SearchField(t, from, bufEnd, prefix)
  {
    SearchFieldAt(s, from, bufEnd, prefix, p);
    SearchFieldAt(t, from, bufEnd, prefix, p);
  }

  /** The search that matches at `p` returns the field read there. */
  lemma SearchFieldAt(s: string, from: nat, bufEnd: nat, prefix: string, p: nat)
    requires from < bufEnd <= |s| && p + |prefix| <= bufEnd
    requires CFind(s, prefix, from, bufEnd) == Some(p)
    ensures SearchField(s, from, bufEnd, prefix) == Some(ParseField(s, p, p + |prefix|, bufEnd))
  {
  }

  /** The enumeration reads only the bytes in `[from, bufEnd)`. */
  lemma {:induction false} FieldsLocal(s: string, t: string, from: nat, bufEnd: nat, prefix: string)
    requires bufEnd <= |s| == |t|
    requires forall k :: from <= k < bufEnd ==> s[k] == t[k]
    decreases if from < bufEnd then bufEnd - from else 0
    ensures Fields(s, from, bufEnd, prefix) == Fields(t, from, bufEnd, prefix)
  {
    SearchFieldLocal(s, t, from, bufEnd, prefix);
    match SearchField(s, from, bufEnd, prefix)
    case None =>
    case Some(f) =>
      FieldsLocal(s, t, f.next, bufEnd, prefix);
  }
}
