/**
  The C-library string primitives the HTTP server builds on: the length of a
  NUL-terminated string, `strstr`, `strcasestr` and the decimal rendering done
  by `printf("%d")`. A `char` stands for one byte of the request buffer.
*/
module CStrings {
  import opened Wrappers

  const NUL: char := '\0'

  /** The bytes that end a header line for the scanners: NUL, LF or CR. */
  predicate IsLineStop(c: char) {
    c == NUL || c == '\n' || c == '\r'
  }

  /** The byte classes the scanning loops of the server stop at. */
  datatype Stop = AtNul | AtLineStop | AtNameEnd | AtNonSpace | AtNewline | AtNonNewline

  predicate StopsAt(c: char, stop: Stop) {
    match stop
    case AtNul => c == NUL
    case AtLineStop => IsLineStop(c)
    case AtNameEnd => IsLineStop(c) || c == ':'
    case AtNonSpace => c != ' '
    case AtNewline => c == '\n'
    case AtNonNewline => c != '\n'
  }

  /** A pointer advanced from `i` while it is below `end` and the byte is not a stop. */
  function Scan(s: string, i: nat, end: nat, stop: Stop): (e: nat)
    requires i <= end <= |s|
    decreases end - i
    ensures i <= e <= end
  {
    if i == end || StopsAt(s[i], stop) then i else Scan(s, i + 1, end, stop)
  }

  /** The scan passes only non-stop bytes and halts on a stop unless it reached `end`. */
  lemma {:induction false} ScanSpec(s: string, i: nat, end: nat, stop: Stop)
    requires i <= end <= |s|
    decreases end - i
    ensures forall k :: i <= k < Scan(s, i, end, stop) ==> !StopsAt(s[k], stop)
    ensures Scan(s, i, end, stop) < end ==> StopsAt(s[Scan(s, i, end, stop)], stop)
  {
    if i < end && !StopsAt(s[i], stop) {
      ScanSpec(s, i + 1, end, stop);
    }
  }

  /** Conversely, a position with those two properties is where the scan halts. */
  lemma {:induction false} ScanIs(s: string, i: nat, end: nat, stop: Stop, e: nat)
    requires i <= e <= end <= |s|
    requires forall k :: i <= k < e ==> !StopsAt(s[k], stop)
    requires e < end ==> StopsAt(s[e], stop)
    decreases e - i
    ensures Scan(s, i, end, stop) == e
  {
    if i < e {
      ScanIs(s, i + 1, end, stop, e);
    }
  }

  /** The scan reads only the bytes in `[i, end)`. */
  lemma {:induction false} ScanLocal(s: string, t: string, i: nat, end: nat, stop: Stop)
    requires i <= end <= |s| == |t|
    requires forall k :: i <= k < end ==> s[k] == t[k]
    decreases end - i
    ensures Scan(s, i, end, stop) == Scan(t, i, end, stop)
  {
    if i < end && !StopsAt(s[i], stop) {
      ScanLocal(s, t, i + 1, end, stop);
    }
  }

  /** The end of the C string that starts at `i`: the first NUL in `[i, end)`, or `end`. */
  function CEnd(s: string, i: nat, end: nat): (e: nat)
    requires i <= end <= |s|
    ensures i <= e <= end
  {
    Scan(s, i, end, AtNul)
  }

  /** strlen bounded by the buffer: the index of the first NUL, or |s| when there is none. */
  function CLen(s: string): (n: nat)
    ensures n <= |s|
  {
    CEnd(s, 0, |s|)
  }

  /** The C string that starts at the beginning of `s`. */
  function CStr(s: string): (c: string)
    ensures c <= s && NUL !in c
    ensures |c| < |s| ==> s[|c|] == NUL
  {
    ScanSpec(s, 0, |s|, AtNul);
    s[..CLen(s)]
  }

  predicate OccursAt(hay: string, needle: string, i: nat) {
    i + |needle| <= |hay| && hay[i..i + |needle|] == needle
  }

  /** The first position at or after `i` where `needle` occurs in `hay`. */
  function FindFrom(hay: string, needle: string, i: nat): (r: Option<nat>)
    decreases |hay| - i
    ensures r.Some? ==> i <= r.value && r.value + |needle| <= |hay|
  {
    if i + |needle| > |hay| then None
    else if OccursAt(hay, needle, i) then Some(i)
    else FindFrom(hay, needle, i + 1)
  }

  /** `FindFrom` finds nothing exactly when `needle` does not occur from `i` on; otherwise the first occurrence. */
  lemma {:induction false} FindFromSpec(hay: string, needle: string, i: nat)
    decreases |hay| - i
    ensures var r := FindFrom(hay, needle, i);
      && (r.None? <==> forall j :: i <= j ==> !OccursAt(hay, needle, j))
      && (r.Some? ==> OccursAt(hay, needle, r.value))
      && (r.Some? ==> forall j :: i <= j < r.value ==> !OccursAt(hay, needle, j))
  {
    if i + |needle| <= |hay| && !OccursAt(hay, needle, i) {
      FindFromSpec(hay, needle, i + 1);
    }
  }

  /**
    `strstr(s + i, needle)` confined to the bytes below `end`: the search
    stops at the first NUL, as the C string starting at `i` ends there.
  */
  function CFind(s: string, needle: string, i: nat, end: nat): (r: Option<nat>)
    requires i <= end <= |s|
    decreases end - i
    ensures r.Some? ==> i <= r.value && r.value + |needle| <= end
  {
    if i + |needle| > end then None
    else if OccursAt(s, needle, i) then Some(i)
    else if s[i] == NUL then None
    else CFind(s, needle, i + 1, end)
  }

  /**
    `CFind` returns the first occurrence that starts inside the C string,
    and None exactly when there is none.
  */
  lemma {:induction false} CFindSpec(s: string, needle: string, i: nat, end: nat)
    requires i <= end <= |s|
    decreases end - i
    ensures var r := CFind(s, needle, i, end);
      && (r.Some? ==> r.value <= CEnd(s, i, end) && OccursAt(s, needle, r.value))
      && (r.Some? ==> forall j :: i <= j < r.value ==> !OccursAt(s, needle, j))
      && (r.None? ==> forall j :: i <= j <= CEnd(s, i, end) ==> !OccursAt(s, needle, j) || j + |needle| > end)
  {
    if i + |needle| <= end && !OccursAt(s, needle, i) && s[i] != NUL {
      CFindSpec(s, needle, i + 1, end);
    }
  }

  /** Conversely, the first occurrence inside the C string is what the search returns. */
  lemma {:induction false} CFindIs(s: string, needle: string, i: nat, end: nat, p: nat)
    requires i <= p && p + |needle| <= end <= |s| && OccursAt(s, needle, p)
    requires forall j :: i <= j < p ==> s[j] != NUL && !OccursAt(s, needle, j)
    decreases p - i
    ensures CFind(s, needle, i, end) == Some(p)
  {
    if i < p {
      CFindIs(s, needle, i + 1, end, p);
    }
  }

  /** The search reads only the bytes in `[i, end)`. */
  lemma {:induction false} CFindLocal(s: string, t: string, needle: string, i: nat, end: nat)
    requires i <= end <= |s| == |t|
    requires forall k :: i <= k < end ==> s[k] == t[k]
    decreases end - i
    ensures CFind(s, needle, i, end) == CFind(t, needle, i, end)
  {
    if i + |needle| <= end {
      assert s[i..i + |needle|] == t[i..i + |needle|];
      if !OccursAt(s, needle, i) && s[i] != NUL {
        CFindLocal(s, t, needle, i + 1, end);
      }
    }
  }

  /** ASCII `tolower` of the C locale. */
  function Lower(c: char): char {
    if 'A' <= c <= 'Z' then (c as int + 32) as char else c
  }

  function LowerStr(s: string): (r: string)
    ensures |r| == |s|
    ensures forall k :: 0 <= k < |s| ==> r[k] == Lower(s[k])
  {
    seq(|s|, k requires 0 <= k < |s| => Lower(s[k]))
  }

  /** `needle` matches `hay` at `i` when corresponding bytes agree after folding case. */
  predicate MatchesCIAt(hay: string, needle: string, i: nat) {
    i + |needle| <= |hay| && forall k :: 0 <= k < |needle| ==> Lower(hay[i + k]) == Lower(needle[k])
  }

  /** Reference definition of case-insensitive containment, byte by byte. */
  ghost predicate ContainsCI(hay: string, needle: string) {
    exists i :: MatchesCIAt(hay, needle, i)
  }

  /** `strcasestr`: search the case-folded needle in the case-folded haystack. */
  function StrCaseStr(hay: string, needle: string): Option<nat> {
    FindFrom(LowerStr(hay), LowerStr(needle), 0)
  }

  lemma LowerOccursIff(hay: string, needle: string, i: nat)
    ensures OccursAt(LowerStr(hay), LowerStr(needle), i) <==> MatchesCIAt(hay, needle, i)
  {
    var lh, ln := LowerStr(hay), LowerStr(needle);
    if i + |needle| <= |hay| {
      if MatchesCIAt(hay, needle, i) {
        assert forall k :: 0 <= k < |needle| ==> lh[i..i + |needle|][k] == ln[k];
      }
      if OccursAt(lh, ln, i) {
        forall k | 0 <= k < |needle| ensures Lower(hay[i + k]) == Lower(needle[k]) {
          assert lh[i..i + |needle|][k] == ln[k];
        }
      }
    }
  }

  /** `strcasestr` finds a match exactly when one exists, and the first one. */
  lemma StrCaseStrSpec(hay: string, needle: string)
    ensures StrCaseStr(hay, needle).None? <==> !ContainsCI(hay, needle)
    ensures StrCaseStr(hay, needle).Some? ==> MatchesCIAt(hay, needle, StrCaseStr(hay, needle).value)
    ensures StrCaseStr(hay, needle).Some? ==> forall i :: 0 <= i < StrCaseStr(hay, needle).value ==> !MatchesCIAt(hay, needle, i)
  {
    var r := StrCaseStr(hay, needle);
    FindFromSpec(LowerStr(hay), LowerStr(needle), 0);
    if r.Some? {
      LowerOccursIff(hay, needle, r.value);
      forall i | 0 <= i < r.value ensures !MatchesCIAt(hay, needle, i) {
        LowerOccursIff(hay, needle, i);
      }
    } else {
      forall i | true ensures !MatchesCIAt(hay, needle, i) {
        LowerOccursIff(hay, needle, i);
      }
    }
  }

  predicate IsDigit(c: char) {
    '0' <= c <= '9'
  }

  function DigitChar(d: nat): char
    requires d < 10
  {
    ('0' as int + d) as char
  }

  /** What `printf("%d")` writes for a non-negative value. */
  function Decimal(n: nat): (s: string)
    ensures 1 <= |s|
    ensures forall k :: 0 <= k < |s| ==> IsDigit(s[k])
  {
    if n < 10 then [DigitChar(n)] else Decimal(n / 10) + [DigitChar(n % 10)]
  }

  /** The value a reader of the header gets back from a run of digits. */
  function ParseDecimal(s: string): nat
    requires forall k :: 0 <= k < |s| ==> IsDigit(s[k])
  {
    if s == [] then 0
    else
      assert IsDigit(s[|s| - 1]);
      ParseDecimal(s[..|s| - 1]) * 10 + (s[|s| - 1] as int - '0' as int)
  }

  lemma {:induction false} DecimalRoundTrip(n: nat)
    ensures ParseDecimal(Decimal(n)) == n
  {
    if n >= 10 {
      var s := Decimal(n);
      assert s[..|s| - 1] == Decimal(n / 10);
      DecimalRoundTrip(n / 10);
    }
  }

  /** A value below 100000 (so every 16-bit value) never needs more than five digits. */
  lemma DecimalWidth(n: nat)
    requires n < 100000
    ensures |Decimal(n)| <= 5
  {
    assert Pow10(5) == 100000;
    DecimalWidthBelow(n, 5);
  }

  function Pow10(d: nat): nat {
    if d == 0 then 1 else 10 * Pow10(d - 1)
  }

  lemma {:induction false} DecimalWidthBelow(n: nat, d: nat)
    requires 1 <= d && n < Pow10(d)
    ensures |Decimal(n)| <= d
  {
    if n >= 10 {
      assert Pow10(1) == 10;
      DecimalWidthBelow(n / 10, d - 1);
    }
  }
}
