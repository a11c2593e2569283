/**
  `strreplace` (http_server.c, lines 636-653): every occurrence of `str` in
  the C string `src`, found left to right, is replaced by `rep`, in place.
  Each step builds the rewritten string in a scratch array, copies it
  back over `src`, and goes on with the text after the inserted `rep`.

  `ReplaceAll` is the result as a value; `ReplaceScan` is an independent,
  character-by-character definition of the same result; `StrReplace` is
  the in-place method, proved to leave `ReplaceAll` of the old string in
  the buffer. Its scratch array has room for the terminator; the source's
  has not (`ScratchSizeAsWritten`).
*/
module Replace {
  import opened Wrappers
  import opened CStrings

  /**
    The rewrite of `s` from `k` on: the first occurrence at or after `k` is
    replaced, and the search resumes right after it.
  */
  function ReplaceFrom(s: string, str: string, rep: string, k: nat): string
    requires |str| > 0 && k <= |s|
    decreases |s| - k
  {
    match FindFrom(s, str, k)
    case None => s[k..]
    case Some(i) => s[k..i] + rep + ReplaceFrom(s, str, rep, i + |str|)
  }

  /** The result of `strreplace(src, str, rep)` on the C string `s`. */
  function ReplaceAll(s: string, str: string, rep: string): string
    requires |str| > 0
  {
    ReplaceFrom(s, str, rep, 0)
  }

  /** How many occurrences `ReplaceFrom` replaces. */
  function Replacements(s: string, str: string, k: nat): nat
    requires |str| > 0 && k <= |s|
    decreases |s| - k
  {
    match FindFrom(s, str, k)
    case None => 0
    case Some(i) => 1 + Replacements(s, str, i + |str|)
  }

  /**
    The reference definition: walk the string; where `str` starts, emit
    `rep` and skip `str`; otherwise keep the character.
  */
  function ReplaceScan(s: string, str: string, rep: string): string
    requires |str| > 0
    decreases |s|
  {
    if s == [] then []
    else if str <= s then rep + ReplaceScan(s[|str|..], str, rep)
    else [s[0]] + ReplaceScan(s[1..], str, rep)
  }

  lemma OccursAtStart(s: string, str: string)
    ensures OccursAt(s, str, 0) <==> str <= s
  {
  }

  lemma OccursInSuffix(s: string, str: string, d: nat, j: nat)
    requires d <= |s|
    ensures OccursAt(s[d..], str, j) <==> OccursAt(s, str, d + j)
  {
    if d + j + |str| <= |s| {
      assert s[d..][j..j + |str|] == s[d + j..d + j + |str|];
    }
  }

  /** The scan keeps a prefix in which `str` does not start. */
  lemma {:induction false} ScanKeepsPrefix(s: string, str: string, rep: string, i: nat)
    requires |str| > 0 && i <= |s|
    requires forall j :: 0 <= j < i ==> !OccursAt(s, str, j)
    ensures ReplaceScan(s, str, rep) == s[..i] + ReplaceScan(s[i..], str, rep)
    decreases i
  {
    if i > 0 {
      OccursAtStart(s, str);
      assert !(str <= s);
      forall j | 0 <= j < i - 1
        ensures !OccursAt(s[1..], str, j)
      {
        OccursInSuffix(s, str, 1, j);
      }
      ScanKeepsPrefix(s[1..], str, rep, i - 1);
      assert s[1..][i - 1..] == s[i..];
      assert s[..i] == [s[0]] + s[1..][..i - 1];
    }
  }

  /** Where `str` does not occur from `k` on, the scan keeps the suffix. */
  lemma ScanNoOccurrence(s: string, str: string, rep: string, k: nat)
    requires |str| > 0 && k <= |s|
    requires forall j :: k <= j ==> !OccursAt(s, str, j)
    ensures ReplaceScan(s[k..], str, rep) == s[k..]
  {
    forall j | 0 <= j < |s| - k
      ensures !OccursAt(s[k..], str, j)
    {
      OccursInSuffix(s, str, k, j);
    }
    ScanKeepsPrefix(s[k..], str, rep, |s| - k);
    assert s[k..][|s| - k..] == [];
  }

  /** The scan from `k` keeps the text up to the first occurrence at `i`, then replaces it. */
  lemma ScanToOccurrence(s: string, str: string, rep: string, k: nat, i: nat)
    requires |str| > 0 && k <= i && OccursAt(s, str, i)
    requires forall j :: k <= j < i ==> !OccursAt(s, str, j)
    ensures ReplaceScan(s[k..], str, rep) == s[k..i] + rep + ReplaceScan(s[i + |str|..], str, rep)
  {
    var u, v := s[k..], s[i..];
    forall j | 0 <= j < i - k
      ensures !OccursAt(u, str, j)
    {
      OccursInSuffix(s, str, k, j);
    }
    ScanKeepsPrefix(u, str, rep, i - k);
    assert u[..i - k] == s[k..i] && u[i - k..] == v;
    OccursInSuffix(s, str, i, 0);
    OccursAtStart(v, str);
    assert v[|str|..] == s[i + |str|..];
    SplitConcat(ReplaceScan(u, str, rep), s[k..i], ReplaceScan(v, str, rep), rep, ReplaceScan(v[|str|..], str, rep));
  }

  /** Concatenation regrouped: `x = a + y` and `y = b + z` give `x = a + b + z`. */
  lemma SplitConcat(x: string, a: string, y: string, b: string, z: string)
    requires x == a + y && y == b + z
    ensures x == a + b + z
  {
  }

  /** Both definitions agree on every input and every resume position. */
  lemma {:induction false} ReplaceFromIsScan(s: string, str: string, rep: string, k: nat)
    requires |str| > 0 && k <= |s|
    ensures ReplaceFrom(s, str, rep, k) == ReplaceScan(s[k..], str, rep)
    decreases |s| - k
  {
    FindFromSpec(s, str, k);
    match FindFrom(s, str, k)
    case None =>
      ScanNoOccurrence(s, str, rep, k);
    case Some(i) =>
      ScanToOccurrence(s, str, rep, k, i);
      ReplaceFromIsScan(s, str, rep, i + |str|);
  }

  /** `ReplaceAll` is the left-to-right scan. */
  lemma ReplaceAllIsScan(s: string, str: string, rep: string)
    requires |str| > 0
    ensures ReplaceAll(s, str, rep) == ReplaceScan(s, str, rep)
  {
    ReplaceFromIsScan(s, str, rep, 0);
    assert s[0..] == s;
  }

  /** Nothing is replaced exactly when `str` does not occur; then the string is unchanged. */
  lemma ReplaceAbsent(s: string, str: string, rep: string)
    requires |str| > 0
    ensures Replacements(s, str, 0) == 0 <==> forall j :: !OccursAt(s, str, j)
    ensures Replacements(s, str, 0) == 0 ==> ReplaceAll(s, str, rep) == s
  {
    FindFromSpec(s, str, 0);
    assert s[0..] == s;
  }

  /** Unfolding `ReplaceFrom` at a known occurrence, with the rewritten rest given as `y`. */
  lemma UnfoldAt(s: string, str: string, rep: string, k: nat, i: nat, y: string)
    requires |str| > 0 && k <= |s| && FindFrom(s, str, k) == Some(i)
    requires ReplaceFrom(s, str, rep, i + |str|) == y
    ensures ReplaceFrom(s, str, rep, k) == s[k..i] + rep + y
  {
  }

  /**
    Each replacement changes the length by `|rep| - |str|`: the length the
    source computes for its scratch array at line 641, step by step.
  */
  lemma {:induction false} ReplaceLength(s: string, str: string, rep: string, k: nat)
    requires |str| > 0 && k <= |s|
    ensures |ReplaceFrom(s, str, rep, k)| + Replacements(s, str, k) * |str| == |s| - k + Replacements(s, str, k) * |rep|
    decreases |s| - k
  {
    match FindFrom(s, str, k)
    case None =>
    case Some(i) =>
      ReplaceLength(s, str, rep, i + |str|);
      ReplaceLengthStep(s, str, rep, k, i);
  }

  /** The length after the occurrence at `i` extends to the length from `k`. */
  lemma ReplaceLengthStep(s: string, str: string, rep: string, k: nat, i: nat)
    requires |str| > 0 && k <= |s| && FindFrom(s, str, k) == Some(i)
    requires |ReplaceFrom(s, str, rep, i + |str|)| + Replacements(s, str, i + |str|) * |str|
      == |s| - (i + |str|) + Replacements(s, str, i + |str|) * |rep|
    ensures |ReplaceFrom(s, str, rep, k)| + Replacements(s, str, k) * |str| == |s| - k + Replacements(s, str, k) * |rep|
  {
    UnfoldAt(s, str, rep, k, i, ReplaceFrom(s, str, rep, i + |str|));
    assert Replacements(s, str, k) == 1 + Replacements(s, str, i + |str|);
    LengthStep(|ReplaceFrom(s, str, rep, k)|, |ReplaceFrom(s, str, rep, i + |str|)|, i - k,
      Replacements(s, str, i + |str|), |str|, |rep|, |s| - k, |s| - (i + |str|));
  }

  /**
    The arithmetic of one step: a gap of `g` kept, `a` characters replaced
    by `b`, and `c` replacements after it.
  */
  lemma LengthStep(l: int, l2: int, g: int, c: nat, a: nat, b: nat, n: int, n2: int)
    requires l == g + b + l2 && n == g + a + n2
    requires l2 + c * a == n2 + c * b
    ensures l + (1 + c) * a == n + (1 + c) * b
  {
    assert (1 + c) * a == a + c * a;
    assert (1 + c) * b == b + c * b;
  }

  /** With `rep` at least as long as `str`, rewriting never shortens the string. */
  lemma {:induction false} ReplaceGrows(s: string, str: string, rep: string, k: nat)
    requires |str| > 0 && |rep| >= |str| && k <= |s|
    ensures |ReplaceFrom(s, str, rep, k)| >= |s| - k
    decreases |s| - k
  {
    match FindFrom(s, str, k)
    case None =>
    case Some(i) =>
      ReplaceGrows(s, str, rep, i + |str|);
  }

  /**
    The scan resumes after the inserted text, so replacement text is never
    searched again: replacing a string by itself changes nothing.
  */
  lemma {:induction false} ReplaceSelf(s: string, str: string, k: nat)
    requires |str| > 0 && k <= |s|
    ensures ReplaceFrom(s, str, str, k) == s[k..]
    decreases |s| - k
  {
    match FindFrom(s, str, k)
    case None =>
    case Some(i) =>
      ReplaceSelf(s, str, i + |str|);
      ReplaceSelfStep(s, str, k, i);
  }

  /** Replacing the occurrence at `i` by itself keeps the string from `k` on. */
  lemma ReplaceSelfStep(s: string, str: string, k: nat, i: nat)
    requires |str| > 0 && k <= |s| && FindFrom(s, str, k) == Some(i)
    requires ReplaceFrom(s, str, str, i + |str|) == s[i + |str|..]
    ensures ReplaceFrom(s, str, str, k) == s[k..]
  {
    FoundOccurs(s, str, k, i);
    UnfoldAt(s, str, str, k, i, s[i + |str|..]);
    Resplit(s, k, i, i + |str|, str);
  }

  /** The position `FindFrom` returns holds `str`. */
  lemma FoundOccurs(s: string, str: string, k: nat, i: nat)
    requires FindFrom(s, str, k) == Some(i)
    ensures i + |str| <= |s| && s[i..i + |str|] == str
  {
    FindFromSpec(s, str, k);
  }

  /** A suffix split around a middle part `x`. */
  lemma Resplit(s: string, k: nat, i: nat, j: nat, x: string)
    requires k <= i <= j <= |s| && s[i..j] == x
    ensures s[k..] == s[k..i] + x + s[j..]
  {
    assert s[k..] == s[k..i] + s[i..j] + s[j..];
  }

  /** Rewriting from `k` on is rewriting the suffix that starts at `k`. */
  lemma ReplaceFromSuffix(s: string, str: string, rep: string, k: nat)
    requires |str| > 0 && k <= |s|
    ensures ReplaceFrom(s, str, rep, k) == ReplaceAll(s[k..], str, rep)
  {
    ReplaceFromIsScan(s, str, rep, k);
    ReplaceAllIsScan(s[k..], str, rep);
  }

  /** One step of `ReplaceAll`: the first occurrence is replaced, then the tail is rewritten on its own. */
  lemma StepUnfold(s: string, str: string, rep: string, i: nat)
    requires |str| > 0 && FindFrom(s, str, 0) == Some(i)
    ensures i + |str| <= |s|
    ensures ReplaceAll(s, str, rep) == s[..i] + rep + ReplaceAll(s[i + |str|..], str, rep)
  {
    ReplaceFromSuffix(s, str, rep, i + |str|);
    UnfoldFirst(s, str, rep, i, ReplaceAll(s[i + |str|..], str, rep));
  }

  /** `UnfoldAt` from the start of the string, with the rewritten rest given as `y`. */
  lemma UnfoldFirst(s: string, str: string, rep: string, i: nat, y: string)
    requires |str| > 0 && FindFrom(s, str, 0) == Some(i) && i + |str| <= |s|
    requires ReplaceFrom(s, str, rep, i + |str|) == y
    ensures ReplaceAll(s, str, rep) == s[..i] + rep + y
  {
    UnfoldAt(s, str, rep, 0, i, y);
    assert s[0..i] == s[..i];
  }

  /** The string after one step is no longer than both the old and the final one. */
  lemma StepLengths(s: string, str: string, rep: string, i: nat)
    requires |str| > 0 && FindFrom(s, str, 0) == Some(i)
    ensures i + |str| <= |s|
    ensures |s| + |rep| - |str| <= |s| || |s| + |rep| - |str| <= |ReplaceAll(s, str, rep)|
  {
    StepUnfold(s, str, rep, i);
    if |rep| >= |str| {
      ReplaceGrows(s, str, rep, i + |str|);
      assert |ReplaceAll(s, str, rep)| == i + |rep| + |ReplaceFrom(s, str, rep, i + |str|)|;
    }
  }

  /**
    Copy `data` into `dst` from `at` on (`strncpy`, `strncat`, `strcpy`);
    nothing else changes.
  */
  method Copy(dst: array<char>, at: nat, data: seq<char>)
    requires at + |data| <= dst.Length
    modifies dst
    ensures dst[..] == old(dst[..at]) + data + old(dst[at + |data|..])
  {
    var k := 0;
    while k < |data|
      invariant k <= |data|
      invariant dst[..] == old(dst[..at]) + data[..k] + old(dst[at + k..])
    {
      dst[at + k] := data[k];
      k := k + 1;
      assert data[..k] == data[..k - 1] + [data[k - 1]];
    }
    assert data[..k] == data;
  }

  /**
    The buffer after one step: the rewritten string `out` and its NUL over
    `b` from `at`, the rest of `b` as it was.
  */
  ghost function Spliced(b: seq<char>, at: nat, s: string, i: nat, str: string, rep: string): seq<char>
    requires i + |str| <= |s| && at + |s| + |rep| - |str| < |b|
  {
    var out := s[..i] + rep + s[i + |str|..];
    b[..at] + out + [NUL] + b[at + |out| + 1..]
  }

  /**
    The scratch array of lines 641-648, with room for the terminator:
    `len + 1` characters, then the prefix before the occurrence, `rep` and
    the tail, each copy ended by a NUL as `strncpy` with line 646 and
    `strncat` end theirs. The zeroing of line 643 is left out, as the
    copies overwrite every character.
  */
  method Scratch(s: string, i: nat, str: string, rep: string) returns (r: array<char>)
    requires i + |str| <= |s|
    ensures fresh(r)
    ensures r[..] == s[..i] + rep + s[i + |str|..] + [NUL]
  {
    var len := |s| + |rep| - |str|;
    r := new char[len + 1];
    ghost var r0 := r[..];
    Copy(r, 0, s[..i] + [NUL]);
    ghost var r1 := r[..];
    Copy(r, i, rep + [NUL]);
    ghost var r2 := r[..];
    Copy(r, i + |rep|, s[i + |str|..] + [NUL]);
    ThreeCopies(r0, r1, r2, r[..], s[..i], rep, s[i + |str|..], i, i + |rep|);
  }

  /**
    Three terminated copies, each starting over the previous one's NUL
    (at `p1` and `p2`), leave the concatenation.
  */
  lemma ThreeCopies(r0: seq<char>, r1: seq<char>, r2: seq<char>, r3: seq<char>, a: string, b: string, c: string, p1: nat, p2: nat)
    requires |r0| == |a| + |b| + |c| + 1 && p1 == |a| && p2 == |a| + |b|
    requires r1 == r0[..0] + (a + [NUL]) + r0[0 + |a + [NUL]|..]
    requires r2 == r1[..p1] + (b + [NUL]) + r1[p1 + |b + [NUL]|..]
    requires r3 == r2[..p2] + (c + [NUL]) + r2[p2 + |c + [NUL]|..]
    ensures r3 == a + b + c + [NUL]
  {
    assert r1[..p1] == a;
    assert r2[..p2] == a + b;
  }

  /**
    One step, as lines 641-649 perform it: the rewritten string is built in
    the scratch array and copied back over `src` from `at` (`strcpy`),
    terminator included.
  */
  method ReplaceStep(src: array<char>, at: nat, s: string, i: nat, str: string, rep: string)
    requires i + |str| <= |s|
    requires at + |s| + |rep| - |str| < src.Length
    modifies src
    ensures src[..] == Spliced(old(src[..]), at, s, i, str, rep)
  {
    var r := Scratch(s, i, str, rep);
    Copy(src, at, r[..]);
  }

  /** The bytes the rewrite of `s` at `at` leaves in `b2`, given the original buffer `b`. */
  ghost predicate Leaves(b: seq<char>, b2: seq<char>, at: nat, n: nat, r: string) {
    && |b2| == |b| && at + |r| < |b|
    && b2[..at] == b[..at]
    && b2[at..at + |r|] == r && b2[at + |r|] == NUL
    && forall k :: at + n < k < |b| && at + |r| < k ==> b2[k] == b[k]
  }

  /** Where `str` does not occur, the buffer already holds the rewrite: `s` and its NUL. */
  lemma LeavesUnchanged(b: seq<char>, at: nat, s: string, str: string, rep: string)
    requires |str| > 0 && at + |s| < |b|
    requires s == CStr(b[at..]) && FindFrom(s, str, 0).None?
    ensures Leaves(b, b, at, |s|, ReplaceAll(s, str, rep))
  {
    assert ReplaceAll(s, str, rep) == s by {
      assert ReplaceFrom(s, str, rep, 0) == s[0..];
    }
    assert b[at..][..|s|] == s;
  }

  /**
    `strreplace(src + at, str, rep)`: the C string at `at` (`s`, ended by the
    first NUL) is rewritten in place. The buffer must hold the result and
    its terminator, as every caller of the source must ensure.
  */
  method StrReplace(src: array<char>, at: nat, str: string, rep: string, ghost s: string)
    requires |str| > 0
    requires at <= src.Length && s == CStr(src[at..]) && at + |s| < src.Length
    requires at + |ReplaceAll(s, str, rep)| < src.Length
    modifies src
    ensures Leaves(old(src[..]), src[..], at, |s|, ReplaceAll(s, str, rep))
    decreases |s|
  {
    var n := Strlen(src, at);
    var cur := src[at..at + n];
    assert cur == s;
    var p := FindFrom(cur, str, 0);
    if p.None? {
      LeavesUnchanged(src[..], at, s, str, rep);
      return;
    }
    var i := p.value;
    ghost var b0 := src[..];
    StepLengths(s, str, rep, i);
    ReplaceStep(src, at, cur, i, str, rep);
    ghost var b1 := src[..];
    var at' := at + i + |rep|;
    StepReady(b0, b1, at, s, i, str, rep);
    assert src[at'..] == b1[at'..];
    ghost var t := s[i + |str|..];
    StrReplace(src, at', str, rep, t);
    ghost var b2 := src[..];
    Compose(b0, b1, b2, at, s, i, str, rep, at', t);
  }

  /** After a step there is room for the rewrite of the tail, which starts after the inserted `rep`. */
  lemma StepReady(b0: seq<char>, b1: seq<char>, at: nat, s: string, i: nat, str: string, rep: string)
    requires |str| > 0 && FindFrom(s, str, 0) == Some(i) && NUL !in s
    requires at + |s| < |b0| && at + |ReplaceAll(s, str, rep)| < |b0|
    requires i + |str| <= |s| && at + |s| + |rep| - |str| < |b0|
    requires b1 == Spliced(b0, at, s, i, str, rep)
    ensures var at', t := at + i + |rep|, s[i + |str|..];
      && at' <= |b1| && t == CStr(b1[at'..]) && at' + |t| < |b1|
      && at' + |ReplaceAll(t, str, rep)| < |b1|
      && ReplaceAll(s, str, rep) == s[..i] + rep + ReplaceAll(t, str, rep)
  {
    StepUnfold(s, str, rep, i);
    SplicedTail(b0, at, s, i, str, rep);
  }

  /** After a step, the C string from the end of the inserted `rep` on is the old tail. */
  lemma SplicedTail(b: seq<char>, at: nat, s: string, i: nat, str: string, rep: string)
    requires i + |str| <= |s| && at + |s| + |rep| - |str| < |b| && NUL !in s
    ensures var b1 := Spliced(b, at, s, i, str, rep);
      && at + i + |rep| + |s| - i - |str| < |b1|
      && CStr(b1[at + i + |rep|..]) == s[i + |str|..]
  {
    var out := s[..i] + rep + s[i + |str|..];
    var b1 := Spliced(b, at, s, i, str, rep);
    var rest := b[at + |out| + 1..];
    assert b1[at + i + |rep|..] == s[i + |str|..] + [NUL] + rest;
    CStrOfTerminated(s[i + |str|..], rest);
  }

  /**
    A step (`b0` to `b1`) followed by the rewrite of the tail (`b1` to
    `b2`) leaves the rewrite of the whole string.
  */
  lemma Compose(b0: seq<char>, b1: seq<char>, b2: seq<char>, at: nat, s: string, i: nat, str: string, rep: string, at': nat, t: string)
    requires |str| > 0 && FindFrom(s, str, 0) == Some(i)
    requires at + |s| < |b0| && at + |ReplaceAll(s, str, rep)| < |b0|
    requires i + |str| <= |s| && at + |s| + |rep| - |str| < |b0|
    requires b1 == Spliced(b0, at, s, i, str, rep)
    requires at' == at + i + |rep| && t == s[i + |str|..]
    requires Leaves(b1, b2, at', |t|, ReplaceAll(t, str, rep))
    ensures Leaves(b0, b2, at, |s|, ReplaceAll(s, str, rep))
  {
    StepUnfold(s, str, rep, i);
    StepLengths(s, str, rep, i);
    var u := s[..i] + rep;
    var out := s[..i] + rep + s[i + |str|..];
    ComposeParts(b0, b1, b2, at, at', |s|, u, t, out, b0[at + |out| + 1..], ReplaceAll(t, str, rep));
  }

  /**
    The same on the parts: `u` is kept, `t` is rewritten to `rt`, and the
    string of length `n` becomes `u + rt`.
  */
  lemma ComposeParts(b0: seq<char>, b1: seq<char>, b2: seq<char>, at: nat, at': nat, n: nat, u: string, t: string, out: string, tail: seq<char>, rt: string)
    requires out == u + t && at + |out| < |b0| && at' == at + |u|
    requires tail == b0[at + |out| + 1..] && b1 == b0[..at] + out + [NUL] + tail
    requires |out| <= n || |out| <= |u| + |rt|
    requires at + |u + rt| < |b0|
    requires Leaves(b1, b2, at', |t|, rt)
    ensures Leaves(b0, b2, at, n, u + rt)
  {
    assert b1[..at'] == b0[..at] + u;
    assert b2[..at] == b2[..at'][..at];
    assert b2[at..at'] == u by {
      assert b2[at..at'] == b1[..at'][at..];
    }
    assert b2[at..at + |u + rt|] == b2[at..at'] + b2[at'..at' + |rt|];
    forall k | at + n < k < |b0| && at + |u + rt| < k
      ensures b2[k] == b0[k]
    {
      assert b1[k] == b0[k];
    }
  }

  /** `strlen(src + at)`: the characters before the first NUL from `at` on. */
  method Strlen(src: array<char>, at: nat) returns (n: nat)
    requires at <= src.Length && NUL in src[at..]
    ensures n == |CStr(src[at..])|
  {
    n := 0;
    while src[at + n] != NUL
      invariant at + n <= src.Length && NUL in src[at + n..]
      invariant forall k :: at <= k < at + n ==> src[k] != NUL
      decreases src.Length - at - n
    {
      assert src[at + n..] == [src[at + n]] + src[at + n + 1..];
      n := n + 1;
    }
    ScanIs(src[at..], 0, src.Length - at, AtNul, n);
  }

  /** A string followed by a NUL is that string as a C string. */
  lemma CStrOfTerminated(t: string, rest: string)
    requires NUL !in t
    ensures CStr(t + [NUL] + rest) == t
  {
    ScanIs(t + [NUL] + rest, 0, |t + [NUL] + rest|, AtNul, |t|);
  }

  /** The length of the scratch array at lines 641-642: the new length, with no room for a NUL. */
  function ScratchSizeAsWritten(s: string, str: string, rep: string): int {
    |s| + |rep| - |str|
  }

  /**
    Where the second `strncat` (line 648) puts its terminator: after the
    prefix, `rep` and the tail. That is always the first index past the
    scratch array, so every replacement writes one byte out of bounds.
  */
  lemma ScratchOverrun(s: string, str: string, rep: string, i: nat)
    requires OccursAt(s, str, i)
    ensures var terminator := |s[..i] + rep + s[i + |str|..]|;
      terminator == ScratchSizeAsWritten(s, str, rep)
  {
  }

  /** `strreplace("a", "a", "")`: a scratch array of no bytes, and `r[0]` is written at line 646. */
  lemma ScratchOverrunExample()
    ensures ScratchSizeAsWritten("a", "a", "") == 0
    ensures ReplaceAll("a", "a", "") == ""
  {
    assert OccursAt("a", "a", 0);
    assert FindFrom("a", "a", 0) == Some(0);
  }
}
