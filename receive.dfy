/**
  Reassembly of the request from the fragments the connection delivers
  (http_server.c, the receive loop of `http_server_netconn_serve`).

  The corrected reader, which the rest of the model uses, appends every
  fragment to one growable buffer, grows it by the shortfall or by
  `GrowthStep` bytes, whichever is larger, and keeps unbounded lengths.
  `StepAsWritten` and `RunAsWritten` keep the source's own arithmetic
  (16-bit lengths, the growth formula of line 339, an unchecked `realloc`)
  so that its defects can be exhibited.
*/
module Receive {
  const GrowthStep: nat := 2048
  /** Lengths in the source are `u16_t`. */
  const U16: nat := 65536

  /** The in-order concatenation of the fragments. */
  function Concat(frags: seq<seq<char>>): seq<char> {
    if frags == [] then [] else Concat(frags[..|frags| - 1]) + frags[|frags| - 1]
  }

  function TotalLength(frags: seq<seq<char>>): nat {
    if frags == [] then 0 else TotalLength(frags[..|frags| - 1]) + |frags[|frags| - 1]|
  }

  lemma {:induction false} ConcatLength(frags: seq<seq<char>>)
    ensures |Concat(frags)| == TotalLength(frags)
  {
    if frags != [] {
      ConcatLength(frags[..|frags| - 1]);
    }
  }

  lemma {:induction false} ConcatAppend(a: seq<seq<char>>, b: seq<seq<char>>)
    ensures Concat(a + b) == Concat(a) + Concat(b)
    decreases |b|
  {
    if b != [] {
      assert (a + b)[..|a + b| - 1] == a + b[..|b| - 1];
      ConcatAppend(a, b[..|b| - 1]);
    } else {
      assert a + b == a;
    }
  }

  /** Reassembly does not depend on where the fragment boundaries fall. */
  lemma SplitFragment(frags: seq<seq<char>>, i: nat, x: seq<char>, y: seq<char>)
    requires i < |frags| && frags[i] == x + y
    ensures Concat(frags[..i] + [x, y] + frags[i + 1..]) == Concat(frags)
  {
    var a, b := frags[..i], frags[i + 1..];
    assert Concat([x]) == x by {
      assert [x][..0] == [];
    }
    assert Concat([x, y]) == x + y by {
      assert [x, y][..1] == [x];
      assert Concat([x, y]) == Concat([x]) + y;
    }
    assert Concat([frags[i]]) == frags[i] by {
      assert [frags[i]][..0] == [];
    }
    calc {
      Concat(a + [x, y] + b);
      { ConcatAppend(a + [x, y], b); }
      Concat(a + [x, y]) + Concat(b);
      { ConcatAppend(a, [x, y]); }
      Concat(a) + (x + y) + Concat(b);
      { ConcatAppend(a, [frags[i]]); }
      Concat(a + [frags[i]]) + Concat(b);
      { ConcatAppend(a + [frags[i]], b); }
      Concat(a + [frags[i]] + b);
      { assert a + [frags[i]] + b == frags; }
      Concat(frags);
    }
  }

  /** Capacity after receiving `rcvlen` more bytes into `len` bytes held in `cap`. */
  function GrowCapacity(len: nat, cap: nat, rcvlen: nat): (newCap: nat)
    ensures newCap >= len + rcvlen && newCap >= cap
    ensures newCap != cap ==> newCap >= cap + GrowthStep
    ensures len + rcvlen <= cap ==> newCap == cap
  {
    if len + rcvlen > cap then
      var shortfall := len + rcvlen - cap;
      cap + (if shortfall < GrowthStep then GrowthStep else shortfall)
    else cap
  }

  /** The receive buffer: `buf[..buflen]` holds the bytes received so far, `buf.Length` is `bufsize`. */
  class RecvBuffer {
    var buf: array<char>
    var buflen: nat

    ghost predicate Valid()
      reads this
    {
      buflen <= buf.Length
    }

    function Contents(): seq<char>
      reads this, buf
      requires Valid()
    {
      buf[..buflen]
    }

    constructor ()
      ensures Valid() && fresh(buf)
      ensures Contents() == [] && buf.Length == 0
    {
      buf := new char[0];
      buflen := 0;
    }

    /**
      Append one fragment. `reallocOk` is the outcome of the allocation the
      growth needs; when it fails nothing changes and the caller stops.
    */
    method Append(frag: seq<char>, reallocOk: bool) returns (ok: bool)
      requires Valid()
      modifies this, buf
      ensures Valid()
      ensures buf == old(buf) || fresh(buf)
      ensures ok == (old(buflen) + |frag| <= old(buf.Length) || reallocOk)
      ensures ok ==> Contents() == old(Contents()) + frag
      ensures ok ==> buf.Length == GrowCapacity(old(buflen), old(buf.Length), |frag|)
      ensures !ok ==> buf == old(buf) && buflen == old(buflen) && buf[..] == old(buf[..])
    {
      if buflen + |frag| > buf.Length {
        if !reallocOk {
          return false;
        }
        var grown := new char[GrowCapacity(buflen, buf.Length, |frag|)];
        forall k | 0 <= k < buflen {
          grown[k] := buf[k];
        }
        buf := grown;
      }
      var j := 0;
      while j < |frag|
        invariant 0 <= j <= |frag|
        invariant buflen == old(buflen) && buflen + |frag| <= buf.Length
        invariant buf.Length == GrowCapacity(old(buflen), old(buf.Length), |frag|)
        invariant buf == old(buf) || fresh(buf)
        invariant buf[..buflen + j] == old(buf[..buflen]) + frag[..j]
      {
        buf[buflen + j] := frag[j];
        j := j + 1;
      }
      buflen := buflen + |frag|;
      ok := true;
    }
  }

  /**
    The reader as a function: starting from fragment `i` with `len` bytes
    held in `cap`, the number of fragments accepted and the final capacity.
    Reception stops at the first fragment whose growth allocation fails.
  */
  function ReceiveFrom(frags: seq<seq<char>>, allocOk: seq<bool>, i: nat, len: nat, cap: nat): (r: (nat, nat))
    requires |allocOk| == |frags| && i <= |frags|
    decreases |frags| - i
    ensures i <= r.0 <= |frags|
    ensures r.0 < |frags| ==> !allocOk[r.0]
  {
    if i == |frags| then (i, cap)
    else if len + |frags[i]| > cap && !allocOk[i] then (i, cap)
    else ReceiveFrom(frags, allocOk, i + 1, len + |frags[i]|, GrowCapacity(len, cap, |frags[i]|))
  }

  /** How many fragments the reader accepts from an empty buffer. */
  function Accepted(frags: seq<seq<char>>, allocOk: seq<bool>): nat
    requires |allocOk| == |frags|
  {
    ReceiveFrom(frags, allocOk, 0, 0, 0).0
  }

  /**
    The receive loop: feed the fragments in order into a fresh buffer.
    Returns the received bytes, the final capacity and how many fragments
    were accepted (all of them unless an allocation failed).
  */
  method Receive(frags: seq<seq<char>>, allocOk: seq<bool>) returns (content: seq<char>, capacity: nat, received: nat)
    requires |allocOk| == |frags|
    ensures received == Accepted(frags, allocOk)
    ensures content == Concat(frags[..received]) && |content| == TotalLength(frags[..received])
    ensures capacity >= |content|
    ensures received < |frags| ==> !allocOk[received] && |content| + |frags[received]| > capacity
  {
    var rb := new RecvBuffer();
    received := 0;
    var stopped := false;
    while received < |frags| && !stopped
      invariant received <= |frags|
      invariant rb.Valid() && fresh(rb) && fresh(rb.buf)
      invariant rb.Contents() == Concat(frags[..received])
      invariant Accepted(frags, allocOk) ==
        if stopped then received else ReceiveFrom(frags, allocOk, received, rb.buflen, rb.buf.Length).0
      invariant stopped ==> received < |frags|
      invariant stopped ==> !allocOk[received] && rb.buflen + |frags[received]| > rb.buf.Length
      decreases |frags| - received, !stopped
    {
      var ok := rb.Append(frags[received], allocOk[received]);
      if ok {
        assert frags[..received + 1] == frags[..received] + [frags[received]];
        assert frags[..received + 1][..received] == frags[..received];
        received := received + 1;
      } else {
        stopped := true;
      }
    }
    content := rb.buf[..rb.buflen];
    capacity := rb.buf.Length;
    ConcatLength(frags[..received]);
  }

  // ---- The loop as written: 16-bit lengths and the growth formula of line 339 ----

  datatype RecvState = RecvState(buflen: nat, bufsize: nat)

  /**
    What one fragment does to the buffer as written. `Overrun` means the
    `memcpy` of line 342 writes past the allocation (`needed` bytes are
    required, `next.bufsize` were allocated); `NullWrite` means `realloc`
    failed and the `memcpy` writes through NULL.
  */
  datatype StepOutcome = Copied(next: RecvState) | Overrun(next: RecvState, needed: nat) | NullWrite

  predicate IsU16State(st: RecvState) {
    st.buflen < U16 && st.bufsize < U16
  }

  function StepAsWritten(st: RecvState, rcvlen: nat, reallocOk: bool): (o: StepOutcome)
    requires IsU16State(st) && rcvlen < U16
    ensures o.Copied? ==> IsU16State(o.next)
  {
    var newLen := (st.buflen + rcvlen) % U16;
    if st.buflen + rcvlen > st.bufsize then
      // `rcvlen - bufsize` is computed in int after promotion and may be negative
      var grow := if rcvlen - st.bufsize < GrowthStep then GrowthStep else rcvlen - st.bufsize;
      var size := (st.bufsize + grow) % U16;
      if !reallocOk then NullWrite
      else if st.buflen + rcvlen > size then Overrun(RecvState(newLen, size), st.buflen + rcvlen)
      else Copied(RecvState(newLen, size))
    else Copied(RecvState(newLen, st.bufsize))
  }

  /** The loop as written over fragment lengths, every allocation succeeding, up to the first fault. */
  function RunAsWritten(st: RecvState, lens: seq<nat>): StepOutcome
    requires IsU16State(st) && forall k :: 0 <= k < |lens| ==> lens[k] < U16
    decreases |lens|
  {
    if lens == [] then Copied(st)
    else match StepAsWritten(st, lens[0], true)
      case Copied(next) => RunAsWritten(next, lens[1..])
      case other => other
  }

  /**
    Without 16-bit wrap-around, the growth of line 339 falls short exactly
    when bytes are already held and the fragment exceeds the free room plus 2048.
  */
  lemma AsWrittenOverrunIff(st: RecvState, rcvlen: nat)
    requires IsU16State(st) && rcvlen < U16 && st.buflen <= st.bufsize
    requires st.bufsize + GrowthStep < U16 && rcvlen < U16 - st.bufsize
    ensures StepAsWritten(st, rcvlen, true).Overrun? <==> st.buflen > 0 && st.buflen + rcvlen > st.bufsize + GrowthStep
  {
  }

  /** Fragments of at most 2048 bytes never hit the shortfall while no length wraps. */
  lemma AsWrittenSmallFragmentsFit(st: RecvState, rcvlen: nat)
    requires IsU16State(st) && st.buflen <= st.bufsize && rcvlen <= GrowthStep
    requires st.bufsize + GrowthStep < U16 && st.buflen + rcvlen < U16
    ensures StepAsWritten(st, rcvlen, true) == Copied(RecvState(st.buflen + rcvlen,
      if st.buflen + rcvlen > st.bufsize then st.bufsize + GrowthStep else st.bufsize))
  {
  }

  /** A 2000-byte then a 3000-byte fragment: 4096 bytes are allocated for 5000. */
  lemma AsWrittenShortfall()
    ensures RunAsWritten(RecvState(0, 0), [2000, 3000]) == Overrun(RecvState(5000, 4096), 5000)
  {
    assert StepAsWritten(RecvState(0, 0), 2000, true) == Copied(RecvState(2000, 2048));
    assert [2000, 3000][1..] == [3000];
  }

  /** A failed `realloc` is not checked: the copy goes through NULL. */
  lemma AsWrittenReallocUnchecked()
    ensures StepAsWritten(RecvState(0, 0), 1, false) == NullWrite
  {
  }

  /** One full 2048-byte fragment fills the allocation exactly: no byte is left for a NUL terminator. */
  lemma AsWrittenNoRoomForTerminator()
    ensures RunAsWritten(RecvState(0, 0), [2048]) == Copied(RecvState(2048, 2048))
  {
    assert [2048][1..] == [];
  }

  function Repeat(x: nat, k: nat): (s: seq<nat>)
    ensures |s| == k && forall i :: 0 <= i < k ==> s[i] == x
  {
    seq(k, _ => x)
  }

  /**
    After `j` fragments of 2048 bytes, `32 - j` more make `bufsize` wrap to 0
    at the 32nd (a 64 KiB request): `realloc(buf, 0)` and a 65536-byte copy.
  */
  lemma {:induction false} AsWrittenCapacityWraps(j: nat, k: nat)
    requires j + k == 32 && k >= 1
    ensures RunAsWritten(RecvState(GrowthStep * j, GrowthStep * j), Repeat(GrowthStep, k)) == Overrun(RecvState(0, 0), U16)
    decreases k
  {
    var st := RecvState(GrowthStep * j, GrowthStep * j);
    var lens := Repeat(GrowthStep, k);
    if k == 1 {
      assert StepAsWritten(st, GrowthStep, true) == Overrun(RecvState(0, 0), U16);
    } else {
      assert StepAsWritten(st, GrowthStep, true) == Copied(RecvState(GrowthStep * (j + 1), GrowthStep * (j + 1)));
      assert lens[1..] == Repeat(GrowthStep, k - 1);
      AsWrittenCapacityWraps(j + 1, k - 1);
    }
  }
}
