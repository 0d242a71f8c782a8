/**
 The frame walk: cutting received bytes into netlink messages.

 `remaining` is an unsigned 32-bit counter and the alignment of a length is
 computed in 32 bits, so both wrap exactly where the macros NLMSG_NEXT and
 NLMSG_ALIGN do.
 */
module Framing {
  import opened Bytes
  import opened Wire

  /** A loop state of the walk: the memory from `header` on, and `remaining`. */
  datatype Cursor = Cursor(view: seq<Byte>, remaining: U32)

  /** Every state that passed the guard, the state that failed it, and whether
      the walk is stuck for ever on its last frame instead. */
  datatype Walk = Walk(frames: seq<Cursor>, last: Cursor, hangs: bool)

  function NlmsgAlign(len: U32): U32 {
    var sum := (len + 3) % TWO_TO_THE_32;
    sum - sum % 4
  }

  predicate NlmsgOk(view: seq<Byte>, remaining: U32) {
    && HEADER_SIZE <= remaining
    && HEADER_SIZE <= U32At(view, 0) <= remaining
  }

  function NlmsgNext(c: Cursor): Cursor {
    var step := NlmsgAlign(U32At(c.view, 0));
    Cursor(From(c.view, step), (c.remaining - step) % TWO_TO_THE_32)
  }

  function WalkFrom(c: Cursor): Walk
    decreases |c.view|
  {
    if !NlmsgOk(c.view, c.remaining) then
      Walk([], c, false)
    else if NlmsgAlign(U32At(c.view, 0)) == 0 then
      Walk([c], c, true)
    else
      var w := WalkFrom(NlmsgNext(c));
      w.(frames := [c] + w.frames)
  }

  function Views(frames: seq<Cursor>): (views: seq<seq<Byte>>)
    ensures |views| == |frames|
  {
    seq(|frames|, i requires 0 <= i < |frames| => frames[i].view)
  }

  /** The state d looks at exactly the bytes that c has still to deliver. */
  ghost predicate Tracks(c: Cursor, d: Cursor)
  {
    && d.remaining <= c.remaining <= |c.view|
    && d.view == c.view[c.remaining - d.remaining..]
  }

  /** Frame f lies wholly inside the received bytes and is a whole message. */
  ghost predicate Inside(c: Cursor, f: Cursor) {
    Tracks(c, f) && NlmsgOk(f.view, f.remaining)
  }

  /** The walk never leaves the received bytes and comes to an end. */
  ghost predicate Conserves(c: Cursor)
  {
    var w := WalkFrom(c);
    && !w.hangs
    && Tracks(c, w.last)
    && forall i | 0 <= i < |w.frames| :: Inside(c, w.frames[i])
  }

  /** One step of an aligned walk: no wrap, and the step is the padded length. */
  lemma AlignedStep(c: Cursor)
    requires c.remaining % 4 == 0 && c.remaining <= |c.view|
    requires NlmsgOk(c.view, c.remaining)
    ensures var len := U32At(c.view, 0);
            && HEADER_SIZE <= NlmsgAlign(len) == Align4(len) <= c.remaining
            && NlmsgNext(c) == Cursor(c.view[Align4(len)..], c.remaining - Align4(len))
    ensures NlmsgNext(c).remaining % 4 == 0 && Tracks(c, NlmsgNext(c))
  {
    hide U32At, NlmsgAlign, Align4;
    AlignFits(U32At(c.view, 0), c.remaining);
  }

  lemma AlignFits(len: U32, remaining: U32)
    requires remaining % 4 == 0 && len <= remaining
    ensures NlmsgAlign(len) == Align4(len) <= remaining
  {
  }

  lemma {:induction false} AlignedWalkIsSafe(c: Cursor)
    requires c.remaining % 4 == 0 && c.remaining <= |c.view|
    ensures Conserves(c)
    ensures HEADER_SIZE * |WalkFrom(c).frames| <= c.remaining - WalkFrom(c).last.remaining
    ensures WalkFrom(c).last.remaining % 4 == 0
    decreases |c.view|
  {
    if NlmsgOk(c.view, c.remaining) {
      AlignedStep(c);
      var d := NlmsgNext(c);
      AlignedWalkIsSafe(d);
      var w := WalkFrom(d);
      forall f | Tracks(d, f)
        ensures Tracks(c, f)
      {
        TracksTransitive(c, d, f);
      }
    }
  }

  lemma TracksTransitive(c: Cursor, d: Cursor, f: Cursor)
    requires Tracks(c, d) && Tracks(d, f)
    ensures Tracks(c, f)
  {
    var i, j := c.remaining - d.remaining, d.remaining - f.remaining;
    assert c.view[i..][j..] == c.view[i + j..];
  }

  /** The state after frame i, which is the last state after the last frame. */
  function After(w: Walk, i: nat): Cursor
    requires i < |w.frames|
  {
    if i + 1 < |w.frames| then w.frames[i + 1] else w.last
  }

  /** Consecutive frames tile the received bytes: each one starts where the
      padded length of the one before it ends. */
  lemma {:induction false} FramesTile(c: Cursor, i: nat)
    requires c.remaining % 4 == 0 && c.remaining <= |c.view|
    requires i < |WalkFrom(c).frames|
    ensures var w := WalkFrom(c);
            After(w, i).remaining == w.frames[i].remaining - Align4(U32At(w.frames[i].view, 0))
    decreases i
  {
    AlignedStep(c);
    var d := NlmsgNext(c);
    var w, rest := WalkFrom(c), WalkFrom(d);
    assert w == rest.(frames := [c] + rest.frames);
    if i == 0 {
      assert After(w, 0) == d;
    } else {
      FramesTile(d, i - 1);
      assert After(w, i) == After(rest, i - 1);
    }
  }

  /** Whatever the bytes are, a walk over n received bytes keeps its promises
      exactly when n is a multiple of the alignment or too short for a header. */
  lemma {:induction false} WalkIsSafeIff(n: U32)
    ensures (forall view: seq<Byte> | n <= |view| :: Conserves(Cursor(view, n))) <==> n % 4 == 0 || n < HEADER_SIZE
  {
    if n % 4 == 0 || n < HEADER_SIZE {
      forall view: seq<Byte> | n <= |view|
        ensures Conserves(Cursor(view, n))
      {
        if n % 4 == 0 {
          AlignedWalkIsSafe(Cursor(view, n));
        }
      }
    } else {
      UnalignedWalkFails(n);
    }
  }

  /** One message whose length is the whole unaligned datagram is enough. */
  lemma {:induction false} UnalignedWalkFails(n: U32)
    requires n % 4 != 0 && HEADER_SIZE <= n
    ensures exists view: seq<Byte> :: n <= |view| && !Conserves(Cursor(view, n))
  {
    hide U32At, PutU32;
    var view := PutU32(n) + Zeros(n);
    var c := Cursor(view, n);
    U32RoundTrip(n, Zeros(n));
    var w := WalkFrom(c);
    if NlmsgAlign(n) != 0 {
      var d := NlmsgNext(c);
      UnalignedStepWraps(n);
      assert d.remaining > n;
      assert !Tracks(c, d);
      var rest := WalkFrom(d);
      if |rest.frames| > 0 {
        assert w.frames[1] == d && !Inside(c, w.frames[1]);
      } else {
        assert w.last == d;
      }
    }
    assert !Conserves(c);
  }

  lemma UnalignedStepWraps(n: U32)
    requires n % 4 != 0 && NlmsgAlign(n) != 0
    ensures (n - NlmsgAlign(n)) % TWO_TO_THE_32 > n
  {
    assert n < NlmsgAlign(n) < n + 4;
  }

  /** Concretely: 17 received bytes that hold one 17-byte message. The counter
      wraps and the walk hands on a message that lies in stale memory. */
  lemma {:induction false} StaleMessageIsDelivered(stale: seq<Byte>)
    requires HEADER_SIZE <= |stale| && U32At(stale, 0) == HEADER_SIZE
    ensures var view := PutU32(17) + Zeros(16) + stale;
            var views := Views(WalkFrom(Cursor(view, 17)).frames);
            2 <= |views| && views[..2] == [view, stale]
  {
    hide U32At, PutU32;
    var view := PutU32(17) + Zeros(16) + stale;
    assert view == PutU32(17) + (Zeros(16) + stale);
    U32RoundTrip(17, Zeros(16) + stale);
    var c := Cursor(view, 17);
    var d := NlmsgNext(c);
    assert d == Cursor(stale, TWO_TO_THE_32 - 3);
    assert NlmsgOk(d.view, d.remaining) && WalkFrom(d).frames[0] == d;
    var w := WalkFrom(c);
    assert w.frames == [c] + WalkFrom(d).frames;
    assert Views(w.frames)[..2] == [view, stale];
  }

  /** And once wrapped the walk can be stuck: on a stale length above 2^32 - 4 the
      aligned step is 0, so the same frame is processed for ever. */
  lemma {:induction false} StuckFrameHangs(len: U32, rest: seq<Byte>)
    requires len == 0xFFFF_FFFD
    ensures var view := PutU32(17) + Zeros(16) + (PutU32(len) + rest);
            var w := WalkFrom(Cursor(view, 17));
            w.hangs && Views(w.frames) == [view, PutU32(len) + rest]
  {
    hide U32At, PutU32;
    var stale := PutU32(len) + rest;
    var view := PutU32(17) + Zeros(16) + stale;
    assert view == PutU32(17) + (Zeros(16) + stale);
    U32RoundTrip(17, Zeros(16) + stale);
    U32RoundTrip(len, rest);
    var c, d := Cursor(view, 17), Cursor(stale, 0xFFFF_FFFD);
    assert NlmsgNext(c) == d;
    assert WalkFrom(d) == Walk([d], d, true);
    assert WalkFrom(c) == Walk([c] + [d], d, true);
  }
}
