/** The length-prefixed frames of build_redis/chapter6/protocol.h. */
module Frames {
  import opened Bytes

  const K_MAX_MSG := 4096
  const BUF_SIZE := 4 + K_MAX_MSG

  /** A complete frame at the front, and its size. */
  predicate HasFrame(b: bytes) {
    |b| >= 4 && De32(b, 0) <= K_MAX_MSG && 4 + De32(b, 0) <= |b|
  }

  function FrameSize(b: bytes): nat
    requires HasFrame(b)
  {
    4 + De32(b, 0)
  }

  /** Frames, one after the other, and nothing else. */
  ghost predicate WholeFrames(b: bytes) {
    b == [] || (HasFrame(b) && WholeFrames(b[FrameSize(b)..]))
  }

  /** More input is needed: no complete frame, and none that is too long. */
  predicate NeedsMore(b: bytes) {
    |b| < 4 || (De32(b, 0) <= K_MAX_MSG && 4 + De32(b, 0) > |b|)
  }

  lemma {:induction false} FrameOf(b: bytes, c: bytes)
    requires HasFrame(b)
    ensures HasFrame(b + c) && FrameSize(b + c) == FrameSize(b)
  {
    assert (b + c)[0..4] == b[0..4];
  }

  lemma {:induction false} WholeFramesAppend(a: bytes, f: bytes)
    requires WholeFrames(a) && HasFrame(f) && FrameSize(f) == |f|
    ensures WholeFrames(a + f)
    decreases |a|
  {
    if a == [] {
      assert a + f == f && f[|f|..] == [];
    } else {
      var n := FrameSize(a);
      FrameOf(a, f);
      assert (a + f)[n..] == a[n..] + f;
      WholeFramesAppend(a[n..], f);
    }
  }

  /** A stream splits in one way into whole frames and a rest that needs more input. */
  lemma {:induction false} OneSplit(a: bytes, r: bytes, b: bytes, s: bytes)
    requires WholeFrames(a) && WholeFrames(b) && NeedsMore(r) && NeedsMore(s) && a + r == b + s
    ensures a == b && r == s
    decreases |a|
  {
    if a == [] {
      assert a + r == r;
      if b != [] {
        FrameOf(b, s);
        assert false;
      }
      assert b + s == s;
    } else if b == [] {
      assert b + s == s;
      FrameOf(a, r);
      assert false;
    } else {
      FrameOf(a, r);
      FrameOf(b, s);
      var n := FrameSize(a);
      assert (a + r)[n..] == a[n..] + r && (b + s)[n..] == b[n..] + s;
      OneSplit(a[n..], r, b[n..], s);
      assert a == (a + r)[..n] + a[n..] && b == (b + s)[..n] + b[n..];
    }
  }
}
