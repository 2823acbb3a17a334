/** The event stream reader of the terminal UI: raw bytes arrive in chunks of
    any size and are cut into frames ended by an empty line
    (crates/ocitop/src/main.rs, `listen_sse`). */
module Sse {
  import opened Text

  const NEWLINE: byte := 10

  predicate GapAt(s: seq<byte>, k: int)
  {
    0 <= k && k + 1 < |s| && s[k] == NEWLINE && s[k + 1] == NEWLINE
  }

  /** No frame ends inside `s`. */
  predicate IsOpen(s: seq<byte>)
  {
    forall k :: 0 <= k < |s| ==> !GapAt(s, k)
  }

  /** `f` is ended by its first empty line. */
  predicate IsFrame(f: seq<byte>)
  {
    |f| >= 2 && GapAt(f, |f| - 2) && forall k :: 0 <= k < |f| - 2 ==> !GapAt(f, k)
  }

  predicate AllFrames(frames: seq<seq<byte>>)
  {
    forall f :: f in frames ==> IsFrame(f)
  }

  /** The stream is these frames, one after the other, and an open rest. */
  predicate Framing(stream: seq<byte>, frames: seq<seq<byte>>, rest: seq<byte>)
  {
    Flatten(frames) + rest == stream && AllFrames(frames) && IsOpen(rest)
  }

  /** `windows(2).position(..)`: the first empty line, or the length. */
  method FirstGap(s: seq<byte>) returns (pos: nat)
    ensures pos <= |s|
    ensures forall k :: 0 <= k < pos ==> !GapAt(s, k)
    ensures pos < |s| ==> GapAt(s, pos) && s[pos] == 10 && s[pos + 1] == 10
  {
    pos := 0;
    while pos < |s|
      invariant pos <= |s|
      invariant forall k :: 0 <= k < pos ==> !GapAt(s, k)
    {
      if pos + 1 < |s| && s[pos] == NEWLINE && s[pos + 1] == NEWLINE { return; }
      pos := pos + 1;
    }
  }

  /** The inner loop: every complete frame leaves the buffer. */
  method Drain(buf: seq<byte>, frames: seq<seq<byte>>) returns (rest: seq<byte>, all: seq<seq<byte>>)
    requires AllFrames(frames)
    ensures Framing(Flatten(frames) + buf, all, rest)
    ensures frames <= all
  {
    rest, all := buf, frames;
    var pos := FirstGap(rest);
    while pos < |rest|
      invariant Flatten(all) + rest == Flatten(frames) + buf
      invariant AllFrames(all) && frames <= all
      invariant pos <= |rest| && (pos < |rest| ==> GapAt(rest, pos))
      invariant forall k :: 0 <= k < pos ==> !GapAt(rest, k)
      decreases |rest|
    {
      var frame := rest[..pos + 2];
      forall k | 0 <= k < pos ensures !GapAt(frame, k) { assert !GapAt(rest, k); }
      FlattenSnoc(all, frame);
      assert Flatten(all) + rest == Flatten(all) + frame + rest[pos + 2..];
      all := all + [frame];
      rest := rest[pos + 2..];
      pos := FirstGap(rest);
    }
  }

  /** Frames and rest in terms of bytes. */
  lemma FramesInBytes(frames: seq<seq<byte>>, rest: seq<byte>)
    requires AllFrames(frames) && IsOpen(rest)
    ensures forall f: seq<byte> :: f in frames ==>
      && |f| >= 2 && f[|f| - 2] == 10 && f[|f| - 1] == 10
      && forall k :: 0 <= k < |f| - 2 ==> !(f[k] == 10 && f[k + 1] == 10)
    ensures forall k :: 0 < k < |rest| ==> !(rest[k - 1] == 10 && rest[k] == 10)
  {
    forall f: seq<byte> | f in frames
      ensures |f| >= 2 && f[|f| - 2] == 10 && f[|f| - 1] == 10
      ensures forall k :: 0 <= k < |f| - 2 ==> !(f[k] == 10 && f[k + 1] == 10)
    {
      forall k | 0 <= k < |f| - 2 ensures !(f[k] == 10 && f[k + 1] == 10) { assert !GapAt(f, k); }
    }
    forall k | 0 < k < |rest| ensures !(rest[k - 1] == 10 && rest[k] == 10) { assert !GapAt(rest, k - 1); }
  }

  /** The receive loop of one connection: `decode` stands for reading the
      events off one frame (UTF-8, `data:` lines, JSON). */
  method Listen<E>(chunks: seq<seq<byte>>, decode: seq<byte> -> seq<E>)
    returns (events: seq<E>, frames: seq<seq<byte>>, rest: seq<byte>)
    ensures Framing(Flatten(chunks), frames, rest)
    ensures events == FlatMap(decode, frames)
  {
    frames, rest, events := [], [], [];
    for i := 0 to |chunks|
      invariant Framing(Flatten(chunks[..i]), frames, rest)
      invariant events == FlatMap(decode, frames)
    {
      assert chunks[..i + 1] == chunks[..i] + [chunks[i]];
      FlattenSnoc(chunks[..i], chunks[i]);
      assert Flatten(frames) + (rest + chunks[i]) == Flatten(chunks[..i + 1]);
      ghost var before := frames;
      var done := |frames|;
      rest, frames := Drain(rest + chunks[i], frames);
      assert frames[..done] == before;
      for k := done to |frames|
        invariant events == FlatMap(decode, frames[..k])
      {
        FlatMapNext(decode, frames, k);
        events := events + decode(frames[k]);
      }
      assert frames[..|frames|] == frames;
    }
    assert chunks[..|chunks|] == chunks;
  }

  // ------------------------------------------------------------- uniqueness

  lemma GapInFirst(f: seq<byte>, tail: seq<byte>)
    requires IsFrame(f)
    ensures GapAt(f + tail, |f| - 2) && forall k :: 0 <= k < |f| - 2 ==> !GapAt(f + tail, k)
  {
    var s := f + tail;
    assert forall k :: 0 <= k < |f| ==> s[k] == f[k];
    forall k | 0 <= k < |f| - 2 ensures !GapAt(s, k) { assert !GapAt(f, k); }
  }

  lemma FirstFramesAgree(f: seq<byte>, tail: seq<byte>, g: seq<byte>, tail': seq<byte>)
    requires IsFrame(f) && IsFrame(g) && f + tail == g + tail'
    ensures f == g && tail == tail'
  {
    GapInFirst(f, tail);
    GapInFirst(g, tail');
    assert |f| == |g|;
    assert f == (f + tail)[..|f|] && tail == (f + tail)[|f|..];
    assert g == (g + tail')[..|g|] && tail' == (g + tail')[|g|..];
  }

  lemma GapsTellFrames(stream: seq<byte>, frames: seq<seq<byte>>, rest: seq<byte>)
    requires Framing(stream, frames, rest)
    ensures frames == [] <==> IsOpen(stream)
    ensures frames == [] ==> stream == rest
  {
    if frames != [] {
      TailMembers(frames);
      GapInFirst(frames[0], Flatten(frames[1..]) + rest);
      assert stream == frames[0] + (Flatten(frames[1..]) + rest);
    } else {
      assert stream == rest;
    }
  }

  /** A stream has one framing, so frames and left-over do not depend on how
      the stream was cut into chunks. */
  lemma {:induction false} FramingIsUnique(stream: seq<byte>, frames: seq<seq<byte>>, rest: seq<byte>,
                                           frames': seq<seq<byte>>, rest': seq<byte>)
    requires Framing(stream, frames, rest) && Framing(stream, frames', rest')
    ensures frames == frames' && rest == rest'
    decreases |frames|
  {
    GapsTellFrames(stream, frames, rest);
    GapsTellFrames(stream, frames', rest');
    if frames != [] {
      TailMembers(frames);
      TailMembers(frames');
      var tail, tail' := Flatten(frames[1..]) + rest, Flatten(frames'[1..]) + rest';
      assert stream == frames[0] + tail == frames'[0] + tail';
      FirstFramesAgree(frames[0], tail, frames'[0], tail');
      FramingIsUnique(tail, frames[1..], rest, frames'[1..], rest');
      assert frames == [frames[0]] + frames[1..] && frames' == [frames'[0]] + frames'[1..];
    }
  }

  /** Two ways of cutting one stream give the same frames and left-over, and
      so the same events, which `Listen` reads off the frames. */
  lemma CutsDoNotMatter(chunks: seq<seq<byte>>, chunks': seq<seq<byte>>, frames: seq<seq<byte>>, rest: seq<byte>,
                        frames': seq<seq<byte>>, rest': seq<byte>)
    requires Flatten(chunks) == Flatten(chunks')
    requires Framing(Flatten(chunks), frames, rest) && Framing(Flatten(chunks'), frames', rest')
    ensures frames == frames' && rest == rest'
  {
    FramingIsUnique(Flatten(chunks), frames, rest, frames', rest');
  }
}
