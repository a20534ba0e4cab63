/**
  Framing of the upstream byte stream: each frame is the bytes up to and
  including the first `}` (the `readuntil(b"}")` call at
  src/flashlight_state.py:47). Bytes after the last `}` are an incomplete frame.
*/
module Framing {
  import opened Base

  const Delimiter: char := '}'

  /** A frame: non-empty, ends with the delimiter, and has no delimiter before its end. */
  predicate IsFrame(f: string) {
    |f| > 0 && f[|f| - 1] == Delimiter && Delimiter !in f[..|f| - 1]
  }

  /** The shortest prefix of `buf` that ends with the delimiter, and what follows it. */
  function ReadUntil(buf: string): (r: Option<(string, string)>)
    ensures r.None? <==> Delimiter !in buf
    ensures r.Some? ==> IsFrame(r.value.0) && r.value.0 + r.value.1 == buf
  {
    if buf == [] then None
    else if buf[0] == Delimiter then Some(([buf[0]], buf[1..]))
    else
      match ReadUntil(buf[1..])
      case None => None
      case Some((f, rest)) =>
        assert buf == [buf[0]] + buf[1..];
        assert ([buf[0]] + f)[..|f|] == [buf[0]] + f[..|f| - 1];
        Some(([buf[0]] + f, rest))
  }

  /** All complete frames of `buf`, in order. */
  function Frames(buf: string): (r: seq<string>)
    ensures AllFrames(r)
    decreases |buf|
  {
    match ReadUntil(buf)
    case None => []
    case Some((f, rest)) =>
      var later := Frames(rest);
      AllFramesCons(f, later);
      [f] + later
  }

  /** The incomplete frame left after the last delimiter. */
  function Remainder(buf: string): (r: string)
    ensures Delimiter !in r
    decreases |buf|
  {
    match ReadUntil(buf)
    case None => buf
    case Some((f, rest)) => Remainder(rest)
  }

  /** Frames written back to back. */
  function Concat(fs: seq<string>): string {
    if fs == [] then [] else fs[0] + Concat(fs[1..])
  }

  /** Reading a buffer that starts with a whole frame returns exactly that frame. */
  lemma {:induction false} ReadUntilFrame(f: string, rest: string)
    requires IsFrame(f)
    ensures ReadUntil(f + rest) == Some((f, rest))
  {
    var buf := f + rest;
    if |f| == 1 {
      assert buf[0] == Delimiter;
      assert buf[1..] == rest;
    } else {
      assert f[0] in f[..|f| - 1];
      assert buf[0] != Delimiter;
      var tail := f[1..];
      assert tail[..|tail| - 1] == f[1..|f| - 1];
      ReadUntilFrame(tail, rest);
      assert buf[1..] == tail + rest;
      assert [buf[0]] + tail == f;
    }
  }

  /** Every element is a whole frame. */
  predicate AllFrames(fs: seq<string>) {
    forall k :: 0 <= k < |fs| ==> IsFrame(fs[k])
  }

  /** The frames of a buffer and its remainder, put together, give the buffer back. */
  lemma {:induction false} FramesCover(buf: string)
    ensures Concat(Frames(buf)) + Remainder(buf) == buf
    decreases |buf|
  {
    var r := ReadUntil(buf);
    if r.Some? {
      var f, rest := r.value.0, r.value.1;
      FramesCover(rest);
      var later := Frames(rest);
      assert Frames(buf) == [f] + later && Remainder(buf) == Remainder(rest);
      ConcatCons(f, later);
      Regroup(f, Concat(later), Remainder(rest));
    }
  }

  lemma AllFramesCons(f: string, fs: seq<string>)
    requires IsFrame(f) && AllFrames(fs)
    ensures AllFrames([f] + fs)
  {
    var all := [f] + fs;
    forall k | 0 <= k < |all|
      ensures IsFrame(all[k])
    {
      if k > 0 {
        assert all[k] == fs[k - 1];
      }
    }
  }

  lemma ConcatCons(f: string, fs: seq<string>)
    ensures Concat([f] + fs) == f + Concat(fs)
  {
    assert ([f] + fs)[1..] == fs;
  }

  /** Whole frames written back to back, followed by an incomplete frame, split back into the same frames and remainder. */
  lemma {:induction false} FramesOfConcat(fs: seq<string>, tail: string)
    requires AllFrames(fs)
    requires Delimiter !in tail
    ensures Frames(Concat(fs) + tail) == fs
    ensures Remainder(Concat(fs) + tail) == tail
  {
    if fs == [] {
      assert Concat(fs) + tail == tail;
    } else {
      var later := fs[1..];
      var rest := Concat(later) + tail;
      assert fs == [fs[0]] + later;
      ConcatCons(fs[0], later);
      Regroup(fs[0], Concat(later), tail);
      ReadUntilFrame(fs[0], rest);
      AllFramesTail(fs);
      FramesOfConcat(later, tail);
    }
  }

  lemma AllFramesTail(fs: seq<string>)
    requires AllFrames(fs) && fs != []
    ensures IsFrame(fs[0]) && AllFrames(fs[1..])
  {
    var later := fs[1..];
    forall k | 0 <= k < |later|
      ensures IsFrame(later[k])
    {
      assert later[k] == fs[k + 1];
    }
  }
}
