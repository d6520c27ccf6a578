/** Byte-at-a-time parsers, whatever their state and frames: feeding strings, and streams of frames. */
module Streaming {
  import opened Bytes

  type Parsing<!P, !F> = (P, byte) -> (P, Option<F>)

  /** Feed a whole byte string; the frames it completes, in order. */
  function FeedAll<P, F>(feed: Parsing<P, F>, p: P, bytes: seq<byte>): (r: (P, seq<F>))
    decreases |bytes|
  {
    if bytes == [] then (p, [])
    else
      var (p1, out) := feed(p, bytes[0]);
      var (p2, rest) := FeedAll(feed, p1, bytes[1..]);
      (p2, if out.Some? then [out.value] + rest else rest)
  }

  lemma FeedNothing<P, F>(feed: Parsing<P, F>, p: P, bytes: seq<byte>)
    requires bytes == []
    ensures FeedAll(feed, p, bytes) == (p, [])
  {
  }

  lemma FeedOne<P, F>(feed: Parsing<P, F>, p: P, bytes: seq<byte>)
    requires bytes != []
    ensures var (p1, out) := feed(p, bytes[0]);
      var (p2, rest) := FeedAll(feed, p1, bytes[1..]);
      FeedAll(feed, p, bytes) == (p2, if out.Some? then [out.value] + rest else rest)
  {
  }

  /** Feeding two strings in turn is feeding their concatenation. */
  lemma {:induction false} FeedConcat<P, F>(feed: Parsing<P, F>, p: P, a: seq<byte>, b: seq<byte>)
    ensures var (p1, x) := FeedAll(feed, p, a);
      var (p2, y) := FeedAll(feed, p1, b);
      FeedAll(feed, p, a + b) == (p2, x + y)
    decreases |a|
  {
    if a == [] {
      assert a + b == b && [] + FeedAll(feed, p, b).1 == FeedAll(feed, p, b).1;
    } else {
      assert (a + b)[1..] == a[1..] + b;
      var (p1, out) := feed(p, a[0]);
      FeedConcat(feed, p1, a[1..], b);
      var (p2, x) := FeedAll(feed, p1, a[1..]);
      if out.Some? {
        assert [out.value] + (x + FeedAll(feed, p2, b).1) == ([out.value] + x) + FeedAll(feed, p2, b).1;
      }
      FeedOne(feed, p, a + b);
    }
  }

  /** Frames with noise before each. */
  function Stream<F>(encode: F -> seq<byte>, frames: seq<F>, noise: seq<seq<byte>>): (s: seq<byte>)
    requires |noise| == |frames|
  {
    if frames == [] then [] else noise[0] + encode(frames[0]) + Stream(encode, frames[1..], noise[1..])
  }

  /** If every frame with its noise comes out alone, and leaves an idle parser idle, then every stream comes out as
      exactly its frames. */
  lemma {:induction false} StreamOut<P(!new), F>(
    feed: Parsing<P, F>, encode: F -> seq<byte>, idle: P -> bool, p: P, frames: seq<F>, noise: seq<seq<byte>>)
    requires idle(p) && |noise| == |frames|
    requires forall q, i :: idle(q) && 0 <= i < |frames| ==>
      var (q1, out) := FeedAll(feed, q, noise[i] + encode(frames[i]));
      out == [frames[i]] && idle(q1)
    ensures var (p1, out) := FeedAll(feed, p, Stream(encode, frames, noise));
      out == frames && idle(p1)
    decreases |frames|
  {
    hide FeedAll;
    if frames == [] {
      FeedNothing(feed, p, Stream(encode, frames, noise));
    } else {
      var first, tail := noise[0] + encode(frames[0]), Stream(encode, frames[1..], noise[1..]);
      var (p1, out) := FeedAll(feed, p, first);
      assert out == [frames[0]] && idle(p1);
      forall q, i | idle(q) && 0 <= i < |frames[1..]|
        ensures var (q1, out) := FeedAll(feed, q, noise[1..][i] + encode(frames[1..][i]));
          out == [frames[1..][i]] && idle(q1)
      {
        assert noise[1..][i] == noise[i + 1] && frames[1..][i] == frames[i + 1];
      }
      FeedConcat(feed, p, first, tail);
      StreamOut(feed, encode, idle, p1, frames[1..], noise[1..]);
      assert [frames[0]] + frames[1..] == frames;
    }
  }
}
