/**
 The rolling window of samples, as values: every successful tick appends one sample
 and, when the window then holds more than 100, drops the one at index 0.
 */
module SampleWindow {

  /** The most samples kept for plotting. */
  const Capacity: nat := 100

  /** One sample: seconds since monitoring started, and the two rates in Mbps. */
  datatype Sample = Sample(elapsed: real, download: real, upload: real)

  function Min(a: int, b: int): int { if a <= b then a else b }

  /** The last `n` elements of `s` in their order, or all of `s` when it is shorter. */
  function Newest<T>(s: seq<T>, n: nat): (r: seq<T>)
    ensures |r| == Min(|s|, n)
    ensures forall k :: 0 <= k < |r| ==> r[k] == s[|s| - |r| + k]
  {
    if |s| <= n then s else s[|s| - n..]
  }

  /** One successful tick on the window: append, then drop the oldest if over capacity. */
  function Record<T>(w: seq<T>, x: T): (r: seq<T>)
    ensures |w| <= Capacity ==> |r| <= Capacity
    ensures |r| > 0 && r[|r| - 1] == x
  {
    var appended := w + [x];
    if |appended| > Capacity then appended[1..] else appended
  }

  /** From a window within capacity, one tick keeps exactly the newest Capacity samples. */
  lemma RecordKeepsNewest<T>(w: seq<T>, x: T)
    requires |w| <= Capacity
    ensures Record(w, x) == Newest(w + [x], Capacity)
  {
  }

  /**
   A run of successful ticks, in order. A window within capacity stays within it.
   */
  function RecordAll<T>(w: seq<T>, xs: seq<T>): (r: seq<T>)
    ensures |w| <= Capacity ==> |r| <= Capacity
    decreases xs
  {
    if xs == [] then w else RecordAll(Record(w, xs[0]), xs[1..])
  }

  /** Taking the newest `n` before appending more changes nothing about the newest `n` after. */
  lemma NewestOfNewest<T>(s: seq<T>, t: seq<T>, n: nat)
    ensures Newest(Newest(s, n) + t, n) == Newest(s + t, n)
  {
    if |s| > n {
      var u := s[|s| - n..];
      assert u + t == (s + t)[|s| - n..];
      assert Newest(u + t, n) == (u + t)[|t|..];
      assert Newest(s + t, n) == (s + t)[|s| - n + |t|..];
    }
  }

  /**
   From a window within capacity, a run of successful ticks leaves exactly the newest
   Capacity samples of everything seen, in chronological order.
   */
  lemma {:induction false} RecordAllKeepsNewest<T>(w: seq<T>, xs: seq<T>)
    requires |w| <= Capacity
    ensures RecordAll(w, xs) == Newest(w + xs, Capacity)
    decreases xs
  {
    if xs == [] {
      assert w + xs == w;
    } else {
      var w' := Record(w, xs[0]);
      RecordKeepsNewest(w, xs[0]);
      calc {
        RecordAll(w, xs);
        RecordAll(w', xs[1..]);
        { RecordAllKeepsNewest(w', xs[1..]); }
        Newest(w' + xs[1..], Capacity);
        { NewestOfNewest(w + [xs[0]], xs[1..], Capacity); }
        Newest(w + [xs[0]] + xs[1..], Capacity);
        { assert w + [xs[0]] + xs[1..] == w + xs; }
        Newest(w + xs, Capacity);
      }
    }
  }

  /** From an empty window, up to Capacity ticks keep every sample. */
  lemma FewSamplesAllKept<T>(xs: seq<T>)
    requires |xs| <= Capacity
    ensures RecordAll([], xs) == xs
  {
    RecordAllKeepsNewest([], xs);
    assert [] + xs == xs;
  }

  /** From an empty window, after Capacity + k ticks exactly the last Capacity samples remain. */
  lemma LastCapacitySamplesKept<T>(xs: seq<T>)
    requires |xs| >= Capacity
    ensures RecordAll([], xs) == xs[|xs| - Capacity..]
  {
    var empty: seq<T> := [];
    RecordAllKeepsNewest(empty, xs);
    assert empty + xs == xs;
    assert Newest(xs, Capacity) == xs[|xs| - Capacity..];
  }

  /** A full window that takes one more sample loses exactly its oldest one. */
  lemma OverflowByOneDropsFirst<T>(xs: seq<T>, x: T)
    requires |xs| == Capacity
    ensures RecordAll(xs, [x]) == xs[1..] + [x]
  {
  }
}
