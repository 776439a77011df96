/** The decoded image that lab 2 keeps in its two slots: a height x width grid
    of 3-channel pixels, stored as a flat sequence of samples in row-major,
    channel-interleaved order (sample 3 i + c is channel c of pixel i), as an
    H x W x 3 array is laid out. Channel identity plays no part in the
    operations modelled here, so channels are numbered 0, 1, 2. */
module ImageBuffer {

  const Channels: nat := 3

  datatype Image = Image(height: nat, width: nat, samples: seq<int>)
  {
    /** What `cv2.imread` hands back on success: a non-empty image of 8-bit
        samples, three per pixel. */
    ghost predicate Valid()
    {
      height > 0 && width > 0 &&
      |samples| == Channels * (height * width) &&
      IsByteBuffer(samples)
    }
  }

  predicate IsByte(v: int) { 0 <= v <= 255 }

  predicate IsByteBuffer(s: seq<int>) { forall i :: 0 <= i < |s| ==> IsByte(s[i]) }

  /** `cv2.split`, one plane: channel c of every pixel, in pixel order. */
  function Split(s: seq<int>, c: nat): (plane: seq<int>)
    requires c < Channels
    ensures |plane| == |s| / Channels
    ensures forall i :: 0 <= i < |plane| ==> plane[i] == s[Channels * i + c]
  {
    seq(|s| / Channels, i requires 0 <= i < |s| / Channels => s[Channels * i + c])
  }

  /** `cv2.merge`: interleave three planes of one length back into samples. */
  function Merge(p0: seq<int>, p1: seq<int>, p2: seq<int>): (s: seq<int>)
    requires |p0| == |p1| == |p2|
    ensures |s| == Channels * |p0|
  {
    seq(Channels * |p0|, j requires 0 <= j < Channels * |p0| =>
      if j % Channels == 0 then p0[j / Channels]
      else if j % Channels == 1 then p1[j / Channels]
      else p2[j / Channels])
  }

  /** Splitting a merged buffer gives back each of the planes, in order. */
  lemma SplitMerge(p0: seq<int>, p1: seq<int>, p2: seq<int>)
    requires |p0| == |p1| == |p2|
    ensures Split(Merge(p0, p1, p2), 0) == p0
    ensures Split(Merge(p0, p1, p2), 1) == p1
    ensures Split(Merge(p0, p1, p2), 2) == p2
  {
    var s := Merge(p0, p1, p2);
    forall i | 0 <= i < |p0|
      ensures Split(s, 0)[i] == p0[i] && Split(s, 1)[i] == p1[i] && Split(s, 2)[i] == p2[i]
    {
      IndexOfSample(i, 0);
      IndexOfSample(i, 1);
      IndexOfSample(i, 2);
    }
  }

  /** Merging the three planes of a buffer gives back the buffer. */
  lemma MergeSplit(s: seq<int>)
    requires |s| % Channels == 0
    ensures Merge(Split(s, 0), Split(s, 1), Split(s, 2)) == s
  {
    var m := Merge(Split(s, 0), Split(s, 1), Split(s, 2));
    forall j | 0 <= j < |s| ensures m[j] == s[j] {
      SampleOfIndex(j);
    }
  }

  lemma IndexOfSample(i: nat, c: nat)
    requires c < Channels
    ensures (Channels * i + c) / Channels == i && (Channels * i + c) % Channels == c
  {
  }

  lemma SampleOfIndex(j: nat)
    ensures j == Channels * (j / Channels) + j % Channels && j % Channels < Channels
  {
  }

  /** Applying a per-sample function to each plane and merging is applying it
      to every sample: the shape of `split, map each plane, merge` in the
      contrast handler. */
  lemma MapPlanes(s: seq<int>, f: int -> int)
    requires |s| % Channels == 0
    ensures Merge(MapSamples(Split(s, 0), f), MapSamples(Split(s, 1), f),
                  MapSamples(Split(s, 2), f)) == MapSamples(s, f)
  {
    var m := Merge(MapSamples(Split(s, 0), f), MapSamples(Split(s, 1), f),
                   MapSamples(Split(s, 2), f));
    forall j | 0 <= j < |s| ensures m[j] == MapSamples(s, f)[j] {
      SampleOfIndex(j);
    }
  }

  /** An elementwise operation on samples, keeping positions. */
  function MapSamples(s: seq<int>, f: int -> int): (t: seq<int>)
    ensures |t| == |s|
    ensures forall i :: 0 <= i < |s| ==> t[i] == f(s[i])
  {
    seq(|s|, i requires 0 <= i < |s| => f(s[i]))
  }
}
