/** The session of lab 2: the module globals `original_image` and
    `current_image`, the handlers that write them (`select_image`,
    `reset_image`) and the three transform handlers, which read
    `current_image` and only display a result. Dialogs, decoding and drawing
    on the canvas are outside the model: the chosen path and the decoded image
    are parameters, and what a handler would draw is its return value. */
module ImageSession {
  import opened Wrappers
  import opened ImageBuffer
  import opened ContrastStretch

  /** What `select_image` ends with: an image loaded, the dialog cancelled (an
      empty path; nothing is reported), or the decode failure it prints. */
  datatype LoadOutcome = Loaded | Cancelled | DecodeFailed

  /** A per-plane operation (`cv2.equalizeHist`) that keeps the plane's length. */
  ghost predicate KeepsLength(op: seq<int> -> seq<int>)
  {
    forall p :: |op(p)| == |p|
  }

  /** The pixel work of `equalize_rgb`: split into three planes, pass each
      through `equalizeHist` on its own, merge in the same order. */
  function EqualizePlanes(img: Image, equalizeHist: seq<int> -> seq<int>): (out: Image)
    requires KeepsLength(equalizeHist)
    ensures out.height == img.height && out.width == img.width
    ensures |out.samples| == Channels * (|img.samples| / Channels)
    ensures Split(out.samples, 0) == equalizeHist(Split(img.samples, 0))
    ensures Split(out.samples, 1) == equalizeHist(Split(img.samples, 1))
    ensures Split(out.samples, 2) == equalizeHist(Split(img.samples, 2))
  {
    var p0, p1, p2 := Split(img.samples, 0), Split(img.samples, 1), Split(img.samples, 2);
    var q0, q1, q2 := equalizeHist(p0), equalizeHist(p1), equalizeHist(p2);
    SplitMerge(q0, q1, q2);
    Image(img.height, img.width, Merge(q0, q1, q2))
  }

  /** The pixel work of `equalize_hsv` between the two colour conversions:
      split the HSV image, equalize the V plane (plane 2) only, merge. */
  function EqualizeValuePlane(hsv: Image, equalizeHist: seq<int> -> seq<int>): (out: Image)
    requires KeepsLength(equalizeHist)
    ensures out.height == hsv.height && out.width == hsv.width
    ensures |out.samples| == Channels * (|hsv.samples| / Channels)
    ensures |hsv.samples| % Channels == 0 ==> |out.samples| == |hsv.samples|
    ensures Split(out.samples, 0) == Split(hsv.samples, 0)
    ensures Split(out.samples, 1) == Split(hsv.samples, 1)
    ensures Split(out.samples, 2) == equalizeHist(Split(hsv.samples, 2))
  {
    var h, s, v := Split(hsv.samples, 0), Split(hsv.samples, 1), Split(hsv.samples, 2);
    var vEq := equalizeHist(v);
    SplitMerge(h, s, vEq);
    SampleOfIndex(|hsv.samples|);
    Image(hsv.height, hsv.width, Merge(h, s, vEq))
  }

  /** Equalizing the V plane leaves an HSV image whose length is a multiple of
      three with hue and saturation exactly as they were, sample for sample. */
  lemma ValueEqualizationKeepsHueAndSaturation(hsv: Image, equalizeHist: seq<int> -> seq<int>, i: int)
    requires KeepsLength(equalizeHist)
    requires |hsv.samples| % Channels == 0 && 0 <= i < |hsv.samples|
    requires i % Channels != 2
    ensures |EqualizeValuePlane(hsv, equalizeHist).samples| == |hsv.samples|
    ensures EqualizeValuePlane(hsv, equalizeHist).samples[i] == hsv.samples[i]
  {
    KeptPlanesKeepSample(EqualizeValuePlane(hsv, equalizeHist).samples, hsv.samples, i);
  }

  /** Two buffers of one length, a multiple of three, with the same planes 0
      and 1 agree on every sample of those planes. */
  lemma KeptPlanesKeepSample(out: seq<int>, s: seq<int>, i: int)
    requires |s| % Channels == 0 && |out| == |s| && 0 <= i < |s| && i % Channels != 2
    requires Split(out, 0) == Split(s, 0) && Split(out, 1) == Split(s, 1)
    ensures out[i] == s[i]
  {
    var k := i / Channels;
    SampleOfIndex(i);
    SampleOfIndex(|s|);
    assert k < |s| / Channels;
    if i % Channels == 0 {
      assert Split(out, 0)[k] == Split(s, 0)[k];
    } else {
      assert Split(out, 1)[k] == Split(s, 1)[k];
    }
  }

  class Session {
    var original: Option<Image>
    var current: Option<Image>

    /** A loaded image is well formed, and the two slots always agree: only
        `select_image` and `reset_image` write them, and both leave
        `current_image` equal to `original_image`. */
    ghost predicate Valid()
      reads this
    {
      current == original &&
      (original.Some? ==> original.value.Valid())
    }

    /** Program start: both globals are `None`. */
    constructor ()
      ensures Valid()
      ensures original == None && current == None
    {
      original := None;
      current := None;
    }

    /** `select_image`: with a non-empty path and a decoded image, both slots
        get (copies of) that image; with an empty path or a failed decode,
        neither slot changes. */
    method SelectImage(path: string, decoded: Option<Image>) returns (outcome: LoadOutcome)
      requires Valid()
      requires decoded.Some? ==> decoded.value.Valid()
      modifies this
      ensures Valid()
      ensures outcome == (if |path| == 0 then Cancelled
                          else if decoded.None? then DecodeFailed
                          else Loaded)
      ensures outcome == Loaded ==> original == decoded && current == decoded
      ensures outcome != Loaded ==> original == old(original) && current == old(current)
    {
      if |path| > 0 {
        if decoded.Some? {
          original := decoded;
          current := decoded;
          outcome := Loaded;
        } else {
          outcome := DecodeFailed;
        }
      } else {
        outcome := Cancelled;
      }
    }

    /** `reset_image`: when an image is loaded, `current_image` becomes (a copy
        of) `original_image` and is displayed; otherwise nothing happens. */
    method ResetImage() returns (shown: Option<Image>)
      requires Valid()
      modifies this
      ensures Valid()
      ensures original == old(original)
      ensures current == (if old(original).Some? then old(original) else old(current))
      ensures shown == old(original)
    {
      if original.Some? {
        current := original;
        shown := current;
      } else {
        shown := None;
      }
    }

    /** `linear_contrast`: with no image, nothing; otherwise the rescaled image
        is displayed. No slot is written (the method may modify nothing). */
    method LinearContrast(pointOp: int -> int) returns (shown: Option<Result<Image, RescaleError>>)
      requires Valid()
      ensures shown.Some? <==> current.Some?
      ensures current.Some? ==> shown == Some(LinearContrastImage(current.value, pointOp))
    {
      if current.Some? {
        shown := Some(LinearContrastImage(current.value, pointOp));
      } else {
        shown := None;
      }
    }

    /** `equalize_rgb`: with no image, nothing; otherwise the per-plane
        equalization of the current image is displayed. No slot is written. */
    method EqualizeRgb(equalizeHist: seq<int> -> seq<int>) returns (shown: Option<Image>)
      requires Valid() && KeepsLength(equalizeHist)
      ensures shown.Some? <==> current.Some?
      ensures current.Some? ==> shown == Some(EqualizePlanes(current.value, equalizeHist))
    {
      if current.Some? {
        shown := Some(EqualizePlanes(current.value, equalizeHist));
      } else {
        shown := None;
      }
    }

    /** `equalize_hsv`: with no image, nothing; otherwise the current image is
        converted to HSV (`toHsv`), its V plane equalized, and the result
        converted back (`fromHsv`) and displayed. No slot is written. */
    method EqualizeHsv(toHsv: Image -> Image, equalizeHist: seq<int> -> seq<int>,
                       fromHsv: Image -> Image) returns (shown: Option<Image>)
      requires Valid() && KeepsLength(equalizeHist)
      ensures shown.Some? <==> current.Some?
      ensures current.Some? ==>
                shown == Some(fromHsv(EqualizeValuePlane(toHsv(current.value), equalizeHist)))
    {
      if current.Some? {
        var hsv := toHsv(current.value);
        shown := Some(fromHsv(EqualizeValuePlane(hsv, equalizeHist)));
      } else {
        shown := None;
      }
    }
  }

  /** Transforms do not chain: after a load, each handler works on the loaded
      image itself, whatever ran before it, and a reset shows the loaded image
      again. */
  method TransformsReadLoadedImage(path: string, img: Image, pointOp: int -> int,
                                   equalizeHist: seq<int> -> seq<int>,
                                   toHsv: Image -> Image, fromHsv: Image -> Image)
    returns (contrast: Option<Result<Image, RescaleError>>, rgb: Option<Image>,
             hsv: Option<Image>, reset: Option<Image>)
    requires |path| > 0 && img.Valid() && KeepsLength(equalizeHist)
    ensures contrast == Some(LinearContrastImage(img, pointOp))
    ensures rgb == Some(EqualizePlanes(img, equalizeHist))
    ensures hsv == Some(fromHsv(EqualizeValuePlane(toHsv(img), equalizeHist)))
    ensures reset == Some(img)
  {
    var session := new Session();
    var outcome := session.SelectImage(path, Some(img));
    contrast := session.LinearContrast(pointOp);
    rgb := session.EqualizeRgb(equalizeHist);
    hsv := session.EqualizeHsv(toHsv, equalizeHist, fromHsv);
    reset := session.ResetImage();
  }

  /** Before any successful load every handler does nothing, and a failed or
      cancelled load leaves the session empty. */
  method NothingLoaded(path: string, pointOp: int -> int,
                       equalizeHist: seq<int> -> seq<int>,
                       toHsv: Image -> Image, fromHsv: Image -> Image)
    returns (outcome: LoadOutcome, contrast: Option<Result<Image, RescaleError>>,
             rgb: Option<Image>, hsv: Option<Image>, reset: Option<Image>)
    requires KeepsLength(equalizeHist)
    ensures outcome == if |path| == 0 then Cancelled else DecodeFailed
    ensures contrast == None && rgb == None && hsv == None && reset == None
  {
    var session := new Session();
    outcome := session.SelectImage(path, None);
    contrast := session.LinearContrast(pointOp);
    rgb := session.EqualizeRgb(equalizeHist);
    hsv := session.EqualizeHsv(toHsv, equalizeHist, fromHsv);
    reset := session.ResetImage();
  }

  /** After a successful load, a cancelled or failed load changes nothing: the
      handlers still work on the loaded image and reset still shows it. */
  method LaterFailedLoadKeepsImage(path: string, img: Image, laterPath: string,
                                   pointOp: int -> int)
    returns (outcome: LoadOutcome, contrast: Option<Result<Image, RescaleError>>,
             reset: Option<Image>)
    requires |path| > 0 && img.Valid()
    ensures outcome == if |laterPath| == 0 then Cancelled else DecodeFailed
    ensures contrast == Some(LinearContrastImage(img, pointOp))
    ensures reset == Some(img)
  {
    var session := new Session();
    var first := session.SelectImage(path, Some(img));
    outcome := session.SelectImage(laterPath, None);
    contrast := session.LinearContrast(pointOp);
    reset := session.ResetImage();
  }
}
