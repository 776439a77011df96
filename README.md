# Colour conversions and image session of two graphics labs

This project models, in Dafny, the two pieces of logic in two small GUI labs
that can be stated and checked without the GUI:

- **Lab 1, the colour picker** (`ColorPickerApp.java`): the conversions
  `rgbToCmyk` and `rgbToHls`. Module `ColorPicker`. The Java code works in
  `float`. The model works in `real`, where every `+ - * /` is exact.
- **Lab 2, the image tool** (`lab2.py`): the two session globals
  `original_image` and `current_image`, and the five handlers that use them.
  `select_image` and `reset_image` write the globals. `linear_contrast`,
  `equalize_rgb` and `equalize_hsv` read `current_image` and display a result.
  The min–max rescale that ends `linear_contrast` is modelled in full.
  - Module `ImageBuffer` holds the decoded image: height, width, and a flat
    sequence of samples, three per pixel, interleaved. It also holds
    `cv2.split` / `cv2.merge` as `Split` / `Merge`.
  - Module `ContrastStretch` holds the rescale: one global minimum and one
    global maximum over all samples, `255 (v - min) / (max - min)`, the clip,
    and the truncating cast to `uint8`.
  - Module `ImageSession` holds class `Session`, with the two globals as fields
    of type `Option<Image>`. `None` is Python's `None`.
    - The transform handlers are methods with no `modifies` clause, so Dafny
      checks that they write neither slot.
    - What a handler would draw on the canvas is its return value. For
      `select_image` the return value is a `LoadOutcome`: `Loaded` means the
      decoded image passed in is the one drawn.

Collaborators the source calls but does not define are parameters:
- the path returned by the file dialog, and the image `cv2.imread` decodes
  (or `None`);
- the brightness-and-gain step `pointOp`;
- `cv2.equalizeHist`;
- the two `cv2.cvtColor` conversions.

Points where the code has no rule, and what the model does there:
- **Transforms do not update the session.** The three transform handlers
  only display their result and never assign `current_image` (lab2.py lines
  41-122). So `current_image == original_image` at all times
  (`Session.Valid`), every transform works on the loaded image, and reset
  shows that same image.
- **Constant buffers have no result.** At lab2.py line 68 the code divides
  0 by 0 when `max_val == min_val` and has no rule for that case. The model
  gives `Err(ZeroRange)` and invents no output.
- **A cancelled or failed load is not an error value.** An empty path does
  nothing, a failed decode prints a message, and a transform with no image
  prints a message (reset prints nothing). The model returns `LoadOutcome`
  for a load and `None` for a handler that displays nothing.

## Model

| member | source | states |
|---|---|---|
| `ColorPicker.Norm` | lab1/lab1_v1/src/ColorPickerApp.java:150-152 | `v / 255f` lies in [0, 1]; it is 0 exactly for 0 and 1 exactly for 255 |
| `ColorPicker.RgbToCmyk` | lab1/lab1_v1/src/ColorPickerApp.java:149-165 | for channels in 0..255, c, m, y and k each lie in [0, 1] |
| `ColorPicker.Rebase` | lab1/lab1_v1/src/ColorPickerApp.java:156-159 | when k < 1, `(x - k) / (1 - k)` lies in [0, 1] and is 0 exactly when x is the minimum k |
| `ColorPicker.CmykKeyIsOneOnlyForBlack` | lab1/lab1_v1/src/ColorPickerApp.java:150-156 | the minimum of the complements is 1 exactly for (0, 0, 0) |
| `ColorPicker.CmykOfBlack` | lab1/lab1_v1/src/ColorPickerApp.java:156-161 | black converts to c = m = y = 0, k = 1 |
| `ColorPicker.CmykZeroAtMaxChannel` | lab1/lab1_v1/src/ColorPickerApp.java:154-159 | for any non-black colour k < 1, and c (m, y) is 0 exactly when red (green, blue) is a largest channel, i.e. its complement attains the minimum |
| `ColorPicker.CmykRoundTrip` | lab1/lab1_v1/src/ColorPickerApp.java:149-165 | the conversion loses nothing: 255 (1 - c)(1 - k) gives back each channel, black included |
| `ColorPicker.HueFraction` | lab1/lab1_v1/src/ColorPickerApp.java:175-190 | the hue after `h /= 6` lies in [0, 1); it is 0 for a grey |
| `ColorPicker.Sector` | lab1/lab1_v1/src/ColorPickerApp.java:181-188 | the sector value lies in [0, 6): [0, 1] or [5, 6) when red is the maximum, [1, 3] when green is, (3, 5) when blue is |
| `ColorPicker.Lightness` | lab1/lab1_v1/src/ColorPickerApp.java:172-176 | `(max + min) / 2` lies between the smallest and the largest normalised channel |
| `ColorPicker.Saturation` | lab1/lab1_v1/src/ColorPickerApp.java:192 | the saturation, with the guard for l == 0 and l == 1, lies in [0, 1] |
| `ColorPicker.RgbToHls` | lab1/lab1_v1/src/ColorPickerApp.java:167-195 | H lies in [0, 360), L and S in [0, 100] |
| `ColorPicker.HlsAchromatic` | lab1/lab1_v1/src/ColorPickerApp.java:178-192 | a grey gives H = 0 and S = 0, and S = 0 only for a grey |
| `ColorPicker.HueSectorOfMaxChannel` | lab1/lab1_v1/src/ColorPickerApp.java:181-189 | for a chromatic colour, red largest gives H in [0, 60] or [300, 360), green (when not red) [60, 180], blue (180, 300) |
| `ColorPicker.HlsOfRed` | lab1/lab1_v1/src/ColorPickerApp.java:167-195 | the picker's initial colour (255, 0, 0), set at line 58, converts to (0, 50, 100) |
| `ColorPicker.ExtremesRecovered` | lab1/lab1_v1/src/ColorPickerApp.java:172-192 | L and S determine the largest and smallest channel: max = l + s min(l, 1 - l), min = l - s min(l, 1 - l) |
| `ColorPicker.PlacementRecoversChannels` | lab1/lab1_v1/src/ColorPickerApp.java:181-189 | the sector value and the two extremes give back all three channels |
| `ColorPicker.UnitRoundTrip` | lab1/lab1_v1/src/ColorPickerApp.java:168-192 | the inverse on unscaled hue, lightness and saturation gives back the normalised channels |
| `ColorPicker.HlsRoundTrip` | lab1/lab1_v1/src/ColorPickerApp.java:167-195 | the conversion loses nothing: the usual HLS-to-RGB inverse gives back every input colour, greys included |
| `ImageBuffer.Split` | lab2/lab2_v1/lab2.py:45 | `cv2.split`, one plane: one sample per pixel, channel c of each pixel in pixel order; `SplitMerge` and `MergeSplit` show that it and `Merge` undo each other |
| `ImageBuffer.Merge` | lab2/lab2_v1/lab2.py:58 | `cv2.merge` gives three samples per pixel; `SplitMerge` and `MergeSplit` show that it and `Split` undo each other |
| `ImageBuffer.SplitMerge` | lab2/lab2_v1/lab2.py:88-96 | splitting a merged buffer gives back each plane in order |
| `ImageBuffer.MergeSplit` | lab2/lab2_v1/lab2.py:45-58 | merging the three planes of a buffer gives back the buffer |
| `ImageBuffer.MapPlanes` | lab2/lab2_v1/lab2.py:45-58 | split, apply one per-sample function to each plane, merge: the same as applying it to every sample in place |
| `ContrastStretch.MinSample` | lab2/lab2_v1/lab2.py:64 | `np.min` is no larger than the first sample; `MinSampleIsLeast` gives the full contract |
| `ContrastStretch.MaxSample` | lab2/lab2_v1/lab2.py:65 | `np.max` is no smaller than the first sample; `MaxSampleIsGreatest` gives the full contract |
| `ContrastStretch.MinSampleIsLeast` | lab2/lab2_v1/lab2.py:64 | `np.min` is a sample of the buffer and no sample is below it |
| `ContrastStretch.MaxSampleIsGreatest` | lab2/lab2_v1/lab2.py:65 | `np.max` is a sample of the buffer and no sample is above it |
| `ContrastStretch.Scale` | lab2/lab2_v1/lab2.py:68 | `255 (v - min) / (max - min)` is 0 at the minimum, 255 at the maximum, and within [0, 255] for every value between them |
| `ContrastStretch.Clip` | lab2/lab2_v1/lab2.py:69 | `np.clip(x, 0, 255)` lies in [0, 255] and leaves a value already there unchanged |
| `ContrastStretch.ToByte` | lab2/lab2_v1/lab2.py:69 | the cast to `uint8` of a clipped value is a byte b with b <= x < b + 1 |
| `ContrastStretch.RescaleSample` | lab2/lab2_v1/lab2.py:68-69 | every output sample is a byte: the clip comes before the cast |
| `ContrastStretch.Rescale` | lab2/lab2_v1/lab2.py:61-69 | no result exactly for an empty buffer (`np.min` raises) or a constant one (zero divisor); otherwise one byte per input sample |
| `ContrastStretch.ScaleWithinRange` | lab2/lab2_v1/lab2.py:68-69 | for samples between the bounds the scaled value lies in [0, 255], so the clip changes nothing |
| `ContrastStretch.RescaleSampleAtBounds` | lab2/lab2_v1/lab2.py:68-69 | the lower bound maps to 0 and the upper bound to 255 |
| `ContrastStretch.RescaleEndpoints` | lab2/lab2_v1/lab2.py:64-69 | a sample equal to the global minimum becomes 0; one equal to the global maximum becomes 255 |
| `ContrastStretch.RescaleSpansFullRange` | lab2/lab2_v1/lab2.py:64-69 | the output's least sample is 0 and its greatest is 255 |
| `ContrastStretch.RescaleSampleMonotone` | lab2/lab2_v1/lab2.py:68-69 | v1 <= v2 gives out(v1) <= out(v2) for fixed bounds |
| `ContrastStretch.RescaleMonotone` | lab2/lab2_v1/lab2.py:68-69 | the rescale keeps the order of any two samples of the buffer |
| `ContrastStretch.ByteRescalesToItself` | lab2/lab2_v1/lab2.py:68-69 | under bounds 0 and 255 a byte maps to itself |
| `ContrastStretch.RescaleIdempotent` | lab2/lab2_v1/lab2.py:61-69 | rescaling a rescaled buffer gives the same buffer |
| `ContrastStretch.ZeroRangeIffConstant` | lab2/lab2_v1/lab2.py:64-68 | the divisor `max_val - min_val` is zero exactly for a constant buffer |
| `ContrastStretch.AffineBounds` | lab2/lab2_v1/lab2.py:64-65 | under v -> a v + c with a > 0, the bounds of the buffer move the same way |
| `ContrastStretch.RescaleAffineInvariant` | lab2/lab2_v1/lab2.py:48-69 | in exact integer arithmetic, a uniform offset and a uniform positive integer gain applied before the rescale leave its result unchanged |
| `ContrastStretch.RescalePlanes` | lab2/lab2_v1/lab2.py:64-69 | each channel plane of the output is its input plane rescaled with the bounds of the whole buffer |
| `ContrastStretch.RescaleUsesGlobalBounds` | lab2/lab2_v1/lab2.py:64-65 | in a buffer where one channel holds only 0 and 100 and others reach 255, that channel stays 0 and 100: the bounds are global, not per channel |
| `ContrastStretch.Enhance` | lab2/lab2_v1/lab2.py:45-58 | split, apply the brightness-and-gain step to every sample of each plane, and merge: the same as applying the step to every sample in place |
| `ContrastStretch.LinearContrastImage` | lab2/lab2_v1/lab2.py:43-69 | for a loaded image the result has the same height and width and is a well-formed 8-bit image; the only failure is the zero divisor |
| `ContrastStretch.LinearContrastAt` | lab2/lab2_v1/lab2.py:45-69 | the result fails exactly when the enhanced buffer is constant; otherwise each displayed sample is the rescale of `pointOp` of the loaded sample at the same position, under the global bounds |
| `ImageSession.EqualizePlanes` | lab2/lab2_v1/lab2.py:88-96 | each channel plane of the result is `equalizeHist` of the same plane of the input; the shape is kept |
| `ImageSession.EqualizeValuePlane` | lab2/lab2_v1/lab2.py:111-114 | planes H and S of the HSV image are passed on unchanged and plane V is `equalizeHist` of V |
| `ImageSession.ValueEqualizationKeepsHueAndSaturation` | lab2/lab2_v1/lab2.py:111-114 | every hue and saturation sample of the HSV image comes through the V equalization unchanged |
| `ImageSession.Session.constructor` | lab2/lab2_v1/lab2.py:8-9 | both slots start empty |
| `ImageSession.Session.SelectImage` | lab2/lab2_v1/lab2.py:13-38 | with a non-empty path and a decoded image, both slots become that image; an empty path or a failed decode changes neither slot; the outcome says which case happened |
| `ImageSession.Session.ResetImage` | lab2/lab2_v1/lab2.py:125-129 | with an image loaded, current becomes original and is shown; otherwise nothing changes and nothing is shown |
| `ImageSession.Session.LinearContrast` | lab2/lab2_v1/lab2.py:41-81 | writes no slot; shows nothing without an image, otherwise the rescaled current image |
| `ImageSession.Session.EqualizeRgb` | lab2/lab2_v1/lab2.py:84-101 | writes no slot; shows nothing without an image, otherwise the per-plane equalization of the current image |
| `ImageSession.Session.EqualizeHsv` | lab2/lab2_v1/lab2.py:104-122 | writes no slot; shows nothing without an image, otherwise the current image through HSV, V equalization, and back |
| `ImageSession.TransformsReadLoadedImage` | lab2/lab2_v1/lab2.py:41-129 | after a load, every transform works on the loaded image whatever ran before it, and reset then shows the loaded image |
| `ImageSession.NothingLoaded` | lab2/lab2_v1/lab2.py:13-128 | from program start, after a cancelled or failed load, all three transforms and reset show nothing |
| `ImageSession.LaterFailedLoadKeepsImage` | lab2/lab2_v1/lab2.py:13-129 | after a successful load, a cancelled or failed load keeps the image: `linear_contrast` still works on it and reset still shows it |

## Left out

- Swing and Tkinter: windows, sliders, text fields, buttons, the canvas and
  its scroll region, `display_image`, `String.format`, and the `main` entry
  points. These are user-interface plumbing.
- `ColorChangeListener`: the parsing of the text fields and the swallowed
  `NumberFormatException`. The conversions instead require channels in 0..255.
- Java `float` and numpy `float32` rounding: the model computes over `real`.
  Every comparison (`k < 1`, `max == min`, `max == rNorm`, `l == 0`) is
  therefore decided on exact values.
- The file dialog and `cv2.imread`: only their outcome is modelled, a path
  and either a decoded image or `None`. With default flags a decoded image is
  an 8-bit, three-channel image (`Image.Valid`).
- `cv2.add(plane, 50)` and `cv2.multiply(plane, 1.2)` (lab2.py lines 48-55):
  OpenCV's saturating arithmetic is not visible in the source. The step is the
  per-sample parameter `pointOp`.
- `cv2.equalizeHist` and both `cv2.cvtColor` conversions: their algorithms are
  OpenCV's, not the source's. They are parameters. The model requires only
  that `equalizeHist` keeps a plane's length.
- The BGR-to-RGB conversions used for display (lab2.py lines 25, 72, 135).
  These are display-only.
- Channel order: `linear_contrast` names the planes B, G, R and `equalize_rgb`
  names them R, G, B. Both split and merge in the same order and treat the
  planes alike, so the model numbers them 0, 1, 2.
- RescaleAffineInvariant: covers only an integer gain in exact arithmetic.
  The source's gain is 1.2, and `cv2.multiply` rounds each product to an
  integer (lab2.py lines 53-55), so for that step rounding can change the
  result of the rescale even where nothing saturates.
- The value `astype(np.uint8)` gives for the NaN samples of a constant buffer:
  the model stops at `Err(ZeroRange)`.
- The messages printed on a failed load or a missing image. They appear only
  as `LoadOutcome.DecodeFailed` and as a `None` result.
