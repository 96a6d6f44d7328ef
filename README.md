# Cheap webcam background replacer, modelled in Dafny

The program reads frames from a webcam. For each frame it:

1. learns a background model during the first frames;
2. computes a foreground mask (a threshold, then a hole fill from pixel (0, 0));
3. composites the foreground over a replacement background, either a still picture or a looping video.

It sends the result to a virtual camera. Keys step the background blur, toggle the replacement, re-arm the learning or quit. Optional effects are a shadow, a hologram and a caption.

This project models the discrete logic of that program, file by file:

- **HoleFilling** (`holefill.dfy`, modelling `imfill` in `main.py`): the binary threshold of the mask and `imfill`.
  - The flood fill from (0, 0) is written imperatively over `array2`, as OpenCV's 4-connected, zero-tolerance fill with its (h+2)×(w+2) marker mask.
  - It is proved to compute a reachability-defined grid.
  - On 0/255 masks, `imfill` never clears a 255 pixel, it fills exactly the 0-pixels not connected to (0, 0), and it is idempotent.
- **Segmenter** (`segmenter.dfy`, modelling `BackgroundSustractor` in `main.py`): the learning counter of `BackgroundSustractor`, capped at 30, and the learning rate it selects.
- **Backgrounds** (`backgrounds.dfy`, modelling `backgrounds.py`):
  - the still background with its cached blurred frame;
  - the video background, whose decoder is a finite sequence of frames with a read position (`VideoCapture`), with its frame counters and end-of-stream rewind;
  - `seek`.
- **Effects** (`effects.dfy`, modelling `effects.py`):
  - the caption constructor;
  - the shadow's displacement and translation matrix, and the early exit at opacity zero;
  - the hologram's band rows;
  - `_shift_image` as roll-then-zero over `array2`, proved equal to a shift with zero fill.
- **Replacer** (`replacer.dfy`, modelling `main.py`): `BackgroundReplacer`.
  - Setup: extension dispatch with `os.path.splitext` semantics, `add_effect` with identity-based deduplication, and the overlay-list step as written.
  - Key handling: the keys' control state (blur level, `disabled`, learning counter).
  - `run`: one iteration per key code and camera frame, ending at `q`, at the failing `f`, at a failure inside an iteration, or after the last code.

The OpenCV image operations are values of function type handed in as parameters: `Cv` for the backgrounds, `Shade` for the shadow, and `Ops` for the frame loop. So are the statistical background model and the file-system test.

Two details of the code are easy to misread, and the model follows the code:

- After N successful reads of an N-frame video, the rewind sets `_framemax` to `_framenum - 1`, which is `N - 1` (backgrounds.py:89-95).
- `_need_resize` compares a one-element slice with the two-element resolution, so it is always true (backgrounds.py:68-70).

## Model

| member | source | states |
|---|---|---|
| HoleFilling.Threshold | main.py:201 | a sample becomes 255 exactly when it is above 120, any other becomes 0; the output has the input's shape and is binary |
| HoleFilling.AddWrap | main.py:219 | `uint8` addition wraps modulo 256 |
| HoleFilling.RegionStep | main.py:218 | the fill region is closed under 4-neighbours that hold the seed's value |
| HoleFilling.FloodFill | main.py:217-218 | on a non-empty image and an all-zero (h+2)×(w+2) mask, the image ends as the input with the seed's 4-connected region painted `newVal`, and the mask's interior marks exactly that region (the 1-pixel border of the mask stays 0) |
| HoleFilling.CopyImage | main.py:213 | the copy is fresh and holds the same samples |
| HoleFilling.AddInverted | main.py:219 | each output sample is `a + (255 - f)` modulo 256 |
| HoleFilling.ImFill | main.py:211-220 | the output is a fresh array equal to the flood-fill-based `ImFilled` of the input |
| HoleFilling.ImFillCharacterization | main.py:211-220 | on a binary mask the result is binary, and a pixel is 0 exactly when it was 0 and is 4-connected through 0-pixels to (0, 0) |
| HoleFilling.SeedForegroundFillsAll | main.py:211-220 | if (0, 0) is 255 the result is all 255 |
| HoleFilling.ImFillIdempotent | main.py:211-220 | filling a filled binary mask changes nothing |
| Segmenter.AfterCallsSaturates | main.py:247-251 | from a count within the cap, k calls of `get_mask` leave the counter at min(n + k, 30) |
| Segmenter.CounterBounded | main.py:247-251 | the counter never exceeds 30 |
| Segmenter.LearningLastsThirtyFrames | main.py:245-251 | from 0, the model still learns after 29 calls, stops at the 30th and stays stopped |
| Segmenter.RateWhileLearning | main.py:247-251 | the rate is -1 exactly while n + k < 30 and 0 exactly from then on |
| Segmenter.BackgroundSubtractor.constructor | main.py:181-189 | the counter starts at 0 with the cap 30, and mask blurring is on |
| Segmenter.BackgroundSubtractor.ForgetMask | main.py:191-192 | the counter is 0 whatever it was, so the model learns again |
| Segmenter.BackgroundSubtractor.GetMask | main.py:245-251 | while learning, the counter goes up by one and the rate is -1; after learning, the counter stays put and the rate is 0 |
| Backgrounds.Clamp | backgrounds.py:92 | the decoder position after a `set` lies within the video and is the requested one when that is in range |
| Backgrounds.VideoCapture.Read | backgrounds.py:85 | the next frame and the position moves on by one, or nothing at the end of the stream |
| Backgrounds.VideoCapture.SetPos | backgrounds.py:92 | the position becomes the clamped request |
| Backgrounds.StaticBackground.constructor | backgrounds.py:44-48 | blur level 0; the cached frame is the picture read and resized to the webcam size |
| Backgrounds.StaticBackground.Open | backgrounds.py:17-23 | fails with `FileNotFoundError(path)` exactly when the file is missing, creating nothing; otherwise a fresh background at level 0 |
| Backgrounds.StaticBackground.SetBlurLevel | backgrounds.py:50-52 | the level is the value passed; level 0 caches the unblurred image, any other level caches `blur(image, level)` |
| Backgrounds.StaticBackground.GetFrame | backgrounds.py:54-55 | returns the cached frame; it changes no state |
| Backgrounds.NeedResize | backgrounds.py:68-70 | as written, a resize is always requested |
| Backgrounds.NextCursor | backgrounds.py:84-95 | a successful read moves the position and `_framenum` on by one, keeping `_framemax`; at the end `_framemax` becomes `_framenum - 1`, the video is rewound and read once, and `_framenum` becomes 1 |
| Backgrounds.Playing | backgrounds.py:85-88 | while frames remain, k reads move the position and the frame number on by k together |
| Backgrounds.EndOfStream | backgrounds.py:89-95 | on an n-frame video, the n + 1-th `get_frame` leaves position 1, `_framenum` 1 and `_framemax` n - 1 |
| Backgrounds.Looping | backgrounds.py:84-95 | after the first rewind the cursor returns to the same state every n calls |
| Backgrounds.AnimatedBackground.constructor | backgrounds.py:60-78 | `_framenum` and `_framemax` are 0, the blur level is 0, there is no frame, the properties come from the decoder, and a resize is needed |
| Backgrounds.AnimatedBackground.Open | backgrounds.py:17-23 | fails with `FileNotFoundError(path)` exactly when the file is missing; otherwise a fresh video background at the start |
| Backgrounds.AnimatedBackground.SetBlurLevel | backgrounds.py:28-29 | the level is the value passed; nothing else changes |
| Backgrounds.AnimatedBackground.GetFrame | backgrounds.py:84-100 | the cursor moves by `NextCursor`; the returned frame is the decoded frame (the first one after a rewind), resized and then blurred at the current level; an empty video yields no frame |
| Backgrounds.AnimatedBackground.Seek | backgrounds.py:102-105 | `_framenum` is the old position plus fps × seconds, and the decoder is set there (clamped) |
| Effects.AddTextEffect.constructor | effects.py:17-20 | keeps the text and colour and uses the simplex font; the position is not stored |
| Effects.TranslationMatrix | effects.py:37 | a 2×3 matrix that sends every point (px, py) to (px + x, py + y) |
| Effects.ShadowEffect.constructor | effects.py:28-33 | keeps opacity and blur; the displacement is (30, 10) with its matching matrix |
| Effects.ShadowEffect.Default | effects.py:28-33 | the defaults are opacity 0.7, blur 100 and displacement (30, 10) |
| Effects.ShadowEffect.SetDisplacement | effects.py:35-37 | `get_displacement` then returns (x, y), and the matrix is `[[1,0,x],[0,1,y]]` |
| Effects.ShadowEffect.Apply | effects.py:42-51 | opacity 0 leaves the frame data unchanged; any other opacity replaces only the background by the shaded one |
| Effects.BandRowsCount | effects.py:65-68 | of rows 0..n-1, exactly 2·(n/5) + min(n mod 5, 2) are band rows |
| Effects.HologramEffect.ApplyBands | effects.py:65-68 | row y is scaled by its factor exactly when y mod 5 < 2; all other rows are unchanged |
| Effects.HologramEffect.RollRows | effects.py:76 | row y of the result is row y - s of the input, cyclically |
| Effects.HologramEffect.RollCols | effects.py:77 | column x of the result is column x - s of the input, cyclically |
| Effects.HologramEffect.ZeroRows | effects.py:78-81 | rows lo..hi-1 become zero; every other sample is unchanged |
| Effects.HologramEffect.ZeroCols | effects.py:82-85 | columns lo..hi-1 become zero; every other sample is unchanged |
| Effects.HologramEffect.ShiftImage | effects.py:75-86 | the result has the input's shape and equals `Shifted`: the sample at (y, x) is the input's at (y - dy, x - dx) when that is inside, else zero |
| Effects.Shifted | effects.py:75-86 | the shifted grid keeps the shape h×w |
| Effects.ShiftByZero | effects.py:75-86 | a shift by (0, 0) is the identity |
| Effects.ShiftsCompose | effects.py:75-86 | algebra of `Shifted` alone (`_shift_image` shifts once per call): a shift by (a, b) followed by a shift by (c, d), both non-negative, is the shift by (a + c, b + d) |
| Effects.ShiftOutOfFrame | effects.py:75-86 | a shift by the full extent of an axis leaves only zeros |
| Replacer.RFind | main.py:79 | the index of the last occurrence of a character, or -1 when it does not occur |
| Replacer.SplitExt | main.py:79 | root + extension is the path; the extension is empty or a dot followed by neither dot nor slash |
| Replacer.AppendedExtension | main.py:79-83 | a plain stem followed by `.x` has the extension `.x` |
| Replacer.HiddenFileHasNoExtension | main.py:79 | a last component `.x` has no extension |
| Replacer.DefaultIsStill | main.py:104-105 | the fallback `background-t1r.jpg` selects a still background |
| Replacer.AddedKeepsListSet | main.py:87-89 | adding keeps the old entries in place, lists the effect, and never creates a duplicate |
| Replacer.FirstIndex | main.py:125-126 | the position of the first occurrence: it holds the entry and no earlier position does |
| Replacer.RemoveFirst | main.py:125-126 | fails with `ValueError` exactly when the entry is missing, otherwise removes one copy of it from the multiset of entries |
| Replacer.RemoveFirstKeepsOrder | main.py:125-126 | a successful removal is the list without its first occurrence, the other entries in their order |
| Replacer.UpdateOverlays | main.py:119-126 | without the first caption the list is unchanged; while learning with it listed, the result is the list followed by the first caption and then the second |
| Replacer.OverlaysRetire | main.py:124-126 | after learning, with the first caption listed, the first occurrence of the first caption and then the first occurrence of the second are removed, the rest kept in order; the step fails with `ValueError` exactly when the second is not left; the multiset loses one copy of each |
| Replacer.OverlaysNeverShown | main.py:119-126 | from a list without the first caption, any number of overlay steps leave the list unchanged |
| Replacer.CommandKeys | main.py:137 | an upper- or lower-case press selects the command letter; "no key" selects none |
| Replacer.BlurCycle | main.py:138-144 | from 0, k presses of `b` give 3·(k mod 8) |
| Replacer.BlurBounded | main.py:138-144 | the level never exceeds 22 once `b` was pressed, or from a start of at most 22 |
| Replacer.PlaySummary | main.py:109-163 | over a run the blur level steps once per `b`, `disabled` flips once per `d`, and the counter stays within 30 |
| Replacer.PlayWithoutReset | main.py:109-163 | without `r`, k iterations leave the counter at min(counter + k, 30) |
| Replacer.ResetRearms | main.py:161-163 | an iteration with key `r` leaves the counter at 0 |
| Replacer.MidFrameEnds | main.py:113-129 | a missing video frame or an applied caption can stop the loop only in its first iteration |
| Replacer.KeyEnds | main.py:137-163 | a completed iteration steps the control state once and then continues, quits on `q` or fails on `f` |
| Replacer.BackgroundReplacer.constructor | main.py:30-39 | no background, no effects, a fresh learning counter at 0, and the capture mode 640×360 at 30 fps |
| Replacer.BackgroundReplacer.InitCaptureDevice | main.py:61-76 | records mode 4 of the resolution table as the frame size and rate |
| Replacer.BackgroundReplacer.SetBackground | main.py:78-85 | `.jpg`/`.png` select a still and `.mp4` a video background; another extension fails with `Invalid background format`, and a missing file fails with `FileNotFoundError`; both failures keep the background |
| Replacer.BackgroundReplacer.AddEffect | main.py:87-89 | the list becomes `Added(list, e)`: appended unless that very object is listed |
| Replacer.PassAppend | main.py:128-129 | the effect pass runs in list order: the pass over a list with one more effect is the pass over the list followed by that effect's stage |
| Replacer.PassKeepsBackground | main.py:128-129 | without shadows the pass leaves the background frame as it was |
| Replacer.BackgroundReplacer.ApplyEffects | main.py:128-129 | the pass fails exactly when a caption is listed; otherwise the background and output frames become `Pass` of the list, a shadow shading the background and a hologram transforming the output, in list order; the webcam frame and the mask are unchanged |
| Replacer.BackgroundReplacer.FetchBackground | main.py:115 | the video cursor moves by `NextCursor`; fetching fails exactly for an empty video; otherwise the frame's background becomes the picture the source pointed at before the call (`NextPicture`): a still's cached frame, or the video frame at the old read position (the first one after a rewind), fitted and blurred at the current level; a still's image and cached frame stay as they were |
| Replacer.BackgroundReplacer.SegmentFrame | main.py:116 | the counter advances as `get_mask` does, and the mask is computed at the rate chosen from the old count |
| Replacer.BackgroundReplacer.Overlay | main.py:119-131 | the effect list and the failure are as the overlay step and the effect pass give them; without a failure the frame is the effect pass over the old background and output, then composited unless `disabled` |
| Replacer.BackgroundReplacer.Render | main.py:128-131 | the effect pass, then `_apply_background` exactly when not `disabled`: a disabled output is the passed output itself |
| Replacer.BackgroundReplacer.Composite | main.py:91-96 | the output becomes the blend of output and background under the mask; the background and the mask are unchanged |
| Replacer.BackgroundReplacer.Capture | main.py:113-116 | webcam and output become the camera image; unless the video is empty, the background becomes the picture `NextPicture` gave before the call, a still's image and frame are kept, the mask the segmentation of the image at the rate of the old count, and the counter advances |
| Replacer.BackgroundReplacer.Compose | main.py:113-131 | with fresh captions the list is unchanged; the iteration fails exactly on an empty video or a listed caption; otherwise webcam is the camera image, the mask its segmentation, and the frame the effect pass over the background source's new frame (the picture `NextPicture` gave before the call) and the image, composited unless `disabled`; a still's image and frame are kept |
| Replacer.BackgroundReplacer.HandleKey | main.py:137-163 | the control state steps by `KeyStep`; `q` stops and `f` fails; the video cursor, the source's image and a video's frame are kept, and the picture the source returned last changes only when `b` re-blurs a still |
| Replacer.BackgroundReplacer.Iterate | main.py:110-163 | one iteration keeps the loop invariant or ends the loop in a state `Ended` describes |
| Replacer.BackgroundReplacer.Loop | main.py:108-163 | the loop ends with the control state `Play` gives for the keys consumed and the cursor moved once per iteration, and the list is unchanged |
| Replacer.BackgroundReplacer.Run | main.py:101-164 | falls back to the default picture and fails if it is missing; the loop stops at the first `q` or `f` or after the last key; the control state is `Play` over the consumed keys; the cursor moves once per iteration; the list is unchanged |

## Left out

- Camera capture, the virtual webcam, windows and `waitKey` polling, `show_help` and the progress prints are I/O. Key codes and camera frames are the parameters of `Run`, one frame per key, and the images written out are not modelled.
- `query_capabilities`, `__del__`, the argparse entry point and the `DEBUG`/`USE_V4L2LOOPBACK` switches are shell calls, resource release and configuration.
- The MOG2 model is foreign code with its own statistics. `get_mask`'s blur, `apply` and post-processing are one pure parameter (`Ops.segment`), so MOG2's internal state is not modelled. The median blur, erosion and final blur around the threshold and hole fill are not part of this model.
- `imread`, `resize`, `blur`, `applyColorMap`, `dilate`, `warpAffine`, `addWeighted` and `putText` are foreign OpenCV operations, mostly on floats, so they are function parameters.
- The alpha blend of `_apply_background` (`Ops.composite`) and the shadow's channel multiply (`Shade`) are floating-point arithmetic.
- The random band intensities of the hologram are drawn by `np.random.uniform`, so they are a parameter of `ApplyBands`. The full `HologramEffect.apply` composition is `Ops.hologram` in the loop.
- `imfill_alt` is an unused debug variant.
- `AddTextEffect.apply` draws via OpenCV. It reads the never-assigned `self.position`, so it is modelled only as its `AttributeError` (`CaptionPosition`).
- The `f` key tests an undefined name `VideoBackground`, so it is modelled as its `NameError` ending the loop.
- `FrameData`'s class attributes `size` and `fps`, which `init_capture_device` assigns on the class, are per-instance fields. The frame counter `number` is unused.
- Fractional frame rates are not modelled: every fps value is an integer.
- Backgrounds.Clamp: what `VideoCapture.set(CAP_PROP_POS_FRAMES, p)` does with an out-of-range `p` is foreign behaviour; clamping to the video is an assumption.
- Backgrounds.AnimatedBackground.GetFrame: on an empty video, the resize of the missing frame raises inside OpenCV, which is modelled as the error `NoFrame`.
- Effects.TranslationMatrix: the entries are exact reals, so the `float32` rounding of large displacements is not modelled.
- Replacer.Lower: `str.lower` is modelled on the first 256 code points only, the range `chr(code & 0xFF)` can produce.
- Replacer.BackgroundReplacer.Run: the contract describes the control state, the effect list, the background and the video cursor, not the pixels written out. The key sequence is finite, whereas the source loops until `q`.
- HoleFilling.FloodFill: OpenCV rejects an empty image, so the fill requires a non-empty one. OpenCV also sets the 1-pixel border of the marker mask to 1; the model leaves it 0 and states only the interior.
- Replacer.BackgroundReplacer.Composite: frame images are values, so aliasing is not modelled. In the source `webcam` and `output` are one array (main.py:113-114), and the in-place blend (main.py:93-95) overwrites `webcam` too unless a hologram rebound `output`. Likewise the shadow darkens, in place, the array the video background keeps as its frame. Nothing reads either array before the next iteration replaces it.
- Backgrounds.StaticBackground.Open: `imread` is a total parameter, so a file that exists but cannot be decoded is not modelled. There `imread` returns `None` and the resize at backgrounds.py:47 raises.
