/**
 * The orchestrator `BackgroundReplacer` (main.py): it picks the background
 * source from the file extension, keeps a list of effects without
 * duplicates, and runs the frame loop whose keys step the blur level,
 * toggle the replacement, re-arm the background learning or quit.
 * Capture and output devices, windows and the OpenCV image operations
 * are parameters of the loop.
 */
module Replacer {
  import opened Wrappers
  import opened Grids
  import opened Frames
  import opened Segmenter
  import opened Backgrounds
  import opened Effects

  // ---------------------------------------------------------------------
  // File extensions (os.path.splitext) and the background format they select
  // ---------------------------------------------------------------------

  /** The index of the last `c` in `s`, or -1 when there is none. */
  function RFind(s: string, c: char): (i: int)
    ensures -1 <= i < |s|
    ensures i >= 0 ==> s[i] == c
    ensures forall j :: i < j < |s| ==> s[j] != c
  {
    if |s| == 0 then -1
    else if s[|s| - 1] == c then |s| - 1
    else RFind(s[..|s| - 1], c)
  }

  /**
   * `os.path.splitext` on a POSIX path: the extension starts at the last
   * dot of the last path component, unless everything in that component
   * before the dot is dots (a hidden file such as `.png` has none).
   */
  function SplitExt(p: string): (r: (string, string))
    ensures r.0 + r.1 == p
    ensures r.1 == "" || (r.1[0] == '.' && '/' !in r.1 && '.' !in r.1[1..])
  {
    var sep := RFind(p, '/');
    var dot := RFind(p, '.');
    if dot > sep && exists k :: sep < k < dot && p[k] != '.' then
      assert forall j :: 0 <= j < |p| - dot ==> p[dot..][j] == p[dot + j];
      (p[..dot], p[dot..])
    else
      (p, "")
  }

  function Ext(p: string): string {
    SplitExt(p).1
  }

  /** A name with a plain stem gets the extension written after its last dot. */
  lemma AppendedExtension(dir: string, stem: string, x: string)
    requires |stem| > 0 && '/' !in stem && '.' !in stem
    requires '/' !in x && '.' !in x
    ensures SplitExt(dir + stem + "." + x) == (dir + stem, "." + x)
  {
    var p := dir + stem + "." + x;
    var d := |dir| + |stem|;
    assert p[d] == '.';
    assert forall j :: d < j < |p| ==> p[j] == x[j - d - 1];
    var dot := RFind(p, '.');
    assert dot == d;
    var sep := RFind(p, '/');
    assert forall j :: |dir| <= j < d ==> p[j] == stem[j - |dir|];
    assert sep < |dir|;
    assert p[|dir|] == stem[0] != '.';
    assert sep < |dir| < dot && p[|dir|] != '.';
    assert p[..d] == dir + stem;
    assert p[d..] == "." + x;
  }

  /** A hidden file (its last component starts with a dot) has no extension. */
  lemma HiddenFileHasNoExtension(dir: string, x: string)
    requires '/' !in x && '.' !in x
    ensures Ext(dir + "/." + x) == ""
  {
    var p := dir + "/." + x;
    var d := |dir|;
    assert p[d] == '/' && p[d + 1] == '.';
    assert forall j :: d + 1 < j < |p| ==> p[j] == x[j - d - 2];
    assert RFind(p, '.') == d + 1;
    assert RFind(p, '/') == d;
  }

  datatype Format = StillImage | Video

  /** The formats `set_background` accepts, by extension (case-sensitive). */
  function FormatOf(ext: string): Option<Format> {
    if ext in [".jpg", ".png"] then Some(StillImage)
    else if ext in [".mp4"] then Some(Video)
    else None
  }

  /** The picture `run` falls back to when no background was set. */
  const DefaultBackground: string := "background-t1r.jpg"

  lemma DefaultIsStill()
    ensures FormatOf(Ext(DefaultBackground)) == Some(StillImage)
  {
    AppendedExtension("", "background-t1r", "jpg");
    assert "" + "background-t1r" + "." + "jpg" == DefaultBackground;
  }

  // ---------------------------------------------------------------------
  // Effect list
  // ---------------------------------------------------------------------

  /** An entry of the effect list; entries compare by object identity, as Python's `in` does here. */
  datatype Effect =
    | Text(text: AddTextEffect)
    | Shadow(shadow: ShadowEffect)
    | Hologram(hologram: HologramEffect)

  predicate NoDuplicates(es: seq<Effect>) {
    forall i, j :: 0 <= i < j < |es| ==> es[i] != es[j]
  }

  /** The list after `add_effect(e)`. */
  function Added(es: seq<Effect>, e: Effect): seq<Effect> {
    if e in es then es else es + [e]
  }

  /** Adding keeps every old entry in place, puts `e` in the list and never creates a duplicate. */
  lemma AddedKeepsListSet(es: seq<Effect>, e: Effect)
    requires NoDuplicates(es)
    ensures NoDuplicates(Added(es, e))
    ensures e in Added(es, e)
    ensures Added(es, e)[..|es|] == es
    ensures |Added(es, e)| == |es| + (if e in es then 0 else 1)
  {
    if e !in es {
      var r := es + [e];
      forall i, j | 0 <= i < j < |r|
        ensures r[i] != r[j]
      {
        if j == |es| {
          assert r[i] == es[i];
        }
      }
    }
  }

  /** The index of the first `x` in `es`. */
  function FirstIndex(es: seq<Effect>, x: Effect): (i: nat)
    requires x in es
    ensures i < |es| && es[i] == x && x !in es[..i]
  {
    if es[0] == x then 0
    else
      var j := FirstIndex(es[1..], x);
      assert es[..j + 1] == [es[0]] + es[1..][..j];
      j + 1
  }

  /** `es` without its entry at `i`, the others in their order. */
  function Without(es: seq<Effect>, i: nat): seq<Effect>
    requires i < |es|
  {
    es[..i] + es[i + 1..]
  }

  /** `list.remove(x)`: drops the first `x`, or raises `ValueError` when there is none. */
  function RemoveFirst(es: seq<Effect>, x: Effect): (r: Result<seq<Effect>>)
    ensures r.Fail? <==> x !in es
    ensures r.Fail? ==> r.error == ValueNotInList
    ensures r.Ok? ==> multiset(r.value) == multiset(es) - multiset{x}
  {
    if |es| == 0 then Fail(ValueNotInList)
    else if es[0] == x then
      assert es == [es[0]] + es[1..];
      Ok(es[1..])
    else
      match RemoveFirst(es[1..], x)
      case Fail(e) => Fail(e)
      case Ok(rest) =>
        assert es == [es[0]] + es[1..];
        Ok([es[0]] + rest)
  }

  /** The removal takes out exactly the first `x` and keeps the other entries in their order. */
  lemma {:induction false} RemoveFirstKeepsOrder(es: seq<Effect>, x: Effect)
    requires x in es
    ensures RemoveFirst(es, x) == Ok(Without(es, FirstIndex(es, x)))
    decreases |es|
  {
    if es[0] == x {
      assert es[..0] + es[1..] == es[1..];
    } else {
      assert x in es[1..] by {
        var k := FirstIndex(es, x);
        assert es[1..][k - 1] == x;
      }
      RemoveFirstKeepsOrder(es[1..], x);
      RemoveLater(es, x);
    }
  }

  /** Removing a later first `x` keeps the head in front. */
  lemma RemoveLater(es: seq<Effect>, x: Effect)
    requires |es| > 0 && es[0] != x && x in es[1..]
    ensures [es[0]] + Without(es[1..], FirstIndex(es[1..], x)) == Without(es, FirstIndex(es, x))
  {
    var j := FirstIndex(es[1..], x);
    assert FirstIndex(es, x) == j + 1;
    assert es[..j + 1] == [es[0]] + es[1..][..j];
    assert es[j + 2..] == es[1..][j + 1..];
  }

  /**
   * The advisory-overlay step of the frame loop, as written: while the
   * model learns, the two captions are appended only when the first one
   * is already listed; once learning is over a listed first caption is
   * removed together with the second.
   */
  function UpdateOverlays(es: seq<Effect>, learning: bool, t1: Effect, t2: Effect): (r: Result<seq<Effect>>)
    ensures t1 !in es ==> r == Ok(es)
    ensures learning && t1 in es ==> r == Ok(es + [t1, t2])
  {
    if learning then
      if t1 in es then Ok(es + [t1, t2]) else Ok(es)
    else if t1 in es then
      match RemoveFirst(es, t1)
      case Fail(e) => Fail(e)
      case Ok(rest) => RemoveFirst(rest, t2)
    else
      Ok(es)
  }

  /**
   * Once learning is over, a listed first caption is removed together
   * with the second, each at its first occurrence and the rest kept in
   * order; the step fails exactly when the second is missing.
   */
  lemma OverlaysRetire(es: seq<Effect>, t1: Effect, t2: Effect)
    requires t1 in es
    ensures var rest := Without(es, FirstIndex(es, t1));
      UpdateOverlays(es, false, t1, t2) ==
        if t2 in rest then Ok(Without(rest, FirstIndex(rest, t2))) else Fail(ValueNotInList)
    ensures t2 != t1 ==> (UpdateOverlays(es, false, t1, t2).Ok? <==> t2 in es)
    ensures UpdateOverlays(es, false, t1, t2).Ok? ==>
      multiset(UpdateOverlays(es, false, t1, t2).value) == multiset(es) - multiset{t1, t2}
  {
    var r1 := RemoveFirst(es, t1);
    var rest := r1.value;
    var r2 := RemoveFirst(rest, t2);
    assert UpdateOverlays(es, false, t1, t2) == r2;
    RemoveFirstKeepsOrder(es, t1);
    if t2 in rest {
      RemoveFirstKeepsOrder(rest, t2);
    }
    if t2 != t1 {
      assert multiset(rest)[t2] == multiset(es)[t2];
    }
    if r2.Ok? {
      MinusPair(multiset(es), t1, t2);
    }
  }

  lemma MinusPair(m: multiset<Effect>, a: Effect, b: Effect)
    ensures m - multiset{a} - multiset{b} == m - multiset{a, b}
  {
    assert multiset{a, b} == multiset{a} + multiset{b};
  }

  /** Starting from a list without the first caption, the overlay step never changes the list. */
  lemma {:induction false} OverlaysNeverShown(es: seq<Effect>, flags: seq<bool>, t1: Effect, t2: Effect)
    requires t1 !in es
    ensures OverlaysAfter(es, flags, t1, t2) == Ok(es)
    decreases |flags|
  {
    if |flags| > 0 {
      OverlaysNeverShown(es, flags[..|flags| - 1], t1, t2);
    }
  }

  /** The list after one overlay step per learning flag, stopping at the first failure. */
  function OverlaysAfter(es: seq<Effect>, flags: seq<bool>, t1: Effect, t2: Effect): Result<seq<Effect>>
    decreases |flags|
  {
    if |flags| == 0 then Ok(es)
    else match OverlaysAfter(es, flags[..|flags| - 1], t1, t2)
      case Fail(e) => Fail(e)
      case Ok(cur) => UpdateOverlays(cur, flags[|flags| - 1], t1, t2)
  }

  // ---------------------------------------------------------------------
  // Keys and the control state they drive
  // ---------------------------------------------------------------------

  /** `str.lower` on the first 256 code points: ASCII and Latin-1 capitals. */
  function Lower(c: char): char {
    if 'A' <= c <= 'Z' || ('À' <= c <= 'Þ' && c != '×') then (c as int + 32) as char else c
  }

  /** `chr(cv2.waitKey(1) & 0xFF).lower()`. */
  function KeyOf(code: int): char {
    Lower((code % 256) as char)
  }

  /** Upper- and lower-case presses select the same command; "no key" (-1) selects none. */
  lemma CommandKeys(code: int, c: char)
    requires 'a' <= c <= 'z'
    requires code % 256 == c as int || code % 256 == c as int - 32
    ensures KeyOf(code) == c
    ensures KeyOf(-1) !in "bdfqr"
  {
  }

  /** The blur level after one press of `b`. */
  function NextBlurLevel(level: int): int {
    if level < 20 then level + 3 else 0
  }

  /** The blur level after `k` presses of `b`. */
  function BlurAfter(level: int, k: nat): int
    decreases k
  {
    if k == 0 then level else NextBlurLevel(BlurAfter(level, k - 1))
  }

  /** From 0, the level runs 0, 3, ..., 21 and back to 0: period 8. */
  lemma {:induction false} BlurCycle(k: nat)
    ensures BlurAfter(0, k) == 3 * (k % 8)
    decreases k
  {
    if k > 0 {
      BlurCycle(k - 1);
      var q, m := (k - 1) / 8, (k - 1) % 8;
      assert k - 1 == 8 * q + m && 0 <= m < 8;
      if m < 7 {
        assert k == 8 * q + (m + 1);
        assert k % 8 == m + 1;
      } else {
        assert k == 8 * (q + 1);
        assert k % 8 == 0;
      }
    }
  }

  /** The level never exceeds 22 once `b` has been pressed, nor ever when it starts at most 22. */
  lemma {:induction false} BlurBounded(level: int, k: nat)
    ensures (level <= 22 || k > 0) ==> BlurAfter(level, k) <= 22
    decreases k
  {
    if k > 0 {
      BlurBounded(level, k - 1);
    }
  }

  /** What the keys act on: the learning counter, the blur level and `disabled`. */
  datatype Control = Control(counter: nat, blur: int, disabled: bool)

  /** The key handling at the end of one loop iteration. */
  function KeyStep(c: Control, key: char): Control {
    if key == 'b' then c.(blur := NextBlurLevel(c.blur))
    else if key == 'd' then c.(disabled := !c.disabled)
    else if key == 'r' then c.(counter := 0)
    else c
  }

  /** One loop iteration: `get_mask` advances the counter, then the key is handled. */
  function FrameStep(c: Control, key: char): Control {
    KeyStep(c.(counter := Advance(c.counter)), key)
  }

  /** The control state after one iteration per key. */
  function Play(c: Control, keys: seq<char>): Control
    decreases |keys|
  {
    if |keys| == 0 then c else FrameStep(Play(c, keys[..|keys| - 1]), keys[|keys| - 1])
  }

  /** How often `k` occurs in `keys`. */
  function Presses(keys: seq<char>, k: char): nat
    decreases |keys|
  {
    if |keys| == 0 then 0
    else Presses(keys[..|keys| - 1], k) + (if keys[|keys| - 1] == k then 1 else 0)
  }

  lemma PlayPrefix(c: Control, keys: seq<char>, i: nat)
    requires i < |keys|
    ensures Play(c, keys[..i + 1]) == FrameStep(Play(c, keys[..i]), keys[i])
  {
    assert keys[..i + 1][..i] == keys[..i];
  }

  lemma PressesPrefix(keys: seq<char>, k: char, i: nat)
    requires i < |keys|
    ensures Presses(keys[..i + 1], k) == Presses(keys[..i], k) + (if keys[i] == k then 1 else 0)
  {
    assert keys[..i + 1][..i] == keys[..i];
  }

  /**
   * Over a run, the blur level is the start level stepped once per `b`,
   * `disabled` flips once per `d`, and the counter stays within the cap.
   */
  lemma {:induction false} PlaySummary(c: Control, keys: seq<char>)
    requires c.counter <= LearningFrames
    ensures Play(c, keys).blur == BlurAfter(c.blur, Presses(keys, 'b'))
    ensures Play(c, keys).disabled == (c.disabled != (Presses(keys, 'd') % 2 == 1))
    ensures Play(c, keys).counter <= LearningFrames
    decreases |keys|
  {
    if |keys| > 0 {
      PlaySummary(c, keys[..|keys| - 1]);
    }
  }

  /** Without `r`, the counter after `k` iterations is `min(counter + k, 30)`, as for `k` bare `get_mask` calls. */
  lemma {:induction false} PlayWithoutReset(c: Control, keys: seq<char>)
    requires c.counter <= LearningFrames
    requires 'r' !in keys
    ensures Play(c, keys).counter == AfterCalls(c.counter, |keys|)
    ensures Play(c, keys).counter == Min(c.counter + |keys|, LearningFrames)
    decreases |keys|
  {
    if |keys| > 0 {
      PlayWithoutReset(c, keys[..|keys| - 1]);
    }
    AfterCallsSaturates(c.counter, |keys|);
  }

  /** An iteration whose key is `r` leaves the counter at 0, whatever it read before. */
  lemma ResetRearms(c: Control, keys: seq<char>)
    requires |keys| > 0 && keys[|keys| - 1] == 'r'
    ensures Play(c, keys).counter == 0
  {
  }

  // ---------------------------------------------------------------------
  // The replacer
  // ---------------------------------------------------------------------

  /** The selectable capture modes (width, height, fps) and the one used. */
  const Resolutions: seq<(int, int, int)> :=
    [(640, 480, 30), (176, 144, 30), (352, 288, 30), (320, 240, 30), (640, 360, 30), (1280, 720, 10)]
  const SelectedResolution: nat := 4

  datatype Source = NoBackground | Still(still: StaticBackground) | Movie(movie: AnimatedBackground)

  /** The OpenCV work done each frame that lies outside the model. */
  datatype Ops = Ops(
    segment: (Image, bool, int) -> Mask,         // optional blur, MOG2 and post-processing of get_mask
    shade: Shade,                                // ShadowEffect.apply after its early exit
    hologram: Image -> Image,                    // HologramEffect.apply on the output frame
    composite: (Image, Image, Mask) -> Image)    // _apply_background

  /** Why the frame loop stopped. */
  datatype Stop = Quit | KeysExhausted | Crash(error: Error)

  /** The NameError of the `f` key: `VideoBackground` is not defined anywhere. */
  const UndefinedVideoBackground: Error := UnknownName("VideoBackground")

  /** The AttributeError of `AddTextEffect.apply`: `self.position` is never assigned. */
  const CaptionPosition: Error := MissingAttribute("position")

  predicate HasCaption(es: seq<Effect>) {
    exists i :: 0 <= i < |es| && es[i].Text?
  }

  /** The commands of the frame loop, one per key code. */
  function Keys(codes: seq<int>): (keys: seq<char>)
    ensures |keys| == |codes|
    ensures forall i :: 0 <= i < |codes| ==> keys[i] == KeyOf(codes[i])
  {
    seq(|codes|, i requires 0 <= i < |codes| => KeyOf(codes[i]))
  }

  /** The shadow objects listed in `es`. */
  function Shadows(es: seq<Effect>): set<ShadowEffect> {
    set e | e in es && e.Shadow? :: e.shadow
  }

  /**
   * What one effect does to the background and output frames: a shadow
   * with non-zero opacity shades the background, a hologram transforms
   * the output.  A caption fails before it draws, so it has no stage.
   */
  ghost function Stage(e: Effect, bg: Image, out: Image, mask: Mask, size: Size, ops: Ops): (Image, Image)
    reads if e.Shadow? then {e.shadow} else {}
  {
    match e
    case Text(_) => (bg, out)
    case Shadow(s) =>
      if s.opacity == 0.0 then (bg, out)
      else (ops.shade(bg, mask, s.opacity, s.blur, s.translationMatrix, size), out)
    case Hologram(_) => (bg, ops.hologram(out))
  }

  /** The background and output frames after `for effect in self.effects: effect.apply(self.frame)`, in list order. */
  ghost function Pass(es: seq<Effect>, bg: Image, out: Image, mask: Mask, size: Size, ops: Ops): (Image, Image)
    reads Shadows(es)
    decreases |es|
  {
    if |es| == 0 then (bg, out)
    else
      var next := Stage(es[0], bg, out, mask, size, ops);
      Pass(es[1..], next.0, next.1, mask, size, ops)
  }

  /** A write to the frame record leaves every shadow, and so every stage, as it was. */
  lemma NotAShadow(es: seq<Effect>, fd: FrameData)
    ensures forall o: object :: o in Shadows(es) ==> o != fd
  {
  }

  /** The pass over `es + [e]` is the pass over `es` followed by the stage of `e`. */
  lemma {:induction false} PassAppend(es: seq<Effect>, e: Effect, bg: Image, out: Image, mask: Mask, size: Size, ops: Ops)
    ensures var p := Pass(es, bg, out, mask, size, ops);
      Pass(es + [e], bg, out, mask, size, ops) == Stage(e, p.0, p.1, mask, size, ops)
    decreases |es|
  {
    if |es| > 0 {
      var next := Stage(es[0], bg, out, mask, size, ops);
      assert (es + [e])[1..] == es[1..] + [e];
      PassAppend(es[1..], e, next.0, next.1, mask, size, ops);
    } else {
      assert ([] + [e])[1..] == [];
    }
  }

  /** Without shadows the pass never touches the background frame. */
  lemma {:induction false} PassKeepsBackground(es: seq<Effect>, bg: Image, out: Image, mask: Mask, size: Size, ops: Ops)
    requires forall i :: 0 <= i < |es| ==> !es[i].Shadow?
    ensures Pass(es, bg, out, mask, size, ops).0 == bg
    decreases |es|
  {
    if |es| > 0 {
      var next := Stage(es[0], bg, out, mask, size, ops);
      assert next.0 == bg;
      PassKeepsBackground(es[1..], next.0, next.1, mask, size, ops);
    }
  }

  predicate NoStopKey(keys: seq<char>) {
    'q' !in keys && 'f' !in keys
  }

  /**
   * How the loop ended after `frames` iterations: at the first `q` or
   * `f`, or after the last key when there is neither.
   */
  predicate Stopped(keys: seq<char>, stop: Stop, frames: nat) {
    frames <= |keys| &&
    (stop == KeysExhausted ==> frames == |keys| && NoStopKey(keys)) &&
    (stop == Quit ==> 0 < frames && keys[frames - 1] == 'q' && NoStopKey(keys[..frames - 1])) &&
    (stop == Crash(UndefinedVideoBackground) ==>
      0 < frames && keys[frames - 1] == 'f' && NoStopKey(keys[..frames - 1]))
  }

  /** A failure inside an iteration, before its key is handled. */
  predicate MidFrame(stop: Stop) {
    stop == Crash(NoFrame) || stop == Crash(CaptionPosition)
  }

  /** The background is a video without frames: every `get_frame` fails. */
  predicate Empty(bg: Source) {
    bg.Movie? && |bg.movie.video.frames| == 0
  }

  /** What the key of one iteration does to the loop: `q` stops it, `f` fails. */
  function KeyStop(key: char): Option<Stop> {
    if key == 'q' then Some(Quit)
    else if key == 'f' then Some(Crash(UndefinedVideoBackground))
    else None
  }

  /**
   * The state `v` (control state and video cursor) after `frames`
   * iterations of the frame loop that started from `c0` and `p0` on
   * background `bg` with effect list `es`.
   */
  predicate Progress(bg: Source, es: seq<Effect>, t1: AddTextEffect, c0: Control, p0: Cursor,
                     keys: seq<char>, frames: nat, v: (Control, Cursor))
  {
    !bg.NoBackground? && Text(t1) !in es &&
    frames <= |keys| && NoStopKey(keys[..frames]) &&
    v.0 == Play(c0, keys[..frames]) &&
    (bg.Movie? ==> p0.pos <= |bg.movie.video.frames| && v.1 == Cursors(p0, |bg.movie.video.frames|, frames)) &&
    (frames > 0 ==> !Empty(bg) && !HasCaption(es))
  }

  /** The state `v` of a frame loop that stopped with `stop` after `frames` iterations. */
  predicate Finished(bg: Source, es: seq<Effect>, c0: Control, p0: Cursor,
                     keys: seq<char>, stop: Stop, frames: nat, v: (Control, Cursor))
  {
    !bg.NoBackground? &&
    Stopped(keys, stop, frames) && stop != Crash(ValueNotInList) &&
    (stop == Crash(NoFrame) ==> frames == 0 && Empty(bg)) &&
    (stop == Crash(CaptionPosition) ==> frames == 0 && HasCaption(es)) &&
    (!MidFrame(stop) ==> v.0 == Play(c0, keys[..frames])) &&
    (bg.Movie? ==> p0.pos <= |bg.movie.video.frames| &&
                   v.1 == Cursors(p0, |bg.movie.video.frames|, frames + if MidFrame(stop) then 1 else 0))
  }

  /** The loop ends after its last key when no key stopped it. */
  lemma Exhausted(bg: Source, es: seq<Effect>, t1: AddTextEffect, c0: Control, p0: Cursor,
                  keys: seq<char>, v: (Control, Cursor))
    requires Progress(bg, es, t1, c0, p0, keys, |keys|, v)
    ensures Finished(bg, es, c0, p0, keys, KeysExhausted, |keys|, v)
  {
    assert keys[..|keys|] == keys;
  }

  /** A failure before the key is handled can only happen in the first iteration. */
  lemma MidFrameEnds(bg: Source, es: seq<Effect>, t1: AddTextEffect, c0: Control, p0: Cursor,
                     keys: seq<char>, frames: nat, v: (Control, Cursor), w: (Control, Cursor))
    requires Progress(bg, es, t1, c0, p0, keys, frames, v) && frames < |keys|
    requires Empty(bg) || HasCaption(es)
    requires bg.Movie? ==> w.1 == NextCursor(v.1, |bg.movie.video.frames|)
    ensures Finished(bg, es, c0, p0, keys, Crash(if Empty(bg) then NoFrame else CaptionPosition), frames, w)
  {
  }

  /** A completed iteration either continues the loop or stops it as its key says. */
  lemma KeyEnds(bg: Source, es: seq<Effect>, t1: AddTextEffect, c0: Control, p0: Cursor,
                keys: seq<char>, frames: nat, v: (Control, Cursor), w: (Control, Cursor))
    requires Progress(bg, es, t1, c0, p0, keys, frames, v) && frames < |keys|
    requires !Empty(bg) && !HasCaption(es)
    requires w.0 == FrameStep(v.0, keys[frames])
    requires bg.Movie? ==> w.1 == NextCursor(v.1, |bg.movie.video.frames|)
    ensures KeyStop(keys[frames]).None? ==> Progress(bg, es, t1, c0, p0, keys, frames + 1, w)
    ensures KeyStop(keys[frames]).Some? ==>
      Finished(bg, es, c0, p0, keys, KeyStop(keys[frames]).value, frames + 1, w)
  {
    PlayPrefix(c0, keys, frames);
    assert keys[..frames + 1] == keys[..frames] + [keys[frames]];
    assert keys[..frames + 1][..frames] == keys[..frames];
  }

  class BackgroundReplacer {
    const bgsub: BackgroundSubtractor
    const frame: FrameData
    const cv: Cv
    var background: Source
    var effects: seq<Effect>

    /** The objects of the current background source. */
    ghost function Footprint(): set<object>
      reads this`background
    {
      match background
      case NoBackground => {}
      case Still(s) => {s}
      case Movie(a) => {a, a.video}
    }

    ghost predicate Valid()
      reads this`background, bgsub, Footprint()
    {
      bgsub.Valid() &&
      match background
      case NoBackground => true
      case Still(s) => s.Valid()
      case Movie(a) => a.Valid()
    }

    /** `self._background.get_blur_level()`. */
    function BlurLevel(): int
      reads this`background, Footprint()
    {
      match background
      case NoBackground => 0
      case Still(s) => s.GetBlurLevel()
      case Movie(a) => a.GetBlurLevel()
    }

    /** The background is a video without frames: every `get_frame` fails. */
    predicate EmptyVideo()
      reads this`background
    {
      Empty(background)
    }

    /** The frame the background source returned from its last `get_frame`. */
    ghost function Showing(): Image
      reads this`background, Footprint()
    {
      match background
      case NoBackground => []
      case Still(s) => s.frame
      case Movie(a) => if a.frame.Some? then a.frame.value else []
    }

    /**
     * The picture the next `get_frame` returns: a still's cached frame, or
     * the video frame at the read position (the first one when the
     * position is at the end), fitted to the webcam and blurred at the
     * current level.  An empty video has none.
     */
    ghost function NextPicture(): Image
      reads this`background, Footprint()
    {
      match background
      case NoBackground => []
      case Still(s) => s.frame
      case Movie(a) =>
        var n := |a.video.frames|;
        if n == 0 then []
        else ApplyBlur(a.cv.blur, a.Fitted(a.video.frames[if a.video.pos < n then a.video.pos else 0]), a.blurLevel)
    }

    constructor (cv: Cv)
      ensures Valid() && fresh(bgsub) && fresh(frame)
      ensures this.cv == cv && background == NoBackground && effects == []
      ensures bgsub.frameNum == 0 && bgsub.blurMask
      ensures frame.size == Size(640, 360) && frame.fps == 30
    {
      bgsub := new BackgroundSubtractor();
      frame := new FrameData();
      this.cv := cv;
      background := NoBackground;
      effects := [];
      new;
      InitCaptureDevice();
    }

    /** The part of `init_capture_device` that does not touch the camera: record the chosen mode. */
    method InitCaptureDevice()
      modifies frame
      ensures frame.size == Size(Resolutions[SelectedResolution].0, Resolutions[SelectedResolution].1)
      ensures frame.fps == Resolutions[SelectedResolution].2
      ensures frame.webcam == old(frame.webcam) && frame.background == old(frame.background)
      ensures frame.output == old(frame.output) && frame.mask == old(frame.mask)
    {
      var mode := Resolutions[SelectedResolution];
      frame.size := Size(mode.0, mode.1);
      frame.fps := mode.2;
    }

    /**
     * Chooses the background source by extension; an unknown extension
     * or a missing file fails and keeps the current background.
     */
    method SetBackground(path: string) returns (r: Result<()>)
      requires Valid()
      modifies this
      ensures Valid()
      ensures effects == old(effects)
      ensures FormatOf(Ext(path)) == None ==> r == Fail(InvalidFormat(path))
      ensures FormatOf(Ext(path)) != None && !cv.fileExists(path) ==> r == Fail(FileNotFound(path))
      ensures r.Ok? <==> FormatOf(Ext(path)) != None && cv.fileExists(path)
      ensures r.Fail? ==> background == old(background)
      ensures r.Ok? && FormatOf(Ext(path)) == Some(StillImage) ==>
        background.Still? && fresh(background.still) && background.still.blurLevel == 0 &&
        background.still.frame == background.still.image == cv.resize(cv.imread(path), frame.size)
      ensures r.Ok? && FormatOf(Ext(path)) == Some(Video) ==>
        background.Movie? && fresh(background.movie) && fresh(background.movie.video) &&
        background.movie.Position() == Start && background.movie.blurLevel == 0 &&
        background.movie.video.frames == cv.openVideo(path).frames
    {
      var ext := Ext(path);
      var format := FormatOf(ext);
      if format == Some(StillImage) {
        var s := StaticBackground.Open(path, frame, cv);
        if s.Fail? {
          return Fail(s.error);
        }
        background := Still(s.value);
      } else if format == Some(Video) {
        var a := AnimatedBackground.Open(path, frame, cv);
        if a.Fail? {
          return Fail(a.error);
        }
        background := Movie(a.value);
      } else {
        return Fail(InvalidFormat(path));
      }
      r := Ok(());
    }

    /** Appends `e` unless that very object is already listed. */
    method AddEffect(e: Effect)
      modifies this
      ensures effects == Added(old(effects), e)
      ensures background == old(background)
    {
      if e !in effects {
        effects := effects + [e];
      }
    }

    /** One pass over the effect list; applying a caption fails because its position was never stored. */
    method ApplyEffects(ops: Ops) returns (crash: Option<Error>)
      modifies frame
      ensures crash.Some? <==> HasCaption(effects)
      ensures crash.Some? ==> crash.value == CaptionPosition
      ensures crash.None? ==>
        (frame.background, frame.output) == Pass(effects, old(frame.background), old(frame.output), frame.mask, frame.size, ops)
      ensures frame.webcam == old(frame.webcam) && frame.mask == old(frame.mask)
      ensures frame.size == old(frame.size) && frame.fps == old(frame.fps)
    {
      for i := 0 to |effects|
        invariant forall j :: 0 <= j < i ==> !effects[j].Text?
        invariant frame.webcam == old(frame.webcam) && frame.mask == old(frame.mask)
        invariant frame.size == old(frame.size) && frame.fps == old(frame.fps)
        invariant Pass(effects[i..], frame.background, frame.output, frame.mask, frame.size, ops) ==
          Pass(effects, old(frame.background), old(frame.output), frame.mask, frame.size, ops)
      {
        assert effects[i..][1..] == effects[i + 1..];
        ghost var bg, out := frame.background, frame.output;
        ghost var next := Stage(effects[i], bg, out, frame.mask, frame.size, ops);
        assert Pass(effects[i..], bg, out, frame.mask, frame.size, ops) ==
          Pass(effects[i + 1..], next.0, next.1, frame.mask, frame.size, ops);
        NotAShadow(effects, frame);
        NotAShadow(effects[i + 1..], frame);
        match effects[i] {
          case Text(_) =>
            return Some(CaptionPosition);
          case Shadow(s) =>
            s.Apply(frame, ops.shade);
          case Hologram(_) =>
            frame.output := ops.hologram(frame.output);
        }
        assert (frame.background, frame.output) == next;
      }
      assert effects[|effects|..] == [];
      crash := None;
    }

    /** `self.frame.background = self._background.get_frame()`. */
    method FetchBackground() returns (crash: Option<Error>)
      requires Valid() && !background.NoBackground?
      modifies frame, Footprint()
      ensures Valid() && BlurLevel() == old(BlurLevel())
      ensures background.Movie? ==>
        background.movie.Position() == NextCursor(old(background.movie.Position()), |background.movie.video.frames|)
      ensures EmptyVideo() <==> crash.Some?
      ensures crash.Some? ==> crash.value == NoFrame
      ensures crash.None? ==> frame.background == Showing() == old(NextPicture())
      ensures background.Still? ==>
        background.still.image == old(background.still.image) && background.still.frame == old(background.still.frame)
      ensures frame.webcam == old(frame.webcam) && frame.output == old(frame.output)
      ensures frame.mask == old(frame.mask)
    {
      crash := None;
      if background.Still? {
        var f := background.still.GetFrame();
        frame.background := f;
      } else {
        var r := background.movie.GetFrame();
        if r.Fail? {
          return Some(r.error);
        }
        frame.background := r.value;
      }
    }

    /** The segmentation step: `get_mask` advances the learning counter and the mask is computed at its rate. */
    method SegmentFrame(ops: Ops)
      requires bgsub.Valid()
      modifies bgsub, frame
      ensures bgsub.Valid() && bgsub.blurMask == old(bgsub.blurMask)
      ensures bgsub.frameNum == Advance(old(bgsub.frameNum))
      ensures frame.mask == ops.segment(frame.webcam, bgsub.blurMask, LearningRate(old(bgsub.frameNum)))
      ensures frame.webcam == old(frame.webcam) && frame.output == old(frame.output)
      ensures frame.background == old(frame.background)
    {
      var rate := bgsub.GetMask();
      frame.mask := ops.segment(frame.webcam, bgsub.blurMask, rate);
    }

    /** The overlays, the effects and the composite, in that order. */
    method Overlay(t1: Effect, t2: Effect, disabled: bool, ops: Ops) returns (crash: Option<Error>)
      modifies this`effects, frame
      ensures Overlaid(old(effects), bgsub.IsLearning(), t1, t2, crash)
      ensures crash.None? ==> Overlays(old(frame.background), old(frame.output), disabled, ops)
      ensures frame.webcam == old(frame.webcam) && frame.mask == old(frame.mask)
      ensures frame.size == old(frame.size) && frame.fps == old(frame.fps)
    {
      var u := UpdateOverlays(effects, bgsub.IsLearning(), t1, t2);
      if u.Fail? {
        return Some(u.error);
      }
      effects := u.value;
      crash := Render(disabled, ops);
    }

    /** The effect pass and, unless replacement is disabled, the composite. */
    method Render(disabled: bool, ops: Ops) returns (crash: Option<Error>)
      modifies frame
      ensures crash.Some? <==> HasCaption(effects)
      ensures crash.Some? ==> crash.value == CaptionPosition
      ensures crash.None? ==> Overlays(old(frame.background), old(frame.output), disabled, ops)
      ensures frame.webcam == old(frame.webcam) && frame.mask == old(frame.mask)
      ensures frame.size == old(frame.size) && frame.fps == old(frame.fps)
    {
      crash := ApplyEffects(ops);
      NotAShadow(effects, frame);
      if crash.None? && !disabled {
        Composite(ops);
      }
    }

    /** `_apply_background`: the output becomes the composite of output and background under the mask. */
    method Composite(ops: Ops)
      modifies frame
      ensures frame.output == ops.composite(old(frame.output), old(frame.background), old(frame.mask))
      ensures frame.webcam == old(frame.webcam) && frame.mask == old(frame.mask)
      ensures frame.background == old(frame.background)
      ensures frame.size == old(frame.size) && frame.fps == old(frame.fps)
    {
      frame.output := ops.composite(frame.output, frame.background, frame.mask);
    }

    /**
     * The frame after the effect pass over `bg` and `out` and, unless
     * replacement is disabled, the composite of the passed output over
     * the passed background.
     */
    ghost predicate Overlays(bg: Image, out: Image, disabled: bool, ops: Ops)
      reads this`effects, frame, Shadows(effects)
    {
      var p := Pass(effects, bg, out, frame.mask, frame.size, ops);
      frame.background == p.0 &&
      frame.output == if disabled then p.1 else ops.composite(p.1, p.0, frame.mask)
    }

    /** How the effect list and the outcome of one iteration relate to the overlay step. */
    ghost predicate Overlaid(es: seq<Effect>, learning: bool, t1: Effect, t2: Effect, crash: Option<Error>)
      reads this`effects
    {
      var u := UpdateOverlays(es, learning, t1, t2);
      (u.Fail? ==> crash == Some(u.error) && effects == es) &&
      (u.Ok? ==> effects == u.value && (crash.Some? <==> HasCaption(effects)) &&
                 (crash.Some? ==> crash.value == CaptionPosition))
    }

    /** The control state (with the loop's `disabled`) and the video cursor. */
    ghost function Observe(disabled: bool): (Control, Cursor)
      reads this`background, bgsub, Footprint()
    {
      (Control(bgsub.frameNum, BlurLevel(), disabled),
       if background.Movie? then background.movie.Position() else Start)
    }

    /** What stays true from one iteration of `run` to the next. */
    ghost predicate Running(bg: Source, es: seq<Effect>, t1: AddTextEffect, c0: Control, p0: Cursor,
                            keys: seq<char>, frames: nat, disabled: bool)
      reads this`background, this`effects, bgsub, Footprint()
    {
      Valid() && background == bg && effects == es &&
      Progress(bg, es, t1, c0, p0, keys, frames, Observe(disabled))
    }

    /**
     * `run`, one iteration per key code and webcam frame: fall back to the
     * default picture, then loop until `q`, the failing `f`, a failure
     * inside an iteration or the last code.
     */
    method Run(codes: seq<int>, camera: seq<Image>, ops: Ops) returns (stop: Stop, frames: nat, disabled: bool)
      requires Valid()
      requires |camera| == |codes|
      modifies this, bgsub, frame, Footprint()
      ensures Valid() && effects == old(effects)
      ensures !old(background).NoBackground? ==> background == old(background)
      ensures old(background).NoBackground? ==> (cv.fileExists(DefaultBackground) <==> background.Still?)
      ensures old(background).NoBackground? && !cv.fileExists(DefaultBackground) ==>
        stop == Crash(FileNotFound(DefaultBackground)) && frames == 0 && background == NoBackground
      ensures Stopped(Keys(codes), stop, frames)
      ensures stop != Crash(ValueNotInList)
      ensures stop == Crash(NoFrame) ==> frames == 0 && EmptyVideo()
      ensures stop == Crash(CaptionPosition) ==> frames == 0 && HasCaption(effects)
      ensures !MidFrame(stop) ==>
        Control(bgsub.frameNum, BlurLevel(), disabled) ==
        Play(Control(old(bgsub.frameNum), old(BlurLevel()), false), Keys(codes)[..frames])
      ensures old(background).Movie? ==>
        background.movie.Position() ==
        Cursors(old(background.movie.Position()), |background.movie.video.frames|,
                frames + if MidFrame(stop) then 1 else 0)
    {
      frames, disabled := 0, false;
      if background.NoBackground? {
        DefaultIsStill();
        var r := SetBackground(DefaultBackground);
        if r.Fail? {
          stop := Crash(r.error);
          return;
        }
      }
      var t1 := new AddTextEffect("Recording background", (10, 10), (255, 255, 255));
      var t2 := new AddTextEffect("Move away from the camera!", (10, 10), (255, 255, 255));
      stop, frames, disabled := Loop(codes, camera, ops, t1, t2);
    }

    /** The frame loop of `run`, once a background is set. */
    method Loop(codes: seq<int>, camera: seq<Image>, ops: Ops, t1: AddTextEffect, t2: AddTextEffect)
      returns (stop: Stop, frames: nat, disabled: bool)
      requires Valid() && !background.NoBackground? && Text(t1) !in effects
      requires |camera| == |codes|
      modifies this`effects, bgsub, frame, Footprint()
      ensures Ended(old(background), old(effects), Control(old(bgsub.frameNum), old(BlurLevel()), false),
                    old(if background.Movie? then background.movie.Position() else Start),
                    Keys(codes), stop, frames, disabled)
    {
      ghost var c0 := Control(bgsub.frameNum, BlurLevel(), false);
      ghost var p0 := if background.Movie? then background.movie.Position() else Start;
      ghost var keys := Keys(codes);
      ghost var bg, es := background, effects;
      frames, disabled := 0, false;
      var more: Option<Stop> := None;
      while frames < |codes| && more.None?
        invariant more.None? ==> Running(bg, es, t1, c0, p0, keys, frames, disabled)
        invariant more.Some? ==> Ended(bg, es, c0, p0, keys, more.value, frames, disabled)
        decreases |codes| - frames, if more.None? then 1 else 0
      {
        frames, disabled, more := Iterate(codes, camera, ops, t1, t2, bg, es, c0, p0, keys, frames, disabled);
      }
      if more.None? {
        Exhausted(bg, es, t1, c0, p0, keys, Observe(disabled));
        stop := KeysExhausted;
      } else {
        stop := more.value;
      }
    }

    /** The end state of `run`, relative to the state its loop started from. */
    ghost predicate Ended(bg: Source, es: seq<Effect>, c0: Control, p0: Cursor,
                          keys: seq<char>, stop: Stop, frames: nat, disabled: bool)
      reads this`background, this`effects, bgsub, Footprint()
    {
      Valid() && background == bg && effects == es &&
      Finished(bg, es, c0, p0, keys, stop, frames, Observe(disabled))
    }

    /** One iteration of the frame loop. */
    method Iterate(codes: seq<int>, camera: seq<Image>, ops: Ops, t1: AddTextEffect, t2: AddTextEffect,
                   ghost bg: Source, ghost es: seq<Effect>, ghost c0: Control, ghost p0: Cursor,
                   ghost keys: seq<char>, frames: nat, disabled: bool)
      returns (frames': nat, disabled': bool, stop: Option<Stop>)
      requires Running(bg, es, t1, c0, p0, keys, frames, disabled)
      requires frames < |codes| && |camera| == |codes| && keys == Keys(codes)
      modifies this`effects, bgsub, frame, Footprint()
      ensures frames <= frames'
      ensures stop.None? ==> frames' == frames + 1 && Running(bg, es, t1, c0, p0, keys, frames', disabled')
      ensures stop.Some? ==> Ended(bg, es, c0, p0, keys, stop.value, frames', disabled')
    {
      frames', disabled', stop := frames, disabled, None;
      ghost var v := Observe(disabled);
      var crash := Compose(camera[frames], Text(t1), Text(t2), disabled, ops);
      if crash.Some? {
        MidFrameEnds(bg, es, t1, c0, p0, keys, frames, v, Observe(disabled));
        stop := Some(Crash(crash.value));
        return;
      }
      disabled', stop := HandleKey(KeyOf(codes[frames]), disabled);
      KeyEnds(bg, es, t1, c0, p0, keys, frames, v, Observe(disabled'));
      frames' := frames + 1;
    }

    /**
     * The first part of an iteration: take the webcam frame, fetch the
     * background frame, segment, overlay and composite.  The captions are
     * fresh, so the overlay step leaves the list alone.
     */
    method Compose(image: Image, t1: Effect, t2: Effect, disabled: bool, ops: Ops) returns (crash: Option<Error>)
      requires Valid() && !background.NoBackground? && t1 !in effects
      modifies this`effects, bgsub, frame, Footprint()
      ensures Valid() && background == old(background) && effects == old(effects)
      ensures BlurLevel() == old(BlurLevel())
      ensures background.Movie? ==>
        background.movie.Position() == NextCursor(old(background.movie.Position()), |background.movie.video.frames|)
      ensures crash.None? ==> bgsub.frameNum == Advance(old(bgsub.frameNum))
      ensures crash.Some? <==> EmptyVideo() || HasCaption(effects)
      ensures crash.Some? ==> crash.value == if EmptyVideo() then NoFrame else CaptionPosition
      ensures frame.webcam == image
      ensures crash.None? ==> frame.mask == ops.segment(image, bgsub.blurMask, LearningRate(old(bgsub.frameNum)))
      ensures crash.None? ==> Overlays(Showing(), image, disabled, ops)
      ensures crash.None? ==> Showing() == old(NextPicture())
      ensures background.Still? ==>
        background.still.image == old(background.still.image) && background.still.frame == old(background.still.frame)
    {
      crash := Capture(image, ops);
      if crash.Some? {
        return;
      }
      crash := Overlay(t1, t2, disabled, ops);
    }

    /** Take the webcam frame, fetch the background frame and segment. */
    method Capture(image: Image, ops: Ops) returns (crash: Option<Error>)
      requires Valid() && !background.NoBackground?
      modifies bgsub, frame, Footprint()
      ensures Valid() && BlurLevel() == old(BlurLevel())
      ensures background.Movie? ==>
        background.movie.Position() == NextCursor(old(background.movie.Position()), |background.movie.video.frames|)
      ensures crash.None? ==> bgsub.frameNum == Advance(old(bgsub.frameNum))
      ensures crash.Some? <==> EmptyVideo()
      ensures crash.Some? ==> crash.value == NoFrame
      ensures frame.webcam == image
      ensures crash.None? ==> frame.output == image && frame.background == Showing() == old(NextPicture())
      ensures background.Still? ==>
        background.still.image == old(background.still.image) && background.still.frame == old(background.still.frame)
      ensures crash.None? ==> frame.mask == ops.segment(image, bgsub.blurMask, LearningRate(old(bgsub.frameNum)))
    {
      frame.webcam := image;
      frame.output := image;
      crash := FetchBackground();
      if crash.Some? {
        return;
      }
      SegmentFrame(ops);
    }

    /** The key handling at the end of one loop iteration; `q` stops the loop and `f` fails. */
    method HandleKey(key: char, disabled: bool) returns (disabled': bool, stop: Option<Stop>)
      requires Valid() && !background.NoBackground?
      modifies bgsub, Footprint()
      ensures Valid()
      ensures Control(bgsub.frameNum, BlurLevel(), disabled') ==
        KeyStep(Control(old(bgsub.frameNum), old(BlurLevel()), disabled), key)
      ensures stop == KeyStop(key)
      ensures bgsub.blurMask == old(bgsub.blurMask)
      ensures background.Movie? ==> background.movie.Position() == old(background.movie.Position())
      ensures background.Still? ==> background.still.image == old(background.still.image)
      ensures background.Movie? ==>
        background.movie.image == old(background.movie.image) && background.movie.frame == old(background.movie.frame)
      ensures background.Movie? || key != 'b' ==> Showing() == old(Showing())
    {
      disabled', stop := disabled, None;
      if key == 'b' {
        var level := BlurLevel();
        var next := NextBlurLevel(level);
        if background.Still? {
          background.still.SetBlurLevel(next);
        } else {
          background.movie.SetBlurLevel(next);
        }
      } else if key == 'd' {
        disabled' := !disabled;
      } else if key == 'f' {
        stop := Some(Crash(UndefinedVideoBackground));
      } else if key == 'q' {
        stop := Some(Quit);
      } else if key == 'r' {
        bgsub.ForgetMask();
      }
    }
  }
}
