/** The ffmpeg invocation `process_video` builds: a filter graph that scales
    and pads the video to the requested frame, then stacks one `overlay`
    stage per schedule entry, each shown only inside its own time window;
    and the argument vector that binds every overlay image to its input
    stream. Python's float formatting inside the `between(t, a, b)` text is
    the parameter `fmt`. */
module FilterGraph {
  import opened Wrappers
  import opened Text
  import opened TimeCodec
  import opened Schedule

  /** The scale-and-pad stage around its `width:height` size, which it
      uses twice: shrink to fit, then pad to the full frame, centred, in
      black. */
  function ScalePadText(dims: string): string {
    "scale=" + dims + ":force_original_aspect_ratio=decrease,pad=" + dims + ":(ow-iw)/2:(oh-ih)/2:color=black"
  }

  /** The pre-overlay stage for a `"9:16"` request: 720x1280, letterboxed. */
  const PortraitFilter := ScalePadText("720:1280")

  /** The pre-overlay stage for every other aspect value: 1280x720. */
  const LandscapeFilter := ScalePadText("1280:720")

  /** Output frame size in pixels. */
  datatype Frame = Frame(width: nat, height: nat)

  /** The frame `aspect` asks for: portrait only for the exact text
      `"9:16"`, landscape for anything else (including `"16:9"`, `""`,
      or `"9:16 "`). */
  function FrameFor(aspect: string): (f: Frame)
    ensures f.height > f.width <==> aspect == "9:16"
    ensures {f.width, f.height} == {720, 1280}
  {
    if aspect == "9:16" then Frame(720, 1280) else Frame(1280, 720)
  }

  /** The scale-and-pad stage that letterboxes the video into `f`, its size
      written as decimal `width:height`. */
  function ScalePad(f: Frame): string {
    ScalePadText(NatToString(f.width) + ":" + NatToString(f.height))
  }

  /** `base_filter`: the scale-and-pad stage for the frame `aspect` asks for. */
  function BaseFilter(aspect: string): string {
    ScalePad(FrameFor(aspect))
  }

  lemma Digits720And1280()
    ensures NatToString(720) == "720" && NatToString(1280) == "1280"
  {
    assert NatToString(72) == NatToString(7) + "2" == "72";
    assert NatToString(720) == NatToString(72) + "0";
    assert NatToString(12) == NatToString(1) + "2" == "12";
    assert NatToString(128) == NatToString(12) + "8" == "128";
    assert NatToString(1280) == NatToString(128) + "0";
  }

  /** The stage built from the frame is the source's literal filter text:
      the 720:1280 one for `"9:16"`, the 1280:720 one for anything else. */
  lemma BaseFilterText(aspect: string)
    ensures aspect == "9:16" ==> BaseFilter(aspect) == PortraitFilter
    ensures aspect != "9:16" ==> BaseFilter(aspect) == LandscapeFilter
  {
    Digits720And1280();
    if aspect == "9:16" {
      assert NatToString(720) + ":" + NatToString(1280) == "720:1280";
    } else {
      assert NatToString(1280) + ":" + NatToString(720) == "1280:720";
    }
  }

  /** A decoded overlay window in seconds. */
  datatype Window = Window(start: real, end: real)

  /** Whether both timestamps of an entry decode without raising. */
  predicate Decodes(o: Overlay) {
    ParseTimeToSeconds(o.start).Success? && ParseTimeToSeconds(o.end).Success?
  }

  /** The exception an entry that does not decode raises: its start field is
      converted first, so a bad start wins over a bad end. */
  function DecodeError(o: Overlay): Raised
    requires !Decodes(o)
  {
    if ParseTimeToSeconds(o.start).Failure? then ParseTimeToSeconds(o.start).error
    else ParseTimeToSeconds(o.end).error
  }

  function WindowOf(o: Overlay): Window
    requires Decodes(o)
  {
    Window(ParseTimeToSeconds(o.start).value, ParseTimeToSeconds(o.end).value)
  }

  /** The loop's `parse_time_to_seconds` calls, entry by entry, start before
      end; the first exception ends the loop. */
  function DecodeWindows(os: seq<Overlay>): (r: Result<seq<Window>, Raised>)
    ensures r.Success? <==> forall i :: 0 <= i < |os| ==> Decodes(os[i])
    ensures r.Success? ==> |r.value| == |os| && forall i :: 0 <= i < |os| ==> r.value[i] == WindowOf(os[i])
    ensures r.Failure? ==>
              exists i :: 0 <= i < |os| && !Decodes(os[i]) && r.error == DecodeError(os[i])
                          && forall j :: 0 <= j < i ==> Decodes(os[j])
  {
    if |os| == 0 then Success([])
    else
      var start :- ParseTimeToSeconds(os[0].start);
      var end :- ParseTimeToSeconds(os[0].end);
      var rest :- DecodeWindows(os[1..]);
      assert forall i :: 1 <= i < |os| ==> os[i] == os[1..][i - 1];
      Success([Window(start, end)] + rest)
  }

  /** A pad label of the graph: `base` after scaling, `v{i}` after stage
      `i`, and `out` after the last stage. */
  datatype Label = Base | V(index: nat) | Out

  function LabelText(l: Label): string {
    match l
    case Base => "base"
    case V(i) => "v" + NatToString(i)
    case Out => "out"
  }

  /** Distinct labels have distinct texts, so the graph's pads never clash. */
  lemma LabelTextInjective(a: Label, b: Label)
    requires LabelText(a) == LabelText(b)
    ensures a == b
  {
    LabelFirstChar(a);
    LabelFirstChar(b);
    if a.V? && b.V? {
      assert NatToString(a.index) == LabelText(a)[1..];
      assert NatToString(b.index) == LabelText(b)[1..];
      NatToStringInjective(a.index, b.index);
    }
  }

  lemma LabelFirstChar(l: Label)
    ensures |LabelText(l)| > 0
    ensures LabelText(l)[0] == (match l case Base => 'b' case V(_) => 'v' case Out => 'o')
  {
  }

  /** One `overlay` stage: `[input][stream:v]overlay=...:enable='between(t,start,end)'[output]`. */
  datatype Step = Step(input: Label, stream: nat, start: real, end: real, output: Label)

  /** The graph: the scale-and-pad stage into `frame`, then the chain. */
  datatype Graph = Graph(frame: Frame, steps: seq<Step>)

  /** The label stage `i` of `n` writes: `v{i}`, or `out` for the last one. */
  function OutLabel(i: nat, n: nat): Label {
    if i + 1 < n then V(i) else Out
  }

  /** The loop body from stage `i` on, threading `current_label`; the
      overlay input index is always one past the stage index. */
  function ChainFrom(ws: seq<Window>, i: nat, current: Label, n: nat): (steps: seq<Step>)
    requires i + |ws| == n
    ensures |steps| == |ws|
    decreases |ws|
  {
    if |ws| == 0 then []
    else
      var next := OutLabel(i, n);
      [Step(current, i + 1, ws[0].start, ws[0].end, next)] + ChainFrom(ws[1..], i + 1, next, n)
  }

  /** The graph `process_video` assembles for the schedule `os`. */
  function AssembleGraph(aspect: string, os: seq<Overlay>): (r: Result<Graph, Raised>)
    ensures r.Success? <==> DecodeWindows(os).Success?
    ensures r.Success? ==> r.value.frame == FrameFor(aspect) && |r.value.steps| == |os|
    ensures r.Failure? ==> r.error == DecodeWindows(os).error
  {
    var ws :- DecodeWindows(os);
    Success(Graph(FrameFor(aspect), ChainFrom(ws, 0, Base, |ws|)))
  }

  // ---------------------------------------------------------------------
  // Wiring of the chain

  lemma {:induction false} ChainFromShape(ws: seq<Window>, i: nat, current: Label, n: nat)
    requires i + |ws| == n
    ensures var steps := ChainFrom(ws, i, current, n);
            forall k :: 0 <= k < |ws| ==>
              && steps[k].stream == i + k + 1
              && steps[k].output == OutLabel(i + k, n)
              && steps[k].input == (if k == 0 then current else OutLabel(i + k - 1, n))
              && steps[k].start == ws[k].start && steps[k].end == ws[k].end
    decreases |ws|
  {
    if |ws| > 0 {
      var steps := ChainFrom(ws, i, current, n);
      var rest := ChainFrom(ws[1..], i + 1, OutLabel(i, n), n);
      ChainFromShape(ws[1..], i + 1, OutLabel(i, n), n);
      assert steps == [steps[0]] + rest;
      forall k | 1 <= k < |ws|
        ensures steps[k] == rest[k - 1] && ws[k] == ws[1..][k - 1]
      {
      }
    }
  }

  /** The stages form a single chain from `base` to `out`: stage 0 reads
      `[base]` and overlay input 1, stage `i + 1` reads exactly what stage
      `i` wrote and input `i + 2`, every stage writes a fresh label, only the
      last one writes `[out]`, and no stage writes `[base]`. */
  predicate Chained(steps: seq<Step>) {
    && (|steps| > 0 ==> steps[0].input == Base)
    && (forall i :: 0 <= i < |steps| ==> steps[i].stream == i + 1)
    && (forall i :: 0 <= i < |steps| - 1 ==> steps[i + 1].input == steps[i].output)
    && (|steps| > 0 ==> steps[|steps| - 1].output == Out)
    && (forall i :: 0 <= i < |steps| - 1 ==> steps[i].output != Out)
    && (forall i, j :: 0 <= i < j < |steps| ==> steps[i].output != steps[j].output)
    && (forall i :: 0 <= i < |steps| ==> steps[i].output != Base)
  }

  lemma ChainIsChained(ws: seq<Window>)
    ensures Chained(ChainFrom(ws, 0, Base, |ws|))
  {
    ChainFromShape(ws, 0, Base, |ws|);
  }

  lemma AssembledSteps(aspect: string, os: seq<Overlay>)
    requires AssembleGraph(aspect, os).Success?
    ensures |DecodeWindows(os).value| == |os|
    ensures AssembleGraph(aspect, os).value.steps == ChainFrom(DecodeWindows(os).value, 0, Base, |os|)
  {
  }

  lemma GraphChained(aspect: string, os: seq<Overlay>)
    requires AssembleGraph(aspect, os).Success?
    ensures Chained(AssembleGraph(aspect, os).value.steps)
  {
    AssembledSteps(aspect, os);
    ChainIsChained(DecodeWindows(os).value);
  }

  /** Stage `i` is fed with the image of entry `i` and the window its own
      start and end strings decode to. */
  lemma StepWindows(aspect: string, os: seq<Overlay>)
    requires AssembleGraph(aspect, os).Success?
    ensures var steps := AssembleGraph(aspect, os).value.steps;
            forall i :: 0 <= i < |os| ==>
              && Decodes(os[i])
              && steps[i].start == ParseTimeToSeconds(os[i].start).value
              && steps[i].end == ParseTimeToSeconds(os[i].end).value
  {
    AssembledSteps(aspect, os);
    ChainFromShape(DecodeWindows(os).value, 0, Base, |os|);
  }

  /** With an empty schedule no stage writes `[out]`, yet the command still
      maps `[out]`: the graph has nothing to feed that output. */
  lemma EmptyScheduleHasNoOut(aspect: string)
    ensures AssembleGraph(aspect, []) == Success(Graph(FrameFor(aspect), []))
  {
  }

  // ---------------------------------------------------------------------
  // When an overlay is on screen

  /** ffmpeg's `between(t, a, b)`: true for `a <= t <= b`, ends included. */
  predicate Visible(s: Step, t: real) {
    s.start <= t <= s.end
  }

  /** Entry `i` is on screen exactly at the times between its decoded start
      and end, both included; a window whose end decodes before its start is
      never shown. */
  lemma VisibleWindow(aspect: string, os: seq<Overlay>, i: nat, t: real)
    requires AssembleGraph(aspect, os).Success?
    requires i < |os|
    ensures Decodes(os[i])
    ensures var step := AssembleGraph(aspect, os).value.steps[i];
            Visible(step, t) <==> WindowOf(os[i]).start <= t <= WindowOf(os[i]).end
    ensures WindowOf(os[i]).end < WindowOf(os[i]).start ==> !Visible(AssembleGraph(aspect, os).value.steps[i], t)
  {
    StepWindows(aspect, os);
  }

  // ---------------------------------------------------------------------
  // The filter text

  function Brackets(name: string): string {
    "[" + name + "]"
  }

  /** The text of one stage, up to and including its output pad. */
  function StepBody(s: Step, fmt: real -> string): string {
    Brackets(LabelText(s.input)) + Brackets(NatToString(s.stream) + ":v")
    + "overlay=(main_w-overlay_w)/2:main_h-overlay_h-100:enable='between(t," + fmt(s.start) + "," + fmt(s.end) + ")'"
    + Brackets(LabelText(s.output))
  }

  function StepsText(steps: seq<Step>, fmt: real -> string): string {
    if |steps| == 0 then "" else StepsText(steps[..|steps| - 1], fmt) + StepBody(steps[|steps| - 1], fmt) + ";"
  }

  /** The base stage, `[0:v]<filter>[base]`. */
  function BaseText(g: Graph): (t: string)
    ensures |t| > 5 && t[..5] == "[0:v]"
  {
    "[0:v]" + ScalePad(g.frame) + Brackets("base")
  }

  /** `filter_complex`: the base stage, every overlay stage, each followed by
      `;`, and then the trailing `;` stripped. */
  function FilterComplex(g: Graph, fmt: real -> string): (f: string)
    ensures |f| > 0 && f[|f| - 1] != ';'
  {
    var whole := BaseText(g) + ";" + StepsText(g.steps, fmt);
    var f := RStripChar(whole, ';');
    assert whole[4] == BaseText(g)[..5][4] == ']';
    f
  }

  /** The unstripped filter text without its final `;`. */
  function FilterBody(g: Graph, fmt: real -> string): string {
    if |g.steps| == 0 then BaseText(g)
    else BaseText(g) + ";" + StepsText(g.steps[..|g.steps| - 1], fmt) + StepBody(g.steps[|g.steps| - 1], fmt)
  }

  /** The label the last stage writes, `base` when there is no stage. */
  function LastLabel(g: Graph): Label {
    if |g.steps| == 0 then Base else g.steps[|g.steps| - 1].output
  }

  predicate EndsWith(s: string, t: string) {
    |t| <= |s| && s[|s| - |t|..] == t
  }

  lemma EndsWithAppend(a: string, b: string, t: string)
    requires EndsWith(b, t)
    ensures EndsWith(a + b, t)
  {
    assert (a + b)[|a + b| - |t|..] == b[|b| - |t|..];
  }

  lemma StepBodyTail(s: Step, fmt: real -> string)
    ensures EndsWith(StepBody(s, fmt), Brackets(LabelText(s.output)))
  {
    var t := Brackets(LabelText(s.output));
    var body := StepBody(s, fmt);
    var pre := body[..|body| - |t|];
    assert body == pre + t;
  }

  lemma FilterBodyTail(g: Graph, fmt: real -> string)
    ensures EndsWith(FilterBody(g, fmt), Brackets(LabelText(LastLabel(g))))
  {
    var n := |g.steps|;
    if n == 0 {
      EndsWithAppend("[0:v]" + ScalePad(g.frame), Brackets("base"), Brackets("base"));
      assert "[0:v]" + ScalePad(g.frame) + Brackets("base") == BaseText(g);
    } else {
      var s := g.steps[n - 1];
      StepBodyTail(s, fmt);
      EndsWithAppend(BaseText(g) + ";" + StepsText(g.steps[..n - 1], fmt), StepBody(s, fmt), Brackets(LabelText(s.output)));
    }
  }

  lemma WholeIsBody(g: Graph, fmt: real -> string)
    ensures BaseText(g) + ";" + StepsText(g.steps, fmt) == FilterBody(g, fmt) + ";"
  {
    var n := |g.steps|;
    if n > 0 {
      var b, c := StepsText(g.steps[..n - 1], fmt), StepBody(g.steps[n - 1], fmt);
      assert StepsText(g.steps, fmt) == b + c + ";";
      Regroup(BaseText(g), ";", b, c);
    }
  }

  lemma Regroup<T>(a: seq<T>, sep: seq<T>, b: seq<T>, c: seq<T>)
    ensures a + sep + (b + c + sep) == (a + sep + b + c) + sep
  {
  }

  /** Stripping removes exactly the one `;` after the last stage. */
  lemma FilterComplexIsBody(g: Graph, fmt: real -> string)
    ensures FilterComplex(g, fmt) == FilterBody(g, fmt)
  {
    var whole := BaseText(g) + ";" + StepsText(g.steps, fmt);
    var body := FilterBody(g, fmt);
    WholeIsBody(g, fmt);
    FilterBodyTail(g, fmt);
    assert body[|body| - 1] == ']';
    RStripCharUnique(whole, ';', body);
  }

  /** The text ends with the pad of the last stage, or with `[base]` when
      there is none. */
  lemma FilterComplexTail(g: Graph, fmt: real -> string)
    ensures EndsWith(FilterComplex(g, fmt), Brackets(LabelText(LastLabel(g))))
  {
    FilterComplexIsBody(g, fmt);
    FilterBodyTail(g, fmt);
  }

  /** In the text of a chained graph with at least one stage, and so of
      every assembled graph with at least one overlay, the final pad is
      `[out]`, the one `-map '[out]'` selects. */
  lemma FilterEndsWithOut(g: Graph, fmt: real -> string)
    requires Chained(g.steps) && |g.steps| > 0
    ensures EndsWith(FilterComplex(g, fmt), "[out]")
  {
    assert LastLabel(g) == Out;
    assert Brackets(LabelText(Out)) == "[out]";
    FilterComplexTail(g, fmt);
  }

  /** With an empty schedule the whole text is the base stage. */
  lemma EmptyScheduleFilter(aspect: string, fmt: real -> string)
    ensures FilterComplex(Graph(FrameFor(aspect), []), fmt) == "[0:v]" + BaseFilter(aspect) + "[base]"
  {
    FilterComplexIsBody(Graph(FrameFor(aspect), []), fmt);
  }

  // ---------------------------------------------------------------------
  // The command line

  /** `-i path` for every overlay image, in schedule order. */
  function ImageInputs(paths: seq<string>): (args: seq<string>)
    ensures |args| == 2 * |paths|
    ensures forall k :: 0 <= k < |paths| ==> args[2 * k] == "-i" && args[2 * k + 1] == paths[k]
  {
    if |paths| == 0 then []
    else
      var rest := ImageInputs(paths[1..]);
      var args := ["-i", paths[0]] + rest;
      forall k | 1 <= k < |paths|
        ensures args[2 * k] == "-i" && args[2 * k + 1] == paths[k]
      {
        var j := k - 1;
        assert args[2 * k] == rest[2 * j];
        assert args[2 * k + 1] == rest[2 * j + 1];
        assert paths[k] == paths[1..][j];
      }
      args
  }

  function Paths(os: seq<Overlay>): (ps: seq<string>)
    ensures |ps| == |os|
    ensures forall i :: 0 <= i < |os| ==> ps[i] == Path(os[i])
  {
    seq(|os|, i requires 0 <= i < |os| => Path(os[i]))
  }

  const EncodeArgs := ["-c:v", "libx264", "-preset", "medium", "-crf", "23", "-pix_fmt", "yuv420p", "-c:a", "copy", "-y"]

  /** `ffmpeg_cmd`, for the overlay image paths `images`. */
  function FfmpegArgs(video: string, images: seq<string>, filter: string, output: string): seq<string> {
    ["ffmpeg", "-i", video] + ImageInputs(images)
    + ["-filter_complex", filter, "-map", "[out]", "-map", "0:a?"] + EncodeArgs + [output]
  }

  /** The input streams of the command: stream 0 is the source video and
      stream `i + 1`, which stage `i` overlays, is image `i`. After the
      inputs come the filter text, the `[out]` video pad and the optional
      source audio, and the output path is the last argument. */
  lemma FfmpegInputs(video: string, images: seq<string>, filter: string, output: string)
    ensures var args, n := FfmpegArgs(video, images, filter, output), |images|;
            && args[..3] == ["ffmpeg", "-i", video]
            && (forall i :: 0 <= i < n ==> args[3 + 2 * i] == "-i" && args[4 + 2 * i] == images[i])
            && args[3 + 2 * n..9 + 2 * n] == ["-filter_complex", filter, "-map", "[out]", "-map", "0:a?"]
            && args[|args| - 1] == output
  {
    var args := FfmpegArgs(video, images, filter, output);
    var ins := ImageInputs(images);
    var tail := ["-filter_complex", filter, "-map", "[out]", "-map", "0:a?"] + EncodeArgs + [output];
    assert args == ["ffmpeg", "-i", video] + ins + tail;
    forall i | 0 <= i < |images|
      ensures args[3 + 2 * i] == "-i" && args[4 + 2 * i] == images[i]
    {
      assert args[3 + 2 * i] == ins[2 * i];
      assert args[4 + 2 * i] == ins[2 * i + 1];
    }
    assert args[3 + 2 * |images|..9 + 2 * |images|] == tail[..6];
  }
}
