/** The word-image renderer `create_styled_text_image`. The image is
    modelled as its draw plan: canvas size, an optional background panel,
    and for each word the glow layers, the stroke layers and the main glyph,
    in the order they are painted. Text measurement (PIL's `textbbox`) is
    the parameter `measure`, applied to the word with its trailing space. */
module Renderer {
  import opened Wrappers
  import opened Templates

  datatype Draw =
    | Rectangle(x0: int, y0: int, x1: int, y1: int, fill: Rgba)
    | RoundedRectangle(x0: int, y0: int, x1: int, y1: int, radius: int, fill: Rgba)
    | Text(x: int, y: int, text: string, fill: Rgba)

  /** One word's layers: glow first, then stroke, then the main glyph. */
  datatype WordPlan = WordPlan(x: int, width: nat, word: string, glow: seq<Draw>, stroke: seq<Draw>, main: Draw)

  datatype Canvas = Canvas(width: int, height: int, background: Option<Draw>, words: seq<WordPlan>)

  const BaseHeight := 130
  const TextY := 45
  const GlowOffsets: seq<int> := [6, 4, 2]
  const DefaultStrokeColor := Rgba(0, 0, 0, 255)

  /** Each word is measured and drawn with one trailing space. */
  function Label(word: string): string {
    word + " "
  }

  function SumWidths(words: seq<string>, measure: string -> nat): nat {
    if |words| == 0 then 0
    else SumWidths(words[..|words| - 1], measure) + measure(Label(words[|words| - 1]))
  }

  lemma PrefixSumStep(words: seq<string>, measure: string -> nat)
    ensures forall i :: 0 <= i < |words| ==>
              SumWidths(words[..i + 1], measure) == SumWidths(words[..i], measure) + measure(Label(words[i]))
  {
    forall i | 0 <= i < |words|
      ensures SumWidths(words[..i + 1], measure) == SumWidths(words[..i], measure) + measure(Label(words[i]))
    {
      assert words[..i + 1][..i] == words[..i];
    }
  }

  /** The left edge of every word: the first at `padding`, each next one
      advanced by the measured width of the one before. */
  function Positions(words: seq<string>, padding: int, measure: string -> nat): (xs: seq<int>)
    ensures |xs| == |words|
    ensures |words| > 0 ==> xs[0] == padding
    ensures forall i :: 0 <= i < |words| - 1 ==> xs[i + 1] == xs[i] + measure(Label(words[i]))
    ensures |words| > 0 ==>
              xs[|words| - 1] + measure(Label(words[|words| - 1])) == padding + SumWidths(words, measure)
  {
    PrefixSumStep(words, measure);
    assert |words| > 0 ==> words[..|words|] == words;
    seq(|words|, i requires 0 <= i < |words| => padding + SumWidths(words[..i], measure))
  }

  function HalfAlpha(c: Rgba): Rgba {
    Rgba(c.r, c.g, c.b, c.a / 2)
  }

  /** The glow halo: for each offset `o`, one copy at `(+o, +o)` and one at `(-o, -o)`. */
  function GlowLayers(offsets: seq<int>, x: int, text: string, fill: Rgba): (ds: seq<Draw>)
    ensures |ds| == 2 * |offsets|
    ensures forall k :: 0 <= k < |offsets| ==>
              && ds[2 * k] == Text(x + offsets[k], TextY + offsets[k], text, fill)
              && ds[2 * k + 1] == Text(x - offsets[k], TextY - offsets[k], text, fill)
  {
    if |offsets| == 0 then []
    else
      var o := offsets[0];
      var rest := GlowLayers(offsets[1..], x, text, fill);
      assert forall k :: 1 <= k < |offsets| ==> offsets[k] == offsets[1..][k - 1];
      [Text(x + o, TextY + o, text, fill), Text(x - o, TextY - o, text, fill)] + rest
  }

  // ---------------------------------------------------------------------
  // Stroke offsets: every (dx, dy) in [-w, w] x [-w, w] except (0, 0),
  // dx in the outer loop and dy in the inner one.

  function StrokeRow(dx: int, dy: int, w: int): seq<(int, int)>
    decreases w + 1 - dy
  {
    if dy > w then []
    else (if dx != 0 || dy != 0 then [(dx, dy)] else []) + StrokeRow(dx, dy + 1, w)
  }

  function StrokeGrid(dx: int, w: int): seq<(int, int)>
    decreases w + 1 - dx
  {
    if dx > w then [] else StrokeRow(dx, -w, w) + StrokeGrid(dx + 1, w)
  }

  function StrokeOffsets(w: int): seq<(int, int)> {
    StrokeGrid(-w, w)
  }

  predicate LexLess(p: (int, int), q: (int, int)) {
    p.0 < q.0 || (p.0 == q.0 && p.1 < q.1)
  }

  predicate LexSorted(s: seq<(int, int)>) {
    forall i, j :: 0 <= i < j < |s| ==> LexLess(s[i], s[j])
  }

  predicate InStrokeBox(p: (int, int), w: int) {
    -w <= p.0 <= w && -w <= p.1 <= w && p != (0, 0)
  }

  lemma SortedConcat(a: seq<(int, int)>, b: seq<(int, int)>)
    requires LexSorted(a) && LexSorted(b)
    requires forall p, q :: p in a && q in b ==> LexLess(p, q)
    ensures LexSorted(a + b)
  {
    var s := a + b;
    forall i, j | 0 <= i < j < |s|
      ensures LexLess(s[i], s[j])
    {
      if j < |a| {
        assert s[i] == a[i] && s[j] == a[j];
      } else if i >= |a| {
        assert s[i] == b[i - |a|] && s[j] == b[j - |a|];
      } else {
        assert s[i] in a && s[j] in b;
      }
    }
  }

  lemma {:induction false} StrokeRowMembers(dx: int, dy: int, w: int)
    ensures forall p :: p in StrokeRow(dx, dy, w) <==> p.0 == dx && dy <= p.1 <= w && p != (0, 0)
    decreases w + 1 - dy
  {
    if dy <= w {
      StrokeRowMembers(dx, dy + 1, w);
      var head: seq<(int, int)> := if dx != 0 || dy != 0 then [(dx, dy)] else [];
      assert StrokeRow(dx, dy, w) == head + StrokeRow(dx, dy + 1, w);
    }
  }

  lemma {:induction false} StrokeRowLength(dx: int, dy: int, w: int)
    ensures |StrokeRow(dx, dy, w)| ==
              (if dy <= w then w + 1 - dy else 0) - (if dx == 0 && dy <= 0 <= w then 1 else 0)
    decreases w + 1 - dy
  {
    if dy <= w {
      StrokeRowLength(dx, dy + 1, w);
    }
  }

  lemma {:induction false} StrokeRowSorted(dx: int, dy: int, w: int)
    ensures LexSorted(StrokeRow(dx, dy, w))
    decreases w + 1 - dy
  {
    if dy <= w {
      StrokeRowSorted(dx, dy + 1, w);
      StrokeRowMembers(dx, dy + 1, w);
      var head: seq<(int, int)> := if dx != 0 || dy != 0 then [(dx, dy)] else [];
      var rest := StrokeRow(dx, dy + 1, w);
      assert StrokeRow(dx, dy, w) == head + rest;
      SortedConcat(head, rest);
    }
  }

  lemma {:induction false} StrokeGridMembers(dx: int, w: int)
    requires -w <= dx
    ensures forall p :: p in StrokeGrid(dx, w) <==> dx <= p.0 && InStrokeBox(p, w)
    decreases w + 1 - dx
  {
    if dx <= w {
      StrokeRowMembers(dx, -w, w);
      StrokeGridMembers(dx + 1, w);
      var row := StrokeRow(dx, -w, w);
      var rest := StrokeGrid(dx + 1, w);
      assert StrokeGrid(dx, w) == row + rest;
      forall p
        ensures p in StrokeGrid(dx, w) <==> dx <= p.0 && InStrokeBox(p, w)
      {
        assert p in row + rest <==> p in row || p in rest;
      }
    }
  }

  lemma {:induction false} StrokeGridLength(dx: int, w: int)
    requires w >= 0 && dx <= w + 1
    ensures |StrokeGrid(dx, w)| == (w + 1 - dx) * (2 * w + 1) - (if dx <= 0 then 1 else 0)
    decreases w + 1 - dx
  {
    if dx <= w {
      StrokeRowLength(dx, -w, w);
      StrokeGridLength(dx + 1, w);
      assert StrokeGrid(dx, w) == StrokeRow(dx, -w, w) + StrokeGrid(dx + 1, w);
      assert (w + 1 - dx) * (2 * w + 1) == (2 * w + 1) + (w + 1 - (dx + 1)) * (2 * w + 1);
    }
  }

  lemma {:induction false} StrokeGridSorted(dx: int, w: int)
    requires -w <= dx
    ensures LexSorted(StrokeGrid(dx, w))
    decreases w + 1 - dx
  {
    if dx <= w {
      StrokeRowSorted(dx, -w, w);
      StrokeRowMembers(dx, -w, w);
      StrokeGridSorted(dx + 1, w);
      StrokeGridMembers(dx + 1, w);
      var row := StrokeRow(dx, -w, w);
      var rest := StrokeGrid(dx + 1, w);
      assert StrokeGrid(dx, w) == row + rest;
      SortedConcat(row, rest);
    }
  }

  /** The stroke offsets are exactly the non-zero points of the
      `[-w, w] x [-w, w]` box, each once, `(2w+1)^2 - 1` of them, in
      row-major order. */
  lemma StrokeOffsetsExact(w: nat)
    ensures |StrokeOffsets(w)| == StrokeCount(w)
    ensures forall p :: p in StrokeOffsets(w) <==> InStrokeBox(p, w)
    ensures LexSorted(StrokeOffsets(w))
  {
    StrokeGridMembers(0 - w, w);
    StrokeGridLength(0 - w, w);
    StrokeGridSorted(0 - w, w);
  }

  /** `(2w+1)^2 - 1`, the number of non-zero offsets in the stroke box. */
  function StrokeCount(w: int): int {
    (2 * w + 1) * (2 * w + 1) - 1
  }

  function StrokeLayers(offsets: seq<(int, int)>, x: int, text: string, fill: Rgba): (ds: seq<Draw>)
    ensures |ds| == |offsets|
  {
    seq(|offsets|, k requires 0 <= k < |offsets| => Text(x + offsets[k].0, TextY + offsets[k].1, text, fill))
  }

  // ---------------------------------------------------------------------
  // Whole image

  /** The layers of word `i` drawn at `x` when word `highlight` is the lit one. */
  function PlanWord(i: int, x: int, width: nat, word: string, highlight: int, style: Style): (p: WordPlan)
    ensures p.x == x && p.width == width && p.word == word
    ensures p.main == Text(x, TextY, Label(word), if i == highlight then style.highlightColor else style.textColor)
  {
    var lit := i == highlight;
    var colour := if lit then style.highlightColor else style.textColor;
    var glowColour := HalfAlpha(style.glowColor.GetOr(style.highlightColor));
    var glow := if lit && style.hasGlow then GlowLayers(GlowOffsets, x, Label(word), glowColour) else [];
    var stroke :=
      if style.strokeWidth > 0
      then StrokeLayers(StrokeOffsets(style.strokeWidth), x, Label(word), style.strokeColor.GetOr(DefaultStrokeColor))
      else [];
    WordPlan(x, width, word, glow, stroke, Text(x, TextY, Label(word), colour))
  }

  /** The panel behind the words: none when the background is fully
      transparent, rounded when the style has a corner radius. */
  function Background(style: Style, width: int, height: int): Option<Draw> {
    if style.bgColor.a > 0 then
      if style.radius > 0 then Some(RoundedRectangle(0, 0, width, height, style.radius, style.bgColor))
      else Some(Rectangle(0, 0, width, height, style.bgColor))
    else None
  }

  /** The style the renderer draws with: the one given, or the classic one. */
  function EffectiveStyle(style: Option<Style>): Style {
    style.GetOr(Classic)
  }

  /** `create_styled_text_image(words, highlight_idx, style)`. */
  function Render(words: seq<string>, highlight: int, style: Option<Style>, measure: string -> nat): (c: Canvas)
    ensures |c.words| == |words|
    ensures c.height == BaseHeight + EffectiveStyle(style).padding / 2
    ensures c.width == 2 * EffectiveStyle(style).padding + SumWidths(words, measure)
  {
    var st := EffectiveStyle(style);
    var xs := Positions(words, st.padding, measure);
    var width := st.padding + SumWidths(words, measure) + st.padding;
    var height := BaseHeight + st.padding / 2;
    Canvas(width, height, Background(st, width, height),
           seq(|words|, i requires 0 <= i < |words| =>
                 PlanWord(i, xs[i], measure(Label(words[i])), words[i], highlight, st)))
  }

  /** The full draw sequence: background first, then each word's glow,
      stroke and main glyph, words left to right. */
  function Commands(c: Canvas): seq<Draw> {
    (if c.background.Some? then [c.background.value] else []) + WordCommands(c.words)
  }

  function WordCommands(ws: seq<WordPlan>): seq<Draw> {
    if |ws| == 0 then [] else ws[0].glow + ws[0].stroke + [ws[0].main] + WordCommands(ws[1..])
  }

  // ---------------------------------------------------------------------
  // Properties

  lemma RenderWord(words: seq<string>, highlight: int, style: Option<Style>, measure: string -> nat, i: nat)
    requires i < |words|
    ensures var st := EffectiveStyle(style);
            Render(words, highlight, style, measure).words[i]
              == PlanWord(i, Positions(words, st.padding, measure)[i], measure(Label(words[i])), words[i], highlight, st)
  {
  }

  /** Word 0 starts at the padding, each next word starts where the one
      before ends, and the canvas ends one padding after the last word. Every
      word is drawn once, with its trailing space, at `(x, 45)`, in the
      highlight colour when it is the highlighted word and in the text
      colour otherwise. */
  lemma RenderLayout(words: seq<string>, highlight: int, style: Option<Style>, measure: string -> nat)
    ensures var c, st := Render(words, highlight, style, measure), EffectiveStyle(style);
            && (|words| > 0 ==> c.words[0].x == st.padding)
            && (forall i :: 0 <= i < |words| - 1 ==> c.words[i + 1].x == c.words[i].x + c.words[i].width)
            && (|words| > 0 ==> c.width == c.words[|words| - 1].x + c.words[|words| - 1].width + st.padding)
            && (|words| == 0 ==> c.width == 2 * st.padding)
            && (forall i :: 0 <= i < |words| ==>
                  && c.words[i].word == words[i]
                  && c.words[i].width == measure(Label(words[i]))
                  && c.words[i].main == Text(c.words[i].x, TextY, Label(words[i]),
                                             if i == highlight then st.highlightColor else st.textColor))
  {
    var c, st := Render(words, highlight, style, measure), EffectiveStyle(style);
    var xs := Positions(words, st.padding, measure);
    forall i | 0 <= i < |words|
      ensures c.words[i].x == xs[i] && c.words[i].word == words[i]
      ensures c.words[i].width == measure(Label(words[i]))
      ensures c.words[i].main == Text(xs[i], TextY, Label(words[i]),
                                      if i == highlight then st.highlightColor else st.textColor)
    {
      RenderWord(words, highlight, style, measure, i);
    }
  }

  /** Canvas size, background and every word's position, width and text are
      the same whichever word is highlighted; two variants differ at most in
      the two words involved. */
  lemma LayoutIndependentOfHighlight(words: seq<string>, h1: int, h2: int, style: Option<Style>, measure: string -> nat)
    ensures var c1, c2 := Render(words, h1, style, measure), Render(words, h2, style, measure);
            && c1.width == c2.width && c1.height == c2.height
            && c1.background == c2.background
            && |c1.words| == |c2.words|
            && (forall i :: 0 <= i < |words| ==>
                  && c1.words[i].x == c2.words[i].x
                  && c1.words[i].width == c2.words[i].width
                  && c1.words[i].main.Text? && c2.words[i].main.Text?
                  && c1.words[i].main.x == c2.words[i].main.x
                  && c1.words[i].main.y == c2.words[i].main.y
                  && c1.words[i].main.text == c2.words[i].main.text
                  && c1.words[i].stroke == c2.words[i].stroke)
            && (forall i :: 0 <= i < |words| && i != h1 && i != h2 ==> c1.words[i] == c2.words[i])
  {
    RenderLayout(words, h1, style, measure);
    RenderLayout(words, h2, style, measure);
    forall i | 0 <= i < |words|
      ensures Render(words, h1, style, measure).words[i].stroke == Render(words, h2, style, measure).words[i].stroke
      ensures i != h1 && i != h2 ==> Render(words, h1, style, measure).words[i] == Render(words, h2, style, measure).words[i]
    {
      RenderWord(words, h1, style, measure, i);
      RenderWord(words, h2, style, measure, i);
    }
  }

  /** The word at `highlight` is drawn in the highlight colour, every other
      word in the text colour; with glow on, only that word gets the six
      half-alpha glow layers at offsets 6, 4, 2. */
  lemma HighlightAndGlow(words: seq<string>, highlight: int, style: Option<Style>, measure: string -> nat)
    ensures var c, st := Render(words, highlight, style, measure), EffectiveStyle(style);
            forall i :: 0 <= i < |words| ==> HighlightedAsStyled(c.words[i], i, highlight, st)
  {
    var c, st := Render(words, highlight, style, measure), EffectiveStyle(style);
    forall i | 0 <= i < |words|
      ensures HighlightedAsStyled(c.words[i], i, highlight, st)
    {
      var x := Positions(words, st.padding, measure)[i];
      RenderWord(words, highlight, style, measure, i);
      PlanWordGlow(i, x, measure(Label(words[i])), words[i], highlight, st);
    }
  }

  /** Word `i` is drawn in the highlight colour exactly when it is the lit
      one, and carries glow layers exactly when it is lit and the style
      glows: six half-alpha copies at offsets `(±6, ±6)`, `(±4, ±4)`,
      `(±2, ±2)`, outermost first. */
  predicate HighlightedAsStyled(p: WordPlan, i: int, highlight: int, st: Style) {
    && p.main.Text?
    && p.main.fill == (if i == highlight then st.highlightColor else st.textColor)
    && (|p.glow| > 0 <==> i == highlight && st.hasGlow)
    && (i == highlight && st.hasGlow ==>
          var g := HalfAlpha(st.glowColor.GetOr(st.highlightColor));
          var x, t := p.x, Label(p.word);
          p.glow == [Text(x + 6, TextY + 6, t, g), Text(x - 6, TextY - 6, t, g),
                     Text(x + 4, TextY + 4, t, g), Text(x - 4, TextY - 4, t, g),
                     Text(x + 2, TextY + 2, t, g), Text(x - 2, TextY - 2, t, g)])
  }

  lemma PlanWordGlow(i: int, x: int, width: nat, word: string, highlight: int, st: Style)
    ensures HighlightedAsStyled(PlanWord(i, x, width, word, highlight, st), i, highlight, st)
  {
    if i == highlight && st.hasGlow {
      var g := HalfAlpha(st.glowColor.GetOr(st.highlightColor));
      var ds := GlowLayers(GlowOffsets, x, Label(word), g);
      assert ds[0] == ds[2 * 0] && ds[1] == ds[2 * 0 + 1];
      assert ds[2] == ds[2 * 1] && ds[3] == ds[2 * 1 + 1];
      assert ds[4] == ds[2 * 2] && ds[5] == ds[2 * 2 + 1];
    }
  }

  /** Highlight index -1 (or any index outside the word list) lights no
      word: all are drawn in the text colour and none glows. */
  lemma NoHighlight(words: seq<string>, highlight: int, style: Option<Style>, measure: string -> nat)
    requires highlight < 0 || highlight >= |words|
    ensures var c := Render(words, highlight, style, measure);
            forall i :: 0 <= i < |words| ==>
              c.words[i].main.fill == EffectiveStyle(style).textColor && c.words[i].glow == []
  {
    forall i | 0 <= i < |words| {
      RenderWord(words, highlight, style, measure, i);
    }
  }

  /** `ds` holds a copy of `t` in colour `col` at `(x + dx, 45 + dy)` for
      exactly the non-zero offsets `(dx, dy)` of the `[-w, w]` box. */
  ghost predicate OutlinesBox(ds: seq<Draw>, x: int, t: string, col: Rgba, w: int) {
    forall dx, dy :: InStrokeBox((dx, dy), w) <==> Text(x + dx, TextY + dy, t, col) in ds
  }

  lemma StrokeLayersCover(offs: seq<(int, int)>, x: int, t: string, col: Rgba, w: int)
    requires forall p :: p in offs <==> InStrokeBox(p, w)
    ensures OutlinesBox(StrokeLayers(offs, x, t, col), x, t, col, w)
  {
    var ds := StrokeLayers(offs, x, t, col);
    forall dx, dy
      ensures InStrokeBox((dx, dy), w) <==> Text(x + dx, TextY + dy, t, col) in ds
    {
      var d := Text(x + dx, TextY + dy, t, col);
      if InStrokeBox((dx, dy), w) {
        var k :| 0 <= k < |offs| && offs[k] == (dx, dy);
        assert ds[k] == d;
      }
      if d in ds {
        var k :| 0 <= k < |ds| && ds[k] == d;
        assert offs[k] == (dx, dy);
      }
    }
  }

  /** With a positive stroke width `w`, every word carries `(2w+1)^2 - 1`
      stroke layers in the stroke colour (black by default), one at each
      non-zero offset of the `[-w, w]` box; with width 0 it carries none. */
  lemma StrokeOutline(words: seq<string>, highlight: int, style: Option<Style>, measure: string -> nat)
    ensures var c, st := Render(words, highlight, style, measure), EffectiveStyle(style);
            var w := st.strokeWidth;
            forall i :: 0 <= i < |words| ==>
              && (w <= 0 ==> c.words[i].stroke == [])
              && (w > 0 ==>
                    && |c.words[i].stroke| == StrokeCount(w)
                    && OutlinesBox(c.words[i].stroke, c.words[i].x, Label(words[i]),
                                   st.strokeColor.GetOr(DefaultStrokeColor), w))
  {
    var c, st := Render(words, highlight, style, measure), EffectiveStyle(style);
    var w := st.strokeWidth;
    var col := st.strokeColor.GetOr(DefaultStrokeColor);
    forall i | 0 <= i < |words|
      ensures w <= 0 ==> c.words[i].stroke == []
      ensures w > 0 ==>
                && |c.words[i].stroke| == StrokeCount(w)
                && OutlinesBox(c.words[i].stroke, c.words[i].x, Label(words[i]), col, w)
    {
      var x := Positions(words, st.padding, measure)[i];
      var p := PlanWord(i, x, measure(Label(words[i])), words[i], highlight, st);
      RenderWord(words, highlight, style, measure, i);
      assert c.words[i] == p;
      PlanWordStroke(i, x, measure(Label(words[i])), words[i], highlight, st);
    }
  }

  lemma PlanWordStroke(i: int, x: int, width: nat, word: string, highlight: int, st: Style)
    ensures var p := PlanWord(i, x, width, word, highlight, st);
            var w := st.strokeWidth;
            && (w <= 0 ==> p.stroke == [])
            && (w > 0 ==>
                  && |p.stroke| == StrokeCount(w)
                  && OutlinesBox(p.stroke, x, Label(word), st.strokeColor.GetOr(DefaultStrokeColor), w))
  {
    var p := PlanWord(i, x, width, word, highlight, st);
    var w := st.strokeWidth;
    if w > 0 {
      var col := st.strokeColor.GetOr(DefaultStrokeColor);
      var offs := StrokeOffsets(w);
      assert p.stroke == StrokeLayers(offs, x, Label(word), col);
      StrokeOffsetsExact(w);
      StrokeLayersCover(offs, x, Label(word), col, w);
    }
  }

  /** A background panel is drawn exactly when its alpha is positive; it
      is rounded exactly when the radius is positive and covers the whole
      canvas in the background colour. */
  lemma BackgroundPanel(words: seq<string>, highlight: int, style: Option<Style>, measure: string -> nat)
    ensures var c, st := Render(words, highlight, style, measure), EffectiveStyle(style);
            && (c.background.Some? <==> st.bgColor.a > 0)
            && (c.background.Some? ==>
                  && (c.background.value.RoundedRectangle? <==> st.radius > 0)
                  && c.background.value.x0 == 0 && c.background.value.y0 == 0
                  && c.background.value.x1 == c.width && c.background.value.y1 == c.height
                  && c.background.value.fill == st.bgColor)
  {
  }

  /** Without a style argument the classic template is used. */
  lemma DefaultStyleIsClassic(words: seq<string>, highlight: int, measure: string -> nat)
    ensures Render(words, highlight, None, measure) == Render(words, highlight, Some(Resolve(DefaultKey)), measure)
  {
    LookupFindsEntry(Registry, 0);
  }

  lemma {:induction false} PlainWordCommands(ws: seq<WordPlan>)
    requires forall i :: 0 <= i < |ws| ==> ws[i].glow == [] && ws[i].stroke == []
    ensures WordCommands(ws) == seq(|ws|, i requires 0 <= i < |ws| => ws[i].main)
  {
    if |ws| > 0 {
      PlainWordCommands(ws[1..]);
    }
  }

  /** For a style without glow or stroke the draw sequence is the background
      panel (if any) followed by one main glyph per word, left to right. */
  lemma PlainStyleCommands(words: seq<string>, highlight: int, style: Option<Style>, measure: string -> nat)
    requires !EffectiveStyle(style).hasGlow && EffectiveStyle(style).strokeWidth <= 0
    ensures var c := Render(words, highlight, style, measure);
            var b := if c.background.Some? then 1 else 0;
            && |Commands(c)| == b + |words|
            && forall i :: 0 <= i < |words| ==> Commands(c)[b + i] == c.words[i].main
  {
    var c := Render(words, highlight, style, measure);
    StrokeOutline(words, highlight, style, measure);
    forall i | 0 <= i < |words|
      ensures c.words[i].glow == [] && c.words[i].stroke == []
    {
      RenderWord(words, highlight, style, measure, i);
    }
    PlainWordCommands(c.words);
  }
}
