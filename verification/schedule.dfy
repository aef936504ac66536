/** The overlay schedule builder `create_caption_images_with_template`:
    for every caption segment with a non-empty word list, and for every word
    of it, one image of the whole segment with that word highlighted, named
    `seg_{segment index}_w_{word index}` and tagged with that word's raw
    start and end strings. */
module Schedule {
  import opened Wrappers
  import opened Text
  import opened Templates
  import opened Renderer

  /** A caption word as the client sends it; times stay `"MM:SS:mmm"` text. */
  datatype Word = Word(text: string, start: string, end: string)

  /** A caption segment; `words` is `None` when the key is missing. */
  datatype Segment = Segment(words: Option<seq<Word>>)

  /** One entry of `overlay_data`: the image of segment `seg` (word texts
      `texts`, drawn in `style`) with word `word` highlighted, saved under
      `dir`, and its time window. The file path and the picture itself are
      derived from these by `Path` and `Image`. */
  datatype Overlay = Overlay(dir: string, seg: nat, word: nat, texts: seq<string>, style: Style,
                             start: string, end: string)

  /** `caption.get('words', [])`. */
  function WordsOf(seg: Segment): seq<Word> {
    seg.words.GetOr([])
  }

  function Texts(words: seq<Word>): (ts: seq<string>)
    ensures |ts| == |words|
    ensures forall i :: 0 <= i < |words| ==> ts[i] == words[i].text
  {
    seq(|words|, i requires 0 <= i < |words| => words[i].text)
  }

  function ImageName(seg: nat, word: nat): string {
    "seg_" + NatToString(seg) + "_w_" + NatToString(word)
  }

  /** `Path(output_dir) / f"{name}.png"`. */
  function ImagePath(dir: string, name: string): string {
    dir + "/" + name + ".png"
  }

  /** The `path` key of an entry: `{dir}/seg_{seg}_w_{word}.png`. */
  function Path(o: Overlay): string {
    ImagePath(o.dir, ImageName(o.seg, o.word))
  }

  /** The picture saved at `Path(o)`, with the font metrics `measure`. */
  function Image(o: Overlay, measure: string -> nat): Canvas {
    Render(o.texts, o.word, Some(o.style), measure)
  }

  /** One image per word of one segment, word `k` highlighted in image `k`. */
  function SegmentOverlays(words: seq<Word>, seg: nat, dir: string, style: Style): (os: seq<Overlay>)
    ensures |os| == |words|
  {
    seq(|words|, k requires 0 <= k < |words| =>
          Overlay(dir, seg, k, Texts(words), style,
                  words[k].start, words[k].end))
  }

  /** The entries of one segment; an empty word list is skipped outright. */
  function SegmentPart(words: seq<Word>, seg: nat, dir: string, style: Style): (os: seq<Overlay>)
    ensures |os| == |words|
  {
    if |words| == 0 then [] else SegmentOverlays(words, seg, dir, style)
  }

  function TotalWords(segs: seq<Segment>): nat {
    if |segs| == 0 then 0 else |WordsOf(segs[0])| + TotalWords(segs[1..])
  }

  /** Number of entries produced by the segments before segment `j`. */
  function Offset(segs: seq<Segment>, j: nat): nat
    requires j <= |segs|
  {
    if j == 0 then 0 else |WordsOf(segs[0])| + Offset(segs[1..], j - 1)
  }

  /** The loop over `enumerate(captions)` from index `seg` on; an empty or
      missing word list is skipped but still consumes its index. */
  function BuildFrom(segs: seq<Segment>, seg: nat, dir: string, style: Style): (os: seq<Overlay>)
    ensures |os| == TotalWords(segs)
  {
    if |segs| == 0 then []
    else
      SegmentPart(WordsOf(segs[0]), seg, dir, style) + BuildFrom(segs[1..], seg + 1, dir, style)
  }

  /** `create_caption_images_with_template(captions, output_dir, template)`. */
  function CreateCaptionImages(captions: seq<Segment>, dir: string, template: string): (os: seq<Overlay>)
    ensures |os| == TotalWords(captions)
  {
    BuildFrom(captions, 0, dir, Resolve(template))
  }

  /** The entry the builder makes for word `k` of segment `j`. */
  function EntryFor(segs: seq<Segment>, base: nat, j: nat, k: nat, dir: string, style: Style): Overlay
    requires j < |segs| && k < |WordsOf(segs[j])|
  {
    var words := WordsOf(segs[j]);
    Overlay(dir, base + j, k, Texts(words), style,
            words[k].start, words[k].end)
  }

  /** The segment and word an entry index belongs to. */
  function Locate(segs: seq<Segment>, a: nat): (p: (nat, nat))
    requires a < TotalWords(segs)
    ensures p.0 < |segs| && p.1 < |WordsOf(segs[p.0])|
    ensures Offset(segs, p.0) + p.1 == a
  {
    var n := |WordsOf(segs[0])|;
    if a < n then (0, a)
    else
      var p := Locate(segs[1..], a - n);
      assert segs[1..][p.0] == segs[p.0 + 1];
      (p.0 + 1, p.1)
  }

  lemma {:induction false} OffsetStep(segs: seq<Segment>, j: nat)
    requires j < |segs|
    ensures Offset(segs, j + 1) == Offset(segs, j) + |WordsOf(segs[j])|
  {
    if j > 0 {
      OffsetStep(segs[1..], j - 1);
      assert segs[1..][j - 1] == segs[j];
    }
  }

  lemma {:induction false} OffsetMonotone(segs: seq<Segment>, i: nat, j: nat)
    requires i <= j <= |segs|
    ensures Offset(segs, i) <= Offset(segs, j)
    decreases j - i
  {
    if i < j {
      OffsetStep(segs, i);
      OffsetMonotone(segs, i + 1, j);
    }
  }

  lemma IndexAppend<T>(x: seq<T>, y: seq<T>, i: nat)
    requires i < |y|
    ensures (x + y)[|x| + i] == y[i]
  {
  }

  lemma OffsetUnfold(segs: seq<Segment>, j: nat)
    requires 0 < j <= |segs|
    ensures Offset(segs, j) == |WordsOf(segs[0])| + Offset(segs[1..], j - 1)
  {
  }

  lemma BuildFromUnfold(segs: seq<Segment>, base: nat, dir: string, style: Style)
    requires |segs| > 0
    ensures BuildFrom(segs, base, dir, style)
              == SegmentPart(WordsOf(segs[0]), base, dir, style) + BuildFrom(segs[1..], base + 1, dir, style)
  {
  }

  lemma HeadEntry(segs: seq<Segment>, base: nat, dir: string, style: Style, k: nat)
    requires 0 < |segs| && k < |WordsOf(segs[0])|
    ensures SegmentPart(WordsOf(segs[0]), base, dir, style)[k] == EntryFor(segs, base, 0, k, dir, style)
  {
  }

  lemma ShiftEntry(segs: seq<Segment>, base: nat, dir: string, style: Style, j: nat, k: nat)
    requires 0 < j < |segs| && k < |WordsOf(segs[j])|
    ensures segs[1..][j - 1] == segs[j]
    ensures EntryFor(segs[1..], base + 1, j - 1, k, dir, style) == EntryFor(segs, base, j, k, dir, style)
  {
    assert segs[1..][j - 1] == segs[j];
  }

  /** Word `k` of segment `j` sits at index `Offset(j) + k` of the schedule
      and carries its own image name, the segment's image with word `k`
      highlighted, and the word's own start and end strings. */
  lemma {:induction false} ScheduleEntry(segs: seq<Segment>, base: nat, dir: string, style: Style, j: nat, k: nat)
    requires j < |segs| && k < |WordsOf(segs[j])|
    ensures var os := BuildFrom(segs, base, dir, style);
            && Offset(segs, j) + k < |os|
            && os[Offset(segs, j) + k] == EntryFor(segs, base, j, k, dir, style)
  {
    var os := BuildFrom(segs, base, dir, style);
    var here := SegmentPart(WordsOf(segs[0]), base, dir, style);
    var rest := BuildFrom(segs[1..], base + 1, dir, style);
    BuildFromUnfold(segs, base, dir, style);
    assert os == here + rest;
    var idx := Offset(segs, j) + k;
    if j == 0 {
      HeadEntry(segs, base, dir, style, k);
      assert os[idx] == here[k];
    } else {
      var a := Offset(segs[1..], j - 1) + k;
      OffsetUnfold(segs, j);
      assert idx == |here| + a;
      ShiftEntry(segs, base, dir, style, j, k);
      ScheduleEntry(segs[1..], base + 1, dir, style, j - 1, k);
      IndexAppend(here, rest, a);
    }
  }

  /** Every entry of the schedule is the entry of the word `Locate` names. */
  lemma ScheduleCovers(segs: seq<Segment>, base: nat, dir: string, style: Style)
    ensures var os := BuildFrom(segs, base, dir, style);
            forall a :: 0 <= a < |os| ==>
              var p := Locate(segs, a);
              os[a] == EntryFor(segs, base, p.0, p.1, dir, style)
  {
    var os := BuildFrom(segs, base, dir, style);
    forall a | 0 <= a < |os|
      ensures var p := Locate(segs, a);
              os[a] == EntryFor(segs, base, p.0, p.1, dir, style)
    {
      var p := Locate(segs, a);
      ScheduleEntry(segs, base, dir, style, p.0, p.1);
    }
  }

  /** Entries come in segment order, and in word order within a segment. */
  lemma ScheduleOrder(segs: seq<Segment>, a: nat, b: nat)
    requires a < b < TotalWords(segs)
    ensures var p, q := Locate(segs, a), Locate(segs, b);
            p.0 < q.0 || (p.0 == q.0 && p.1 < q.1)
  {
    var p, q := Locate(segs, a), Locate(segs, b);
    if p.0 > q.0 {
      OffsetStep(segs, q.0);
      OffsetMonotone(segs, q.0 + 1, p.0);
      assert false;
    }
  }

  lemma DigitRunEndsAtUnderscore(d: string, rest: string)
    requires AllDigits(d)
    ensures '_' in d + "_" + rest && IndexOf(d + "_" + rest, '_') == |d|
  {
    var s := d + "_" + rest;
    assert s[|d|] == '_';
    assert forall i :: 0 <= i < |d| ==> s[i] == d[i];
  }

  lemma ImageNameInjective(j1: nat, k1: nat, j2: nat, k2: nat)
    requires ImageName(j1, k1) == ImageName(j2, k2)
    ensures j1 == j2 && k1 == k2
  {
    var a1, b1 := NatToString(j1), NatToString(k1);
    var a2, b2 := NatToString(j2), NatToString(k2);
    var t1 := a1 + "_" + ("w_" + b1);
    var t2 := a2 + "_" + ("w_" + b2);
    assert ImageName(j1, k1) == "seg_" + t1;
    assert ImageName(j2, k2) == "seg_" + t2;
    assert t1 == ImageName(j1, k1)[4..];
    assert t2 == ImageName(j2, k2)[4..];
    DigitRunEndsAtUnderscore(a1, "w_" + b1);
    DigitRunEndsAtUnderscore(a2, "w_" + b2);
    assert a1 == t1[..|a1|] && a2 == t2[..|a2|];
    assert b1 == t1[|a1| + 3..] && b2 == t2[|a2| + 3..];
    NatToStringInjective(j1, j2);
    NatToStringInjective(k1, k2);
  }

  lemma ImagePathInjective(dir: string, n1: string, n2: string)
    requires ImagePath(dir, n1) == ImagePath(dir, n2)
    ensures n1 == n2
  {
    var p := ImagePath(dir, n1);
    assert n1 == p[|dir| + 1..|p| - 4];
    assert n2 == ImagePath(dir, n2)[|dir| + 1..|p| - 4];
  }

  /** No two entries of a schedule share an image path. */
  lemma SchedulePathsDistinct(captions: seq<Segment>, dir: string, template: string)
    ensures var os := CreateCaptionImages(captions, dir, template);
            forall a, b :: 0 <= a < b < |os| ==> Path(os[a]) != Path(os[b])
  {
    var style := Resolve(template);
    var os := CreateCaptionImages(captions, dir, template);
    ScheduleCovers(captions, 0, dir, style);
    forall a, b | 0 <= a < b < |os|
      ensures Path(os[a]) != Path(os[b])
    {
      var p, q := Locate(captions, a), Locate(captions, b);
      if Path(os[a]) == Path(os[b]) {
        ImagePathInjective(dir, ImageName(p.0, p.1), ImageName(q.0, q.1));
        ImageNameInjective(p.0, p.1, q.0, q.1);
      }
    }
  }

  /** All images of one segment share canvas size, background and word
      positions: only the highlighted word differs between them. */
  lemma SegmentImagesAligned(segs: seq<Segment>, base: nat, dir: string, style: Style,
                             j: nat, k1: nat, k2: nat, measure: string -> nat)
    requires j < |segs| && k1 < |WordsOf(segs[j])| && k2 < |WordsOf(segs[j])|
    ensures var c1, c2 := Image(EntryFor(segs, base, j, k1, dir, style), measure),
                          Image(EntryFor(segs, base, j, k2, dir, style), measure);
            && c1.width == c2.width && c1.height == c2.height
            && c1.background == c2.background
            && |c1.words| == |c2.words|
            && forall i :: 0 <= i < |c1.words| ==> c1.words[i].x == c2.words[i].x
  {
    LayoutIndependentOfHighlight(Texts(WordsOf(segs[j])), k1, k2, Some(style), measure);
  }
}
