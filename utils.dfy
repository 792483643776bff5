/** The performance-level display helpers (utils/utils.py): the data behind the
    block chart of a predicted level (block count, colours, labels, the "▼"
    marker) and the interpretation looked up for an (area, level) pair.

    Knowledge areas are the strings the page passes in; only "ingles" changes
    the chart, and five areas have interpretations. */
module Utils {
  import opened Wrappers
  import Decimal

  const ENGLISH := "ingles"
  const MATHEMATICS := "matematicas"
  const NATURAL_SCIENCES := "ciencias_naturales"
  const SOCIAL_SCIENCES := "ciencias_sociales"
  const CRITICAL_READING := "lectura_critica"

  const ENGLISH_LABELS: seq<string> := ["A-", "A1", "A2", "B1", "B+"]
  const MARKER := "▼"

  datatype Color = Blue | LightGrey

  /** One trace of the figure: a block of the staircase, or the text above it. */
  datatype Trace =
    | Bar(x: int, height: int, color: Color)
    | Caption(x: int, y: real, text: string)

  /** An annotation drawn on the figure. */
  datatype Annotation = Annotation(x: int, y: real, text: string)

  /** What the chart builder adds to the figure: the white horizontal lines,
      the traces in the order they are added, and the annotations. */
  datatype Figure = Figure(hlines: seq<int>, traces: seq<Trace>, annotations: seq<Annotation>)

  /** Number of blocks: the five English bands, four levels elsewhere. */
  function TotalBlocks(area: string): (n: nat)
    ensures n == 4 || n == 5
    ensures n == 5 <==> area == ENGLISH
  {
    if area == ENGLISH then 5 else 4
  }

  /** Block i is filled when it lies below the selected level. */
  function Colors(selectedBlocks: int, area: string): (r: seq<Color>)
    ensures |r| == TotalBlocks(area)
    ensures forall i :: 0 <= i < |r| ==> (r[i] == Blue <==> i < selectedBlocks)
  {
    seq(TotalBlocks(area), i => if i < selectedBlocks then Blue else LightGrey)
  }

  /** The number of filled blocks in a colour list. */
  function BlueCount(colors: seq<Color>): nat {
    if colors == [] then 0
    else BlueCount(colors[..|colors| - 1]) + (if colors[|colors| - 1] == Blue then 1 else 0)
  }

  function Clamp(x: int, hi: nat): (r: nat)
    ensures r <= hi
  {
    if x < 0 then 0 else if x > hi then hi else x
  }

  /** There is one colour per block, the filled blocks form a prefix, and
      exactly the selected level (clamped to 0..blocks) many are filled. */
  lemma ColorsShape(selectedBlocks: int, area: string)
    ensures |Colors(selectedBlocks, area)| == TotalBlocks(area)
    ensures forall i, j :: 0 <= i < j < |Colors(selectedBlocks, area)| && Colors(selectedBlocks, area)[j] == Blue
              ==> Colors(selectedBlocks, area)[i] == Blue
    ensures BlueCount(Colors(selectedBlocks, area)) == Clamp(selectedBlocks, TotalBlocks(area))
  {
    var colors := Colors(selectedBlocks, area);
    BlueCountPrefix(colors, selectedBlocks, |colors|);
    assert colors[..|colors|] == colors;
  }

  lemma {:induction false} BlueCountPrefix(colors: seq<Color>, selectedBlocks: int, k: nat)
    requires k <= |colors|
    requires forall i :: 0 <= i < |colors| ==> (colors[i] == Blue <==> i < selectedBlocks)
    ensures BlueCount(colors[..k]) == Clamp(selectedBlocks, k)
  {
    if k > 0 {
      BlueCountPrefix(colors, selectedBlocks, k - 1);
      assert colors[..k][..k - 1] == colors[..k - 1];
    }
  }

  /** The block labels: the English bands, or "1".."4" (`str(i + 1)`). */
  function TextValues(area: string): (r: seq<string>)
    ensures |r| == TotalBlocks(area)
    ensures forall i :: 0 <= i < |r| ==> r[i] != []
    ensures area == ENGLISH ==> r == ENGLISH_LABELS
    ensures area != ENGLISH ==> forall i :: 0 <= i < |r| ==> r[i] == Decimal.ToString(i + 1)
  {
    if area == ENGLISH then ENGLISH_LABELS
    else seq(TotalBlocks(area), i requires 0 <= i => Decimal.ToString(i + 1))
  }

  /** One label per block, no two blocks labelled alike, and outside English
      block i is labelled with the number i + 1, without leading zeros. */
  lemma TextValuesShape(area: string)
    ensures |TextValues(area)| == TotalBlocks(area)
    ensures forall i, j :: 0 <= i < j < |TextValues(area)| ==> TextValues(area)[i] != TextValues(area)[j]
    ensures area != ENGLISH ==> forall i :: 0 <= i < |TextValues(area)| ==>
              && Decimal.AllDigits(TextValues(area)[i])
              && TextValues(area)[i][0] != '0'
              && Decimal.Parse(TextValues(area)[i]) == i + 1
  {
  }

  /** The block that carries the "▼" marker: the highest filled one, when the
      selected level names a block. */
  function MarkerBlock(selectedBlocks: int, area: string): (r: Option<nat>)
    ensures r.Some? <==> 1 <= selectedBlocks <= TotalBlocks(area)
    ensures r.Some? ==> r.value < TotalBlocks(area) && r.value + 1 == selectedBlocks
  {
    if 1 <= selectedBlocks <= TotalBlocks(area) then Some(selectedBlocks - 1) else None
  }

  /** The marker sits on top of the filled prefix: its block is filled and the
      next block, if any, is not. With no block filled there is no marker. */
  lemma MarkerOnHighestFilled(selectedBlocks: int, area: string)
    ensures MarkerBlock(selectedBlocks, area).Some? ==>
      var m := MarkerBlock(selectedBlocks, area).value;
      && Colors(selectedBlocks, area)[m] == Blue
      && (m + 1 < TotalBlocks(area) ==> Colors(selectedBlocks, area)[m + 1] == LightGrey)
    ensures Clamp(selectedBlocks, TotalBlocks(area)) == 0 ==> MarkerBlock(selectedBlocks, area).None?
  {
  }

  /** The chart builder's loop: for each block, a white line at its height,
      its bar, its caption, and the marker above the selected block. */
  method CreatePredictedPerformanceChart(selectedBlocks: int, area: string) returns (fig: Figure)
    ensures |fig.hlines| == TotalBlocks(area) && |fig.traces| == 2 * TotalBlocks(area)
    ensures forall i :: 0 <= i < TotalBlocks(area) ==>
      && fig.hlines[i] == i + 1
      && fig.traces[2 * i] == Bar(i + 1, i + 1, Colors(selectedBlocks, area)[i])
      && fig.traces[2 * i + 1] == Caption(i + 1, (i + 1) as real + 0.3, TextValues(area)[i])
    ensures fig.annotations == match MarkerBlock(selectedBlocks, area)
      case Some(m) => [Annotation(m + 1, (m + 1) as real + 0.9, MARKER)]
      case None => []
    ensures forall i, j :: 0 <= i < j < TotalBlocks(area) ==>
      fig.traces[2 * i].Bar? && fig.traces[2 * j].Bar? &&
      fig.traces[2 * i].x < fig.traces[2 * j].x && fig.traces[2 * i].height < fig.traces[2 * j].height
  {
    var total := TotalBlocks(area);
    var colors := Colors(selectedBlocks, area);
    var textValues := TextValues(area);
    TextValuesShape(area);
    var hlines: seq<int> := [];
    var traces: seq<Trace> := [];
    var annotations: seq<Annotation> := [];
    for i := 0 to total
      invariant |hlines| == i && |traces| == 2 * i
      invariant forall j :: 0 <= j < i ==> hlines[j] == j + 1
      invariant forall j :: 0 <= j < i ==> traces[2 * j] == Bar(j + 1, j + 1, colors[j])
      invariant forall j :: 0 <= j < i ==>
        traces[2 * j + 1] == Caption(j + 1, (j + 1) as real + 0.3, textValues[j])
      invariant annotations == if 1 <= selectedBlocks <= i
        then [Annotation(selectedBlocks, selectedBlocks as real + 0.9, MARKER)] else []
    {
      var height := i + 1;
      hlines := hlines + [height];
      var bar := Bar(i + 1, height, colors[i]);
      var text := Caption(i + 1, height as real + 0.3, textValues[i]);
      traces := traces + [bar, text];
      if i + 1 == selectedBlocks {
        annotations := annotations + [Annotation(i + 1, height as real + 0.9, MARKER)];
      }
    }
    fig := Figure(hlines, traces, annotations);
  }

  /** The interpretation shown for a predicted level: the authored text of an
      (area, level) pair, or one of the two prompts. */
  datatype Interpretation =
    | LevelText(area: string, level: int)  // the level's paragraph (kept opaque)
    | SelectLevel   // "Selecciona un nivel de desempeño para ver la interpretación."
    | SelectArea    // "Selecciona un área del conocimiento para ver la interpretación de los niveles de desempeño."

  predicate KnownArea(area: string) {
    area in {MATHEMATICS, NATURAL_SCIENCES, SOCIAL_SCIENCES, CRITICAL_READING, ENGLISH}
  }

  /** The levels that have a paragraph: 1..5 for English, 1..4 for the other
      four areas. */
  function MaxLevel(area: string): nat {
    if area == ENGLISH then 5 else if KnownArea(area) then 4 else 0
  }

  function LevelFour(area: string, level: int): Interpretation {
    if level == 1 then LevelText(area, 1)
    else if level == 2 then LevelText(area, 2)
    else if level == 3 then LevelText(area, 3)
    else if level == 4 then LevelText(area, 4)
    else SelectLevel
  }

  /** Total lookup: never fails, whatever the area and level. */
  function InterpretarDesempenho(area: string, level: int): (r: Interpretation)
    ensures r == SelectArea <==> !KnownArea(area)
    ensures r.LevelText? <==> KnownArea(area) && 1 <= level <= MaxLevel(area)
    ensures r == SelectLevel <==> KnownArea(area) && !(1 <= level <= MaxLevel(area))
    ensures r.LevelText? ==> r.area == area && r.level == level
  {
    if area == MATHEMATICS then LevelFour(MATHEMATICS, level)
    else if area == NATURAL_SCIENCES then LevelFour(NATURAL_SCIENCES, level)
    else if area == SOCIAL_SCIENCES then LevelFour(SOCIAL_SCIENCES, level)
    else if area == CRITICAL_READING then LevelFour(CRITICAL_READING, level)
    else if area == ENGLISH then
      if level == 5 then LevelText(ENGLISH, 5) else LevelFour(ENGLISH, level)
    else SelectArea
  }

  /** Distinct levels of one area get distinct paragraphs. */
  lemma LevelTextsDistinct(area: string, l1: int, l2: int)
    requires InterpretarDesempenho(area, l1).LevelText? && l1 != l2
    ensures InterpretarDesempenho(area, l1) != InterpretarDesempenho(area, l2)
  {
  }

  /** For every area with interpretations the chart and the text agree: a
      paragraph is shown exactly when the chart marks a block. */
  lemma ChartAgreesWithInterpretation(area: string, level: int)
    requires KnownArea(area)
    ensures InterpretarDesempenho(area, level).LevelText? <==> MarkerBlock(level, area).Some?
  {
  }
}
