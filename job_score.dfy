/**
 * Colour banding of a job's match score, as the job detail page's score
 * panel computes it (src/components/JobScore.tsx).
 *
 * The source writes the thresholds twice, once for the text colour and once
 * for the background; both are modelled as the chains of returns they are
 * and proved against one reference definition of the bands.
 */
module JobScore {
  import opened Wrappers

  /** The colour bands, from "no score" to "best match". */
  datatype Tone = Gray | Red | Orange | Yellow | Green

  /** Position of a band on the scale; a higher score never gets a lower rank. */
  function Rank(t: Tone): nat
  {
    match t
    case Gray => 0
    case Red => 1
    case Orange => 2
    case Yellow => 3
    case Green => 4
  }

  /**
   * Reference definition of the bands as intervals of scores. The source
   * tests `!score`, which is true of a missing score and of the score 0, so
   * both of those are neutral.
   */
  predicate InBand(t: Tone, score: Option<int>)
  {
    match t
    case Gray => score == None || score == Some(0)
    case Red => score.Some? && score.value != 0 && score.value < 40
    case Orange => score.Some? && 40 <= score.value < 60
    case Yellow => score.Some? && 60 <= score.value < 80
    case Green => score.Some? && 80 <= score.value
  }

  /** Tailwind class of the score text for each band. */
  function TextClass(t: Tone): string
  {
    match t
    case Gray => "text-gray-400"
    case Red => "text-red-400"
    case Orange => "text-orange-400"
    case Yellow => "text-yellow-400"
    case Green => "text-green-400"
  }

  /** Tailwind class of the panel background for each band. */
  function BgClass(t: Tone): string
  {
    match t
    case Gray => "bg-gray-800"
    case Red => "bg-red-500/10"
    case Orange => "bg-orange-500/10"
    case Yellow => "bg-yellow-500/10"
    case Green => "bg-green-500/10"
  }

  /** `getScoreColor`: the text colour chosen by a chain of thresholds. */
  function ScoreColor(score: Option<int>): (c: string)
    ensures forall t :: c == TextClass(t) <==> InBand(t, score)
  {
    if score == None || score == Some(0) then "text-gray-400"
    else if score.value >= 80 then "text-green-400"
    else if score.value >= 60 then "text-yellow-400"
    else if score.value >= 40 then "text-orange-400"
    else "text-red-400"
  }

  /** `getScoreBgColor`: the background colour, by the same thresholds written out again. */
  function ScoreBgColor(score: Option<int>): (c: string)
    ensures forall t :: c == BgClass(t) <==> InBand(t, score)
  {
    if score == None || score == Some(0) then "bg-gray-800"
    else if score.value >= 80 then "bg-green-500/10"
    else if score.value >= 60 then "bg-yellow-500/10"
    else if score.value >= 40 then "bg-orange-500/10"
    else "bg-red-500/10"
  }

  /** Every score, present or not, lies in exactly one band. */
  lemma {:induction false} BandsPartitionScores(score: Option<int>)
    ensures exists t :: InBand(t, score)
    ensures forall t1, t2 :: InBand(t1, score) && InBand(t2, score) ==> t1 == t2
  {
    if score == None || score == Some(0) {
      assert InBand(Gray, score);
    } else if score.value >= 80 {
      assert InBand(Green, score);
    } else if score.value >= 60 {
      assert InBand(Yellow, score);
    } else if score.value >= 40 {
      assert InBand(Orange, score);
    } else {
      assert InBand(Red, score);
    }
  }

  /** Among scores of at least 0, a higher score never gets a lower text colour. */
  lemma ScoreColorIsMonotone(a: int, b: int, ta: Tone, tb: Tone)
    requires 0 <= a <= b
    requires ScoreColor(Some(a)) == TextClass(ta) && ScoreColor(Some(b)) == TextClass(tb)
    ensures Rank(ta) <= Rank(tb)
  {
  }

  /** For every score the background band is the text band. */
  lemma TextAndBackgroundAgree(score: Option<int>, t: Tone)
    ensures ScoreColor(score) == TextClass(t) <==> ScoreBgColor(score) == BgClass(t)
  {
  }

  /** What the panel shows in its middle: the number, or a placeholder. */
  datatype PanelBody = Number(value: int, colorClass: string) | NotScoredYet

  /** The score panel: a background class around the body. */
  datatype ScorePanel = ScorePanel(background: string, body: PanelBody)

  /**
   * The rendered panel. The body tests `score !== null` rather than `!score`,
   * so a score of 0 is shown as a number (in the neutral colour).
   */
  function Panel(score: Option<int>): (p: ScorePanel)
    ensures p.body.Number? <==> score.Some?
    ensures p.body.Number? ==> p.body.value == score.value
    ensures p.body.Number? ==> forall t :: p.body.colorClass == TextClass(t) <==> InBand(t, score)
    ensures forall t :: p.background == BgClass(t) <==> InBand(t, score)
  {
    ScorePanel(ScoreBgColor(score), if score.Some? then Number(score.value, ScoreColor(score)) else NotScoredYet)
  }
}
