/** The closed set of sentiment labels and the score thresholds of the
    second version (project2/main.py), which labels a score itself. */
module Sentiment {

  datatype Label = Negative | Neutral | Positive

  /** The text written to the sidecar file and shown to the user. */
  function Name(l: Label): string {
    match l
    case Positive => "Positive"
    case Neutral => "Neutral"
    case Negative => "Negative"
  }

  /** Negative < Neutral < Positive. */
  function Rank(l: Label): int {
    match l
    case Negative => 0
    case Neutral => 1
    case Positive => 2
  }

  /** Distinct labels are written differently, so a reader that gets the text
      back knows the label. */
  lemma NameInjective(a: Label, b: Label)
    requires Name(a) == Name(b)
    ensures a == b
  {
  }

  /** The `if/elif/else` on the analysed score: strictly above 0.1 is
      positive, strictly below -0.1 negative, and the closed band between
      them, both ends included, neutral. */
  function ThresholdLabel(score: real): (l: Label)
    ensures l == Positive <==> score > 0.1
    ensures l == Negative <==> score < -0.1
    ensures l == Neutral <==> -0.1 <= score <= 0.1
  {
    if score > 0.1 then Positive
    else if score < -0.1 then Negative
    else Neutral
  }

  /** A higher score never gets a lower label. */
  lemma ThresholdMonotone(s1: real, s2: real)
    requires s1 <= s2
    ensures Rank(ThresholdLabel(s1)) <= Rank(ThresholdLabel(s2))
  {
  }
}
