/** `parse_llm_response` of the third version (project3/main.py): the reply of
    the language model is cleaned, three line-anchored patterns are searched
    for, and a transcript, a label and a score in [-1, 1] come out, with a
    default for each field that is missing. */
module Reply {
  import opened Wrappers
  import opened Text
  import opened Numbers
  import opened Sentiment

  datatype Parsed = Parsed(transcript: string, sentiment: Label, score: real)

  /** The transcript when no `Text:` line is found. */
  const NoTranscript: string := "Error: Could not parse transcript."

  /** The transcript when the `Text:` line holds nothing but blanks and quotes. */
  const EmptyTranscript: string := "[Empty Transcript Received]"

  /** `llm_text.strip().strip('```').strip()`: the argument of the middle
      `strip` is a set, so any run of backticks goes, but only once. */
  function Clean(raw: string): string
  {
    Trim(Strip(Trim(raw), {'`'}))
  }

  // ---------------------------------------------------------------------
  // The pieces of the three patterns, under MULTILINE and IGNORECASE.
  // ---------------------------------------------------------------------

  /** `^` under MULTILINE: the start of the text or just after a newline. */
  predicate LineStart(t: string, p: nat) {
    p <= |t| && (p == 0 || t[p - 1] == '\n')
  }

  /** The end of the longest run of whitespace from `i` (a greedy `\s*`, which
      may cross newlines). */
  function SkipSpace(t: string, i: nat): (j: nat)
    requires i <= |t|
    ensures i <= j <= |t|
    ensures forall k :: i <= k < j ==> IsSpace(t[k])
    ensures j == |t| || !IsSpace(t[j])
    decreases |t| - i
  {
    if i < |t| && IsSpace(t[i]) then SkipSpace(t, i + 1) else i
  }

  /** The end of the line holding `i`: the next newline, or the end. */
  function LineEnd(t: string, i: nat): (j: nat)
    requires i <= |t|
    ensures i <= j <= |t|
    ensures forall k :: i <= k < j ==> t[k] != '\n'
    ensures j == |t| || t[j] == '\n'
    decreases |t| - i
  {
    if i < |t| && t[i] != '\n' then LineEnd(t, i + 1) else i
  }

  /** The lower-case literal `lit` occurs at `i`, ignoring case. */
  predicate MatchesAt(t: string, i: nat, lit: string) {
    i + |lit| <= |t| && Lower(t[i..i + |lit|]) == lit
  }

  /** `\s*$` matches at `i`: the rest of the line is blank. */
  predicate BlankRest(t: string, i: nat)
    requires i <= |t|
  {
    forall k :: i <= k < LineEnd(t, i) ==> IsSpace(t[k])
  }

  /** `t[i..m]` is all whitespace. */
  predicate AllSpace(t: string, i: nat, m: nat)
    requires i <= m <= |t|
  {
    forall k :: i <= k < m ==> IsSpace(t[k])
  }

  /** `\s*$` as the regular-expression engine reads it: some run of whitespace,
      possibly over newlines, reaches a newline or the end. */
  lemma BlankRestMeaning(t: string, i: nat)
    requires i <= |t|
    ensures BlankRest(t, i) <==>
      exists m :: i <= m <= |t| && AllSpace(t, i, m) && (m == |t| || t[m] == '\n')
  {
    var e := LineEnd(t, i);
    if BlankRest(t, i) {
      assert AllSpace(t, i, e) && (e == |t| || t[e] == '\n');
    } else {
      var k :| i <= k < e && !IsSpace(t[k]);
      forall m | i <= m <= |t| && AllSpace(t, i, m) && (m == |t| || t[m] == '\n')
        ensures false
      {
      }
    }
  }

  /** `^\s*<header>` at `p`: where the header ends. */
  function HeaderEnd(t: string, p: nat, header: string): (e: Option<nat>)
    ensures e.Some? ==> p + |header| <= e.value <= |t|
  {
    if LineStart(t, p) then
      var k := SkipSpace(t, p);
      if MatchesAt(t, k, header) then Some(k + |header|) else None
    else None
  }

  /** Taking the longest whitespace run loses no match: `^\s*<header>` matches
      at `p` exactly when some whitespace run from `p` is followed by the
      header, which is what backtracking would try. */
  lemma HeaderEndMeaning(t: string, p: nat, header: string, e: nat)
    requires header != [] && !IsSpace(header[0])
    ensures HeaderEnd(t, p, header) == Some(e) <==>
      LineStart(t, p) && exists k :: p <= k <= |t| && AllSpace(t, p, k) && MatchesAt(t, k, header) && e == k + |header|
  {
    if LineStart(t, p) {
      var j := SkipSpace(t, p);
      forall k | p <= k <= |t| && AllSpace(t, p, k) && MatchesAt(t, k, header)
        ensures k == j
      {
      }
    }
  }

  /** `^\s*Text:(.*)`: the rest of the line after the header. */
  function TextAt(t: string, p: nat): Option<string> {
    match HeaderEnd(t, p, "text:")
    case None => None
    case Some(e) => Some(t[e..LineEnd(t, e)])
  }

  /** `(positive|neutral|negative)\s*$` at `w`. */
  function LabelWord(t: string, w: nat): Option<string>
    requires w <= |t|
  {
    if MatchesAt(t, w, "positive") && BlankRest(t, w + 8) then Some(t[w..w + 8])
    else if MatchesAt(t, w, "neutral") && BlankRest(t, w + 7) then Some(t[w..w + 7])
    else if MatchesAt(t, w, "negative") && BlankRest(t, w + 8) then Some(t[w..w + 8])
    else None
  }

  /** `^\s*Sentiment Label:\s*(positive|neutral|negative)\s*$`: the word. */
  function LabelAt(t: string, p: nat): Option<string> {
    match HeaderEnd(t, p, "sentiment label:")
    case None => None
    case Some(e) => LabelWord(t, SkipSpace(t, e))
  }

  /** `-?\d+(\.\d+)?` at `w`: where the greedy match ends. */
  function NumberEnd(t: string, w: nat): (n: Option<nat>)
    requires w <= |t|
    ensures n.Some? ==> w < n.value <= |t|
  {
    var i := if w < |t| && t[w] == '-' then w + 1 else w;
    var j := DigitRunEnd(t, i);
    if j == i then None
    else if j + 1 < |t| && t[j] == '.' && IsDigit(t[j + 1]) then Some(DigitRunEnd(t, j + 1))
    else Some(j)
  }

  /** `^\s*Sentiment Score:\s*(-?\d+(\.\d+)?)\s*$`: the number's text. */
  function ScoreAt(t: string, p: nat): Option<string> {
    match HeaderEnd(t, p, "sentiment score:")
    case None => None
    case Some(e) =>
      var w := SkipSpace(t, e);
      match NumberEnd(t, w)
      case None => None
      case Some(n) => if BlankRest(t, n) then Some(t[w..n]) else None
  }

  /** `re.search`: the match at the leftmost position that has one. */
  function Search<T>(t: string, p: nat, at: (string, nat) -> Option<T>): Option<T>
    decreases |t| + 1 - p
  {
    if p > |t| then None
    else if at(t, p).Some? then at(t, p)
    else Search(t, p + 1, at)
  }

  /** The search finds a match exactly when there is one, and returns the
      one at the leftmost position. */
  lemma {:induction false} SearchMeaning<T>(t: string, p: nat, at: (string, nat) -> Option<T>)
    ensures var r := Search(t, p, at);
      r.Some? ==> exists q :: p <= q <= |t| && at(t, q) == r && forall q' :: p <= q' < q ==> at(t, q').None?
    ensures Search(t, p, at).None? ==> forall q :: p <= q <= |t| ==> at(t, q).None?
    decreases |t| + 1 - p
  {
    if p <= |t| && at(t, p).None? {
      SearchMeaning(t, p + 1, at);
    }
  }

  /** `q` is the leftmost position where the pattern matches. */
  ghost predicate FirstAt<T>(t: string, q: nat, at: (string, nat) -> Option<T>) {
    q <= |t| && at(t, q).Some? && forall q' :: 0 <= q' < q ==> at(t, q').None?
  }

  lemma SearchFindsFirst<T>(t: string, q: nat, at: (string, nat) -> Option<T>)
    requires FirstAt(t, q, at)
    ensures Search(t, 0, at) == at(t, q)
  {
    var r := Search(t, 0, at);
    SearchMeaning(t, 0, at);
    assert r.Some?;
    var q0 :| 0 <= q0 <= |t| && at(t, q0) == r && forall q' :: 0 <= q' < q0 ==> at(t, q').None?;
    assert q0 == q;
  }

  // ---------------------------------------------------------------------
  // The three fields.
  // ---------------------------------------------------------------------

  /** `.strip()`, then `.strip('"')`, then `.strip("'")` on the captured line. */
  function Unquote(g: string): string {
    Strip(Strip(Trim(g), {'"'}), {'\''})
  }

  function Transcript(t: string): (r: string)
    ensures r != [] && r[0] != '\'' && r[|r| - 1] != '\''
    ensures '\n' !in r
  {
    CapturedOneLine(t);
    TranscriptOf(Search(t, 0, TextAt))
  }

  /** What `(.*)` captures stays on its line. */
  lemma CapturedOneLine(t: string)
    ensures Search(t, 0, TextAt).Some? ==> '\n' !in Search(t, 0, TextAt).value
  {
    SearchMeaning(t, 0, TextAt);
  }

  /** Neither placeholder spans lines or is wrapped in quotes. */
  lemma PlaceholdersPlain()
    ensures '\n' !in EmptyTranscript && '\n' !in NoTranscript
    ensures EmptyTranscript[0] != '\'' && EmptyTranscript[|EmptyTranscript| - 1] != '\''
    ensures NoTranscript[0] != '\'' && NoTranscript[|NoTranscript| - 1] != '\''
  {
    OneLine(EmptyTranscript);
    OneLine(NoTranscript);
  }

  /** A text no character of which is a newline. */
  lemma OneLine(s: string)
    requires forall i :: 0 <= i < |s| ==> s[i] != '\n'
    ensures '\n' !in s
  {
  }

  /** The transcript for the text captured by the first `Text:` line, if any. */
  function TranscriptOf(captured: Option<string>): (r: string)
    ensures r != [] && r[0] != '\'' && r[|r| - 1] != '\''
    ensures captured.Some? && '\n' !in captured.value ==> '\n' !in r
  {
    PlaceholdersPlain();
    match captured
    case None => NoTranscript
    case Some(g) => Unquoted(g)
  }

  /** The captured text unquoted, or the empty marker when nothing is left. */
  function Unquoted(g: string): (r: string)
    ensures r != [] && r[0] != '\'' && r[|r| - 1] != '\''
    ensures '\n' !in g ==> '\n' !in r
  {
    PlaceholdersPlain();
    var u := Unquote(g);
    if u == [] then EmptyTranscript
    else if '\n' in g then u
    else UnquoteOneLine(g); u
  }

  /** Unquoting only removes characters, so a one-line capture stays on one line. */
  lemma UnquoteOneLine(g: string)
    requires '\n' !in g
    ensures '\n' !in Unquote(g)
  {
    StripAbsent(g, Whitespace, '\n');
    StripAbsent(Trim(g), {'"'}, '\n');
    StripAbsent(Strip(Trim(g), {'"'}), {'\''}, '\n');
  }

  /** The label text before it is mapped: `"neutral"` unless a label line
      matched, and then the matched word in lower case. */
  function RawLabel(t: string): string {
    match Search(t, 0, LabelAt)
    case None => "neutral"
    case Some(g) => Lower(g)
  }

  /** The final mapping to the closed set of labels. */
  function FinalLabel(raw: string): (l: Label)
    ensures l == Positive <==> raw == "positive"
    ensures l == Negative <==> raw == "negative"
  {
    if raw == "positive" then Positive
    else if raw == "negative" then Negative
    else Neutral
  }

  function Max(x: real, y: real): real { if x >= y then x else y }
  function Min(x: real, y: real): real { if x <= y then x else y }

  /** `max(-1.0, min(1.0, x))`. */
  function Clamp(x: real): (r: real)
    ensures -1.0 <= r <= 1.0
    ensures -1.0 <= x <= 1.0 ==> r == x
    ensures x > 1.0 ==> r == 1.0
    ensures x < -1.0 ==> r == -1.0
  {
    Max(-1.0, Min(1.0, x))
  }

  lemma ClampIdempotent(x: real)
    ensures Clamp(Clamp(x)) == Clamp(x)
  {
  }

  function Score(t: string): (r: real)
    ensures -1.0 <= r <= 1.0
  {
    match Search(t, 0, ScoreAt)
    case None => 0.0
    case Some(g) =>
      match ParseFloat(g)
      case None => 0.0
      case Some(v) => Clamp(v)
  }

  /** `parse_llm_response`: clean the reply, then read the three fields. */
  function Parse(raw: string): Parsed {
    ParseCleaned(Clean(raw))
  }

  /** The three fields read from the cleaned reply: a one-line transcript that
      is never empty and never wrapped in single quotes, and a score in [-1, 1]. */
  function ParseCleaned(t: string): (r: Parsed)
    ensures -1.0 <= r.score <= 1.0
    ensures r.transcript != [] && '\n' !in r.transcript
    ensures r.transcript[0] != '\'' && r.transcript[|r.transcript| - 1] != '\''
  {
    Parsed(Transcript(t), FinalLabel(RawLabel(t)), Score(t))
  }

  /** A reply fenced in backticks, with blanks around the fence, is cleaned to
      what the fence holds. */
  lemma CleanFenced(before: string, body: string, after: string)
    requires forall i :: 0 <= i < |before| ==> IsSpace(before[i])
    requires forall i :: 0 <= i < |after| ==> IsSpace(after[i])
    requires body != [] && body[0] != '`' && body[|body| - 1] != '`'
    requires !IsSpace(body[0]) && !IsSpace(body[|body| - 1])
    ensures Clean(before + "```" + body + "```" + after) == body
  {
    var fenced := "```" + body + "```";
    assert before + "```" + body + "```" + after == before + fenced + after;
    StripSurrounded(before, fenced, after, Whitespace);
    assert fenced == "```" + body + "```";
    StripSurrounded("```", body, "```", {'`'});
    StripKeeps(body, Whitespace);
  }

  // ---------------------------------------------------------------------
  // What the parse promises, field by field.
  // ---------------------------------------------------------------------

  /** The first `Text:` line gives the transcript, unquoted, or the empty
      marker when nothing is left. */
  lemma TranscriptFound(t: string, q: nat)
    requires FirstAt(t, q, TextAt)
    ensures var g := TextAt(t, q).value;
      ParseCleaned(t).transcript == (if Unquote(g) == [] then EmptyTranscript else Unquote(g))
  {
    SearchFindsFirst(t, q, TextAt);
  }

  /** Without a `Text:` line the transcript is the error placeholder. */
  lemma TranscriptMissing(t: string)
    requires forall q :: 0 <= q <= |t| ==> TextAt(t, q).None?
    ensures ParseCleaned(t).transcript == NoTranscript
  {
    SearchMeaning(t, 0, TextAt);
  }

  /** A matched label is one of the three words, in any case. */
  lemma LabelAtIsWord(t: string, p: nat)
    requires LabelAt(t, p).Some?
    ensures Lower(LabelAt(t, p).value) in {"positive", "neutral", "negative"}
  {
    LabelWordIsWord(t, SkipSpace(t, HeaderEnd(t, p, "sentiment label:").value));
  }

  lemma LabelWordIsWord(t: string, w: nat)
    requires w <= |t| && LabelWord(t, w).Some?
    ensures Lower(LabelWord(t, w).value) in {"positive", "neutral", "negative"}
  {
  }

  /** The label is positive (negative) exactly when the first valid label line
      says so; everything else, a missing or invalid line included, is neutral. */
  lemma LabelFirstMatch(t: string)
    ensures ParseCleaned(t).sentiment == Positive <==>
      exists q :: FirstAt(t, q, LabelAt) && Lower(LabelAt(t, q).value) == "positive"
    ensures ParseCleaned(t).sentiment == Negative <==>
      exists q :: FirstAt(t, q, LabelAt) && Lower(LabelAt(t, q).value) == "negative"
  {
    SearchMeaning(t, 0, LabelAt);
    match Search(t, 0, LabelAt)
    case None =>
    case Some(g) =>
      var q :| 0 <= q <= |t| && LabelAt(t, q) == Some(g) && forall q' :: 0 <= q' < q ==> LabelAt(t, q').None?;
      assert FirstAt(t, q, LabelAt);
      forall q' | FirstAt(t, q', LabelAt)
        ensures q' == q
      {
      }
  }

  /** Every number the score pattern accepts is a plain decimal. */
  lemma NumberTokenIsDecimal(t: string, w: nat, n: nat)
    returns (negative: bool, whole: string, fraction: string)
    requires w <= |t| && NumberEnd(t, w) == Some(n)
    ensures whole != [] && AllDigits(whole) && AllDigits(fraction)
    ensures t[w..n] == DecimalText(negative, whole, fraction)
  {
    negative := w < |t| && t[w] == '-';
    var i := if negative then w + 1 else w;
    var sign := if negative then "-" else "";
    assert t[w..i] == sign;
    var j := DigitRunEnd(t, i);
    whole := t[i..j];
    RunDigits(t, i);
    SliceJoin(t, w, i, j);
    if j + 1 < |t| && t[j] == '.' && IsDigit(t[j + 1]) {
      fraction := t[j + 1..n];
      RunDigits(t, j + 1);
      assert t[j..n] == "." + fraction by {
        SliceJoin(t, j, j + 1, n);
      }
      SliceJoin(t, w, j, n);
    } else {
      fraction := [];
    }
  }

  /** The run of digits from `i` is all digits. */
  lemma RunDigits(t: string, i: nat)
    requires i <= |t|
    ensures AllDigits(t[i..DigitRunEnd(t, i)])
  {
    var j := DigitRunEnd(t, i);
    assert forall k :: 0 <= k < j - i ==> t[i..j][k] == t[i + k];
  }

  lemma SliceJoin(t: string, a: nat, b: nat, c: nat)
    requires a <= b <= c <= |t|
    ensures t[a..c] == t[a..b] + t[b..c]
  {
  }

  /** The conversion to float of a matched score never fails, so the
      `ValueError` branch cannot be taken. */
  lemma ScoreTokenParses(t: string, p: nat)
    requires ScoreAt(t, p).Some?
    ensures ParseFloat(ScoreAt(t, p).value).Some?
  {
    var e := HeaderEnd(t, p, "sentiment score:").value;
    var w := SkipSpace(t, e);
    var n := NumberEnd(t, w).value;
    var negative, whole, fraction := NumberTokenIsDecimal(t, w, n);
    ParseDecimalText(negative, whole, fraction);
  }

  /** The first valid score line gives the score, clamped to [-1, 1]. */
  lemma ScoreFound(t: string, q: nat)
    requires FirstAt(t, q, ScoreAt)
    ensures ParseFloat(ScoreAt(t, q).value).Some?
    ensures ParseCleaned(t).score == Clamp(ParseFloat(ScoreAt(t, q).value).value)
  {
    SearchFindsFirst(t, q, ScoreAt);
    ScoreTokenParses(t, q);
  }

  /** Without a valid score line the score is 0. */
  lemma ScoreMissing(t: string)
    requires forall q :: 0 <= q <= |t| ==> ScoreAt(t, q).None?
    ensures ParseCleaned(t).score == 0.0
  {
    SearchMeaning(t, 0, ScoreAt);
  }
}
