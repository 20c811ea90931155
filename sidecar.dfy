/** The two-line sentiment sidecar that sits next to each recording: what the
    uploaders write and how the catalog reads it back, in the third version
    (project3/main.py) and the second (project2/main.py). */
module Sidecar {
  import opened Wrappers
  import opened Text
  import opened Numbers
  import opened Sentiment

  /** What a catalog entry knows about a recording's sentiment; `None` is
      Python's `None`, left when no line of the kind was read. */
  datatype Reading = Reading(score: Option<real>, sentiment: Option<string>)

  const Unread := Reading(None, None)

  const ScoreKey := "Sentiment Score"
  const LabelKey := "Sentiment"
  const ScorePrefix := ScoreKey + ":"
  const LabelPrefix := LabelKey + ":"

  /** A written `<key>: <value>` line, without its newline. */
  function Field(key: string, value: string): string {
    key + ": " + value
  }

  lemma FieldShape(key: string, value: string)
    ensures var f := Field(key, value);
      |f| == |key| + 2 + |value| && f[..|key|] == key && f[|key|] == ':' && f[|key| + 1..] == " " + value
  {
  }

  /** A field line starts with its key and a colon. */
  lemma FieldStartsWithKey(key: string, value: string)
    ensures StartsWith(Field(key, value), key + ":")
  {
    FieldShape(key, value);
    assert Field(key, value)[..|key| + 1] == Field(key, value)[..|key|] + [Field(key, value)[|key|]];
  }

  /** A character other than `:` and the blank, in neither the key nor the
      value, is not in the line. */
  lemma FieldAvoids(key: string, value: string, c: char)
    requires c != ':' && c != ' ' && c !in key && c !in value
    ensures c !in Field(key, value)
  {
    FieldShape(key, value);
    forall i | 0 <= i < |Field(key, value)|
      ensures Field(key, value)[i] != c
    {
      if i < |key| {
        assert Field(key, value)[i] == Field(key, value)[..|key|][i];
      } else if i == |key| + 1 {
        assert Field(key, value)[i] == ' ';
      } else if i > |key| + 1 {
        assert Field(key, value)[i] == Field(key, value)[|key| + 1..][i - |key| - 1];
      }
    }
  }

  /** A line with no blank at its ends is given back by `strip()` once its
      newline is added. */
  lemma TrimNewline(line: string)
    requires line != [] && !IsSpace(line[0]) && !IsSpace(line[|line| - 1])
    ensures Trim(line + "\n") == line
  {
    assert line + "\n" == "" + line + "\n";
    StripSurrounded("", line, "\n", Whitespace);
  }

  /** The text after the first colon of a field line whose key has none. */
  lemma FieldAfterColon(key: string, value: string)
    requires ':' !in key
    ensures ':' in Field(key, value) && AfterFirst(Field(key, value), ':') == " " + value
  {
    assert Field(key, value) == key + [':'] + (" " + value);
    AfterFirstPrefix(key, ':', " " + value);
  }

  lemma TrimSpaced(value: string)
    requires value != [] && !IsSpace(value[0]) && !IsSpace(value[|value| - 1])
    ensures Trim(" " + value) == value
  {
    assert " " + value == " " + value + "";
    StripSurrounded(" ", value, "", Whitespace);
  }

  /** Reading a field line back after `strip()`: the value after the first
      colon, stripped, is the written value. */
  lemma FieldLine3(key: string, value: string)
    requires key != [] && !IsSpace(key[0]) && ':' !in key
    requires value != [] && !IsSpace(value[0]) && !IsSpace(value[|value| - 1])
    ensures Trim(Field(key, value) + "\n") == Field(key, value)
    ensures ':' in Field(key, value)
    ensures Trim(AfterFirst(Field(key, value), ':')) == value
  {
    var line := Field(key, value);
    assert line != [] && !IsSpace(line[0]) && !IsSpace(line[|line| - 1]) by {
      FieldShape(key, value);
      assert line[0] == line[..|key|][0];
      assert line[|line| - 1] == line[|key| + 1..][|value|];
    }
    TrimNewline(line);
    FieldAfterColon(key, value);
    TrimSpaced(value);
  }

  /** Reading a field line without stripping it: the value between the first
      and the second colon, stripped, is the written value. */
  lemma FieldLine2(key: string, value: string)
    requires ':' !in key && ':' !in value && '\n' !in value
    requires value != [] && !IsSpace(value[0]) && !IsSpace(value[|value| - 1])
    ensures ':' in Field(key, value) + "\n"
    ensures Trim(SecondField(Field(key, value) + "\n", ':')) == value
  {
    assert Field(key, value) + "\n" == key + [':'] + (" " + value + "\n");
    SecondFieldPrefix(key, ':', " " + value + "\n");
    StripSurrounded(" ", value, "\n", Whitespace);
  }

  lemma NameShape(sentiment: Label)
    ensures ':' !in Name(sentiment) && '\n' !in Name(sentiment) && '\r' !in Name(sentiment)
    ensures !IsSpace(Name(sentiment)[0]) && !IsSpace(Name(sentiment)[|Name(sentiment)| - 1])
  {
  }

  /** A written label line is not a score line: the two differ at the colon. */
  lemma LabelFieldNotScore(value: string)
    ensures !StartsWith(Field(LabelKey, value), ScorePrefix)
  {
    FieldShape(LabelKey, value);
    if |ScorePrefix| <= |Field(LabelKey, value)| {
      assert Field(LabelKey, value)[..|ScorePrefix|][9] == ':';
    }
  }

  /** A record of two field lines, as `readlines()` splits it. */
  lemma RecordLines(l1: string, l2: string)
    requires '\n' !in l1 && '\n' !in l2
    ensures ReadLines(l1 + "\n" + l2 + "\n") == [l1 + "\n", l2 + "\n"]
  {
    assert l1 + "\n" + l2 + "\n" == l1 + "\n" + (l2 + "\n");
    ReadLinesCons(l1, l2 + "\n");
    assert l2 + "\n" == l2 + "\n" + "";
    ReadLinesCons(l2, "");
  }

  // ---------------------------------------------------------------------
  // Third version.
  // ---------------------------------------------------------------------

  /** The record `upload_audio` writes: the score with four decimals, then
      the sentiment, each on its own line. */
  function Record3(score: real, sentiment: Label): string {
    Field(ScoreKey, Format4(score)) + "\n" + Field(LabelKey, Name(sentiment)) + "\n"
  }

  /** A line (after `strip()`) taken by the score branch. */
  predicate IsScoreLine3(line: string) {
    StartsWith(Trim(line), ScorePrefix)
  }

  /** A line taken by the label branch: the `elif`, so never a score line. */
  predicate IsLabelLine3(line: string) {
    !IsScoreLine3(line) && StartsWith(Trim(line), LabelPrefix)
  }

  lemma {:induction false} ColonInPrefix(line: string, prefix: string)
    requires StartsWith(line, prefix) && prefix != [] && prefix[|prefix| - 1] == ':'
    ensures ':' in line
  {
    assert line[|prefix| - 1] == prefix[|prefix| - 1];
  }

  /** The score a score line gives: the text after the first colon, rounded
      to two decimals, or 0.0 when it is not a number. */
  function ScoreOf3(line: string): real
    requires IsScoreLine3(line)
  {
    ColonInPrefix(Trim(line), ScorePrefix);
    match ParseFloat(Trim(AfterFirst(Trim(line), ':')))
    case None => 0.0
    case Some(v) => Round2(v)
  }

  /** The label a label line gives: the text after the first colon, stripped. */
  function LabelOf3(line: string): string
    requires IsLabelLine3(line)
  {
    ColonInPrefix(Trim(line), LabelPrefix);
    Trim(AfterFirst(Trim(line), ':'))
  }

  /** One turn of the line loop. */
  function Step3(r: Reading, line: string): Reading {
    if IsScoreLine3(line) then r.(score := Some(ScoreOf3(line)))
    else if IsLabelLine3(line) then r.(sentiment := Some(LabelOf3(line)))
    else r
  }

  /** The loop over `readlines()`, as a fold from the first line. */
  function Read3(lines: seq<string>): Reading {
    if lines == [] then Unread else Step3(Read3(lines[..|lines| - 1]), lines[|lines| - 1])
  }

  /** One more line read is one more step. */
  lemma Read3Prefix(lines: seq<string>, i: nat)
    requires i < |lines|
    ensures Read3(lines[..i + 1]) == Step3(Read3(lines[..i]), lines[i])
  {
    assert lines[..i + 1][..i] == lines[..i];
  }

  /** The line loop of `get_stt_files`, overwriting the two fields line by line. */
  method ReadSentiment3(lines: seq<string>) returns (score: Option<real>, sentiment: Option<string>)
    ensures Reading(score, sentiment) == Read3(lines)
  {
    score, sentiment := None, None;
    for i := 0 to |lines|
      invariant Reading(score, sentiment) == Read3(lines[..i])
    {
      Read3Prefix(lines, i);
      ghost var before := Reading(score, sentiment);
      var line := Trim(lines[i]);
      if StartsWith(line, ScorePrefix) {
        ColonInPrefix(line, ScorePrefix);
        var parsed := ParseFloat(Trim(AfterFirst(line, ':')));
        if parsed.Some? {
          score := Some(Round2(parsed.value));
        } else {
          score := Some(0.0);
        }
      } else if StartsWith(line, LabelPrefix) {
        ColonInPrefix(line, LabelPrefix);
        sentiment := Some(Trim(AfterFirst(line, ':')));
      }
      assert Reading(score, sentiment) == Step3(before, lines[i]);
    }
    assert lines[..|lines|] == lines;
  }

  /** The last label line decides the label; with none the label stays unset. */
  lemma {:induction false} LastLabelWins3(lines: seq<string>, i: nat)
    requires i < |lines| && IsLabelLine3(lines[i])
    requires forall j :: i < j < |lines| ==> !IsLabelLine3(lines[j])
    ensures Read3(lines).sentiment == Some(LabelOf3(lines[i]))
    decreases |lines|
  {
    if i < |lines| - 1 {
      var init := lines[..|lines| - 1];
      assert init[i] == lines[i];
      assert forall j :: i < j < |init| ==> init[j] == lines[j];
      LastLabelWins3(init, i);
    }
  }

  lemma {:induction false} NoLabelLine3(lines: seq<string>)
    requires forall j :: 0 <= j < |lines| ==> !IsLabelLine3(lines[j])
    ensures Read3(lines).sentiment == None
    decreases |lines|
  {
    if lines != [] {
      var init := lines[..|lines| - 1];
      assert forall j :: 0 <= j < |init| ==> init[j] == lines[j];
      NoLabelLine3(init);
    }
  }

  /** The last score line decides the score; with none the score stays unset. */
  lemma {:induction false} LastScoreWins3(lines: seq<string>, i: nat)
    requires i < |lines| && IsScoreLine3(lines[i])
    requires forall j :: i < j < |lines| ==> !IsScoreLine3(lines[j])
    ensures Read3(lines).score == Some(ScoreOf3(lines[i]))
    decreases |lines|
  {
    if i < |lines| - 1 {
      var init := lines[..|lines| - 1];
      assert init[i] == lines[i];
      assert forall j :: i < j < |init| ==> init[j] == lines[j];
      LastScoreWins3(init, i);
    }
  }

  lemma {:induction false} NoScoreLine3(lines: seq<string>)
    requires forall j :: 0 <= j < |lines| ==> !IsScoreLine3(lines[j])
    ensures Read3(lines).score == None
    decreases |lines|
  {
    if lines != [] {
      var init := lines[..|lines| - 1];
      assert forall j :: 0 <= j < |init| ==> init[j] == lines[j];
      NoScoreLine3(init);
    }
  }

  /** The score line reads back as the four-decimal value, rounded to two. */
  lemma ScoreLineReadsBack3(score: real)
    ensures var line := Field(ScoreKey, Format4(score)) + "\n";
      IsScoreLine3(line) && ScoreOf3(line) == Round2(Fixed4(score))
  {
    FormatShape(score);
    FieldLine3(ScoreKey, Format4(score));
    FieldStartsWithKey(ScoreKey, Format4(score));
    FormatThenParse(score);
  }

  /** The label line reads back as the label's name. */
  lemma LabelLineReadsBack3(sentiment: Label)
    ensures var line := Field(LabelKey, Name(sentiment)) + "\n";
      IsLabelLine3(line) && LabelOf3(line) == Name(sentiment)
  {
    NameShape(sentiment);
    FieldLine3(LabelKey, Name(sentiment));
    FieldStartsWithKey(LabelKey, Name(sentiment));
    LabelFieldNotScore(Name(sentiment));
  }

  /** The two lines of a written record. */
  lemma Record3Lines(score: real, sentiment: Label)
    ensures ReadLines(Record3(score, sentiment)) ==
      [Field(ScoreKey, Format4(score)) + "\n", Field(LabelKey, Name(sentiment)) + "\n"]
  {
    assert '\n' !in Format4(score) by {
      FormatShape(score);
    }
    NameShape(sentiment);
    FieldAvoids(ScoreKey, Format4(score), '\n');
    FieldAvoids(LabelKey, Name(sentiment), '\n');
    RecordLines(Field(ScoreKey, Format4(score)), Field(LabelKey, Name(sentiment)));
  }

  /** Reading back a written record gives the written label exactly and the
      written score as `{:.4f}` rendered it, rounded to two decimals. */
  lemma RoundTrip3(score: real, sentiment: Label)
    ensures Read3(ReadTextLines(Record3(score, sentiment))) == Reading(Some(Round2(Fixed4(score))), Some(Name(sentiment)))
  {
    Record3Plain(score, sentiment);
    ReadBack3(score, sentiment);
  }

  /** The record has no `\r`, so text-mode reading leaves it as written. */
  lemma Record3Plain(score: real, sentiment: Label)
    ensures Universal(Record3(score, sentiment)) == Record3(score, sentiment)
  {
    FieldsPlain3(score, sentiment);
    UniversalClean(Record3(score, sentiment));
  }

  /** A record saved with `\r\n` or `\r` line endings reads back the same. */
  lemma CarriageReturns3(score: real, sentiment: Label, ending: string)
    requires ending == "\r\n" || ending == "\r"
    ensures Read3(ReadTextLines(Saved3(score, sentiment, ending))) == Reading(Some(Round2(Fixed4(score))), Some(Name(sentiment)))
  {
    SavedUniversal3(score, sentiment, ending);
    ReadBack3(score, sentiment);
  }

  /** The two record lines, each ended by `ending`. */
  function Saved3(score: real, sentiment: Label, ending: string): string {
    Field(ScoreKey, Format4(score)) + ending + Field(LabelKey, Name(sentiment)) + ending
  }

  lemma SavedUniversal3(score: real, sentiment: Label, ending: string)
    requires ending == "\r\n" || ending == "\r"
    ensures Universal(Saved3(score, sentiment, ending)) == Record3(score, sentiment)
  {
    var f1, f2 := Field(ScoreKey, Format4(score)), Field(LabelKey, Name(sentiment));
    FieldsPlain3(score, sentiment);
    assert f2[0] == 'S' by {
      FieldShape(LabelKey, Name(sentiment));
      assert f2[0] == f2[..|LabelKey|][0];
    }
    UniversalLine(f2, ending, []);
    assert f2 + ending == f2 + ending + [];
    UniversalLine(f1, ending, f2 + ending);
    assert f1 + ending + f2 + ending == f1 + ending + (f2 + ending);
  }

  /** Neither record line holds a `\r`. */
  lemma FieldsPlain3(score: real, sentiment: Label)
    ensures '\r' !in Field(ScoreKey, Format4(score)) && '\r' !in Field(LabelKey, Name(sentiment))
  {
    assert '\r' !in Format4(score) by {
      FormatShape(score);
    }
    assert '\r' !in ScoreKey && '\r' !in LabelKey;
    NameShape(sentiment);
    FieldAvoids(ScoreKey, Format4(score), '\r');
    FieldAvoids(LabelKey, Name(sentiment), '\r');
  }

  lemma ReadBack3(score: real, sentiment: Label)
    ensures Read3(ReadLines(Record3(score, sentiment))) == Reading(Some(Round2(Fixed4(score))), Some(Name(sentiment)))
  {
    Record3Lines(score, sentiment);
    ScoreLineReadsBack3(score);
    LabelLineReadsBack3(sentiment);
    var lines := ReadLines(Record3(score, sentiment));
    assert lines[..1] == [lines[0]];
    assert lines[..1][..0] == [];
  }

  // ---------------------------------------------------------------------
  // Second version.
  // ---------------------------------------------------------------------

  /** The record `upload_audio` writes; `scoreText` is Python's `str` of the
      analysed score. */
  function Record2(scoreText: string, sentiment: Label): string {
    Field(ScoreKey, scoreText) + "\n" + Field(LabelKey, Name(sentiment)) + "\n"
  }

  /** The lines are not stripped before the prefix tests. */
  predicate IsScoreLine2(line: string) {
    StartsWith(line, ScorePrefix)
  }

  predicate IsLabelLine2(line: string) {
    !IsScoreLine2(line) && StartsWith(line, LabelPrefix)
  }

  /** `round(float(line.split(":")[1].strip()), ndigits=2)`, or `None` when
      the field is not a number. */
  function ScoreOf2(line: string): Option<real>
    requires IsScoreLine2(line)
  {
    ColonInPrefix(line, ScorePrefix);
    match ParseFloat(Trim(SecondField(line, ':')))
    case None => None
    case Some(v) => Some(Round2(v))
  }

  /** `line.split(":")[1].strip()`: only the text up to a second colon. */
  function LabelOf2(line: string): string
    requires IsLabelLine2(line)
  {
    ColonInPrefix(line, LabelPrefix);
    Trim(SecondField(line, ':'))
  }

  function Step2(r: Reading, line: string): Reading {
    if IsScoreLine2(line) then r.(score := ScoreOf2(line))
    else if IsLabelLine2(line) then r.(sentiment := Some(LabelOf2(line)))
    else r
  }

  function Read2(lines: seq<string>): Reading {
    if lines == [] then Unread else Step2(Read2(lines[..|lines| - 1]), lines[|lines| - 1])
  }

  /** One more line read is one more step. */
  lemma Read2Prefix(lines: seq<string>, i: nat)
    requires i < |lines|
    ensures Read2(lines[..i + 1]) == Step2(Read2(lines[..i]), lines[i])
  {
    assert lines[..i + 1][..i] == lines[..i];
  }

  /** The line loop of the second version's `get_stt_files`, overwriting the
      two fields line by line. */
  method ReadSentiment2(lines: seq<string>) returns (score: Option<real>, sentiment: Option<string>)
    ensures Reading(score, sentiment) == Read2(lines)
  {
    score, sentiment := None, None;
    for i := 0 to |lines|
      invariant Reading(score, sentiment) == Read2(lines[..i])
    {
      Read2Prefix(lines, i);
      ghost var before := Reading(score, sentiment);
      var line := lines[i];
      if StartsWith(line, ScorePrefix) {
        ColonInPrefix(line, ScorePrefix);
        var parsed := ParseFloat(Trim(SecondField(line, ':')));
        if parsed.Some? {
          score := Some(Round2(parsed.value));
        } else {
          score := None;
        }
      } else if StartsWith(line, LabelPrefix) {
        ColonInPrefix(line, LabelPrefix);
        sentiment := Some(Trim(SecondField(line, ':')));
      }
      assert Reading(score, sentiment) == Step2(before, line);
    }
    assert lines[..|lines|] == lines;
  }

  /** An unparsable score line resets the score to `None`, even after a good one. */
  lemma BadScoreResets2(lines: seq<string>, line: string)
    requires IsScoreLine2(line) && ScoreOf2(line).None?
    ensures Read2(lines + [line]).score == None
  {
    assert (lines + [line])[..|lines|] == lines;
  }

  /** The last label line decides the label; with none the label stays unset. */
  lemma {:induction false} LastLabelWins2(lines: seq<string>, i: nat)
    requires i < |lines| && IsLabelLine2(lines[i])
    requires forall j :: i < j < |lines| ==> !IsLabelLine2(lines[j])
    ensures Read2(lines).sentiment == Some(LabelOf2(lines[i]))
    decreases |lines|
  {
    if i < |lines| - 1 {
      var init := lines[..|lines| - 1];
      assert init[i] == lines[i];
      assert forall j :: i < j < |init| ==> init[j] == lines[j];
      LastLabelWins2(init, i);
    }
  }

  lemma {:induction false} NoLabelLine2(lines: seq<string>)
    requires forall j :: 0 <= j < |lines| ==> !IsLabelLine2(lines[j])
    ensures Read2(lines).sentiment == None
    decreases |lines|
  {
    if lines != [] {
      var init := lines[..|lines| - 1];
      assert forall j :: 0 <= j < |init| ==> init[j] == lines[j];
      NoLabelLine2(init);
    }
  }

  /** The last score line decides the score. */
  lemma {:induction false} LastScoreWins2(lines: seq<string>, i: nat)
    requires i < |lines| && IsScoreLine2(lines[i])
    requires forall j :: i < j < |lines| ==> !IsScoreLine2(lines[j])
    ensures Read2(lines).score == ScoreOf2(lines[i])
    decreases |lines|
  {
    if i < |lines| - 1 {
      var init := lines[..|lines| - 1];
      assert init[i] == lines[i];
      assert forall j :: i < j < |init| ==> init[j] == lines[j];
      LastScoreWins2(init, i);
    }
  }

  /** The score line reads back as the number its text spells, rounded to
      two decimals, or `None` when it spells none. */
  lemma ScoreLineReadsBack2(scoreText: string)
    requires scoreText != [] && !IsSpace(scoreText[0]) && !IsSpace(scoreText[|scoreText| - 1])
    requires ':' !in scoreText && '\n' !in scoreText
    ensures var line := Field(ScoreKey, scoreText) + "\n";
      IsScoreLine2(line) && Trim(SecondField(line, ':')) == scoreText
  {
    var line := Field(ScoreKey, scoreText) + "\n";
    FieldStartsWithKey(ScoreKey, scoreText);
    assert line[..|ScorePrefix|] == Field(ScoreKey, scoreText)[..|ScorePrefix|];
    FieldLine2(ScoreKey, scoreText);
  }

  /** The label line reads back as the label's name. */
  lemma LabelLineReadsBack2(sentiment: Label)
    ensures var line := Field(LabelKey, Name(sentiment)) + "\n";
      IsLabelLine2(line) && LabelOf2(line) == Name(sentiment)
  {
    var f := Field(LabelKey, Name(sentiment));
    var line := f + "\n";
    NameShape(sentiment);
    FieldStartsWithKey(LabelKey, Name(sentiment));
    LabelFieldNotScore(Name(sentiment));
    assert line[..|LabelPrefix|] == f[..|LabelPrefix|];
    assert !IsScoreLine2(line) by {
      if |ScorePrefix| <= |line| {
        FieldShape(LabelKey, Name(sentiment));
        assert line[..|ScorePrefix|][9] == f[9];
      }
    }
    FieldLine2(LabelKey, Name(sentiment));
  }

  /** Reading back a written record gives the written label exactly, and the
      score the written text spells, rounded to two decimals. The score text
      is a plain number: no blank at its ends, no colon, no newline. */
  lemma RoundTrip2(scoreText: string, sentiment: Label)
    requires scoreText != [] && !IsSpace(scoreText[0]) && !IsSpace(scoreText[|scoreText| - 1])
    requires ':' !in scoreText && '\n' !in scoreText && '\r' !in scoreText
    ensures Read2(ReadTextLines(Record2(scoreText, sentiment))).sentiment == Some(Name(sentiment))
    ensures Read2(ReadTextLines(Record2(scoreText, sentiment))).score ==
      match ParseFloat(scoreText) case None => None case Some(v) => Some(Round2(v))
  {
    assert '\r' !in ScoreKey && '\r' !in LabelKey;
    NameShape(sentiment);
    FieldAvoids(ScoreKey, scoreText, '\r');
    FieldAvoids(LabelKey, Name(sentiment), '\r');
    UniversalClean(Record2(scoreText, sentiment));
    ReadBack2(scoreText, sentiment);
  }

  lemma ReadBack2(scoreText: string, sentiment: Label)
    requires scoreText != [] && !IsSpace(scoreText[0]) && !IsSpace(scoreText[|scoreText| - 1])
    requires ':' !in scoreText && '\n' !in scoreText
    ensures Read2(ReadLines(Record2(scoreText, sentiment))).sentiment == Some(Name(sentiment))
    ensures Read2(ReadLines(Record2(scoreText, sentiment))).score ==
      match ParseFloat(scoreText) case None => None case Some(v) => Some(Round2(v))
  {
    var l1, l2 := Field(ScoreKey, scoreText), Field(LabelKey, Name(sentiment));
    NameShape(sentiment);
    FieldAvoids(ScoreKey, scoreText, '\n');
    FieldAvoids(LabelKey, Name(sentiment), '\n');
    RecordLines(l1, l2);
    ReadPair2(l1 + "\n", l2 + "\n");
    ScoreLineReadsBack2(scoreText);
    LabelLineReadsBack2(sentiment);
  }

  /** Two lines read are two steps from the empty reading. */
  lemma ReadPair2(a: string, b: string)
    ensures Read2([a, b]) == Step2(Step2(Unread, a), b)
  {
    var lines := [a, b];
    assert lines[..1] == [a] && lines[..2] == lines;
    assert [a][..0] == [] && [a][..1] == [a];
    Read2Prefix(lines, 1);
    Read2Prefix([a], 0);
  }
}
