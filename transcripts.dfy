/** `recognize_speech` of the first two versions: the recogniser's results
    come in as the transcript of each result's first alternative, and the
    function joins them, each ended by a newline. */
module Transcripts {
  import opened Text

  /** The text the loop builds, as a fold from the first result. */
  function Joined(parts: seq<string>): string {
    if parts == [] then "" else Joined(parts[..|parts| - 1]) + parts[|parts| - 1] + "\n"
  }

  /** The loop `txt = txt + result.alternatives[0].transcript + '\n'`. */
  method RecognizeSpeech(firstAlternatives: seq<string>) returns (txt: string)
    ensures txt == Joined(firstAlternatives)
  {
    txt := "";
    for i := 0 to |firstAlternatives|
      invariant txt == Joined(firstAlternatives[..i])
    {
      assert firstAlternatives[..i + 1][..i] == firstAlternatives[..i];
      txt := txt + firstAlternatives[i] + "\n";
    }
    assert firstAlternatives[..|firstAlternatives|] == firstAlternatives;
  }

  /** Seen from the front: the first transcript and its newline come first. */
  lemma {:induction false} JoinedCons(x: string, rest: seq<string>)
    ensures Joined([x] + rest) == x + "\n" + Joined(rest)
    decreases |rest|
  {
    if rest == [] {
      assert [x] + rest == [x];
      assert [x][..0] == [];
    } else {
      var init := rest[..|rest| - 1];
      var last := rest[|rest| - 1];
      assert ([x] + rest)[..|rest|] == [x] + init;
      JoinedCons(x, init);
    }
  }

  /** Each transcript followed by its newline. */
  function Terminated(parts: seq<string>): (lines: seq<string>)
    ensures |lines| == |parts|
    ensures forall i :: 0 <= i < |parts| ==> lines[i] == parts[i] + "\n"
  {
    if parts == [] then [] else [parts[0] + "\n"] + Terminated(parts[1..])
  }

  /** Reading the text back line by line gives every transcript in order,
      each with its newline, when no transcript spans lines; no results give
      the empty text. */
  lemma {:induction false} JoinedReadsBack(parts: seq<string>)
    requires forall i :: 0 <= i < |parts| ==> '\n' !in parts[i]
    ensures ReadLines(Joined(parts)) == Terminated(parts)
    ensures parts == [] <==> Joined(parts) == ""
    decreases |parts|
  {
    if parts != [] {
      var rest := parts[1..];
      assert parts == [parts[0]] + rest;
      JoinedCons(parts[0], rest);
      ReadLinesCons(parts[0], Joined(rest));
      JoinedReadsBack(rest);
    }
  }
}
