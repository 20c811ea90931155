/** What the upload routes write into a folder, and how the catalog then
    reads it. A folder is a map from file names to contents; the clock
    reading, the recogniser's and the language model's answers, and the
    uploaded audio are parameters. */
module Uploads {
  import opened Wrappers
  import opened Text
  import opened Naming
  import opened Numbers
  import opened Sentiment
  import opened Reply
  import opened Sidecar
  import opened Catalog
  import opened Stamps
  import opened Transcripts

  // ---------------------------------------------------------------------
  // Third version.
  // ---------------------------------------------------------------------

  /** How the call to the language model ended: no model was initialised,
      it replied with a text, or it raised an exception of the named type. */
  datatype LlmOutcome = NoModel | Replied(text: string) | Failed(errorType: string)

  /** `process_audio_with_llm`: the parsed reply, or a fixed error result. */
  function ProcessAudio(outcome: LlmOutcome): (r: Parsed)
    ensures -1.0 <= r.score <= 1.0 && r.transcript != []
    ensures !outcome.Replied? ==> r.sentiment == Neutral && r.score == 0.0
  {
    match outcome
    case NoModel => Parsed("Error: Model not available", Neutral, 0.0)
    case Replied(text) => Parse(text)
    case Failed(errorType) => Parsed("Error: Unexpected processing error (" + errorType + ")", Neutral, 0.0)
  }

  /** `audio_<timestamp>`, the base of the three names an upload writes. */
  function Base3(now: Moment): string {
    "audio_" + Stamp24(now)
  }

  /** `upload_audio`: a `.wav` upload is stored under a timestamped name
      with its transcript and its sentiment record beside it; anything else
      leaves the folder as it was. */
  function UploadAudio3(folder: map<string, string>, hasAudioPart: bool, uploadName: string, audio: string,
                        now: Moment, outcome: LlmOutcome): map<string, string>
  {
    if !hasAudioPart || uploadName == "" || !AllowedFile(uploadName) then folder
    else
      var base := Base3(now);
      var result := ProcessAudio(outcome);
      folder[base + ".wav" := audio]
            [base + ".txt" := result.transcript]
            [base + "_sentiment.txt" := Record3(result.score, result.sentiment)]
  }

  /** The base name has no dot and no slash and starts with a letter. */
  lemma BaseShape3(now: Moment)
    ensures '.' !in Base3(now) && '/' !in Base3(now) && Base3(now)[0] == 'a'
  {
    var base := Base3(now);
    StampChars(now);
    forall i | 0 <= i < |base|
      ensures base[i] != '.' && base[i] != '/'
    {
      if i >= 6 {
        assert base[i] == Stamp24(now)[i - 6];
      }
    }
  }

  /** The names an upload writes: the recording is listed, its transcript and
      its sentiment record are not, and the catalog looks for the record under
      the very name the upload gave it. */
  lemma UploadNames3(now: Moment)
    ensures var base := Base3(now);
      AllowedFile(base + ".wav") && !AllowedFile(base + ".txt") && !AllowedFile(base + "_sentiment.txt") &&
      SidecarName3(base + ".wav") == base + "_sentiment.txt"
  {
    BaseShape3(now);
    WrittenNames(Base3(now));
    StemRoot(Base3(now));
  }

  /** Of `<stem>.wav`, `<stem>.txt` and `<stem>_sentiment.txt`, only the
      first is listed. */
  lemma WrittenNames(stem: string)
    ensures AllowedFile(stem + ".wav") && !AllowedFile(stem + ".txt") && !AllowedFile(stem + "_sentiment.txt")
  {
    WavNameAllowed(stem);
    TxtNameNotAllowed(stem);
    assert stem + "_sentiment.txt" == stem + "_sentiment" + ".txt";
    TxtNameNotAllowed(stem + "_sentiment");
  }

  /** A dot-free, slash-free stem is the root of `<stem>.wav`. */
  lemma StemRoot(stem: string)
    requires '.' !in stem && '/' !in stem && stem != []
    ensures SidecarName3(stem + ".wav") == stem + "_sentiment.txt"
  {
    assert stem[0] != '.';
    assert stem + ".wav" == stem + "." + "wav";
    SplitExtOfStem(stem, "wav");
  }

  /** The file route serves all three names an upload writes. */
  lemma UploadServed3(now: Moment)
    ensures var base := Base3(now);
      !ServeRejected(base + ".wav") && !ServeRejected(base + ".txt") && !ServeRejected(base + "_sentiment.txt")
  {
    var base := Base3(now);
    BaseShape3(now);
    Unserved(base, ".wav");
    Unserved(base, ".txt");
    Unserved(base, "_sentiment.txt");
  }

  /** A name made of a dot-free stem that does not start with `/` and a
      suffix with no two dots in a row passes the traversal guard. */
  lemma Unserved(stem: string, suffix: string)
    requires '.' !in stem && stem != [] && stem[0] != '/'
    requires forall i :: 0 <= i < |suffix| - 1 ==> !(suffix[i] == '.' && suffix[i + 1] == '.')
    ensures !ServeRejected(stem + suffix)
  {
    var name := stem + suffix;
    assert name[..1] == stem[..1];
    forall i | 0 <= i <= |name| - 2
      ensures !OccursAt(name, i, "..")
    {
      if i < |stem| {
        assert name[i] == stem[i];
        assert name[i] != '.';
      } else {
        assert name[i] == suffix[i - |stem|] && name[i + 1] == suffix[i + 1 - |stem|];
      }
      OccursPair(name, i);
    }
  }

  /** Two dots at an index are the two characters there. */
  lemma OccursPair(s: string, i: int)
    requires 0 <= i <= |s| - 2
    ensures OccursAt(s, i, "..") ==> s[i] == '.' && s[i + 1] == '.'
  {
    assert s[i..i + 2][0] == s[i] && s[i..i + 2][1] == s[i + 1];
  }

  /** Uploading and then building the catalog: the recording's row shows the
      written label exactly and the written score as `{:.4f}` rendered it,
      rounded to two decimals. */
  lemma UploadThenCatalog3(folder: map<string, string>, unreadable: set<string>, uploadName: string, audio: string,
                           now: Moment, outcome: LlmOutcome)
    requires uploadName != "" && AllowedFile(uploadName)
    requires Base3(now) + "_sentiment.txt" !in unreadable
    ensures var result := ProcessAudio(outcome);
      var after := UploadAudio3(folder, true, uploadName, audio, now, outcome);
      EntryFor3(after, unreadable, Base3(now) + ".wav") ==
        Entry(Base3(now) + ".wav", Some(Round2(Fixed4(result.score))), Some(Name(result.sentiment)))
  {
    var result := ProcessAudio(outcome);
    UploadNames3(now);
    RoundTrip3(result.score, result.sentiment);
  }

  // ---------------------------------------------------------------------
  // Second version.
  // ---------------------------------------------------------------------

  /** The name an upload of the first two versions is stored under. */
  function AudioName12(now: Moment): string {
    Stamp12(now) + ".wav"
  }

  /** `upload_audio`: whatever the uploaded name, the audio is stored under
      the timestamp with `.wav`, the joined transcript beside it, and a
      sentiment record holding `scoreText` (Python's `str` of the analysed
      score) and the score's threshold label. */
  function UploadAudio2(folder: map<string, string>, hasAudioPart: bool, uploadName: string, audio: string,
                        now: Moment, firstAlternatives: seq<string>, score: real, scoreText: string): map<string, string>
  {
    if !hasAudioPart || uploadName == "" then folder
    else
      var name := AudioName12(now);
      folder[name := audio]
            [name + ".txt" := Joined(firstAlternatives)]
            [name + "_sentiment.txt" := Record2(scoreText, ThresholdLabel(score))]
  }

  /** The recording is listed and the two files beside it are not, and the
      catalog looks for the record under the name the upload gave it. */
  lemma UploadNames12(now: Moment)
    ensures var name := AudioName12(now);
      AllowedFile(name) && !AllowedFile(name + ".txt") && !AllowedFile(name + "_sentiment.txt") &&
      SidecarName2(name) == name + "_sentiment.txt"
  {
    WrittenNames12(Stamp12(now));
  }

  /** `<stem>.wav` is listed and the two files written beside it are not. */
  lemma WrittenNames12(stem: string)
    ensures var name := stem + ".wav";
      AllowedFile(name) && !AllowedFile(name + ".txt") && !AllowedFile(name + "_sentiment.txt")
  {
    var name := stem + ".wav";
    WavNameAllowed(stem);
    TxtNameNotAllowed(name);
    assert name + "_sentiment.txt" == name + "_sentiment" + ".txt";
    TxtNameNotAllowed(name + "_sentiment");
  }

  /** Uploading and then building the catalog: the row shows the threshold
      label of the score exactly, and the score rounded to two decimals when
      its text spells it. */
  lemma UploadThenCatalog2(folder: map<string, string>, uploadName: string, audio: string, now: Moment,
                           firstAlternatives: seq<string>, score: real, scoreText: string)
    requires uploadName != ""
    requires scoreText != [] && !IsSpace(scoreText[0]) && !IsSpace(scoreText[|scoreText| - 1])
    requires ':' !in scoreText && '\n' !in scoreText && '\r' !in scoreText
    requires ParseFloat(scoreText) == Some(score)
    ensures var after := UploadAudio2(folder, true, uploadName, audio, now, firstAlternatives, score, scoreText);
      EntryFor2(after, AudioName12(now)) ==
        Entry(AudioName12(now), Some(Round2(score)), Some(Name(ThresholdLabel(score))))
  {
    RoundTrip2(scoreText, ThresholdLabel(score));
  }

  // ---------------------------------------------------------------------
  // First version (and the text route the second version kept).
  // ---------------------------------------------------------------------

  /** `upload_audio`: the audio under the timestamp with `.wav`, and the
      joined transcript beside it. */
  function UploadAudio1(folder: map<string, string>, hasAudioPart: bool, uploadName: string, audio: string,
                        now: Moment, firstAlternatives: seq<string>): map<string, string>
  {
    if !hasAudioPart || uploadName == "" then folder
    else
      var name := AudioName12(now);
      folder[name := audio][name + ".txt" := Joined(firstAlternatives)]
  }

  /** `upload_text`: empty text writes nothing; otherwise the synthesised
      speech under the timestamp with `.wav` and the text beside it. */
  function UploadText(folder: map<string, string>, text: string, now: Moment, speech: string): map<string, string>
  {
    if text == "" then folder
    else
      var name := AudioName12(now);
      folder[name := speech][name + ".txt" := text]
  }

  /** A listing of the folder after an upload shows the recording and never
      its transcript; with nothing uploaded the folder is untouched. */
  lemma UploadAudioListed1(folder: map<string, string>, hasAudioPart: bool, uploadName: string, audio: string,
                           now: Moment, firstAlternatives: seq<string>, listing: seq<string>)
    requires forall x :: x in listing <==> x in UploadAudio1(folder, hasAudioPart, uploadName, audio, now, firstAlternatives)
    ensures AudioName12(now) + ".txt" !in AllowedNames(listing)
    ensures hasAudioPart && uploadName != "" ==> AudioName12(now) in AllowedNames(listing)
    ensures !hasAudioPart || uploadName == "" ==> forall x :: x in listing <==> x in folder
  {
    UploadNames12(now);
    AllowedNamesMembers(listing, AudioName12(now));
    AllowedNamesMembers(listing, AudioName12(now) + ".txt");
  }

  /** The same for the text route: the synthesised audio is listed when the
      text is not empty, its text file never, and empty text changes nothing. */
  lemma UploadTextListed(folder: map<string, string>, text: string, now: Moment, speech: string, listing: seq<string>)
    requires forall x :: x in listing <==> x in UploadText(folder, text, now, speech)
    ensures AudioName12(now) + ".txt" !in AllowedNames(listing)
    ensures text != "" ==> AudioName12(now) in AllowedNames(listing)
    ensures text != "" ==> UploadText(folder, text, now, speech)[AudioName12(now) + ".txt"] == text
    ensures text == "" ==> forall x :: x in listing <==> x in folder
  {
    UploadNames12(now);
    AllowedNamesMembers(listing, AudioName12(now));
    AllowedNamesMembers(listing, AudioName12(now) + ".txt");
  }
}
