/** The listings the index page shows: `get_stt_files` of the third and the
    second version, which pair each recording with what its sentiment sidecar
    says, and the plain name listings (`get_stt_files` of the first version,
    `get_tts_files` of the first two). A folder is its listing, in the order
    `os.listdir` gives it, and a map from the names of the files in it to
    their text. */
module Catalog {
  import opened Wrappers
  import opened Text
  import opened Lex
  import opened Naming
  import opened Sidecar
  import opened Sorting

  /** One row of the recordings table. */
  datatype Entry = Entry(filename: string, score: Option<real>, sentiment: Option<string>)

  function FileName(e: Entry): string { e.filename }

  function Identity(s: string): string { s }

  /** No name is listed twice, as in a real directory. */
  predicate DistinctNames(listing: seq<string>) {
    forall i, j :: 0 <= i < j < |listing| ==> listing[i] != listing[j]
  }

  // ---------------------------------------------------------------------
  // Third version.
  // ---------------------------------------------------------------------

  /** The sidecar of a recording: its name without the extension, then
      `_sentiment.txt`. */
  function SidecarName3(filename: string): string {
    SplitExt(filename).0 + "_sentiment.txt"
  }

  /** The row for one recording. A sidecar that exists but cannot be read
      (`unreadable`, the `IOError` branch) gives score 0.0 and the label
      `Error Reading`. */
  function EntryFor3(contents: map<string, string>, unreadable: set<string>, filename: string): (e: Entry)
    ensures e.filename == filename
  {
    var sidecar := SidecarName3(filename);
    if sidecar !in contents then Entry(filename, None, None)
    else if sidecar in unreadable then Entry(filename, Some(0.0), Some("Error Reading"))
    else
      var r := Read3(ReadTextLines(contents[sidecar]));
      Entry(filename, r.score, r.sentiment)
  }

  /** The rows the loop appends, in listing order: one per name that passes
      `allowed_file`, built by `entry`. */
  function RowsBy(listing: seq<string>, entry: string -> Entry): seq<Entry> {
    if listing == [] then []
    else
      var last := listing[|listing| - 1];
      RowsBy(listing[..|listing| - 1], entry) + (if AllowedFile(last) then [entry(last)] else [])
  }

  function Rows3(listing: seq<string>, contents: map<string, string>, unreadable: set<string>): seq<Entry> {
    RowsBy(listing, f => EntryFor3(contents, unreadable, f))
  }

  /** `get_stt_files`: nothing when the folder is missing; otherwise one row
      per recording, newest name first. */
  method GetSttFiles3(folderExists: bool, listing: seq<string>, contents: map<string, string>, unreadable: set<string>)
    returns (entries: seq<Entry>)
    ensures !folderExists ==> entries == []
    ensures folderExists ==> multiset(entries) == multiset(Rows3(listing, contents, unreadable))
    ensures DescendingBy(entries, FileName)
    ensures DistinctNames(listing) ==> StrictlyDescendingBy(entries, FileName)
  {
    if !folderExists {
      return [];
    }
    var files: seq<Entry> := [];
    for i := 0 to |listing|
      invariant files == Rows3(listing[..i], contents, unreadable)
    {
      assert listing[..i + 1][..i] == listing[..i];
      var filename := listing[i];
      if AllowedFile(filename) {
        var sidecar := SplitExt(filename).0 + "_sentiment.txt";
        var score: Option<real> := None;
        var sentiment: Option<string> := None;
        if sidecar in contents {
          if sidecar in unreadable {
            sentiment := Some("Error Reading");
            score := Some(0.0);
          } else {
            score, sentiment := ReadSentiment3(ReadTextLines(contents[sidecar]));
          }
        }
        files := files + [Entry(filename, score, sentiment)];
      }
    }
    assert listing[..|listing|] == listing;
    entries := SortRows(files);
    if DistinctNames(listing) {
      RowNames3(listing, contents, unreadable);
      DistinctNamesKeys(listing, files);
      DistinctKeysPermutation(files, entries, FileName);
      DescendingDistinctIsStrict(entries, FileName);
    }
  }

  /** `files.sort(key=lambda x: x['filename'], reverse=True)`. */
  method SortRows(files: seq<Entry>) returns (sorted: seq<Entry>)
    ensures multiset(sorted) == multiset(files)
    ensures DescendingBy(sorted, FileName)
  {
    var a := new Entry[|files|](i requires 0 <= i < |files| => files[i]);
    assert a[..] == files;
    SortDescending(a, FileName);
    sorted := a[..];
  }

  /** The rows' names are the recordings of the listing, in listing order:
      `.txt` sidecars and transcripts never get a row. */
  lemma RowNames3(listing: seq<string>, contents: map<string, string>, unreadable: set<string>)
    ensures Names(Rows3(listing, contents, unreadable)) == AllowedNames(listing)
  {
    RowNamesBy(listing, f => EntryFor3(contents, unreadable, f));
  }

  /** A row is in the table exactly when its name is a recording of the
      listing and it carries what that recording's sidecar says. */
  lemma RowsMembers3(listing: seq<string>, contents: map<string, string>, unreadable: set<string>, e: Entry)
    ensures e in Rows3(listing, contents, unreadable) <==>
      e.filename in listing && AllowedFile(e.filename) && e == EntryFor3(contents, unreadable, e.filename)
  {
    RowsMembersBy(listing, f => EntryFor3(contents, unreadable, f), e);
  }

  /** A recording without a sidecar shows neither score nor label. */
  lemma NoSidecarNoSentiment3(listing: seq<string>, contents: map<string, string>, unreadable: set<string>, e: Entry)
    requires e in Rows3(listing, contents, unreadable)
    requires SidecarName3(e.filename) !in contents
    ensures e.score == None && e.sentiment == None
  {
    RowsMembers3(listing, contents, unreadable, e);
  }

  /** No sidecar is ever listed as a recording. */
  lemma SidecarNotListed3(filename: string)
    ensures !AllowedFile(SidecarName3(filename))
  {
    assert SidecarName3(filename) == SplitExt(filename).0 + "_sentiment" + ".txt";
    TxtNameNotAllowed(SplitExt(filename).0 + "_sentiment");
  }

  /** A hidden recording such as `.wav` is listed, and its sidecar is looked
      for under the whole name: `.wav_sentiment.txt`. */
  lemma HiddenWavSidecar3(ext: string)
    requires Lower(ext) == "wav" && '/' !in ext
    ensures AllowedFile("." + ext) && SidecarName3("." + ext) == "." + ext + "_sentiment.txt"
  {
    HiddenWavName(ext);
  }

  // ---------------------------------------------------------------------
  // Second version: no folder check, no `IOError` branch, and the sidecar
  // name keeps the extension.
  // ---------------------------------------------------------------------

  function SidecarName2(filename: string): string {
    filename + "_sentiment.txt"
  }

  function EntryFor2(contents: map<string, string>, filename: string): (e: Entry)
    ensures e.filename == filename
  {
    var sidecar := SidecarName2(filename);
    if sidecar !in contents then Entry(filename, None, None)
    else
      var r := Read2(ReadTextLines(contents[sidecar]));
      Entry(filename, r.score, r.sentiment)
  }

  function Rows2(listing: seq<string>, contents: map<string, string>): seq<Entry> {
    RowsBy(listing, f => EntryFor2(contents, f))
  }

  method GetSttFiles2(listing: seq<string>, contents: map<string, string>) returns (entries: seq<Entry>)
    ensures multiset(entries) == multiset(Rows2(listing, contents))
    ensures DescendingBy(entries, FileName)
    ensures DistinctNames(listing) ==> StrictlyDescendingBy(entries, FileName)
  {
    var files: seq<Entry> := [];
    for i := 0 to |listing|
      invariant files == Rows2(listing[..i], contents)
    {
      assert listing[..i + 1][..i] == listing[..i];
      var filename := listing[i];
      if AllowedFile(filename) {
        var sidecar := filename + "_sentiment.txt";
        var score: Option<real> := None;
        var sentiment: Option<string> := None;
        if sidecar in contents {
          score, sentiment := ReadSentiment2(ReadTextLines(contents[sidecar]));
        }
        files := files + [Entry(filename, score, sentiment)];
      }
    }
    assert listing[..|listing|] == listing;
    entries := SortRows(files);
    if DistinctNames(listing) {
      RowNames2(listing, contents);
      DistinctNamesKeys(listing, files);
      DistinctKeysPermutation(files, entries, FileName);
      DescendingDistinctIsStrict(entries, FileName);
    }
  }

  lemma RowNames2(listing: seq<string>, contents: map<string, string>)
    ensures Names(Rows2(listing, contents)) == AllowedNames(listing)
  {
    RowNamesBy(listing, f => EntryFor2(contents, f));
  }

  lemma RowsMembers2(listing: seq<string>, contents: map<string, string>, e: Entry)
    ensures e in Rows2(listing, contents) <==>
      e.filename in listing && AllowedFile(e.filename) && e == EntryFor2(contents, e.filename)
  {
    RowsMembersBy(listing, f => EntryFor2(contents, f), e);
  }

  lemma NoSidecarNoSentiment2(listing: seq<string>, contents: map<string, string>, e: Entry)
    requires e in Rows2(listing, contents)
    requires SidecarName2(e.filename) !in contents
    ensures e.score == None && e.sentiment == None
  {
    RowsMembers2(listing, contents, e);
  }

  lemma SidecarNotListed2(filename: string)
    ensures !AllowedFile(SidecarName2(filename))
  {
    assert SidecarName2(filename) == filename + "_sentiment" + ".txt";
    TxtNameNotAllowed(filename + "_sentiment");
  }

  // ---------------------------------------------------------------------
  // Rows of either version, for any row builder that keeps the name.
  // ---------------------------------------------------------------------

  lemma {:induction false} RowNamesBy(listing: seq<string>, entry: string -> Entry)
    requires forall x :: entry(x).filename == x
    ensures Names(RowsBy(listing, entry)) == AllowedNames(listing)
    decreases |listing|
  {
    if listing != [] {
      var init, last := listing[..|listing| - 1], listing[|listing| - 1];
      RowNamesBy(init, entry);
      NamesAppend(RowsBy(init, entry), if AllowedFile(last) then [entry(last)] else []);
    }
  }

  lemma {:induction false} RowsMembersBy(listing: seq<string>, entry: string -> Entry, e: Entry)
    requires forall x :: entry(x).filename == x
    ensures e in RowsBy(listing, entry) <==> e.filename in listing && AllowedFile(e.filename) && e == entry(e.filename)
    decreases |listing|
  {
    if listing != [] {
      var init := listing[..|listing| - 1];
      RowsMembersBy(init, entry, e);
      assert listing == init + [listing[|listing| - 1]];
    }
  }

  // ---------------------------------------------------------------------
  // Name listings: `get_stt_files` of the first version and `get_tts_files`
  // of the first two.
  // ---------------------------------------------------------------------

  /** The names that pass `allowed_file`, in listing order. */
  function AllowedNames(listing: seq<string>): seq<string> {
    if listing == [] then []
    else
      var last := listing[|listing| - 1];
      AllowedNames(listing[..|listing| - 1]) + (if AllowedFile(last) then [last] else [])
  }

  /** Append each allowed name, then `files.sort(reverse=True)`. */
  method GetAllowedFiles(listing: seq<string>) returns (names: seq<string>)
    ensures multiset(names) == multiset(AllowedNames(listing))
    ensures DescendingBy(names, Identity)
    ensures DistinctNames(listing) ==> StrictlyDescendingBy(names, Identity)
  {
    var files: seq<string> := [];
    for i := 0 to |listing|
      invariant files == AllowedNames(listing[..i])
    {
      assert listing[..i + 1][..i] == listing[..i];
      if AllowedFile(listing[i]) {
        files := files + [listing[i]];
      }
    }
    assert listing[..|listing|] == listing;
    var a := new string[|files|](i requires 0 <= i < |files| => files[i]);
    assert a[..] == files;
    SortDescending(a, Identity);
    names := a[..];
    if DistinctNames(listing) {
      AllowedNamesDistinct(listing);
      assert DistinctKeys(files, Identity);
      DistinctKeysPermutation(files, names, Identity);
      DescendingDistinctIsStrict(names, Identity);
    }
  }

  /** A name is listed exactly when it is in the folder and passes
      `allowed_file`. */
  lemma {:induction false} AllowedNamesMembers(listing: seq<string>, x: string)
    ensures x in AllowedNames(listing) <==> x in listing && AllowedFile(x)
    decreases |listing|
  {
    if listing != [] {
      var init := listing[..|listing| - 1];
      AllowedNamesMembers(init, x);
      assert listing == init + [listing[|listing| - 1]];
    }
  }

  /** Filtering keeps each name once when the folder lists it once. */
  lemma {:induction false} AllowedNamesDistinct(listing: seq<string>)
    requires DistinctNames(listing)
    ensures DistinctNames(AllowedNames(listing))
    decreases |listing|
  {
    if listing != [] {
      var init := listing[..|listing| - 1];
      var last := listing[|listing| - 1];
      assert DistinctNames(init) by {
        forall i, j | 0 <= i < j < |init|
          ensures init[i] != init[j]
        {
          assert init[i] == listing[i] && init[j] == listing[j];
        }
      }
      AllowedNamesDistinct(init);
      if AllowedFile(last) {
        assert last !in init by {
          forall i | 0 <= i < |init|
            ensures init[i] != last
          {
            assert init[i] == listing[i];
          }
        }
        AllowedNamesMembers(init, last);
      }
    }
  }

  // ---------------------------------------------------------------------
  // Row names.
  // ---------------------------------------------------------------------

  function Names(rows: seq<Entry>): (names: seq<string>)
    ensures |names| == |rows|
    ensures forall i :: 0 <= i < |rows| ==> names[i] == rows[i].filename
  {
    if rows == [] then [] else Names(rows[..|rows| - 1]) + [rows[|rows| - 1].filename]
  }

  lemma NamesAppend(a: seq<Entry>, b: seq<Entry>)
    ensures Names(a + b) == Names(a) + Names(b)
  {
  }

  /** Rows named after a listing without repeats have distinct names. */
  lemma DistinctNamesKeys(listing: seq<string>, rows: seq<Entry>)
    requires DistinctNames(listing)
    requires Names(rows) == AllowedNames(listing)
    ensures DistinctKeys(rows, FileName)
  {
    AllowedNamesDistinct(listing);
    forall i, j | 0 <= i < j < |rows|
      ensures FileName(rows[i]) != FileName(rows[j])
    {
      assert Names(rows)[i] == rows[i].filename && Names(rows)[j] == rows[j].filename;
    }
  }
}
