/** File names: the extension check all three versions share, Python's
    `os.path.splitext`, and the traversal guard of the third version. */
module Naming {
  import opened Text

  /** `allowed_file`: there is a dot, and what follows the last dot lowercases
      to `wav`, the only member of `ALLOWED_EXTENSIONS`. */
  predicate AllowedFile(name: string) {
    '.' in name && Lower(name[LastIndexOf(name, '.') + 1..]) == "wav"
  }

  /** The check is "ends in `.wav`, in any case". */
  lemma AllowedFileIffWavSuffix(name: string)
    ensures AllowedFile(name) <==> |name| >= 4 && Lower(name[|name| - 4..]) == ".wav"
  {
    if AllowedFile(name) {
      AllowedHasWavSuffix(name);
    }
    if |name| >= 4 && Lower(name[|name| - 4..]) == ".wav" {
      WavSuffixAllowed(name);
    }
  }

  lemma AllowedHasWavSuffix(name: string)
    requires AllowedFile(name)
    ensures |name| >= 4 && Lower(name[|name| - 4..]) == ".wav"
  {
    var n := |name|;
    var k := LastIndexOf(name, '.');
    var ext := name[k + 1..];
    assert |Lower(ext)| == 3;
    assert k == n - 4;
    assert name[n - 4..] == ['.'] + ext;
    var last := Lower(name[n - 4..]);
    assert last[0] == '.';
    assert last[1..] == Lower(ext) by {
      forall i | 0 <= i < 3
        ensures last[1..][i] == Lower(ext)[i]
      {
        assert last[1 + i] == LowerChar(name[n - 3 + i]) == LowerChar(ext[i]);
      }
    }
  }

  lemma WavSuffixAllowed(name: string)
    requires |name| >= 4 && Lower(name[|name| - 4..]) == ".wav"
    ensures AllowedFile(name)
  {
    var n := |name|;
    var last := Lower(name[n - 4..]);
    assert last[0] == LowerChar(name[n - 4]);
    assert name[n - 4] == '.';
    assert forall i :: n - 3 <= i < n ==> LowerChar(name[i]) == last[i - (n - 4)] != '.';
    assert LastIndexOf(name, '.') == n - 4;
    assert Lower(name[n - 3..]) == last[1..] by {
      forall i | 0 <= i < 3
        ensures Lower(name[n - 3..])[i] == last[1..][i]
      {
        assert last[1 + i] == LowerChar(name[n - 3 + i]);
      }
    }
  }

  /** Any name of the form `<anything>.wav` passes. */
  lemma WavNameAllowed(stem: string)
    ensures AllowedFile(stem + ".wav")
  {
    var name := stem + ".wav";
    assert name[|name| - 4..] == ".wav";
    AllowedFileIffWavSuffix(name);
  }

  /** A name ending in `.txt` never passes, so transcripts and sentiment
      sidecars stay out of every listing. */
  lemma TxtNameNotAllowed(stem: string)
    ensures !AllowedFile(stem + ".txt")
  {
    var name := stem + ".txt";
    assert name[|name| - 4..] == ".txt";
    assert Lower(name[|name| - 4..])[1] == 't';
    AllowedFileIffWavSuffix(name);
  }

  /** `os.path.splitext` on a POSIX path: the extension starts at the last dot
      of the last path component, unless that component has only dots before it
      (a hidden name such as `.wav` has no extension). */
  function SplitExt(path: string): (parts: (string, string))
    ensures parts.0 + parts.1 == path
    ensures parts.1 == [] || (parts.1[0] == '.' && forall i :: 0 < i < |parts.1| ==> parts.1[i] != '.' && parts.1[i] != '/')
  {
    var dot := LastIndexOf(path, '.');
    var sep := LastIndexOf(path, '/');
    var start := if sep == |path| then 0 else sep + 1;
    if dot < |path| && start <= dot && exists i :: start <= i < dot && path[i] != '.' then
      (path[..dot], path[dot..])
    else
      (path, "")
  }

  /** The root of `<stem>.<ext>` is `<stem>` whenever the stem has a character
      other than a dot and the extension has no dot or slash. */
  lemma SplitExtOfStem(stem: string, ext: string)
    requires '.' !in ext && '/' !in ext
    requires '/' !in stem
    requires exists i :: 0 <= i < |stem| && stem[i] != '.'
    ensures SplitExt(stem + "." + ext) == (stem, "." + ext)
  {
    var path := stem + "." + ext;
    var dot := |stem|;
    assert path[dot] == '.';
    assert forall i :: dot < i < |path| ==> path[i] == ext[i - dot - 1];
    assert LastIndexOf(path, '.') == dot;
    assert forall i :: 0 <= i < |path| ==> path[i] != '/' by {
      forall i | 0 <= i < |path|
        ensures path[i] != '/'
      {
        if i < |stem| {
          assert path[i] == stem[i];
        } else if i > |stem| {
          assert path[i] == ext[i - |stem| - 1];
        }
      }
    }
    assert LastIndexOf(path, '/') == |path|;
    var i :| 0 <= i < |stem| && stem[i] != '.';
    assert path[i] == stem[i];
    assert path[..dot] == stem;
    assert path[dot..] == "." + ext;
  }

  /** For a name without a directory part, there is an extension exactly
      when some character other than a dot comes before the last dot. */
  lemma SplitExtOfName(name: string)
    requires '/' !in name
    ensures SplitExt(name).1 != [] <==>
      exists i :: 0 <= i < |name| && name[i] == '.' && exists j :: 0 <= j < i && name[j] != '.'
  {
    var dot := LastIndexOf(name, '.');
    assert LastIndexOf(name, '/') == |name|;
    if exists i :: 0 <= i < |name| && name[i] == '.' && exists j :: 0 <= j < i && name[j] != '.' {
      var i :| 0 <= i < |name| && name[i] == '.' && exists j :: 0 <= j < i && name[j] != '.';
      var j :| 0 <= j < i && name[j] != '.';
      assert i <= dot < |name|;
      assert name[dot..] != [];
    }
    if SplitExt(name).1 != [] {
      assert name[dot] == '.';
    }
  }

  /** A hidden name such as `.wav` or `.WAV` passes the extension check, yet
      `os.path.splitext` finds no extension in it. */
  lemma HiddenWavName(ext: string)
    requires Lower(ext) == "wav" && '/' !in ext
    ensures AllowedFile("." + ext) && SplitExt("." + ext) == ("." + ext, "")
  {
    var name := "." + ext;
    assert forall i :: 0 <= i < |ext| ==> ext[i] != '.' by {
      forall i | 0 <= i < |ext|
        ensures ext[i] != '.'
      {
        assert LowerChar(ext[i]) == Lower(ext)[i];
      }
    }
    assert name[0] == '.' && forall i :: 0 < i < |name| ==> name[i] == ext[i - 1];
    assert LastIndexOf(name, '.') == 0;
    assert name[1..] == ext;
    LeadingDotOnly(name);
  }

  /** A name whose only dot is its first character has no extension. */
  lemma LeadingDotOnly(name: string)
    requires name != [] && name[0] == '.' && '/' !in name
    requires forall i :: 0 < i < |name| ==> name[i] != '.'
    ensures SplitExt(name) == (name, "")
  {
    SplitExtOfName(name);
  }

  /** The guard in `stt_file`: a name containing `..` or starting with `/` is
      answered with "Invalid filename" (status 400) instead of a file. */
  predicate ServeRejected(name: string) {
    Contains(name, "..") || StartsWith(name, "/")
  }

  /** The `/`-separated components of a path. */
  function Components(path: string): (cs: seq<string>)
    ensures |cs| >= 1
    decreases |path|
  {
    var k := IndexOf(path, '/');
    if k == |path| then [path] else [path[..k]] + Components(path[k + 1..])
  }

  /** A name the guard lets through is relative and has no `..` component, so
      it cannot climb out of the upload folder. */
  lemma ServedNameStaysInside(name: string)
    requires !ServeRejected(name)
    ensures name == [] || name[0] != '/'
    ensures forall c :: c in Components(name) ==> c != ".."
  {
    NoDotDotComponents(name);
  }

  /** No component of a path is `..` when `..` does not occur in it at all. */
  lemma {:induction false} NoDotDotComponents(path: string)
    requires !Contains(path, "..")
    ensures forall c :: c in Components(path) ==> c != ".."
    decreases |path|
  {
    var k := IndexOf(path, '/');
    if k == |path| {
      if path == ".." {
        assert OccursAt(path, 0, "..");
      }
    } else {
      var rest := path[k + 1..];
      NotContainedInSuffix(path, k + 1, "..");
      NoDotDotComponents(rest);
      if path[..k] == ".." {
        assert OccursAt(path, 0, "..");
      }
    }
  }

  /** What does not occur in a text does not occur in any suffix of it. */
  lemma NotContainedInSuffix(s: string, j: nat, sub: string)
    requires j <= |s| && !Contains(s, sub)
    ensures !Contains(s[j..], sub)
  {
    var rest := s[j..];
    forall i | 0 <= i <= |rest| - |sub|
      ensures !OccursAt(rest, i, sub)
    {
      assert s[j + i..j + i + |sub|] == rest[i..i + |sub|];
      assert !OccursAt(s, j + i, sub);
    }
  }
}
