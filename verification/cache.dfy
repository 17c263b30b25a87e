/**
 * Naming of the file that caches a transcription (main.py:79-86): the input
 * path has every '/' replaced by '_', then any leading dots removed, and the
 * result is placed directly inside the cache directory.
 */
module Cache {
  import Text

  /** `n` dot characters. */
  function Dots(n: nat): (s: string)
    ensures |s| == n
    ensures forall i :: 0 <= i < n ==> s[i] == '.'
  {
    seq(n, i => '.')
  }

  /** `re.sub(r"^\.+", "", s)`: drop the run of dots at the start of `s`. */
  function StripLeadingDots(s: string): (r: string)
    ensures |r| <= |s|
    ensures s == Dots(|s| - |r|) + r
    ensures |r| == 0 || r[0] != '.'
    decreases |s|
  {
    if |s| > 0 && s[0] == '.' then StripLeadingDots(s[1..]) else s
  }

  /** The file name `get_cache_path` derives from an input path. */
  function Sanitise(infile: string): (name: string)
    ensures '/' !in name
    ensures |name| == 0 || name[0] != '.'
    ensures |name| <= |infile|
    ensures Text.ReplaceChar(infile, '/', '_') == Dots(|infile| - |name|) + name
  {
    var replaced := Text.ReplaceChar(infile, '/', '_');
    var name := StripLeadingDots(replaced);
    assert '/' !in replaced;
    NotInSuffix(Dots(|replaced| - |name|), name, '/');
    name
  }

  /** A character absent from a concatenation is absent from its second part. */
  lemma NotInSuffix(a: string, b: string, c: char)
    requires c !in a + b
    ensures c !in b
  {
    assert forall i :: 0 <= i < |b| ==> b[i] == (a + b)[|a| + i];
  }

  /** `get_cache_path(infile)` with the global cache directory passed in. */
  function CachePath(cacheDir: string, infile: string): (path: string)
    ensures |path| == |cacheDir| + 1 + |Sanitise(infile)|
    ensures path[..|cacheDir|] == cacheDir && path[|cacheDir|] == '/'
    ensures path[|cacheDir| + 1..] == Sanitise(infile)
    ensures forall i :: |cacheDir| < i < |path| ==> path[i] != '/'
  {
    cacheDir + "/" + Sanitise(infile)
  }

  /**
   * The cache file of the transcription of `audio` (main.py:86): the
   * sanitised audio path plus ".json", except for an audio path made only of
   * dots (the empty path included), whose cache file is named "json".
   */
  function TranscriptionCachePath(cacheDir: string, audio: string): (path: string)
    ensures Sanitise(audio) != "" ==> path == cacheDir + "/" + Sanitise(audio) + ".json"
    ensures Sanitise(audio) == "" ==> path == cacheDir + "/json"
  {
    JsonName(audio);
    CachePath(cacheDir, audio + ".json")
  }

  /** Stripping leading dots twice strips nothing more. */
  lemma StripLeadingDotsIdempotent(s: string)
    ensures StripLeadingDots(StripLeadingDots(s)) == StripLeadingDots(s)
  {
  }

  /** Leading dots in front of a string do not change what is kept. */
  lemma {:induction false} StripAfterDots(n: nat, s: string)
    ensures StripLeadingDots(Dots(n) + s) == StripLeadingDots(s)
    decreases n
  {
    if n > 0 {
      assert (Dots(n) + s)[0] == '.';
      assert (Dots(n) + s)[1..] == Dots(n - 1) + s;
      StripAfterDots(n - 1, s);
    } else {
      assert Dots(0) + s == s;
    }
  }

  /** Sanitising a sanitised name returns it unchanged. */
  lemma SanitiseIdempotent(infile: string)
    ensures Sanitise(Sanitise(infile)) == Sanitise(infile)
  {
    var name := Sanitise(infile);
    assert Text.ReplaceChar(name, '/', '_') == name;
  }

  /** Paths that differ only in leading dots share one cache file. */
  lemma LeadingDotsCollide(n: nat, infile: string)
    ensures Sanitise(Dots(n) + infile) == Sanitise(infile)
  {
    assert Text.ReplaceChar(Dots(n) + infile, '/', '_')
        == Dots(n) + Text.ReplaceChar(infile, '/', '_');
    StripAfterDots(n, Text.ReplaceChar(infile, '/', '_'));
  }

  /** Paths that differ only by '/' against '_' share one cache file. */
  lemma SlashAndUnderscoreCollide(a: string, b: string)
    requires |a| == |b|
    requires forall i :: 0 <= i < |a| ==> a[i] == b[i] || (a[i] in "/_" && b[i] in "/_")
    ensures Sanitise(a) == Sanitise(b)
  {
    assert Text.ReplaceChar(a, '/', '_') == Text.ReplaceChar(b, '/', '_');
  }

  /**
   * The slash after a leading dot is kept (as '_'), so "./a/b.wav" and
   * "a/b.wav" get different cache files.
   */
  lemma DotSlashPrefixDoesNotCollide()
    ensures Sanitise("./a/b.wav") == "_a_b.wav"
    ensures Sanitise("a/b.wav") == "a_b.wav"
    ensures Sanitise("./a/b.wav") != Sanitise("a/b.wav")
  {
    assert Text.ReplaceChar("./a/b.wav", '/', '_') == "._a_b.wav";
    assert Text.ReplaceChar("a/b.wav", '/', '_') == "a_b.wav";
  }

  /** A path sanitises to nothing exactly when it is made only of dots. */
  lemma EmptyNameOnlyDots(infile: string)
    ensures Sanitise(infile) == "" <==> forall i :: 0 <= i < |infile| ==> infile[i] == '.'
  {
    var replaced := Text.ReplaceChar(infile, '/', '_');
    if forall i :: 0 <= i < |infile| ==> infile[i] == '.' {
      assert replaced == Dots(|infile|) + "";
      StripAfterDots(|infile|, "");
    }
  }

  /** The sanitised name of `audio + ".json"`. */
  lemma JsonName(audio: string)
    ensures Sanitise(audio) != "" ==> Sanitise(audio + ".json") == Sanitise(audio) + ".json"
    ensures Sanitise(audio) == "" ==> Sanitise(audio + ".json") == "json"
  {
    var name := Sanitise(audio);
    SanitiseAppend(audio, ".json");
    if name == "" {
      assert name + ".json" == ".json";
      StripJson();
    } else {
      KeepsUndotted(name, ".json");
    }
  }

  /** ".json" alone loses its dot. */
  lemma StripJson()
    ensures StripLeadingDots(".json") == "json"
  {
    assert ".json"[1..] == "json";
  }

  /** A string that does not start with a dot keeps its text when more is appended and dots stripped. */
  lemma KeepsUndotted(s: string, suffix: string)
    requires |s| > 0 && s[0] != '.'
    ensures StripLeadingDots(s + suffix) == s + suffix
  {
    assert (s + suffix)[0] == s[0];
  }

  /** Appending a slash-free suffix sanitises as the sanitised prefix plus that suffix, minus any leading dots. */
  lemma SanitiseAppend(infile: string, suffix: string)
    requires '/' !in suffix
    ensures Sanitise(infile + suffix) == StripLeadingDots(Sanitise(infile) + suffix)
  {
    var r := Text.ReplaceChar(infile, '/', '_');
    assert Text.ReplaceChar(suffix, '/', '_') == suffix;
    assert Text.ReplaceChar(infile + suffix, '/', '_') == r + suffix;
    var n := |infile| - |Sanitise(infile)|;
    assert r + suffix == Dots(n) + (Sanitise(infile) + suffix);
    StripAfterDots(n, Sanitise(infile) + suffix);
  }
}
