/**
 * The two file names the tool derives from the input path: the sidecar that
 * holds ffmpeg's log (`<input>.silences.txt`) and the output video
 * (`<stem>_silences_removed<ext>`, with stem and extension split as POSIX
 * `os.path.splitext` splits them).
 */
module FileNames {

  const SidecarSuffix: string := ".silences.txt"
  const RemovedSuffix: string := "_silences_removed"

  /** Index of the last occurrence of `c` in `s`, or -1 (Python's `str.rfind`). */
  function LastIndex(s: string, c: char): (r: int)
    ensures -1 <= r < |s|
    ensures r >= 0 ==> s[r] == c
    ensures forall j :: r < j < |s| ==> s[j] != c
    decreases |s|
  {
    if s == [] then -1
    else if s[|s| - 1] == c then |s| - 1
    else LastIndex(s[..|s| - 1], c)
  }

  /**
   * `os.path.splitext` splits `p` before index `i`: `p[i]` is the last dot,
   * no `/` follows it, and the last path component holds a character other
   * than a dot before it (leading dots, as in `.bashrc`, do not start an extension).
   */
  predicate ExtensionAt(p: string, i: int) {
    0 <= i < |p| && p[i] == '.' &&
    (forall j :: i < j < |p| ==> p[j] != '.' && p[j] != '/') &&
    exists k :: 0 <= k < i && p[k] != '.' && p[k] != '/' && forall j :: k < j < i ==> p[j] != '/'
  }

  /** A path has at most one extension. */
  lemma ExtensionUnique(p: string, i: int, i': int)
    requires ExtensionAt(p, i) && ExtensionAt(p, i')
    ensures i == i'
  {
  }

  /** Some character of `p[lo..hi]` is not a dot. */
  predicate HasNonDot(p: string, lo: int, hi: int)
    requires 0 <= lo && hi <= |p|
  {
    exists k :: lo <= k < hi && p[k] != '.'
  }

  /**
   * POSIX `os.path.splitext`: `(root, ext)` with `root + ext == p`, where `ext`
   * is empty or runs from the one index where `p` has an extension.
   */
  function SplitExt(p: string): (r: (string, string))
    ensures r.0 + r.1 == p
    ensures r.1 != [] ==> ExtensionAt(p, |r.0|)
    ensures r.1 == [] ==> forall i :: !ExtensionAt(p, i)
  {
    var sepIndex := LastIndex(p, '/');
    var dotIndex := LastIndex(p, '.');
    if dotIndex > sepIndex && HasNonDot(p, sepIndex + 1, dotIndex) then
      (p[..dotIndex], p[dotIndex..])
    else
      (p, [])
  }

  /** The sidecar file that holds ffmpeg's log for `filename`. */
  function SidecarName(filename: string): string {
    filename + SidecarSuffix
  }

  /** The name `compose` writes its result to. */
  function OutputName(videofile: string): string {
    var (filename, fileExtension) := SplitExt(videofile);
    filename + RemovedSuffix + fileExtension
  }

  /** The sidecar of a file is named after it alone: different inputs never share a sidecar. */
  lemma SidecarNameInjective(a: string, b: string)
    requires SidecarName(a) == SidecarName(b)
    ensures a == b
  {
    assert a == SidecarName(a)[..|a|];
  }

  /** The sidecar has the extension `.txt` and is never the input file itself. */
  lemma {:induction false} SidecarNameIsText(filename: string)
    ensures SplitExt(SidecarName(filename)) == (filename + ".silences", ".txt")
    ensures SidecarName(filename) != filename
  {
    var p := SidecarName(filename);
    var n := |filename|;
    assert p[n + 1] == 's';
    assert ExtensionAt(p, n + 9);
    var r := SplitExt(p);
    ExtensionUnique(p, n + 9, |r.0|);
    assert p[n + 9..] == ".txt";
    assert p[..n + 9] == filename + ".silences";
    assert |p| != n;
  }

  /**
   * The output keeps the input's extension (so the same container), and its
   * stem is the input's stem followed by `_silences_removed`.
   */
  lemma {:induction false} OutputNameKeepsExtension(videofile: string)
    ensures SplitExt(OutputName(videofile)) ==
              (SplitExt(videofile).0 + RemovedSuffix, SplitExt(videofile).1)
    ensures OutputName(videofile) != videofile
  {
    var (stem, ext) := SplitExt(videofile);
    var out := OutputName(videofile);
    var m := |stem| + |RemovedSuffix|;
    assert out == (stem + RemovedSuffix) + ext;
    assert |out| == |videofile| + |RemovedSuffix|;
    if ext != [] {
      var i := |stem|;
      assert ExtensionAt(videofile, i);
      forall j | m < j < |out| ensures out[j] != '.' && out[j] != '/' {
        assert out[j] == videofile[j - |RemovedSuffix|];
      }
      assert out[|stem|] == '_';
      RemovedSuffixPlain();
      assert ExtensionAt(out, m);
      ExtensionUnique(out, m, |SplitExt(out).0|);
    } else {
      assert out == stem + RemovedSuffix && stem == videofile;
      forall i ensures !ExtensionAt(out, i) {
        ExtensionOfSuffixed(stem, i);
      }
    }
  }

  /** `_silences_removed` holds neither a dot nor a slash. */
  lemma RemovedSuffixPlain()
    ensures forall m :: 0 <= m < |RemovedSuffix| ==> RemovedSuffix[m] != '.' && RemovedSuffix[m] != '/'
  {
  }

  /** Any extension of `stem + "_silences_removed"` is already an extension of `stem`. */
  lemma ExtensionOfSuffixed(stem: string, i: int)
    ensures ExtensionAt(stem + RemovedSuffix, i) ==> ExtensionAt(stem, i)
  {
    var out := stem + RemovedSuffix;
    if ExtensionAt(out, i) {
      RemovedSuffixPlain();
      forall j | |stem| <= j < |out| ensures out[j] != '.' {
        assert out[j] == RemovedSuffix[j - |stem|];
      }
      assert i < |stem|;
      var k :| 0 <= k < i && out[k] != '.' && out[k] != '/' && forall j :: k < j < i ==> out[j] != '/';
      assert stem[k] == out[k];
      forall j | k < j < i ensures stem[j] != '/' {
        assert stem[j] == out[j];
      }
      forall j | i < j < |stem| ensures stem[j] != '.' && stem[j] != '/' {
        assert stem[j] == out[j];
      }
      assert ExtensionAt(stem, i);
    }
  }

  /** `talk.mp4` has no `/` and its last dot is at index 4. */
  lemma ExampleLastIndices()
    ensures LastIndex("talk.mp4", '/') == -1
    ensures LastIndex("talk.mp4", '.') == 4
  {
    var p := "talk.mp4";
    assert forall j :: 0 <= j < |p| ==> p[j] != '/';
    assert p[4] == '.' && p[5] != '.' && p[6] != '.' && p[7] != '.';
  }

  /**
   * `talk.mp4` splits into the stem `talk` and the extension `.mp4`, so its
   * output is `talk_silences_removed.mp4`; its log goes to `talk.mp4.silences.txt`.
   */
  lemma SplitExtExample()
    ensures SplitExt("talk.mp4") == ("talk", ".mp4")
    ensures SidecarName("talk.mp4") == "talk.mp4.silences.txt"
  {
    var p := "talk.mp4";
    ExampleLastIndices();
    assert p[0] != '.';
    assert SplitExt(p) == (p[..4], p[4..]);
    assert p[..4] == "talk" && p[4..] == ".mp4";
  }
}
