/** The file-name extension of a path, as System.IO.Path.GetExtension
    computes it. */
module FilePath {

  predicate IsDirectorySeparator(c: char)
  {
    c == '/' || c == '\\'
  }

  /** No '.' and no directory separator in `s`. */
  predicate Plain(s: string)
  {
    forall i :: 0 <= i < |s| ==> s[i] != '.' && !IsDirectorySeparator(s[i])
  }

  predicate EndsWith(s: string, suffix: string)
  {
    |suffix| <= |s| && s[|s| - |suffix|..] == suffix
  }

  /** The shape of a non-empty extension: a '.' followed by at least one
      character, none of them a '.' or a directory separator. */
  predicate IsExtension(e: string)
  {
    |e| >= 2 && e[0] == '.' && Plain(e[1..])
  }

  /** Scans `path` backwards from position `i`: the first '.' met starts the
      extension (empty when that '.' is the last character of the path), and
      a directory separator met first means there is none. */
  function ExtensionScan(path: string, i: nat): (e: string)
    requires i <= |path| && Plain(path[i..])
    ensures e == [] || (IsExtension(e) && EndsWith(path, e))
    decreases i
  {
    if i == 0 then []
    else if path[i - 1] == '.' then (if i == |path| then [] else path[i - 1..])
    else if IsDirectorySeparator(path[i - 1]) then []
    else
      assert path[i - 1..] == [path[i - 1]] + path[i..];
      ExtensionScan(path, i - 1)
  }

  /** Path.GetExtension: the suffix of the last path segment that starts at
      its last '.', or empty when the segment has no '.' or ends with one. */
  function Extension(path: string): (e: string)
    ensures e == [] || (IsExtension(e) && EndsWith(path, e))
  {
    ExtensionScan(path, |path|)
  }

  /** The scan passes over the plain tail of an extension and stops at its '.'. */
  lemma {:induction false} ScanFindsExtension(path: string, ext: string, i: nat)
    requires IsExtension(ext) && EndsWith(path, ext)
    requires |path| - |ext| < i <= |path|
    ensures Plain(path[i..]) && ExtensionScan(path, i) == ext
    decreases i
  {
    var p := |path| - |ext|;
    assert path[i..] == ext[i - p..];
    assert Plain(path[i..]) by {
      forall j | 0 <= j < |path[i..]|
        ensures path[i..][j] != '.' && !IsDirectorySeparator(path[i..][j])
      {
        assert path[i..][j] == ext[1..][i - p - 1 + j];
      }
    }
    if i == p + 1 {
      assert path[p] == ext[0] == '.';
      assert path[p..] == ext;
    } else {
      assert path[i - 1] == ext[1..][i - p - 2];
      ScanFindsExtension(path, ext, i - 1);
    }
  }

  /** Conversely, a path that ends with an extension-shaped suffix has exactly
      that suffix as its extension; with the postcondition of Extension this
      characterises Extension completely. */
  lemma ExtensionOfSuffix(path: string, ext: string)
    requires IsExtension(ext) && EndsWith(path, ext)
    ensures Extension(path) == ext
  {
    ScanFindsExtension(path, ext, |path|);
  }
}
