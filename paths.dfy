/** The default directory of the image-file property, computed in
    x11_blocker_source_properties from the stored image path: backslashes
    are turned into slashes and the string is cut just after its last slash. */
module Paths {

  /** dstr_replace(&path, "\\", "/"): every backslash becomes a slash. */
  function Slashed(s: string): (r: string)
    ensures |r| == |s| && '\\' !in r
    ensures forall i :: 0 <= i < |s| ==> r[i] == (if s[i] == '\\' then '/' else s[i])
  {
    if s == [] then [] else [if s[0] == '\\' then '/' else s[0]] + Slashed(s[1..])
  }

  /** strrchr(s, '/'): the index of the last slash, or -1 for NULL. */
  function LastSlash(s: string): (r: int)
    ensures -1 <= r < |s|
    ensures r == -1 <==> '/' !in s
    ensures r >= 0 ==> s[r] == '/' && '/' !in s[r + 1..]
  {
    if s == [] then -1
    else if s[|s| - 1] == '/' then |s| - 1
    else
      assert s == s[..|s| - 1] + [s[|s| - 1]];
      LastSlash(s[..|s| - 1])
  }

  /** The default path handed to obs_properties_add_path; "" stands for the
      NULL it receives when no image path is set. */
  function DirPrefix(file: string): (r: string)
    ensures |r| <= |file| && r <= Slashed(file)
  {
    if file == "" then ""
    else
      var p := Slashed(file);
      var i := LastSlash(p);
      if i == -1 then p else p[..i + 1]
  }

  /** With a separator in the path, the result is the path up to and including
      its last separator, with backslashes turned into slashes; without one,
      it is the whole path. */
  lemma DirPrefixSpec(file: string)
    ensures var r := DirPrefix(file);
            |r| <= |file| && r == Slashed(file)[..|r|] && '\\' !in r &&
            (('/' in file || '\\' in file) ==>
               |r| > 0 && r[|r| - 1] == '/' &&
               forall i :: |r| <= i < |file| ==> file[i] != '/' && file[i] != '\\') &&
            (('/' !in file && '\\' !in file) ==> r == file)
  {
    var r := DirPrefix(file);
    PrefixLacks(Slashed(file), |r|, '\\');
    if '/' in file || '\\' in file {
      CutAtLastSeparator(file);
    } else {
      NothingToCut(file);
    }
  }

  /** A prefix of a string lacks every character the string lacks. */
  lemma PrefixLacks(s: string, n: nat, c: char)
    requires n <= |s| && c !in s
    ensures c !in s[..n]
  {
    forall k | 0 <= k < n ensures s[..n][k] != c {
      assert s[..n][k] == s[k];
    }
  }

  /** A path with a separator is cut just after the last one. */
  lemma CutAtLastSeparator(file: string)
    requires '/' in file || '\\' in file
    ensures var r := DirPrefix(file);
            |r| > 0 && r[|r| - 1] == '/' &&
            forall i :: |r| <= i < |file| ==> file[i] != '/' && file[i] != '\\'
  {
    var p := Slashed(file);
    var j :| 0 <= j < |file| && (file[j] == '/' || file[j] == '\\');
    assert p[j] == '/';
    var i := LastSlash(p);
    assert DirPrefix(file) == p[..i + 1];
    forall k | i + 1 <= k < |file|
      ensures file[k] != '/' && file[k] != '\\'
    {
      assert p[k] == p[i + 1..][k - (i + 1)];
    }
  }

  /** A path without a separator is kept whole. */
  lemma NothingToCut(file: string)
    requires '/' !in file && '\\' !in file
    ensures DirPrefix(file) == file
  {
    var p := Slashed(file);
    forall k | 0 <= k < |file| ensures p[k] == file[k] { }
    assert p == file;
  }

  /** The directory of a directory is itself. */
  lemma DirPrefixIdempotent(file: string)
    ensures DirPrefix(DirPrefix(file)) == DirPrefix(file)
  {
  }
}
