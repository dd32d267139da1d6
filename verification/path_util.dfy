/**
 Path-string helpers of `mimir::util` (src/util.cpp): file extension, file
 base name and directory part of a path. Strings are `seq<char>`; the only
 library call they use, `std::string::find_last_of` with a one-character
 argument, is modelled by `LastIndexOf`.
 */
module PathUtil {
  import opened Options

  /** `s.find_last_of(c)`: the position of the last occurrence of `c` in `s`,
      or `None` (the C++ `npos`) when `c` does not occur. */
  function LastIndexOf(s: string, c: char): (r: Option<nat>)
    ensures r.None? <==> c !in s
    ensures r.Some? ==> r.value < |s| && s[r.value] == c && c !in s[r.value + 1..]
  {
    if |s| == 0 then None
    else if s[|s| - 1] == c then Some(|s| - 1)
    else
      var r := LastIndexOf(s[..|s| - 1], c);
      assert s == s[..|s| - 1] + [s[|s| - 1]];
      assert r.Some? ==> s[r.value + 1..] == s[..|s| - 1][r.value + 1..] + [s[|s| - 1]];
      r
  }

  /** The position `LastIndexOf` reports is the only one with its two
      properties, so any index holding `c` with no `c` after it is the answer. */
  lemma LastIndexOfUnique(s: string, c: char, i: nat)
    requires i < |s| && s[i] == c && c !in s[i + 1..]
    ensures LastIndexOf(s, c) == Some(i)
  {
  }

  /** When `c` occurs in the suffix `s[k..]`, the last `c` of `s` is the last
      `c` of that suffix, shifted by `k`. */
  lemma LastIndexOfSuffix(s: string, c: char, k: nat)
    requires k <= |s| && c in s[k..]
    ensures LastIndexOf(s, c).Some?
    ensures LastIndexOf(s, c).value == k + LastIndexOf(s[k..], c).value
  {
    var j := LastIndexOf(s[k..], c).value;
    assert s[k + j + 1..] == s[k..][j + 1..];
    LastIndexOfUnique(s, c, k + j);
  }

  /** `GetFileExtension(name)`: the text after the last `.` of `name`, or the
      empty string when `name` has no `.`. A `/` is not special, so a dot in a
      directory name counts. */
  function GetFileExtension(name: string): (r: string)
    ensures '.' !in r
    ensures '.' !in name ==> r == ""
    ensures '.' in name ==>
              && |r| < |name|
              && name[|name| - |r| - 1] == '.'
              && r == name[|name| - |r|..]
  {
    match LastIndexOf(name, '.')
    case None => ""
    case Some(i) => name[i + 1..]
  }

  /** The in-place `std::replace` of every `\` by `/` in `GetFileBase`. */
  function NormalizeSeparators(name: string): (f: string)
    ensures |f| == |name|
    ensures '\\' !in f
    ensures forall i :: 0 <= i < |name| && name[i] != '\\' ==> f[i] == name[i]
    ensures forall i :: 0 <= i < |name| && name[i] == '\\' ==> f[i] == '/'
  {
    seq(|name|, i requires 0 <= i < |name| => if name[i] == '\\' then '/' else name[i])
  }

  /** A name without `\` is left as it is by the normalisation. */
  lemma NormalizeWithoutBackslash(name: string)
    requires '\\' !in name
    ensures NormalizeSeparators(name) == name
  {
  }

  /** First step of `GetFileBase`: drop everything up to and including the
      last `/`. The result is the last path component. */
  function StripDirectory(f: string): (r: string)
    ensures '/' !in r
    ensures |r| <= |f| && r == f[|f| - |r|..]
    ensures '/' !in f ==> r == f
    ensures '/' in f ==> |r| < |f| && f[|f| - |r| - 1] == '/'
  {
    match LastIndexOf(f, '/')
    case None => f
    case Some(i) => f[i + 1..]
  }

  /** Second step of `GetFileBase`: drop everything from the last `.` on. */
  function StripExtension(f: string): (r: string)
    ensures |r| <= |f| && r == f[..|r|]
    ensures '.' !in f ==> r == f
    ensures '.' in f ==> |r| < |f| && f[|r|] == '.' && '.' !in f[|r| + 1..]
  {
    match LastIndexOf(f, '.')
    case None => f
    case Some(i) => f[..i]
  }

  /** `GetFileBase(name)`: the last component of the name with `\` read as
      `/`, without its final extension. The result holds no separator; it is
      a prefix of that component, strictly shorter exactly when the component
      has a `.`. */
  function GetFileBase(name: string): (r: string)
    ensures '/' !in r && '\\' !in r
    ensures var comp := StripDirectory(NormalizeSeparators(name));
            && |r| <= |comp|
            && r == comp[..|r|]
            && (|r| < |comp| <==> '.' in comp)
            && ('.' in comp ==> comp[|r|] == '.' && '.' !in comp[|r| + 1..])
  {
    var comp := StripDirectory(NormalizeSeparators(name));
    var r := StripExtension(comp);
    NotInPrefix(comp, |r|, '/');
    NotInPrefix(comp, |r|, '\\');
    r
  }

  /** A character absent from a sequence is absent from each of its prefixes. */
  lemma NotInPrefix(s: string, k: nat, c: char)
    requires k <= |s| && c !in s
    ensures c !in s[..k]
  {
    assert forall i :: 0 <= i < k ==> s[..k][i] == s[i];
  }

  /** A sequence is its prefix before `i`, its element at `i`, and the rest. */
  lemma SplitAround(s: string, i: nat)
    requires i < |s|
    ensures s == s[..i] + [s[i]] + s[i + 1..]
  {
  }

  /** `GetFilePath(name)`: the text before the last `/`, or the empty string
      when there is none. Backslashes are not normalised here. */
  function GetFilePath(name: string): (r: string)
    ensures '/' !in name ==> r == ""
    ensures '/' in name ==>
              && |r| < |name|
              && name == r + "/" + name[|r| + 1..]
              && '/' !in name[|r| + 1..]
  {
    match LastIndexOf(name, '/')
    case None => ""
    case Some(i) => name[..i]
  }

  /** A name splits back into its directory part, a `/`, and its last
      component. */
  lemma PathSplitsAtLastSlash(name: string)
    requires '/' in name
    ensures name == GetFilePath(name) + "/" + StripDirectory(name)
  {
  }

  /** Normalising separators a second time changes nothing, so
      `GetFileBase` gives the same answer for a name and its normalised form. */
  lemma GetFileBaseIgnoresSeparatorStyle(name: string)
    ensures NormalizeSeparators(NormalizeSeparators(name)) == NormalizeSeparators(name)
    ensures GetFileBase(NormalizeSeparators(name)) == GetFileBase(name)
  {
  }

  /** A string with a `.` is its `StripExtension`, that `.`, and its
      extension. */
  lemma SplitsAtLastDot(f: string)
    requires '.' in f
    ensures f == StripExtension(f) + "." + GetFileExtension(f)
  {
    var i := LastIndexOf(f, '.').value;
    SplitAround(f, i);
  }

  /** The extension of a name whose last component has a `.` is found in
      that component. */
  lemma ExtensionInLastComponent(name: string)
    requires '.' in StripDirectory(name)
    ensures GetFileExtension(name) == GetFileExtension(StripDirectory(name))
  {
    var comp := StripDirectory(name);
    var k := |name| - |comp|;
    LastIndexOfSuffix(name, '.', k);
    var i := LastIndexOf(comp, '.').value;
    assert name[k + i + 1..] == comp[i + 1..];
  }

  /** For a name with no `\` whose last component has a `.`, that component is
      the base name, a `.`, and the extension: the two helpers split the
      component exactly at its last dot. */
  lemma {:induction false} ComponentIsBaseDotExtension(name: string)
    requires '\\' !in name
    requires '.' in StripDirectory(name)
    ensures StripDirectory(name) == GetFileBase(name) + "." + GetFileExtension(name)
  {
    NormalizeWithoutBackslash(name);
    ExtensionInLastComponent(name);
    SplitsAtLastDot(StripDirectory(name));
  }

  /** Only the last `.` is stripped: `"a.b.c"` has base `"a.b"`. */
  lemma GetFileBaseStripsLastDotOnly()
    ensures GetFileBase("a.b.c") == "a.b"
  {
    var abc := "a.b.c";
    assert '\\' !in abc && '/' !in abc by {
      assert forall j :: 0 <= j < |abc| ==> abc[j] in {'a', '.', 'b', 'c'};
    }
    NormalizeWithoutBackslash(abc);
    assert StripDirectory(abc) == abc;
    LastIndexOfUnique(abc, '.', 3);
    assert StripExtension(abc) == abc[..3];
  }

  /** A leading-dot name such as `".x"` has an empty base. */
  lemma GetFileBaseOfDotFile()
    ensures GetFileBase(".x") == ""
  {
    var x := ".x";
    assert '\\' !in x && '/' !in x by {
      assert forall j :: 0 <= j < |x| ==> x[j] in {'.', 'x'};
    }
    NormalizeWithoutBackslash(x);
    assert StripDirectory(x) == x;
    LastIndexOfUnique(x, '.', 0);
  }

  /** `GetFileExtension` reads past a `/`: a dot in a directory name counts. */
  lemma GetFileExtensionCrossesSlash()
    ensures GetFileExtension("dir.d/file") == "d/file"
  {
    LastIndexOfUnique("dir.d/file", '.', 3);
  }

  /** `GetFilePath` ignores `\`, although `GetFileBase` reads it as `/`. */
  lemma BackslashOnlyPath()
    ensures GetFilePath("dir\\file") == ""
    ensures GetFileBase("dir\\file") == "file"
  {
    var b := "dir\\file";
    assert '/' !in b by {
      assert forall j :: 0 <= j < |b| ==> b[j] in {'d', 'i', 'r', '\\', 'f', 'l', 'e'};
    }
    var n := NormalizeSeparators(b);
    assert n == "dir/file";
    LastIndexOfUnique(n, '/', 3);
    assert StripDirectory(n) == "file";
    assert '.' !in n[4..] by {
      assert forall j :: 0 <= j < 4 ==> n[4..][j] in {'f', 'i', 'l', 'e'};
    }
  }
}
