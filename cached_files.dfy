/**
 * The path-string part of the cached-files module: slash trimming, joining two
 * path components with a backslash, splitting a full path into directory and
 * file name, and the module-level base path.
 */
module CachedFiles {
  import opened Common

  /** The characters `find_last_of("\\/")` looks for. */
  predicate IsSlash(c: char) {
    c == '\\' || c == '/'
  }

  predicate EndsWithBackslash(s: string) {
    |s| > 0 && s[|s| - 1] == '\\'
  }

  predicate StartsWithBackslash(s: string) {
    |s| > 0 && s[0] == '\\'
  }

  /** FileCache::RemoveTrailingSlash: at most one final backslash is dropped. */
  function RemoveTrailingSlash(path: string): (r: string)
    ensures EndsWithBackslash(path) ==> r + "\\" == path
    ensures !EndsWithBackslash(path) ==> r == path
  {
    if |path| > 0 && path[|path| - 1] == '\\' then path[..|path| - 1] else path
  }

  /** FileCache::RemoveLeadingSlash: at most one initial backslash is dropped. */
  function RemoveLeadingSlash(path: string): (r: string)
    ensures StartsWithBackslash(path) ==> "\\" + r == path
    ensures !StartsWithBackslash(path) ==> r == path
  {
    if |path| > 0 && path[0] == '\\' then path[1..] else path
  }

  /** Appending one backslash and trimming it again gives the original string back. */
  lemma TrailingSlashRoundTrip(path: string)
    ensures RemoveTrailingSlash(path + "\\") == path
  {
    assert (path + "\\")[..|path|] == path;
  }

  /** Prepending one backslash and trimming it again gives the original string back. */
  lemma LeadingSlashRoundTrip(path: string)
    ensures RemoveLeadingSlash("\\" + path) == path
  {
    assert ("\\" + path)[1..] == path;
  }

  /**
   * Only one slash is removed: a path ending in two backslashes keeps one,
   * although the header comment promises to strip "any trailing slash characters".
   */
  lemma TrailingSlashOnlyOne(path: string)
    ensures RemoveTrailingSlash(path + "\\\\") == path + "\\"
    ensures EndsWithBackslash(RemoveTrailingSlash(path + "\\\\"))
  {
    assert (path + "\\\\")[..|path| + 1] == path + "\\";
  }

  /** The same for leading slashes. */
  lemma LeadingSlashOnlyOne(path: string)
    ensures RemoveLeadingSlash("\\\\" + path) == "\\" + path
    ensures StartsWithBackslash(RemoveLeadingSlash("\\\\" + path))
  {
    assert ("\\\\" + path)[1..] == "\\" + path;
  }

  /**
   * FileCache::PathConcatenate: the trimmed base, one backslash, then the new part
   * with one leading and one trailing backslash trimmed.
   */
  function PathConcatenate(base: string, newpart: string): (r: string)
    ensures var b := RemoveTrailingSlash(base);
            var p := RemoveTrailingSlash(RemoveLeadingSlash(newpart));
            |r| == |b| + 1 + |p| && r[..|b|] == b && r[|b|] == '\\' && r[|b| + 1..] == p
  {
    RemoveTrailingSlash(base) + "\\" + RemoveTrailingSlash(RemoveLeadingSlash(newpart))
  }

  /**
   * When neither side carries a doubled slash at the junction, the joined path
   * has no two adjacent backslashes around the separator.
   */
  lemma PathConcatenateSingleSeparator(base: string, newpart: string)
    requires !(|base| >= 2 && base[|base| - 2..] == "\\\\")
    requires !(|newpart| >= 2 && newpart[..2] == "\\\\")
    ensures var k := |RemoveTrailingSlash(base)|;
            var r := PathConcatenate(base, newpart);
            (k > 0 ==> r[k - 1] != '\\') && (k + 1 < |r| ==> r[k + 1] != '\\')
  {
    var b := RemoveTrailingSlash(base);
    var l := RemoveLeadingSlash(newpart);
    var p := RemoveTrailingSlash(l);
    var r := PathConcatenate(base, newpart);
    var k := |b|;
    if k > 0 {
      assert r[k - 1] == b[k - 1];
      if EndsWithBackslash(base) {
        assert base[..|base| - 1] == b;
        assert base[|base| - 2] == b[k - 1];
        assert base[|base| - 2..] == [base[|base| - 2], base[|base| - 1]];
      }
    }
    if k + 1 < |r| {
      assert r[k + 1] == p[0];
      assert p[0] == l[0];
      if StartsWithBackslash(newpart) {
        assert l[0] == newpart[1];
        assert newpart[..2] == [newpart[0], newpart[1]];
      }
    }
  }

  /** std::string::find_last_of("\\/"): the index of the last slash, if any. */
  function LastSlash(s: string): (r: Option<nat>)
    ensures r.Some? ==> r.value < |s| && IsSlash(s[r.value])
    ensures r.Some? ==> forall j :: r.value < j < |s| ==> !IsSlash(s[j])
    ensures r.None? ==> forall j :: 0 <= j < |s| ==> !IsSlash(s[j])
  {
    if |s| == 0 then None
    else if IsSlash(s[|s| - 1]) then Some(|s| - 1)
    else LastSlash(s[..|s| - 1])
  }

  /** The split position GetFileSpec uses: a last slash neither first nor final. */
  predicate SplitsAt(s: string, k: int) {
    0 < k < |s| - 1 && IsSlash(s[k]) && forall j :: k < j < |s| ==> !IsSlash(s[j])
  }

  /**
   * FileCache::GetFileSpec: split at the last slash into (directory, file name),
   * or return ("", whole path) when that slash is missing, first or final.
   */
  function GetFileSpec(fullPath: string): (r: (string, string))
    ensures r.0 != "" ==> SplitsAt(fullPath, |r.0|)
    ensures r.0 != "" ==> r.0 + [fullPath[|r.0|]] + r.1 == fullPath
    ensures r.0 != "" ==> r.1 != "" && forall j :: 0 <= j < |r.1| ==> !IsSlash(r.1[j])
    ensures r.0 == "" ==> r.1 == fullPath
    ensures (exists k :: SplitsAt(fullPath, k)) <==> r.0 != ""
  {
    var pos := LastSlash(fullPath);
    if pos.Some? && pos.value != 0 && pos.value != |fullPath| - 1 then
      var first := fullPath[..pos.value];
      var second := fullPath[pos.value + 1..];
      assert first + [fullPath[pos.value]] + second == fullPath;
      assert forall j :: 0 <= j < |second| ==> second[j] == fullPath[pos.value + 1 + j];
      assert SplitsAt(fullPath, pos.value);
      (first, second)
    else
      assert forall k :: SplitsAt(fullPath, k) ==> pos.Some? && k == pos.value;
      ("", fullPath)
  }

  /**
   * Joining a directory and a plain file name and splitting the result again gives
   * both parts back.
   */
  lemma FileSpecOfConcatenation(base: string, name: string)
    requires RemoveTrailingSlash(base) != ""
    requires name != "" && forall j :: 0 <= j < |name| ==> !IsSlash(name[j])
    ensures GetFileSpec(PathConcatenate(base, name)) == (RemoveTrailingSlash(base), name)
  {
    var b := RemoveTrailingSlash(base);
    var r := PathConcatenate(base, name);
    assert RemoveLeadingSlash(name) == name;
    assert RemoveTrailingSlash(name) == name;
    assert r == b + "\\" + name;
    assert SplitsAt(r, |b|);
    var spec := GetFileSpec(r);
    assert spec.0 != "";
    assert spec.0 == r[..|b|] == b;
    assert spec.1 == r[|b| + 1..] == name;
  }

  /** The module-level `basePath` string and its accessors. */
  class FileCache {
    var basePath: string

    /** A static std::string starts out empty. */
    constructor ()
      ensures basePath == ""
    {
      basePath := "";
    }

    /** FileCache::SetBasePath */
    method SetBasePath(path: string)
      modifies this
      ensures basePath == path
    {
      basePath := path;
    }

    /** FileCache::GetBasePath: the value most recently stored by SetBasePath. */
    method GetBasePath() returns (path: string)
      ensures path == basePath
    {
      path := basePath;
    }
  }
}
