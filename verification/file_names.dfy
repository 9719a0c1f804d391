/**
 * The two path helpers the filtered list uses to group neighbouring entries:
 * the file name after the last `/`, and the common prefix of two names.
 */
module FileNames {
  import opened JsString

  /** `s` ends with `suffix`. */
  predicate IsSuffix(suffix: string, s: string) {
    |suffix| <= |s| && s[|s| - |suffix|..] == suffix
  }

  /** `p` is an initial segment of `s`. */
  predicate IsPrefix(p: string, s: string) {
    |p| <= |s| && s[..|p|] == p
  }

  /**
   * `extractFilename`: the text after the last `/`, or the whole path when
   * it has none. The result is the longest `/`-free suffix of the path.
   */
  function ExtractFilename(fullPath: string): (name: string)
    ensures IsSuffix(name, fullPath)
    ensures '/' !in name
    ensures |name| < |fullPath| ==> fullPath[|fullPath| - |name| - 1] == '/'
    ensures '/' !in fullPath ==> name == fullPath
  {
    var lastSlash := LastIndexOf(fullPath, '/');
    Substring(fullPath, lastSlash + 1)
  }

  /** A directory part followed by `/` and a `/`-free name yields that name. */
  lemma ExtractFilenameOfJoin(dir: string, name: string)
    requires '/' !in name
    ensures ExtractFilename(dir + "/" + name) == name
  {
    var full := dir + "/" + name;
    var r := ExtractFilename(full);
    assert full[|dir|] == '/';
    assert forall j :: |dir| < j < |full| ==> full[j] == name[j - |dir| - 1];
    assert forall j :: |full| - |r| <= j < |full| ==> full[j] == r[j - (|full| - |r|)];
    assert full[|full| - |name|..] == name;
  }

  /**
   * One step of the character loop of `extractCommonPrefix`: `acc` holds
   * the characters agreed so far and `i` is the next position. Past the end
   * of `path2`, `charAt` yields the empty string, which never equals a
   * character of `path1`, so the loop stops there as well.
   */
  function CommonPrefixFrom(path1: string, path2: string, i: nat, acc: string): (r: string)
    requires i <= |path1| && acc == path1[..i]
    requires i <= |path2| ==> acc == path2[..i]
    ensures IsPrefix(acc, r) && IsPrefix(r, path1)
    ensures i <= |path2| ==> IsPrefix(r, path2)
    ensures i <= |path2| && |r| < |path1| && |r| < |path2| ==> path1[|r|] != path2[|r|]
    decreases |path1| - i
  {
    if i >= |path1| then acc
    else if i > |path2| then acc
    else if CharAt(path2, i) == CharAt(path1, i) then
      CommonPrefixFrom(path1, path2, i + 1, acc + CharAt(path2, i))
    else acc
  }

  /**
   * `extractCommonPrefix`: the longest common prefix of the two strings. It
   * is a prefix of both, and where it stops short of both the next
   * characters differ.
   */
  function ExtractCommonPrefix(path1: string, path2: string): (r: string)
    ensures IsPrefix(r, path1) && IsPrefix(r, path2)
    ensures |r| < |path1| && |r| < |path2| ==> path1[|r|] != path2[|r|]
  {
    CommonPrefixFrom(path1, path2, 0, [])
  }

  /**
   * The common prefix is the longest one: a prefix of length `k` is shared
   * by both strings exactly when `k` is at most its length.
   */
  lemma CommonPrefixIsLongest(path1: string, path2: string, k: nat)
    requires k <= |path1| && k <= |path2|
    ensures path1[..k] == path2[..k] <==> k <= |ExtractCommonPrefix(path1, path2)|
  {
    var r := ExtractCommonPrefix(path1, path2);
    if k <= |r| {
      assert path1[..k] == r[..k] == path2[..k];
    } else {
      assert path1[..k][|r|] == path1[|r|];
      assert path2[..k][|r|] == path2[|r|];
    }
  }

  /** The common prefix does not depend on the order of the arguments. */
  lemma CommonPrefixSymmetric(path1: string, path2: string)
    ensures ExtractCommonPrefix(path1, path2) == ExtractCommonPrefix(path2, path1)
  {
    var r := ExtractCommonPrefix(path1, path2);
    var q := ExtractCommonPrefix(path2, path1);
    if |r| < |q| {
      CommonPrefixIsLongest(path1, path2, |q|);
    } else if |q| < |r| {
      CommonPrefixIsLongest(path2, path1, |r|);
    }
    assert r == path1[..|r|];
    assert q == path1[..|q|];
  }
}
