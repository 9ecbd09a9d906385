/**
 * Path helpers of the crawlers: slice_after_last (identical in
 * src/common/file_crawler.cpp and src/indexer/file_crawler.cpp), the
 * std::filesystem path join the directory iterator applies, and the two
 * revisions of is_ignorable.
 */
module Paths {
  import opened Wrappers

  /** std::string::find_last_of with one character: the last position holding `d`, if any. */
  function FindLastOf(s: string, d: char): Option<nat>
  {
    if s == [] then None
    else if s[|s| - 1] == d then Some(|s| - 1)
    else FindLastOf(s[..|s| - 1], d)
  }

  /** FindLastOf finds no `d` only when there is none, and otherwise the last one. */
  lemma {:induction false} FindLastOfSpec(s: string, d: char)
    ensures FindLastOf(s, d).None? ==> d !in s
    ensures FindLastOf(s, d).Some? ==>
      var pos := FindLastOf(s, d).value;
      pos < |s| && s[pos] == d && d !in s[pos + 1..]
  {
    if s != [] && s[|s| - 1] != d {
      var init := s[..|s| - 1];
      FindLastOfSpec(init, d);
      assert s == init + [s[|s| - 1]];
      var r := FindLastOf(init, d);
      assert r.Some? ==> s[r.value + 1..] == init[r.value + 1..] + [s[|s| - 1]];
    }
  }

  /**
   * slice_after_last: the text after the last `d`; the whole string when
   * there is no `d`, and nothing when `d` is the last character.
   */
  function SliceAfterLast(s: string, d: char): string
  {
    if s == [] || s[|s| - 1] == d then [] else SliceAfterLast(s[..|s| - 1], d) + [s[|s| - 1]]
  }

  /** std::string::substr from just after the position find_last_of gave (npos: the whole string). */
  function SubstrAfter(s: string, pos: Option<nat>): string
  {
    match pos
    case None => s
    case Some(p) => if p + 1 >= |s| then [] else s[p + 1..]
  }

  /** SliceAfterLast is what slice_after_last computes with find_last_of and substr. */
  lemma {:induction false} SliceAfterLastFind(s: string, d: char)
    ensures SliceAfterLast(s, d) == SubstrAfter(s, FindLastOf(s, d))
  {
    if s != [] && s[|s| - 1] != d {
      var init := s[..|s| - 1];
      SliceAfterLastFind(init, d);
      FindLastOfSpec(init, d);
      var pos := FindLastOf(init, d);
      if pos.Some? {
        assert s[pos.value + 1..] == init[pos.value + 1..] + [s[|s| - 1]];
      } else {
        assert s == init + [s[|s| - 1]];
      }
    }
  }

  /** slice_after_last gives the longest suffix of `s` without a `d`. */
  lemma {:induction false} SliceAfterLastSpec(s: string, d: char)
    ensures |SliceAfterLast(s, d)| <= |s|
    ensures SliceAfterLast(s, d) == s[|s| - |SliceAfterLast(s, d)|..]
    ensures d !in SliceAfterLast(s, d)
    ensures |SliceAfterLast(s, d)| < |s| ==> s[|s| - |SliceAfterLast(s, d)| - 1] == d
    ensures d !in s ==> SliceAfterLast(s, d) == s
    ensures s != [] && s[|s| - 1] == d ==> SliceAfterLast(s, d) == []
  {
    if s != [] && s[|s| - 1] != d {
      var init := s[..|s| - 1];
      SliceAfterLastSpec(init, d);
      var r := SliceAfterLast(init, d);
      assert s[|s| - |r| - 1..] == init[|init| - |r|..] + [s[|s| - 1]];
      assert |r| < |init| ==> s[|s| - |r| - 2] == init[|init| - |r| - 1];
      assert s == init + [s[|s| - 1]];
    }
  }

  /**
   * The path of the entry `name` in the directory `dir`, as std::filesystem's
   * operator/ forms it: a '/' goes between them unless `dir` is empty or
   * already ends with one.
   */
  function Join(dir: string, name: string): string
  {
    if dir == [] || dir[|dir| - 1] == '/' then dir + name else dir + "/" + name
  }

  /** The name of a directory entry: not empty, and without '/'. */
  predicate EntryName(name: string)
  {
    name != [] && '/' !in name
  }

  /** The `k`-th character of a suffix `x` of `p`, read in `p`. */
  lemma SuffixAt(p: string, x: string, k: int)
    requires |x| <= |p| && x == p[|p| - |x|..]
    ensures 0 <= k < |x| ==> p[|p| - |x| + k] == x[k]
  {
  }

  /** Two suffixes of the same string with the same length are equal. */
  lemma SuffixEq(p: string, x: string, y: string)
    requires |x| <= |p| && x == p[|p| - |x|..]
    requires |y| <= |p| && y == p[|p| - |y|..]
    ensures |x| == |y| ==> x == y
  {
  }

  /** `name` is a suffix of Join(dir, name), preceded by '/' unless it is all of it. */
  lemma JoinSuffix(dir: string, name: string)
    ensures |name| <= |Join(dir, name)|
    ensures Join(dir, name)[|Join(dir, name)| - |name|..] == name
    ensures |name| < |Join(dir, name)| ==> Join(dir, name)[|Join(dir, name)| - |name| - 1] == '/'
  {
  }

  /** slice_after_last of an entry's path at '/' gives back the entry's name. */
  lemma {:induction false} JoinLastComponent(dir: string, name: string)
    requires EntryName(name)
    ensures SliceAfterLast(Join(dir, name), '/') == name
  {
    var p := Join(dir, name);
    var r := SliceAfterLast(p, '/');
    SliceAfterLastSpec(p, '/');
    JoinSuffix(dir, name);
    SuffixAt(p, name, |name| - |r| - 1);
    SuffixAt(p, r, |r| - |name| - 1);
    SuffixEq(p, r, name);
  }

  /** The ignore list of src/common/file_crawler.cpp, from include/ignored_folders.h. */
  const IgnoredFolders: set<string> := {"node_modules", "build", ".git", "R"}

  /** The member ignore list of the earlier revision in src/indexer/file_crawler.h. */
  const IndexerIgnoredFolders: set<string> := {"node_modules", "build"}

  /**
   * is_ignorable: the folder is on the list, or its name starts with '.'.
   * The first character of an empty std::string is the terminating '\0', so
   * an empty name is ignorable only when it is on the list.
   */
  predicate IsIgnorable(ignored: set<string>, name: string)
  {
    name in ignored || (name != [] && name[0] == '.')
  }

  /**
   * The two revisions differ only on "R": ".git" on the newer list is already
   * covered by the rule for names starting with '.'.
   */
  lemma IgnoreRevisions(name: string)
    ensures IsIgnorable(IgnoredFolders, name) <==> IsIgnorable(IndexerIgnoredFolders, name) || name == "R"
  {
    if name == ".git" {
      assert name[0] == '.';
    }
  }
}
