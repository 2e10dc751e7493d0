/**
 Level-name resolution: the directory of a DUN file, relative to the archive
 root, names the level whose TIL and MIN tables belong to it. The packages
 `dun` and `dunmini` carry the same switch; it is modelled once here.
 */
module Levels {

  datatype Result<+T> = Success(value: T) | Failure(error: string)

  /** The index of the last '/' in p, or -1 when p has none. */
  function LastSlash(p: string): (i: int)
    ensures -1 <= i < |p|
    ensures i >= 0 ==> p[i] == '/'
    ensures forall k :: i < k < |p| ==> p[k] != '/'
  {
    if |p| == 0 then -1
    else if p[|p| - 1] == '/' then |p| - 1
    else LastSlash(p[..|p| - 1])
  }

  /**
   Go's path.Split: the directory part up to and including the final
   slash, and the file name after it.
   */
  function Split(p: string): (r: (string, string))
    ensures r.0 + r.1 == p
    ensures '/' !in r.1
    ensures r.0 == [] || r.0[|r.0| - 1] == '/'
  {
    var i := LastSlash(p);
    SplitAtLastSlash(p, i);
    (p[..i + 1], p[i + 1..])
  }

  /** Cutting p after a '/' with no '/' after it leaves no '/' in the second part. */
  lemma SplitAtLastSlash(p: string, i: int)
    requires -1 <= i < |p| && (i >= 0 ==> p[i] == '/')
    requires forall k :: i < k < |p| ==> p[k] != '/'
    ensures p[..i + 1] + p[i + 1..] == p
    ensures '/' !in p[i + 1..]
    ensures i >= 0 ==> p[..i + 1][i] == '/'
  {
    TakeDrop(p, i + 1);
    var file := p[i + 1..];
    forall k | 0 <= k < |file| ensures file[k] != '/' {
      assert file[k] == p[i + 1 + k];
    }
  }

  /** A string is its prefix of length j followed by the rest. */
  lemma TakeDrop(p: string, j: int)
    requires 0 <= j <= |p|
    ensures p[..j] + p[j..] == p
  {
  }

  /** The short level codes, one per recognised directory. */
  const LevelNames: seq<string> := ["l1", "l2", "l3", "l4", "town"]

  /** The directory that holds the files of a level: levels/<name>data/. */
  function LevelDir(name: string): string {
    "levels/" + name + "data/"
  }

  /**
   The level name of a DUN file given by its path relative to the archive
   root; a directory outside the five known ones is an error naming it.
   */
  function GetLevelName(relDunPath: string): (r: Result<string>)
    ensures r.Success? <==> exists n :: n in LevelNames && Split(relDunPath).0 == LevelDir(n)
    ensures r.Success? ==> r.value in LevelNames && Split(relDunPath).0 == LevelDir(r.value)
    ensures r.Failure? ==> r.error == Split(relDunPath).0
  {
    var (dunDir, _) := Split(relDunPath);
    var r :=
      if dunDir == "levels/l1data/" then Success("l1")
      else if dunDir == "levels/l2data/" then Success("l2")
      else if dunDir == "levels/l3data/" then Success("l3")
      else if dunDir == "levels/l4data/" then Success("l4")
      else if dunDir == "levels/towndata/" then Success("town")
      else Failure(dunDir);
    LevelDirs();
    r
  }

  /**
   The switch is a bijection between the five directories and the five
   level names: every known name is reached from its own directory, from
   any file in it, and from no other directory.
   */
  lemma LevelNameOfDir(name: string, file: string)
    requires name in LevelNames && '/' !in file
    ensures GetLevelName(LevelDir(name) + file) == Success(name)
  {
    LevelDirs();
    SplitDirFile(LevelDir(name), file);
  }

  /** The worked cases: a file of levels/l2data/ and one of an unknown directory. */
  lemma LevelNameExamples()
    ensures GetLevelName("levels/l2data/foo.dun") == Success("l2")
    ensures GetLevelName("levels/unknown/foo.dun") == Failure("levels/unknown/")
  {
    LevelDirs();
    assert LevelDir("l2") + "foo.dun" == "levels/l2data/foo.dun";
    LevelNameOfDir("l2", "foo.dun");
    assert "levels/unknown/" + "foo.dun" == "levels/unknown/foo.dun";
    SplitDirFile("levels/unknown/", "foo.dun");
  }

  /** A directory ending in '/' followed by a file name splits back into the two. */
  lemma SplitDirFile(dir: string, file: string)
    requires dir != [] && dir[|dir| - 1] == '/' && '/' !in file
    ensures Split(dir + file) == (dir, file)
  {
    var p := dir + file;
    forall k | |dir| <= k < |p| ensures p[k] != '/' {
      assert p[k] == file[k - |dir|];
    }
    LastSlashIsLast(p, |dir| - 1);
    assert p[..|dir|] == dir && p[|dir|..] == file;
  }

  /** The five directories spelled out. */
  lemma LevelDirs()
    ensures LevelDir("l1") == "levels/l1data/" && LevelDir("l2") == "levels/l2data/"
    ensures LevelDir("l3") == "levels/l3data/" && LevelDir("l4") == "levels/l4data/"
    ensures LevelDir("town") == "levels/towndata/"
  {
  }

  /** LastSlash is determined by its ensures: the last '/' and nothing after it. */
  lemma {:induction false} LastSlashIsLast(p: string, i: int)
    requires 0 <= i < |p| && p[i] == '/'
    requires forall k :: i < k < |p| ==> p[k] != '/'
    ensures LastSlash(p) == i
  {
    if i < |p| - 1 {
      LastSlashIsLast(p[..|p| - 1], i);
    }
  }
}
