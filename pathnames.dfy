/**
  `filename` of utils.py: `os.path.splitext(os.path.basename(path))[0]` with
  POSIX path rules, the last path component without its final extension.
*/
module PathNames {

  /** Python's `s.rfind(c)`: the last position of `c`, or -1. */
  function LastIndexOf(s: string, c: char): (i: int)
    ensures -1 <= i < |s|
    ensures i >= 0 ==> s[i] == c
    ensures forall k :: i < k < |s| ==> s[k] != c
  {
    if s == [] then -1 else if s[|s| - 1] == c then |s| - 1 else LastIndexOf(s[..|s| - 1], c)
  }

  /** The last `c` of `a + [c] + b` is the one between them when `b` has none. */
  lemma LastIndexOfSplit(s: string, a: string, c: char, b: string)
    requires s == a + [c] + b && c !in b
    ensures LastIndexOf(s, c) == |a|
  {
    assert s[|a|] == c;
    assert forall k :: |a| < k < |s| ==> s[k] != c by {
      forall k | |a| < k < |s|
        ensures s[k] != c
      {
        assert s[k] == b[k - |a| - 1];
      }
    }
    LastIndexOfIs(s, c, |a|);
  }

  /** A string without `c` has no last `c`. */
  lemma LastIndexOfAbsent(s: string, c: char)
    requires c !in s
    ensures LastIndexOf(s, c) == -1
  {
  }

  /** The last `c` is the one with no `c` after it. */
  lemma LastIndexOfIs(s: string, c: char, j: nat)
    requires j < |s| && s[j] == c
    requires forall k :: j < k < |s| ==> s[k] != c
    ensures LastIndexOf(s, c) == j
  {
  }

  /** `posixpath.basename`: everything after the last `/`. */
  function Basename(path: string): (b: string)
    ensures '/' !in b
    ensures |b| <= |path| && path[|path| - |b|..] == b
    ensures |b| < |path| ==> path[|path| - |b| - 1] == '/'
  {
    var b := path[LastIndexOf(path, '/') + 1..];
    assert forall k :: 0 <= k < |b| ==> b[k] == path[LastIndexOf(path, '/') + 1 + k];
    b
  }

  /** A directory part followed by a name without `/` has that name as its basename. */
  lemma BasenameOf(dir: string, name: string)
    requires '/' !in name
    ensures Basename(dir + "/" + name) == name
  {
    LastIndexOfSplit(dir + "/" + name, dir, '/', name);
    assert (dir + "/" + name)[|dir| + 1..] == name;
  }

  predicate AllDots(s: string) {
    forall k :: 0 <= k < |s| ==> s[k] == '.'
  }

  /**
    `posixpath.splitext`: the split is at the last `.` when it lies in the last
    component and a character other than `.` comes before it there, so leading
    dots never start an extension.
  */
  function SplitExt(p: string): (parts: (string, string))
    ensures parts.0 + parts.1 == p
  {
    var sep, dot := LastIndexOf(p, '/'), LastIndexOf(p, '.');
    if dot > sep && !AllDots(p[sep + 1..dot]) then (p[..dot], p[dot..]) else (p, "")
  }

  function Filename(path: string): string {
    SplitExt(Basename(path)).0
  }

  function Extension(path: string): string {
    SplitExt(Basename(path)).1
  }

  lemma NotInTail(e: string, c: char)
    requires forall k :: 1 <= k < |e| ==> e[k] != c
    ensures e != [] ==> c !in e[1..]
  {
    assert e != [] ==> forall k :: 0 <= k < |e[1..]| ==> e[1..][k] == e[k + 1];
  }

  /** The split of a name without `/`. */
  lemma SplitExtOfName(p: string)
    requires '/' !in p
    ensures var (r, e) := SplitExt(p);
      && '/' !in r
      && (e == [] || (e[0] == '.' && '.' !in e[1..] && !AllDots(r)))
  {
    LastIndexOfAbsent(p, '/');
    var dot := LastIndexOf(p, '.');
    if dot > -1 && !AllDots(p[0..dot]) {
      var r, e := p[..dot], p[dot..];
      assert SplitExt(p) == (r, e);
      assert r == p[0..dot];
      assert forall k :: 0 <= k < |r| ==> r[k] == p[k];
      assert forall k :: 1 <= k < |e| ==> e[k] == p[dot + k];
      NotInTail(e, '.');
    } else {
      assert SplitExt(p) == (p, "");
    }
  }

  /**
    The name and the extension make up the basename; the name has no `/`; the
    extension is empty or a `.` followed by no other `.`, and then the name is
    not made of dots only (it is not empty either).
  */
  lemma FilenameSplit(path: string)
    ensures Filename(path) + Extension(path) == Basename(path)
    ensures '/' !in Filename(path)
    ensures var e := Extension(path);
      e == [] || (e[0] == '.' && '.' !in e[1..] && !AllDots(Filename(path)))
  {
    SplitExtOfName(Basename(path));
  }

  /**
    Conversely, whenever the basename is a name that is not all dots followed
    by a `.` and a dot-free tail, that is the split `filename` makes.
  */
  lemma FilenameUnique(path: string, name: string, ext: string)
    requires Basename(path) == name + ext
    requires |ext| >= 1 && ext[0] == '.' && '.' !in ext[1..] && !AllDots(name)
    ensures Filename(path) == name && Extension(path) == ext
  {
    var b := Basename(path);
    LastIndexOfAbsent(b, '/');
    assert b == name + ['.'] + ext[1..];
    LastIndexOfSplit(b, name, '.', ext[1..]);
    assert b[0..|name|] == name;
  }

  /** A name with no `.` after its first character is not split. */
  lemma SplitExtNoDot(p: string)
    requires '/' !in p
    requires forall k :: 0 < k < |p| ==> p[k] != '.'
    ensures SplitExt(p) == (p, "")
  {
    LastIndexOfAbsent(p, '/');
    var dot := LastIndexOf(p, '.');
    assert dot > -1 ==> dot == 0 && AllDots(p[0..dot]);
  }

  /** A basename with no `.` after its first character has no extension. */
  lemma FilenameNoExtension(path: string)
    requires var b := Basename(path); forall k :: 0 < k < |b| ==> b[k] != '.'
    ensures Filename(path) == Basename(path) && Extension(path) == []
  {
    SplitExtNoDot(Basename(path));
  }

  /** `filename` of `dir/name.ext` for a name that is not all dots and an extension with one dot. */
  lemma FilenameInDirectory(path: string, dir: string, name: string, ext: string)
    requires path == dir + "/" + (name + ext) && '/' !in name + ext
    requires |ext| >= 1 && ext[0] == '.' && '.' !in ext[1..] && !AllDots(name)
    ensures Filename(path) == name
  {
    BasenameOf(dir, name + ext);
    FilenameUnique(path, name, ext);
  }

  lemma FilenameExampleNested()
    ensures Filename("videos/talk.final.mp4") == "talk.final"
  {
    assert "talk.final"[0] != '.';
    FilenameInDirectory("videos/talk.final.mp4", "videos", "talk.final", ".mp4");
  }

  /** A leading dot does not start an extension. */
  lemma FilenameExampleHidden()
    ensures Filename("home/.bashrc") == ".bashrc"
  {
    assert "home/.bashrc" == "home" + "/" + ".bashrc";
    BasenameOf("home", ".bashrc");
    FilenameNoExtension("home/.bashrc");
  }

  /** A trailing dot is an extension of its own. */
  lemma FilenameExampleTrailingDot()
    ensures Filename("archive.") == "archive"
  {
    LastIndexOfAbsent("archive.", '/');
    assert "archive." == "archive" + ".";
    assert "archive"[0] != '.';
    FilenameUnique("archive.", "archive", ".");
  }
}
