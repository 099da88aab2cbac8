/** File-name classification by extension, as `os.path.splitext(path)[1].lower()` decides it. */
module Paths {
  import opened Text

  const ImageExtensions: seq<string> := [".jpg", ".jpeg", ".png", ".bmp", ".gif"]
  const VideoExtensions: seq<string> := [".mp4", ".mkv", ".avi", ".mov", ".flv", ".wmv"]

  /** Python's `s.rfind(c)`: the last index holding `c`, or -1. */
  function RFind(s: string, c: char): (r: int)
    ensures -1 <= r < |s|
    ensures 0 <= r ==> s[r] == c
    ensures forall k :: r < k < |s| ==> s[k] != c
    decreases |s|
  {
    if s == [] then -1
    else if s[|s| - 1] == c then |s| - 1
    else RFind(s[..|s| - 1], c)
  }

  /** Python's `os.path.splitext` with `/` as separator: the extension runs from the last dot
      of the base name, unless that base name has nothing but dots before it. */
  function SplitExt(p: string): (r: (string, string))
    ensures r.0 + r.1 == p
    ensures r.1 == [] || r.1[0] == '.'
    ensures forall k :: 0 < k < |r.1| ==> r.1[k] != '.' && r.1[k] != '/'
  {
    var sep := RFind(p, '/');
    var dot := RFind(p, '.');
    if dot > sep && exists k | sep < k < dot :: p[k] != '.' then
      assert p[..dot] + p[dot..] == p;
      (p[..dot], p[dot..])
    else (p, "")
  }

  function Ext(p: string): (ext: string) {
    SplitExt(p).1
  }

  predicate IsImageFile(p: string) {
    Lower(Ext(p)) in ImageExtensions
  }

  predicate IsVideoFile(p: string) {
    Lower(Ext(p)) in VideoExtensions
  }

  predicate IsMediaFile(p: string) {
    IsImageFile(p) || IsVideoFile(p)
  }

  /** `dir` is empty or names a directory (ends in a separator). */
  ghost predicate IsDirPrefix(dir: string) {
    dir == [] || dir[|dir| - 1] == '/'
  }

  /** A base-name stem with a character other than a dot, and no separator. */
  ghost predicate IsStem(stem: string) {
    && (forall k :: 0 <= k < |stem| ==> stem[k] != '/')
    && (exists k :: 0 <= k < |stem| && stem[k] != '.')
  }

  /** An extension: a dot followed by characters that are neither dots nor separators. */
  ghost predicate IsExtension(ext: string) {
    && |ext| >= 1 && ext[0] == '.'
    && (forall k :: 1 <= k < |ext| ==> ext[k] != '.' && ext[k] != '/')
  }

  /** The extension of `dir/stem.ext` is exactly `.ext`. */
  lemma ExtOfName(dir: string, stem: string, ext: string)
    requires IsDirPrefix(dir) && IsStem(stem) && IsExtension(ext)
    ensures Ext(dir + stem + ext) == ext
  {
    var p := dir + stem + ext;
    var d := |dir| + |stem|;
    assert p[d] == '.';
    assert forall k :: d < k < |p| ==> p[k] == ext[k - d];
    var dot := RFind(p, '.');
    assert dot == d;
    var sep := RFind(p, '/');
    assert forall k :: |dir| <= k < |p| ==> p[k] != '/' by {
      forall k | |dir| <= k < |p| ensures p[k] != '/' {
        if k < d {
          assert p[k] == stem[k - |dir|];
        }
      }
    }
    assert sep == |dir| - 1 by {
      if dir != [] {
        assert p[|dir| - 1] == '/';
      }
    }
    var j :| 0 <= j < |stem| && stem[j] != '.';
    assert p[|dir| + j] != '.';
    assert p[dot..] == ext;
  }

  /** A base name without any dot has no extension. */
  lemma NoDotNoExt(dir: string, name: string)
    requires IsDirPrefix(dir)
    requires forall k :: 0 <= k < |name| ==> name[k] != '.' && name[k] != '/'
    ensures Ext(dir + name) == []
  {
    var p := dir + name;
    var dot := RFind(p, '.');
    var sep := RFind(p, '/');
    assert forall k :: |dir| <= k < |p| ==> p[k] == name[k - |dir|];
    assert sep == |dir| - 1 by {
      if dir != [] {
        assert p[|dir| - 1] == '/';
      }
    }
    assert dot < |dir|;
  }

  /** A base name that is only dots before its last dot (a hidden file such as `.jpg`) has no
      extension. */
  lemma HiddenNameNoExt(dir: string, dots: string, rest: string)
    requires IsDirPrefix(dir)
    requires |dots| >= 1 && forall k :: 0 <= k < |dots| ==> dots[k] == '.'
    requires forall k :: 0 <= k < |rest| ==> rest[k] != '.' && rest[k] != '/'
    ensures Ext(dir + dots + rest) == []
  {
    var p := dir + dots + rest;
    var d := |dir| + |dots| - 1;
    assert p[d] == '.';
    assert forall k :: d < k < |p| ==> p[k] == rest[k - d - 1];
    var dot := RFind(p, '.');
    assert dot == d;
    assert forall k :: |dir| <= k < d ==> p[k] == dots[k - |dir|];
    var sep := RFind(p, '/');
    assert sep == |dir| - 1 by {
      assert forall k :: |dir| <= k < |p| ==> p[k] != '/' by {
        forall k | |dir| <= k < |p| ensures p[k] != '/' {
          if k <= d {
            assert p[k] == dots[k - |dir|];
          }
        }
      }
      if dir != [] {
        assert p[|dir| - 1] == '/';
      }
    }
  }

  /** `is_video_file`: a named file is a video exactly when its extension, lower-cased, is one of
      the six video extensions. */
  lemma VideoFileByName(dir: string, stem: string, ext: string)
    requires IsDirPrefix(dir) && IsStem(stem) && IsExtension(ext)
    ensures IsVideoFile(dir + stem + ext) <==> Lower(ext) in VideoExtensions
  {
    ExtOfName(dir, stem, ext);
  }

  /** A named file is an image exactly when its extension, lower-cased, is one of the five
      image extensions. */
  lemma ImageFileByName(dir: string, stem: string, ext: string)
    requires IsDirPrefix(dir) && IsStem(stem) && IsExtension(ext)
    ensures IsImageFile(dir + stem + ext) <==> Lower(ext) in ImageExtensions
  {
    ExtOfName(dir, stem, ext);
  }

  /** A named file is media exactly when its lower-cased extension is one of the five image or
      six video extensions. */
  lemma MediaFileByName(dir: string, stem: string, ext: string)
    requires IsDirPrefix(dir) && IsStem(stem) && IsExtension(ext)
    ensures IsMediaFile(dir + stem + ext) <==> Lower(ext) in ImageExtensions + VideoExtensions
  {
    ExtOfName(dir, stem, ext);
  }

  /** The directory part `os.path.join(root, name)` puts before a relative `name`: `root`
      itself when it is empty or already ends in a separator, and `root/` otherwise. */
  function JoinDir(root: string): (dir: string)
    ensures IsDirPrefix(dir) && root <= dir && |dir| <= |root| + 1
    ensures IsDirPrefix(root) ==> dir == root
  {
    if root == [] || root[|root| - 1] == '/' then root else root + "/"
  }

  /** `os.path.join(root, name)` for a relative `name`. */
  function PathJoin(root: string, name: string): (p: string) {
    JoinDir(root) + name
  }

  /** The last `c` of `a + b` is in `b` when `b` has one, and otherwise the last `c` of `a`. */
  lemma {:induction false} RFindAppend(a: string, b: string, c: char)
    ensures RFind(a + b, c) == if RFind(b, c) >= 0 then |a| + RFind(b, c) else RFind(a, c)
    decreases |b|
  {
    if b == [] {
      assert a + b == a;
    } else if b[|b| - 1] != c {
      assert (a + b)[..|a + b| - 1] == a + b[..|b| - 1];
      RFindAppend(a, b[..|b| - 1], c);
    }
  }

  /** Under a directory prefix, a base name without separators keeps its own extension: the
      extension of the joined path is the extension of the name. */
  lemma ExtUnderDir(dir: string, name: string)
    requires IsDirPrefix(dir)
    requires forall k :: 0 <= k < |name| ==> name[k] != '/'
    ensures Ext(dir + name) == Ext(name)
  {
    JoinedMarks(dir, name);
    var dotN := RFind(name, '.');
    if dotN >= 0 {
      DotInName(dir, name, dotN);
    } else {
      assert RFind(dir + name, '.') <= |dir| - 1;
    }
  }

  /** Where the last separator and the last dot of `dir + name` sit. */
  lemma JoinedMarks(dir: string, name: string)
    requires IsDirPrefix(dir)
    requires forall k :: 0 <= k < |name| ==> name[k] != '/'
    ensures RFind(name, '/') == -1
    ensures RFind(dir + name, '/') == |dir| - 1
    ensures RFind(dir + name, '.')
         == if RFind(name, '.') >= 0 then |dir| + RFind(name, '.') else RFind(dir, '.')
  {
    RFindAppend(dir, name, '/');
    RFindAppend(dir, name, '.');
    assert RFind(name, '/') == -1;
    assert RFind(dir, '/') == |dir| - 1 by {
      if dir != [] {
        assert dir[|dir| - 1] == '/';
      }
    }
  }

  /** When the name has a dot, both splits cut at that dot and agree on what precedes it. */
  lemma DotInName(dir: string, name: string, dotN: int)
    requires RFind(name, '/') == -1 && RFind(name, '.') == dotN >= 0
    requires RFind(dir + name, '/') == |dir| - 1 && RFind(dir + name, '.') == |dir| + dotN
    ensures Ext(dir + name) == Ext(name)
  {
    var p := dir + name;
    var sepP, dotP := |dir| - 1, |dir| + dotN;
    assert forall k :: -1 < k < dotN ==> p[|dir| + k] == name[k];
    assert (exists k | sepP < k < dotP :: p[k] != '.') <==> (exists k | -1 < k < dotN :: name[k] != '.') by {
      if exists k | sepP < k < dotP :: p[k] != '.' {
        var k :| sepP < k < dotP && p[k] != '.';
        assert name[k - |dir|] != '.';
      }
    }
    assert p[dotP..] == name[dotN..];
  }
}
