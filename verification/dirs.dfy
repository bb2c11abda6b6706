/**
 * Windows-to-Python path conversion (dirs.py). Both operations are chains of
 * `str.replace` over a fixed list of replacements. The script's own directory,
 * which the source reads from `sys.path[0]`, is the parameter `pypath`.
 */
module Dirs {
  import opened Text

  /** `convert_win_to_py_path`: every backslash becomes a forward slash, nothing else changes. */
  function ConvertWinToPyPath(winpath: string): (r: string)
    ensures |r| == |winpath|
    ensures forall i :: 0 <= i < |r| ==> r[i] == (if winpath[i] == '\\' then '/' else winpath[i])
  {
    ReplaceChar(winpath, '\\', '/');
    Replace(winpath, "\\", "/")
  }

  lemma ConvertedHasNoBackslash(winpath: string)
    ensures '\\' !in ConvertWinToPyPath(winpath)
  {
    var r := ConvertWinToPyPath(winpath);
    forall i | 0 <= i < |r| ensures r[i] != '\\' { }
  }

  lemma ConvertWithoutBackslash(winpath: string)
    requires '\\' !in winpath
    ensures ConvertWinToPyPath(winpath) == winpath
  {
  }

  lemma ConvertIdempotent(winpath: string)
    ensures ConvertWinToPyPath(ConvertWinToPyPath(winpath)) == ConvertWinToPyPath(winpath)
  {
    ConvertedHasNoBackslash(winpath);
    ConvertWithoutBackslash(ConvertWinToPyPath(winpath));
  }

  /** The first path segment: the text before the first '/' (`dotspath.partition('/')[0]`). */
  function FirstSegment(dotspath: string): string {
    BeforeFirst(dotspath, '/')
  }

  /**
   * The two replacements applied to the first segment, in the source's order:
   * `..` becomes the parent directory of `py` (text before its last '/'), then
   * every remaining `.` becomes `py` itself.
   */
  function RewriteSegment(segment: string, py: string): string {
    Replace(Replace(segment, "..", BeforeLast(py, '/')), ".", py)
  }

  /**
   * `replace_dots_to_py_path`: rewrites `.` and `..` in the first segment and
   * keeps the separator and the rest (`p[1] + p[2]`) as they are.
   */
  function ReplaceDotsToPyPath(dotspath: string, pypath: string): (r: string)
    ensures IsSuffix(dotspath[|FirstSegment(dotspath)|..], r)
    ensures '/' in dotspath ==> dotspath[|FirstSegment(dotspath)|] == '/'
  {
    var head := FirstSegment(dotspath);
    RewriteSegment(head, ConvertWinToPyPath(pypath)) + dotspath[|head|..]
  }

  /** A path without '/' is only its rewritten segment: no separator is appended. */
  lemma NoSeparatorAdded(dotspath: string, pypath: string)
    requires '/' !in dotspath
    ensures ReplaceDotsToPyPath(dotspath, pypath) == RewriteSegment(dotspath, ConvertWinToPyPath(pypath))
  {
    BeforeFirstWithout(dotspath, '/');
  }

  /** A path whose first segment has no dot is returned unchanged. */
  lemma NoDotsUnchanged(dotspath: string, pypath: string)
    requires '.' !in FirstSegment(dotspath)
    ensures ReplaceDotsToPyPath(dotspath, pypath) == dotspath
  {
    var head := FirstSegment(dotspath);
    var py := ConvertWinToPyPath(pypath);
    MissingFirstChar(head, "..");
    ReplaceWithoutPattern(head, "..", BeforeLast(py, '/'));
    MissingFirstChar(head, ".");
    ReplaceWithoutPattern(head, ".", py);
    assert dotspath == head + dotspath[|head|..];
  }

  /** "./rest" becomes the script directory followed by "/rest". */
  lemma CurrentDirectory(rest: string, pypath: string)
    ensures ReplaceDotsToPyPath("./" + rest, pypath) == ConvertWinToPyPath(pypath) + "/" + rest
  {
    var p := "./" + rest;
    var py := ConvertWinToPyPath(pypath);
    assert p == "." + ['/'] + rest;
    BeforeFirstOfJoined(".", '/', rest);
    assert p[1..] == "/" + rest;
    assert Replace(".", "..", BeforeLast(py, '/')) == ".";
    assert Replace(".", ".", py) == py + Replace("", ".", py);
  }

  /**
   * "../rest" becomes the parent of the script directory followed by "/rest",
   * where the parent text has then had every '.' rewritten by the second
   * replacement.
   */
  lemma ParentDirectory(rest: string, pypath: string)
    ensures ReplaceDotsToPyPath("../" + rest, pypath)
         == Replace(BeforeLast(ConvertWinToPyPath(pypath), '/'), ".", ConvertWinToPyPath(pypath)) + "/" + rest
  {
    var p := "../" + rest;
    var py := ConvertWinToPyPath(pypath);
    var parent := BeforeLast(py, '/');
    assert FirstSegment(p) == ".." by {
      assert p == ".." + ['/'] + rest;
      BeforeFirstOfJoined("..", '/', rest);
    }
    assert p[2..] == "/" + rest;
    assert Replace("..", "..", parent) == parent by {
      assert Replace("..", "..", parent) == parent + Replace("", "..", parent);
    }
    calc {
      ReplaceDotsToPyPath(p, pypath);
      RewriteSegment(FirstSegment(p), py) + p[|FirstSegment(p)|..];
      Replace(Replace("..", "..", parent), ".", py) + p[2..];
    }
  }

  /** The parent text survives intact only when it has no dot. */
  lemma ParentDirectoryWithoutDot(rest: string, pypath: string)
    requires '.' !in BeforeLast(ConvertWinToPyPath(pypath), '/')
    ensures ReplaceDotsToPyPath("../" + rest, pypath) == BeforeLast(ConvertWinToPyPath(pypath), '/') + "/" + rest
  {
    var py := ConvertWinToPyPath(pypath);
    var parent := BeforeLast(py, '/');
    ParentDirectory(rest, pypath);
    MissingFirstChar(parent, ".");
    ReplaceWithoutPattern(parent, ".", py);
  }
}
