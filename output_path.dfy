/**
 * The name the resized image is saved under: the input path's folder (up to
 * and including the last '/'), the file name without its extension, the
 * suffix "_resized", then the extension (from the file name's last '.').
 */
module OutputPath {
  import Strings

  /** Index of the last occurrence of `ch` in `s`, or -1 when there is none. */
  function LastIndexOf(s: string, ch: char): (i: int)
    ensures -1 <= i < |s|
    ensures i >= 0 ==> s[i] == ch && forall j :: i < j < |s| ==> s[j] != ch
    ensures i == -1 <==> ch !in s
  {
    if |s| == 0 then -1
    else if s[|s| - 1] == ch then |s| - 1
    else LastIndexOf(s[..|s| - 1], ch)
  }

  /**
   * Splits a path into its folder (everything up to and including the last
   * '/', empty when there is none) and the file name after it.
   */
  function SplitFolder(path: string): (parts: (string, string))
  {
    var slash := LastIndexOf(path, '/');
    if slash >= 0 then (path[..slash + 1], path[slash + 1..]) else ([], path)
  }

  /** A folder part: empty or ending in '/'. */
  predicate IsFolder(folder: string)
  {
    folder == [] || folder[|folder| - 1] == '/'
  }

  /**
   * Splits a file name into the name before its last '.' and the extension
   * from that '.' on; without a '.' the extension is empty.
   */
  function SplitExtension(filename: string): (parts: (string, string))
  {
    var dot := LastIndexOf(filename, '.');
    if dot >= 0 then (filename[..dot], filename[dot..]) else (filename, [])
  }

  /** An extension part: empty, or a '.' followed by no other '.'. */
  predicate IsExtension(ext: string)
  {
    ext == [] || (ext[0] == '.' && '.' !in ext[1..])
  }

  /** The text inserted before the extension. */
  const Suffix: string := "_resized"

  /** The output path: folder + name + "_resized" + extension. */
  function ResizedPath(path: string): string
  {
    var folder := SplitFolder(path);
    var name := SplitExtension(folder.1);
    folder.0 + name.0 + Suffix + name.1
  }

  /** An occurrence of `ch` with none after it is the last occurrence. */
  lemma LastIndexOfIs(s: string, ch: char, i: int)
    requires 0 <= i < |s| && s[i] == ch && forall j :: i < j < |s| ==> s[j] != ch
    ensures LastIndexOf(s, ch) == i
  {
    assert ch in s;
  }

  /** Splitting at `cut` and joining gives the string back; the parts are its slices. */
  lemma SlicesOfJoin(a: string, b: string)
    ensures (a + b)[..|a|] == a && (a + b)[|a|..] == b
  {
  }

  /** Cutting at an occurrence of `ch` with none after it rejoins to the whole and leaves a tail without `ch`. */
  lemma CutAtLast(s: string, i: int, ch: char)
    requires 0 <= i < |s| && s[i] == ch && forall j :: i < j < |s| ==> s[j] != ch
    ensures s[..i + 1] + s[i + 1..] == s
    ensures s[..i] + s[i..] == s
    ensures s[i..][1..] == s[i + 1..]
    ensures ch !in s[i + 1..]
  {
    assert s[..i + 1] + s[i + 1..] == s;
    assert s[..i] + s[i..] == s;
    var tail := s[i + 1..];
    forall k | 0 <= k < |tail|
      ensures tail[k] != ch
    {
      assert tail[k] == s[i + 1 + k];
    }
  }

  /** What `SplitFolder` returns reassembles the path, ends the folder at a '/' and leaves no '/' after it. */
  lemma SplitFolderSound(path: string)
    ensures SplitFolder(path).0 + SplitFolder(path).1 == path
    ensures IsFolder(SplitFolder(path).0) && '/' !in SplitFolder(path).1
  {
    var slash := LastIndexOf(path, '/');
    if slash >= 0 {
      assert path[..slash + 1][slash] == '/';
      CutAtLast(path, slash, '/');
    } else {
      Strings.EmptyPrefix(path);
    }
  }

  /** Any split of the path into a folder and a '/'-free file name is the one `SplitFolder` returns. */
  lemma SplitFolderUnique(path: string, folder: string, filename: string)
    requires folder + filename == path && IsFolder(folder) && '/' !in filename
    ensures SplitFolder(path) == (folder, filename)
  {
    SlicesOfJoin(folder, filename);
    forall k | |folder| <= k < |path|
      ensures path[k] != '/'
    {
      assert path[k] == filename[k - |folder|];
    }
    if folder == [] {
      assert path == filename;
    } else {
      assert path[|folder| - 1] == folder[|folder| - 1];
      LastIndexOfIs(path, '/', |folder| - 1);
    }
  }

  /**
   * The folder split is the only one that reassembles the path, ends the
   * folder at a '/' and leaves no '/' in the file name.
   */
  lemma SplitFolderCharacterized(path: string, folder: string, filename: string)
    ensures SplitFolder(path) == (folder, filename) <==>
            folder + filename == path && IsFolder(folder) && '/' !in filename
  {
    SplitFolderSound(path);
    if folder + filename == path && IsFolder(folder) && '/' !in filename {
      SplitFolderUnique(path, folder, filename);
    }
  }

  /** What `SplitExtension` returns reassembles the file name and has an extension of the right form. */
  lemma SplitExtensionSound(filename: string)
    ensures SplitExtension(filename).0 + SplitExtension(filename).1 == filename
    ensures IsExtension(SplitExtension(filename).1)
    ensures SplitExtension(filename).1 == [] ==> '.' !in SplitExtension(filename).0
  {
    var dot := LastIndexOf(filename, '.');
    if dot >= 0 {
      assert filename[dot..][0] == '.';
      CutAtLast(filename, dot, '.');
    } else {
      Strings.EmptySuffix(filename);
    }
  }

  /** Any split of the file name into a name and an extension of the right form is the one `SplitExtension` returns. */
  lemma SplitExtensionUnique(filename: string, name: string, ext: string)
    requires name + ext == filename && IsExtension(ext) && (ext == [] ==> '.' !in name)
    ensures SplitExtension(filename) == (name, ext)
  {
    SlicesOfJoin(name, ext);
    if ext == [] {
      assert filename == name;
    } else {
      forall k | |name| < k < |filename|
        ensures filename[k] != '.'
      {
        assert filename[k] == ext[1..][k - |name| - 1];
      }
      assert filename[|name|] == ext[0];
      LastIndexOfIs(filename, '.', |name|);
    }
  }

  /**
   * The extension split is the only one that reassembles the file name, has
   * an extension of the right form, and takes all of the dot-free case as name.
   */
  lemma SplitExtensionCharacterized(filename: string, name: string, ext: string)
    ensures SplitExtension(filename) == (name, ext) <==>
            name + ext == filename && IsExtension(ext) && (ext == [] ==> '.' !in name)
  {
    SplitExtensionSound(filename);
    if name + ext == filename && IsExtension(ext) && (ext == [] ==> '.' !in name) {
      SplitExtensionUnique(filename, name, ext);
    }
  }

  /**
   * The output path is the input path with "_resized" inserted between the
   * name and the extension: removing those eight characters gives the input back.
   */
  lemma ResizedPathInsertsSuffix(path: string)
    ensures var k := |SplitFolder(path).0| + |SplitExtension(SplitFolder(path).1).0|;
            var out := ResizedPath(path);
            k + |Suffix| <= |out| && out[k..k + |Suffix|] == Suffix && out[..k] + out[k + |Suffix|..] == path
  {
    ResizedPathParts(path);
    SuffixRemoved(SplitFolder(path).0, SplitExtension(SplitFolder(path).1).0, SplitExtension(SplitFolder(path).1).1,
                  path, ResizedPath(path));
  }

  /** The output path is made of the two splits' parts, which themselves reassemble the path. */
  lemma ResizedPathParts(path: string)
    ensures var folder := SplitFolder(path);
            var name := SplitExtension(folder.1);
            ResizedPath(path) == folder.0 + name.0 + Suffix + name.1 &&
            folder.0 + (name.0 + name.1) == path
  {
    SplitFolderSound(path);
    SplitExtensionSound(SplitFolder(path).1);
  }

  /** Taking the suffix back out of folder + name + "_resized" + ext leaves folder + name + ext. */
  lemma SuffixRemoved(folder: string, name: string, ext: string, path: string, out: string)
    requires folder + (name + ext) == path && out == folder + name + Suffix + ext
    ensures var k := |folder| + |name|;
            k + |Suffix| <= |out| && out[k..k + |Suffix|] == Suffix && out[..k] + out[k + |Suffix|..] == path
  {
    InsertedSlices(folder + name, Suffix, ext);
    Strings.Assoc(folder, name, ext);
  }

  /** The three parts of a concatenation are its slices, and dropping the middle one joins the outer two. */
  lemma InsertedSlices(a: string, m: string, b: string)
    ensures var out := a + m + b;
            out[..|a|] == a && out[|a|..|a| + |m|] == m && out[|a| + |m|..] == b &&
            out[..|a|] + out[|a| + |m|..] == a + b
  {
    var out := a + m + b;
    assert out[..|a|] == a;
    assert out[|a| + |m|..] == b;
  }

  /**
   * The output keeps the input's folder and extension: splitting it again
   * gives the same folder, and the name with "_resized" appended.
   */
  lemma ResizedPathKeepsFolderAndExtension(path: string)
    ensures var (folder, filename) := SplitFolder(path);
            var (name, ext) := SplitExtension(filename);
            SplitFolder(ResizedPath(path)) == (folder, name + Suffix + ext) &&
            SplitExtension(name + Suffix + ext) == (name + Suffix, ext)
  {
    var (folder, filename) := SplitFolder(path);
    var (name, ext) := SplitExtension(filename);
    SplitFolderCharacterized(path, folder, filename);
    SplitExtensionCharacterized(filename, name, ext);
    assert filename == name + ext;
    SuffixKeepsSplits(folder, name, ext);
  }

  /** Inserting "_resized" between a name and its extension changes neither split. */
  lemma SuffixKeepsSplits(folder: string, name: string, ext: string)
    requires IsFolder(folder) && '/' !in name + ext
    requires IsExtension(ext) && (ext == [] ==> '.' !in name)
    ensures SplitFolder(folder + name + Suffix + ext) == (folder, name + Suffix + ext)
    ensures SplitExtension(name + Suffix + ext) == (name + Suffix, ext)
  {
    var suffix := Suffix;
    assert '/' !in suffix && '.' !in suffix;
    NotInConcat(name, ext, '/');
    NotInConcat(name, suffix, '/');
    NotInConcat(name + suffix, ext, '/');
    assert folder + name + suffix + ext == folder + (name + suffix + ext);
    SplitFolderCharacterized(folder + name + suffix + ext, folder, name + suffix + ext);
    if ext == [] {
      NotInConcat(name, suffix, '.');
    }
    SplitExtensionCharacterized(name + suffix + ext, name + suffix, ext);
  }

  /** A character is in a concatenation exactly when it is in one of the parts. */
  lemma NotInConcat(a: string, b: string, ch: char)
    ensures ch !in a + b <==> ch !in a && ch !in b
  {
    if ch in a + b {
      var k :| 0 <= k < |a + b| && (a + b)[k] == ch;
      if k < |a| {
        assert a[k] == ch;
      } else {
        assert b[k - |a|] == ch;
      }
    }
    if ch in a {
      var k :| 0 <= k < |a| && a[k] == ch;
      assert (a + b)[k] == ch;
    }
    if ch in b {
      var k :| 0 <= k < |b| && b[k] == ch;
      assert (a + b)[|a| + k] == ch;
    }
  }
}
