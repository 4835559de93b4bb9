/**
 * The output-path resolver of main.go: `output(inp, opath)` returns a
 * function that, given a new extension, strips `path.Ext(inp)` from `inp`,
 * appends the new extension and joins the result under `opath`.
 */
module Paths {

  /** Go's `outExt`: maps an extension such as ".mkv" to the output path. */
  type OutExt = string -> string

  /** A non-empty extension as `path.Ext` returns it: a dot, then no dot and no slash. */
  predicate IsExtension(e: string)
  {
    |e| >= 1 && e[0] == '.' && forall k :: 1 <= k < |e| ==> e[k] != '.' && e[k] != '/'
  }

  /** The final slash-separated element of `p`: its longest suffix without a slash. */
  function FinalElement(p: string): (b: string)
    ensures |b| <= |p| && b == p[|p| - |b|..]
    ensures '/' !in b
    ensures |b| < |p| ==> p[|p| - |b| - 1] == '/'
    decreases |p|
  {
    if |p| == 0 || p[|p| - 1] == '/' then ""
    else
      var front := p[..|p| - 1];
      var b := FinalElement(front);
      assert front[|front| - |b|..] + [p[|p| - 1]] == p[|p| - |b| - 1..];
      b + [p[|p| - 1]]
  }

  /**
   * Go's `path.Ext`: scanning `p` from its end, the suffix that starts at the
   * first dot met before any slash, or "" when the final element has no dot.
   */
  function Ext(p: string): (e: string)
    ensures |e| <= |p| && e == p[|p| - |e|..]
    ensures e != "" ==> IsExtension(e)
    decreases |p|
  {
    if |p| == 0 || p[|p| - 1] == '/' then ""
    else if p[|p| - 1] == '.' then "."
    else
      var front := p[..|p| - 1];
      var e := Ext(front);
      if e == "" then ""
      else
        assert front[|front| - |e|..] + [p[|p| - 1]] == p[|p| - |e| - 1..];
        e + [p[|p| - 1]]
  }

  /**
   * The extension lies within the final element, and it is empty exactly
   * when the final element has no dot.
   */
  lemma {:induction false} ExtWithinFinalElement(p: string)
    ensures |Ext(p)| <= |FinalElement(p)|
    ensures Ext(p) == "" <==> '.' !in FinalElement(p)
    decreases |p|
  {
    if |p| > 0 && p[|p| - 1] != '/' {
      var front := p[..|p| - 1];
      ExtWithinFinalElement(front);
      var b := FinalElement(front);
      assert FinalElement(p) == b + [p[|p| - 1]];
      assert '.' in FinalElement(p) <==> '.' in b || p[|p| - 1] == '.';
    }
  }

  /** `inp[:len(inp)-len(path.Ext(inp))]`: the input with its extension removed. */
  function TrimExt(p: string): (r: string)
    ensures r + Ext(p) == p
  {
    p[..|p| - |Ext(p)|]
  }

  /**
   * Go's `path.Join` of two elements: empty elements are dropped and the
   * others separated by one slash. The lexical clean-up `path.Join` applies
   * afterwards is not part of this model.
   */
  function Join(dir: string, file: string): string
  {
    if dir == "" then file
    else if file == "" then dir
    else dir + "/" + file
  }

  /** The path the function returned by `output(inp, opath)` gives for extension `ext`. */
  function OutputPath(inp: string, opath: string, ext: string): string
  {
    Join(opath, TrimExt(inp) + ext)
  }

  /** Go's `output(inp, opath)`: the extension-to-path function for one input file. */
  function Output(inp: string, opath: string): OutExt
  {
    ext => OutputPath(inp, opath, ext)
  }

  /** A path that ends in an extension has exactly that extension. */
  lemma {:induction false} ExtOfAppended(s: string, e: string)
    requires IsExtension(e)
    ensures Ext(s + e) == e
    decreases |e|
  {
    var p := s + e;
    var last := e[|e| - 1];
    assert p[|p| - 1] == last;
    if |e| == 1 {
      assert last == '.';
    } else {
      var front := e[..|e| - 1];
      assert IsExtension(front);
      assert last != '.' && last != '/';
      assert p[..|p| - 1] == s + front;
      ExtOfAppended(s, front);
      assert front + [last] == e;
    }
  }

  /** The extension of a path is the extension of its final element. */
  lemma {:induction false} ExtOfFinalElement(p: string)
    ensures Ext(p) == Ext(FinalElement(p))
    decreases |p|
  {
    if |p| > 0 && p[|p| - 1] != '/' {
      var front := p[..|p| - 1];
      var b := FinalElement(p);
      assert b == FinalElement(front) + [p[|p| - 1]];
      assert b[..|b| - 1] == FinalElement(front);
      ExtOfFinalElement(front);
    }
  }

  /**
   * Whatever extension the input had, none included, the output path's
   * extension is exactly the new one.
   */
  lemma OutputHasExtension(inp: string, opath: string, ext: string)
    requires IsExtension(ext)
    ensures Ext(OutputPath(inp, opath, ext)) == ext
  {
    if opath == "" {
      ExtOfAppended(TrimExt(inp), ext);
    } else {
      assert OutputPath(inp, opath, ext) == (opath + "/" + TrimExt(inp)) + ext;
      ExtOfAppended(opath + "/" + TrimExt(inp), ext);
    }
  }

  /** Replacing an extension twice with the same one is the same as replacing it once. */
  lemma ReplaceExtIdempotent(inp: string, ext: string)
    requires IsExtension(ext)
    ensures TrimExt(TrimExt(inp) + ext) + ext == TrimExt(inp) + ext
  {
    ExtOfAppended(TrimExt(inp), ext);
  }

  /**
   * The directories of the input are kept under the destination, not
   * flattened: the output is the destination, a slash, every directory of
   * `inp`, its final element without its extension, and the new extension.
   */
  lemma OutputKeepsDirectories(inp: string, opath: string, ext: string)
    requires opath != "" && ext != ""
    ensures var base := FinalElement(inp);
      OutputPath(inp, opath, ext) == opath + "/" + inp[..|inp| - |base|] + TrimExt(base) + ext
  {
    var base := FinalElement(inp);
    var dirs := inp[..|inp| - |base|];
    assert inp == dirs + base;
    ExtOfFinalElement(inp);
    var k := |Ext(base)|;
    var stem := base[..|base| - k];
    assert TrimExt(base) == stem;
    PrefixOfConcat(dirs, base, |base| - k);
    assert TrimExt(inp) == dirs + stem;
    var file := TrimExt(inp) + ext;
    assert OutputPath(inp, opath, ext) == opath + "/" + file;
    assert file == dirs + stem + ext;
    ConcatAssoc(opath + "/", dirs, stem, ext);
  }

  lemma ConcatAssoc(a: string, b: string, c: string, d: string)
    ensures a + (b + c + d) == a + b + c + d
  {
  }

  /** The final element of `dir/file` is `file` when `file` has no slash. */
  lemma {:induction false} FinalElementAfterSlash(dir: string, file: string)
    requires '/' !in file
    ensures FinalElement(dir + "/" + file) == file
    decreases |file|
  {
    var p := dir + "/" + file;
    if |file| > 0 {
      var front := file[..|file| - 1];
      var last := file[|file| - 1];
      assert last in file;
      assert p[|p| - 1] == last;
      assert '/' !in front by {
        assert forall c :: c in front ==> c in file;
      }
      assert p[..|p| - 1] == dir + "/" + front;
      FinalElementAfterSlash(dir, front);
      assert file == front + [last];
    } else {
      assert p[|p| - 1] == '/';
    }
  }

  /** Cutting a concatenation inside its second part. */
  lemma PrefixOfConcat(a: string, b: string, n: nat)
    requires n <= |b|
    ensures (a + b)[..|a| + n] == a + b[..n]
  {
  }
}

module PathExamples {
  import opened Paths

  /**
   * Only the last extension is replaced: "clip.mkv.avi" converted to MKV
   * becomes "clip.mkv.mkv", not "clip.mkv".
   */
  lemma OnlyLastExtensionReplaced()
    ensures OutputPath("clip.mkv.avi", "out", ".mkv") == "out/clip.mkv.mkv"
  {
    assert TrimExt("clip.mkv.avi") == "clip.mkv" by {
      assert "clip.mkv.avi" == "clip.mkv" + ".avi";
      ExtOfAppended("clip.mkv", ".avi");
    }
  }

  /**
   * A dot in a directory name is not an extension: a file whose own name has
   * no dot, such as "dir.d/notes", gets the new extension appended.
   */
  lemma DotInDirectoryIgnored(dir: string, name: string, opath: string, ext: string)
    requires '/' !in name && '.' !in name
    requires opath != ""
    ensures OutputPath(dir + "/" + name, opath, ext) == opath + "/" + (dir + "/" + name + ext)
  {
    var p := dir + "/" + name;
    assert Ext(p) == "" by {
      FinalElementAfterSlash(dir, name);
      ExtWithinFinalElement(p);
    }
    assert TrimExt(p) == p;
  }
}
