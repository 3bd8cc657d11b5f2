// src/utils.cpp: path arithmetic, and the names the stages derive from it.
module Utils {
  import opened Bytes
  import opened Archive

  const DOT: byte := 46
  const TMP: Path := [47, 116, 109, 112]  // "/tmp"
  const PAK: seq<byte> := [112, 97, 107]
  const CMP: seq<byte> := [99, 109, 112]
  const ENC: seq<byte> := [101, 110, 99]
  const DEC: seq<byte> := [100, 101, 99]
  const DCMP: seq<byte> := [100, 99, 109, 112]

  /** What follows the last slash. */
  function BaseName(path: Path): seq<byte> {
    if path == [] || path[|path| - 1] == SLASH then [] else BaseName(path[..|path| - 1]) + [path[|path| - 1]]
  }

  /** What precedes the last dot; a name without a dot is not defined by the program. */
  function Stem(name: seq<byte>): seq<byte>
    requires DOT in name
  {
    if name[|name| - 1] == DOT then name[..|name| - 1] else Stem(name[..|name| - 1])
  }

  function ReNameBase(path: Path, suffix: seq<byte>): seq<byte>
    requires DOT in BaseName(path)
  {
    Stem(BaseName(path)) + [DOT] + suffix
  }

  /** dir/name.ext */
  function FileIn(dir: Path, name: seq<byte>, ext: seq<byte>): Path {
    dir + [SLASH] + (name + [DOT] + ext)
  }

  lemma {:induction false} BaseNameOf(dir: Path, name: seq<byte>)
    requires SLASH !in name
    ensures BaseName(dir + [SLASH] + name) == name
    decreases |name|
  {
    var p := dir + [SLASH] + name;
    if name != [] {
      var n := |name| - 1;
      BaseNameOf(dir, name[..n]);
      assert p[..|p| - 1] == dir + [SLASH] + name[..n];
    }
  }

  lemma {:induction false} BaseNameHasNoSlash(path: Path)
    ensures SLASH !in BaseName(path)
  {
    if path != [] && path[|path| - 1] != SLASH { BaseNameHasNoSlash(path[..|path| - 1]); }
  }

  lemma {:induction false} StemOf(x: seq<byte>, ext: seq<byte>)
    requires DOT !in ext
    ensures Stem(x + [DOT] + ext) == x
    decreases |ext|
  {
    var p := x + [DOT] + ext;
    if ext == [] {
      assert p[..|p| - 1] == x;
    } else {
      var n := |ext| - 1;
      StemOf(x, ext[..n]);
      assert p[..|p| - 1] == x + [DOT] + ext[..n];
    }
  }

  predicate PlainExt(ext: seq<byte>) {
    SLASH !in ext && DOT !in ext
  }

  /** Renaming the output of one stage gives the name the next stage is expected to use, dots in the
      base name included. */
  lemma ReNamed(dir: Path, x: seq<byte>, ext: seq<byte>, other: seq<byte>)
    requires SLASH !in x && PlainExt(ext)
    ensures DOT in BaseName(FileIn(dir, x, ext)) && ReNameBase(FileIn(dir, x, ext), other) == x + [DOT] + other
  {
    BaseNameOf(dir, x + [DOT] + ext);
    StemOf(x, ext);
  }

  /** Files with different extensions of the same length are different files, whatever their directories. */
  lemma ExtensionsDiffer(dir: Path, dir': Path, x: seq<byte>, ext: seq<byte>, other: seq<byte>)
    requires |ext| == |other| && ext != other
    ensures FileIn(dir, x, ext) != FileIn(dir', x, other)
  {
    var a, b := FileIn(dir, x, ext), FileIn(dir', x, other);
    assert a[|a| - |ext|..] == ext && b[|b| - |other|..] == other;
  }

  /** A temporary file named after a path is not that path. */
  lemma LongerName(dir: Path, path: Path, ext: seq<byte>)
    requires SLASH !in ext
    ensures FileIn(dir, BaseName(path), ext) != path
  {
    BaseNameHasNoSlash(path);
    BaseNameOf(dir, BaseName(path) + [DOT] + ext);
  }
}
