/**
 * Rust's `Path::file_name` and `Path::extension`, for the paths that `read_dir` yields:
 * the directory joined with one entry name, which holds no `'/'` and is never `"."` or `".."`.
 */
module Paths {
  import opened Common

  type Path = string

  const Slash: char := '/'
  const Dot: char := '.'

  /** The position of the last `c` in `s`. */
  function LastIndex(s: string, c: char): (r: Option<nat>)
    ensures r.None? <==> c !in s
    ensures r.Some? ==> r.value < |s| && s[r.value] == c && c !in s[r.value + 1..]
  {
    if s == [] then None
    else if s[|s| - 1] == c then Some(|s| - 1)
    else
      var r := LastIndex(s[..|s| - 1], c);
      assert s == s[..|s| - 1] + [s[|s| - 1]];
      r
  }

  /** The final component of `p`: the text after its last `'/'`. */
  function FileName(p: Path): (name: string)
    ensures Slash !in name
    ensures |name| <= |p| && p[|p| - |name|..] == name
    ensures |name| < |p| ==> p[|p| - |name| - 1] == Slash
  {
    match LastIndex(p, Slash)
    case None => p
    case Some(k) => p[k + 1..]
  }

  /**
   * The extension of a file name: the text after its last `'.'`, when that dot is not the
   * name's first character (so `.sol` has none); the name `".."` has none either.
   */
  function NameExtension(name: string): (r: Option<string>)
    ensures r.Some? ==> Dot !in r.value && |r.value| + 1 < |name|
  {
    if name == ".." then None
    else match LastIndex(name, Dot)
      case None => None
      case Some(k) => if k == 0 then None else Some(name[k + 1..])
  }

  /** `Path::extension`: the extension of the file name of `p`. */
  function Extension(p: Path): (r: Option<string>)
    ensures r.Some? ==> Dot !in r.value && Slash !in r.value
  {
    var name := FileName(p);
    var r := NameExtension(name);
    if r.Some? then
      ExtensionShape(name);
      assert forall i :: 0 <= i < |r.value| ==> r.value[i] == name[|name| - |r.value| + i];
      r
    else r
  }

  /** An extension is the dot-free text after a dot that follows a non-empty stem. */
  lemma ExtensionShape(name: string)
    requires NameExtension(name).Some?
    ensures var e := NameExtension(name).value;
      |e| + 1 < |name| && name[|name| - |e| - 1] == Dot && name[|name| - |e|..] == e && Dot !in e
  {
    var k := LastIndex(name, Dot).value;
    assert NameExtension(name).value == name[k + 1..];
  }

  /** Conversely, a name made of a non-empty stem, a dot and a dot-free tail has that tail as extension. */
  lemma ExtensionOf(stem: string, e: string)
    requires stem != [] && Dot !in e && stem + [Dot] + e != ".."
    ensures NameExtension(stem + [Dot] + e) == Some(e)
  {
    var name := stem + [Dot] + e;
    var k := |stem|;
    assert name[k] == Dot && name[k + 1..] == e;
    LastIndexUnique(name, Dot, k);
  }

  lemma LastIndexUnique(s: string, c: char, k: nat)
    requires k < |s| && s[k] == c && c !in s[k + 1..]
    ensures LastIndex(s, c) == Some(k)
  {
  }

  /** The file name of a directory path joined with a name holding no `'/'` is that name. */
  lemma FileNameAfterSlash(dir: string, name: string)
    requires dir != [] && dir[|dir| - 1] == Slash && Slash !in name
    ensures FileName(dir + name) == name
  {
    var p := dir + name;
    LastIndexUnique(p, Slash, |dir| - 1);
    assert p[|dir|..] == name;
  }

  /** A file name without a dot after its first character has no extension. */
  lemma NoExtension(name: string)
    requires name == [] || Dot !in name[1..]
    ensures NameExtension(name) == None
  {
    if name != ".." && name != [] {
      match LastIndex(name, Dot)
      case None =>
      case Some(k) =>
    }
  }
}
