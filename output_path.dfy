/** `prepare_output_path` of src/main.rs and the parts of Rust's `std::path` it relies on, for
    Unix paths (`/` is the only separator). A path is its text; the final component is what
    `Path::file_name` returns, and its extension is what `Path::extension` returns. */
module OutputPath {
  import opened Text

  // ---------------------------------------------------------------------------
  // Components

  /** The path without the trailing separators and trailing `/.` components that
      `Path::components` skips. */
  function Trimmed(p: string): (t: string)
    ensures |t| <= |p| && t == p[..|t|]
    ensures t == [] || t[|t| - 1] != '/'
    decreases |p|
  {
    if |p| > 0 && p[|p| - 1] == '/' then Trimmed(p[..|p| - 1])
    else if |p| >= 2 && p[|p| - 2] == '/' && p[|p| - 1] == '.' then Trimmed(p[..|p| - 2])
    else p
  }

  /** Where the last component of `t` starts: just after its last `/`, or 0. */
  function ComponentStart(t: string): (i: nat)
    ensures i <= |t|
    ensures i > 0 ==> t[i - 1] == '/'
    ensures forall j :: i <= j < |t| ==> t[j] != '/'
  {
    if t == [] then 0
    else if t[|t| - 1] == '/' then |t|
    else ComponentStart(t[..|t| - 1])
  }

  /** `Path::file_name`: the last component, unless it is empty, `.` or `..`. */
  function FileName(p: string): (r: Option<string>)
    ensures r.Some? ==> r.value != [] && '/' !in r.value
  {
    var t := Trimmed(p);
    var name := t[ComponentStart(t)..];
    if name == [] || name == "." || name == ".." then None else Some(name)
  }

  /** Index of the last `.` in `s`, or -1. */
  function LastDot(s: string): (i: int)
    ensures -1 <= i < |s|
    ensures i >= 0 ==> s[i] == '.'
    ensures forall j :: i < j < |s| ==> s[j] != '.'
  {
    if s == [] then -1
    else if s[|s| - 1] == '.' then |s| - 1
    else LastDot(s[..|s| - 1])
  }

  /** `rsplit_file_at_dot`: the stem and the extension of a file name. A name whose only dot is
      its first character, a name without a dot, and `..` have no extension. */
  function SplitDot(name: string): (r: (string, Option<string>))
    ensures r.1.None? ==> r.0 == name
    ensures r.1.Some? ==> name == r.0 + "." + r.1.value && r.0 != [] && '.' !in r.1.value
  {
    var i := LastDot(name);
    if name == ".." || i <= 0 then (name, None)
    else
      assert name == name[..i] + "." + name[i + 1..];
      (name[..i], Some(name[i + 1..]))
  }

  /** `Path::file_stem`. */
  function FileStem(p: string): Option<string>
  {
    match FileName(p)
    case None => None
    case Some(name) => Some(SplitDot(name).0)
  }

  /** `Path::extension`. */
  function ExtensionOf(p: string): Option<string>
  {
    match FileName(p)
    case None => None
    case Some(name) => SplitDot(name).1
  }

  /** `PathBuf::set_extension`: without a file name nothing changes; otherwise the path is cut
      right after the file stem and `.ext` is appended unless `ext` is empty. */
  function WithExtension(p: string, ext: string): string
  {
    if FileName(p).None? then p
    else if ext == [] then p[..StemEnd(p)]
    else p[..StemEnd(p)] + "." + ext
  }

  /** The index just after the file stem of a path with a file name. */
  function StemEnd(p: string): (i: nat)
    requires FileName(p).Some?
    ensures i <= |Trimmed(p)|
  {
    ComponentStart(Trimmed(p)) + |SplitDot(FileName(p).value).0|
  }

  /** The extension test of `prepare_output_path`: `png` after `to_lowercase`. */
  predicate IsPng(ext: string)
  {
    Lower(ext) == "png"
  }

  /** The rule `prepare_output_path` implements: a path with a file name whose extension is
      not `png` in some case gets `.png` appended to its trimmed text; any other path is kept. */
  function Prepared(p: string): string
  {
    if FileName(p).Some? && !(ExtensionOf(p).Some? && IsPng(ExtensionOf(p).value))
    then Trimmed(p) + ".png"
    else p
  }

  // ---------------------------------------------------------------------------
  // PathBuf and prepare_output_path

  /** Rust's `PathBuf`: an owned, mutable path. */
  class PathBuf {
    var inner: string

    constructor (s: string)
      ensures inner == s
    {
      inner := s;
    }

    function Extension(): Option<string>
      reads this
    {
      ExtensionOf(inner)
    }

    /** `set_extension`; the result says whether the path had a file name to change. */
    method SetExtension(ext: string) returns (changed: bool)
      modifies this
      ensures changed == FileName(old(inner)).Some?
      ensures inner == WithExtension(old(inner), ext)
    {
      if FileName(inner).None? {
        return false;
      }
      // truncate right after the file stem, then add the new extension, if any
      inner := inner[..StemEnd(inner)];
      if ext != [] {
        inner := inner + "." + ext;
      }
      return true;
    }
  }

  /** `prepare_output_path`: clone the path; without an extension set it to `png`; with an
      extension `e` other than `png` in some case set it to `e.png`. */
  method PrepareOutputPath(path: string) returns (result: string)
    ensures result == Prepared(path)
  {
    var p := new PathBuf(path);
    var e := p.Extension();
    if e.None? {
      var _ := p.SetExtension("png");
      NoExtension(path);
    } else if Lower(e.value) != "png" {
      var _ := p.SetExtension(e.value + ".png");
      OtherExtension(path);
    }
    result := p.inner;
  }

  // ---------------------------------------------------------------------------
  // Properties

  /** A slash-free suffix stays inside the last component. */
  lemma {:induction false} ComponentStartAppend(t: string, s: string)
    requires '/' !in s
    ensures ComponentStart(t + s) == ComponentStart(t)
    decreases |s|
  {
    if s == [] {
      assert t + s == t;
    } else {
      var u := t + s;
      assert u[..|u| - 1] == t + s[..|s| - 1];
      assert u[|u| - 1] == s[|s| - 1];
      ComponentStartAppend(t, s[..|s| - 1]);
    }
  }

  /** A path ending in neither `/` nor `.` has nothing to trim. */
  lemma Untrimmed(q: string)
    requires q != [] && q[|q| - 1] != '/' && q[|q| - 1] != '.'
    ensures Trimmed(q) == q
  {
  }

  /** A dot-free suffix after a `.` makes that `.` the last one. */
  lemma {:induction false} LastDotAppend(a: string, b: string)
    requires '.' !in b
    ensures LastDot(a + "." + b) == |a|
    decreases |b|
  {
    var u := a + "." + b;
    if b == [] {
      assert u[|u| - 1] == '.';
    } else {
      assert u[..|u| - 1] == a + "." + b[..|b| - 1];
      assert u[|u| - 1] == b[|b| - 1];
      LastDotAppend(a, b[..|b| - 1]);
    }
  }

  /** A non-empty component that ends in neither `/` nor `.`, after a directory part, is the
      file name. */
  lemma NameAfter(dir: string, x: string)
    requires dir == [] || dir[|dir| - 1] == '/'
    requires '/' !in x && x != [] && x[|x| - 1] != '.'
    ensures FileName(dir + x) == Some(x)
  {
    var q := dir + x;
    assert q[|q| - 1] == x[|x| - 1];
    Untrimmed(q);
    assert ComponentStart(q) == |dir| by {
      ComponentStartAppend(dir, x);
      assert ComponentStart(dir) == |dir|;
    }
    assert q[|dir|..] == x;
    LastNotDot(x);
  }

  /** A text whose last character is not `.` is neither `.` nor `..`. */
  lemma LastNotDot(x: string)
    requires x != [] && x[|x| - 1] != '.'
    ensures x != "." && x != ".."
  {
  }

  /** A name `stem.ext` with a non-empty stem and a non-empty, dot-free `ext` splits at that dot. */
  lemma SplitAtDot(stem: string, ext: string)
    requires stem != [] && ext != [] && '.' !in ext
    ensures SplitDot(stem + "." + ext) == (stem, Some(ext))
  {
    var x := stem + "." + ext;
    LastDotAppend(stem, ext);
    assert x[..|stem|] == stem;
    assert x[|stem| + 1..] == ext;
  }

  /** The trimmed path is its directory part followed by its file name. */
  lemma DirectoryAndName(p: string)
    requires FileName(p).Some?
    ensures var t := Trimmed(p); t == t[..ComponentStart(t)] + FileName(p).value
  {
    var t := Trimmed(p);
    assert t == t[..ComponentStart(t)] + t[ComponentStart(t)..];
  }

  /** The stem is a prefix of the name. */
  lemma StemIsPrefix(name: string)
    ensures |SplitDot(name).0| <= |name| && name[..|SplitDot(name).0|] == SplitDot(name).0
  {
  }

  lemma PrefixOfConcat(t: string, d: nat, name: string, stem: string)
    requires d <= |t| && t == t[..d] + name && |stem| <= |name| && stem == name[..|stem|]
    ensures d + |stem| <= |t| && t[..d + |stem|] == t[..d] + stem
  {
    assert t[..d + |stem|] == t[..d] + t[d..d + |stem|];
  }

  /** The trimmed path up to the end of the stem is its directory part followed by the stem. */
  lemma UpToStem(p: string)
    requires FileName(p).Some?
    ensures var t := Trimmed(p);
      StemEnd(p) <= |t| && t[..StemEnd(p)] == t[..ComponentStart(t)] + SplitDot(FileName(p).value).0
  {
    var t := Trimmed(p);
    var name := FileName(p).value;
    DirectoryAndName(p);
    StemIsPrefix(name);
    PrefixOfConcat(t, ComponentStart(t), name, SplitDot(name).0);
  }

  lemma Reassemble(t: string, dir: string, stem: string, e: string, k: nat)
    requires t == dir + (stem + "." + e) && k == |dir| + |stem| && k <= |t| && t[..k] == dir + stem
    ensures t == t[..k] + "." + e
  {
    Assoc(dir, stem, "." + e);
    Assoc(dir + stem, ".", e);
  }

  /** The stem of a name with an extension ends where its last component's `.` is. */
  lemma StemOfExtension(p: string)
    requires ExtensionOf(p).Some?
    ensures Trimmed(p) == Trimmed(p)[..StemEnd(p)] + "." + ExtensionOf(p).value
  {
    var t := Trimmed(p);
    var name := FileName(p).value;
    DirectoryAndName(p);
    UpToStem(p);
    Reassemble(t, t[..ComponentStart(t)], SplitDot(name).0, ExtensionOf(p).value, StemEnd(p));
  }

  /** `set_extension("png")` on a path without an extension appends `.png` to its trimmed text. */
  lemma NoExtension(p: string)
    requires ExtensionOf(p).None?
    ensures WithExtension(p, "png") == Prepared(p)
  {
    if FileName(p).Some? {
      PngAppended(p);
    }
  }

  lemma PngAppended(p: string)
    requires FileName(p).Some? && ExtensionOf(p).None?
    ensures WithExtension(p, "png") == Trimmed(p) + ".png"
  {
    StemEndWithoutExtension(p);
    DotPng(p[..StemEnd(p)]);
  }

  lemma DotPng(t: string)
    ensures t + "." + "png" == t + ".png"
  {
    assert "." + "png" == ".png";
  }

  /** Without an extension the stem is the whole file name. */
  lemma StemEndWithoutExtension(p: string)
    requires FileName(p).Some? && ExtensionOf(p).None?
    ensures StemEnd(p) == |Trimmed(p)| && p[..StemEnd(p)] == Trimmed(p)
  {
    DirectoryAndName(p);
  }

  /** `set_extension(e + ".png")` on a path with an extension `e` other than `png` appends `.png`
      to its trimmed text. */
  lemma OtherExtension(p: string)
    requires ExtensionOf(p).Some? && !IsPng(ExtensionOf(p).value)
    ensures WithExtension(p, ExtensionOf(p).value + ".png") == Prepared(p)
  {
    var t := Trimmed(p);
    var e := ExtensionOf(p).value;
    assert WithExtension(p, e + ".png") == t + ".png" by {
      var a := t[..StemEnd(p)];
      StemOfExtension(p);
      PathPrefix(p, StemEnd(p));
      Assoc(a + ".", e, ".png");
    }
  }

  lemma PngIsPng()
    ensures IsPng("png")
  {
    LowerOfLower("png");
  }

  /** After appending `.e` for a plain `e`, the old file name is the stem and `e` the extension. */
  lemma AppendExtension(p: string, e: string, suffix: string)
    requires FileName(p).Some? && e != [] && '.' !in e && '/' !in e && suffix == "." + e
    ensures FileName(Trimmed(p) + suffix) == Some(FileName(p).value + suffix)
    ensures FileStem(Trimmed(p) + suffix) == FileName(p)
    ensures ExtensionOf(Trimmed(p) + suffix) == Some(e)
  {
    var t := Trimmed(p);
    var dir := t[..ComponentStart(t)];
    var name := FileName(p).value;
    assert t + suffix == dir + (name + "." + e) by {
      DirectoryAndName(p);
      Assoc(dir, name, "." + e);
      Assoc(name, ".", e);
    }
    assert name + suffix == name + "." + e by {
      Assoc(name, ".", e);
    }
    Directory(p);
    NamedWithExtension(dir, name, e);
  }

  /** The directory part of a path is empty or ends with `/`. */
  lemma Directory(p: string)
    ensures var t := Trimmed(p); var dir := t[..ComponentStart(t)];
      dir == [] || dir[|dir| - 1] == '/'
  {
  }

  /** After appending `.png`, the old file name is the stem and `png` the extension. */
  lemma AppendPng(p: string)
    requires FileName(p).Some?
    ensures FileName(Trimmed(p) + ".png") == Some(FileName(p).value + ".png")
    ensures FileStem(Trimmed(p) + ".png") == FileName(p)
    ensures ExtensionOf(Trimmed(p) + ".png") == Some("png")
  {
    AppendExtension(p, "png", ".png");
  }

  /** `prepare_output_path` as the source writes it: no extension, an extension equal to `png`
      ignoring case, or another extension `e` that becomes `e.png`. */
  lemma PreparedCases(p: string)
    ensures ExtensionOf(p).None? ==> Prepared(p) == WithExtension(p, "png")
    ensures ExtensionOf(p).Some? && IsPng(ExtensionOf(p).value) ==> Prepared(p) == p
    ensures ExtensionOf(p).Some? && !IsPng(ExtensionOf(p).value)
        ==> Prepared(p) == WithExtension(p, ExtensionOf(p).value + ".png")
  {
    if ExtensionOf(p).None? {
      NoExtension(p);
    } else if !IsPng(ExtensionOf(p).value) {
      OtherExtension(p);
    }
  }

  /** A prepared path has the extension `png` exactly when the path has a file name; without one
      the path is returned unchanged. */
  lemma PreparedIsPng(p: string)
    ensures FileName(p).Some? <==> ExtensionOf(Prepared(p)).Some? && IsPng(ExtensionOf(Prepared(p)).value)
    ensures FileName(p).None? ==> Prepared(p) == p
  {
    if FileName(p).Some? && Prepared(p) != p {
      AppendPng(p);
      PngIsPng();
    }
  }

  /** Preparing a prepared path changes nothing. */
  lemma PreparedIdempotent(p: string)
    ensures Prepared(Prepared(p)) == Prepared(p)
  {
    PreparedIsPng(p);
  }

  /** Only the final extension changes: the result is the path itself, or its trimmed text with
      `.png` appended, whose stem is the old file name; the directory part is kept either way. */
  lemma PreparedKeepsName(p: string)
    ensures Prepared(p) == p || (Prepared(p) == Trimmed(p) + ".png" && FileStem(Prepared(p)) == FileName(p))
    ensures var d := ComponentStart(Trimmed(p)); d <= |Prepared(p)| && Prepared(p)[..d] == p[..d]
  {
    if Prepared(p) != p {
      var t := Trimmed(p);
      assert Prepared(p) == t + ".png";
      AppendPng(p);
      KeepsPrefix(p, t + ".png", ComponentStart(t));
    }
  }

  lemma KeepsPrefix(p: string, q: string, d: nat)
    requires d <= |Trimmed(p)| <= |q| && q[..|Trimmed(p)|] == Trimmed(p)
    ensures d <= |q| && q[..d] == p[..d]
  {
    var t := Trimmed(p);
    assert q[..d] == q[..|t|][..d];
    assert p[..d] == p[..|t|][..d];
  }

  /** `set_extension` with a plain extension: it becomes the extension and the stem is kept. */
  lemma SetExtensionRoundTrip(p: string, ext: string)
    requires FileName(p).Some? && ext != [] && '.' !in ext && '/' !in ext
    ensures ExtensionOf(WithExtension(p, ext)) == Some(ext)
    ensures FileStem(WithExtension(p, ext)) == FileStem(p)
  {
    var t := Trimmed(p);
    WithExtensionShape(p, ext);
    StemShape(p);
    Directory(p);
    NamedWithExtension(t[..ComponentStart(t)], FileStem(p).value, ext);
  }

  /** The stem of a file name is a non-empty run of non-separators. */
  lemma StemShape(p: string)
    requires FileName(p).Some?
    ensures FileStem(p).value != [] && '/' !in FileStem(p).value
  {
    var name := FileName(p).value;
    var stem := SplitDot(name).0;
    StemIsPrefix(name);
    forall i | 0 <= i < |stem| ensures stem[i] != '/' {
      assert stem[i] == name[i];
    }
  }

  /** `stem.ext` after a directory part: `stem` is the file stem and `ext` the extension. */
  lemma NamedWithExtension(dir: string, stem: string, ext: string)
    requires dir == [] || dir[|dir| - 1] == '/'
    requires stem != [] && '/' !in stem
    requires ext != [] && '.' !in ext && '/' !in ext
    ensures FileName(dir + (stem + "." + ext)) == Some(stem + "." + ext)
    ensures ExtensionOf(dir + (stem + "." + ext)) == Some(ext)
    ensures FileStem(dir + (stem + "." + ext)) == Some(stem)
  {
    var x := stem + "." + ext;
    assert x[|x| - 1] == ext[|ext| - 1];
    NameAfter(dir, x);
    SplitAtDot(stem, ext);
  }

  /** `set_extension(ext)` leaves the directory part and the stem, then `.ext`. */
  lemma WithExtensionShape(p: string, ext: string)
    requires FileName(p).Some? && ext != []
    ensures var t := Trimmed(p);
      WithExtension(p, ext) == t[..ComponentStart(t)] + (FileStem(p).value + "." + ext)
  {
    var t := Trimmed(p);
    var dir := t[..ComponentStart(t)];
    var stem := FileStem(p).value;
    assert p[..StemEnd(p)] == dir + stem by {
      UpToStem(p);
      PathPrefix(p, StemEnd(p));
    }
    Regroup(dir, stem, ext);
  }

  /** Up to its trimmed length, a path and its trimmed text agree. */
  lemma PathPrefix(p: string, k: nat)
    requires k <= |Trimmed(p)|
    ensures p[..k] == Trimmed(p)[..k]
  {
  }

  lemma Regroup(dir: string, stem: string, ext: string)
    ensures dir + stem + "." + ext == dir + (stem + "." + ext)
  {
  }

  /** A bare file name `stem.e`: kept when `e` is `png` in some case, otherwise `.png` is
      appended (`a.jpg` becomes `a.jpg.png`). */
  lemma PreparedStemAndExtension(stem: string, e: string)
    requires stem != [] && '/' !in stem && '.' !in stem
    requires e != [] && '/' !in e && '.' !in e
    ensures Prepared(stem + "." + e) == if IsPng(e) then stem + "." + e else stem + "." + e + ".png"
  {
    BareName(stem, e);
  }

  lemma BareName(stem: string, e: string)
    requires stem != [] && '/' !in stem && '.' !in stem
    requires e != [] && '/' !in e && '.' !in e
    ensures var x := stem + "." + e;
      Trimmed(x) == x && FileName(x) == Some(x) && ExtensionOf(x) == Some(e)
  {
    var x := stem + "." + e;
    assert x[|x| - 1] == e[|e| - 1];
    assert forall i :: 0 <= i < |x| ==> x[i] != '/';
    assert [] + x == x;
    NameAfter([], x);
    SplitAtDot(stem, e);
  }

  /** A name whose only dot is the leading one has no extension: `.bashrc` becomes
      `.bashrc.png`. */
  lemma PreparedDotFile(name: string)
    requires name != [] && '/' !in name && '.' !in name
    ensures Prepared("." + name) == "." + name + ".png"
  {
    var x := "." + name;
    assert FileName(x).Some? && ExtensionOf(x).None? && Trimmed(x) == x by {
      DotFileName(name);
    }
  }

  lemma DotFileName(name: string)
    requires name != [] && '/' !in name && '.' !in name
    ensures Trimmed("." + name) == "." + name
    ensures FileName("." + name) == Some("." + name) && ExtensionOf("." + name).None?
  {
    DotNameIsFileName(name);
    DotNameLastDot(name);
    LeadingDotOnly("." + name);
  }

  lemma DotNameIsFileName(name: string)
    requires name != [] && '/' !in name && '.' !in name
    ensures Trimmed("." + name) == "." + name && FileName("." + name) == Some("." + name)
  {
    var x := "." + name;
    assert x[|x| - 1] == name[|name| - 1];
    assert [] + x == x;
    NameAfter([], x);
    Untrimmed(x);
  }

  lemma DotNameLastDot(name: string)
    requires '.' !in name
    ensures LastDot("." + name) == 0
  {
    assert [] + "." + name == "." + name;
    LastDotAppend([], name);
  }

  /** A file name whose last dot is its first character has no extension. */
  lemma LeadingDotOnly(x: string)
    requires FileName(x) == Some(x) && LastDot(x) == 0
    ensures ExtensionOf(x).None?
  {
  }

  /** A trailing separator is dropped before the extension is added (`dir/` becomes `dir.png`);
      otherwise it changes nothing. */
  lemma PreparedTrailingSeparator(p: string)
    ensures Prepared(p + "/") == if Prepared(p) == p then p + "/" else Prepared(p)
  {
    var q := p + "/";
    assert q[..|q| - 1] == p;
    assert Trimmed(q) == Trimmed(p);
  }
}
