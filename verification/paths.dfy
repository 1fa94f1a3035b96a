/**
 The part of Rust's `std::path` that `convert_file` relies on: splitting a
 Windows path into directory, file stem and extension, and
 `PathBuf::with_extension`, which truncates the path right after the file
 stem and appends the new extension.

 Paths are strings; `/` and `\` both separate components, and a leading
 drive such as `C:` is a prefix that is never part of a file name.
 */
module Paths {

  import opened Results

  predicate IsSeparator(c: char) {
    c == '/' || c == '\\'
  }

  predicate IsAsciiLetter(c: char) {
    ('A' <= c <= 'Z') || ('a' <= c <= 'z')
  }

  /** Length of a drive prefix such as `C:` at the start of `p`; 0 when there is none. */
  function PrefixLength(p: string): (n: nat)
    ensures n <= |p|
  {
    if |p| >= 2 && p[1] == ':' && IsAsciiLetter(p[0]) then 2 else 0
  }

  /** End of the last component of `p[..e]`: trailing separators and `.` components that
      follow a separator are skipped, as Rust's component iterator does from the back. */
  function NameEnd(p: string, e: nat): (end: nat)
    requires PrefixLength(p) <= e <= |p|
    ensures PrefixLength(p) <= end <= e
    decreases e
  {
    if e == PrefixLength(p) then e
    else if IsSeparator(p[e - 1]) then NameEnd(p, e - 1)
    else if p[e - 1] == '.' && e - 1 > PrefixLength(p) && IsSeparator(p[e - 2]) then NameEnd(p, e - 1)
    else e
  }

  /** Start of the component that ends at `e`: just after the last separator before `e`,
      or just after the prefix when there is none. */
  function NameStart(p: string, e: nat): (start: nat)
    requires PrefixLength(p) <= e <= |p|
    ensures PrefixLength(p) <= start <= e
    ensures forall j | start <= j < e :: !IsSeparator(p[j])
    ensures start == PrefixLength(p) || IsSeparator(p[start - 1])
    decreases e
  {
    if e == PrefixLength(p) || IsSeparator(p[e - 1]) then e else NameStart(p, e - 1)
  }

  /** Bounds `(start, end)` of the file name (Rust's `Path::file_name`): None when the path
      is empty, or ends in a root, a drive prefix, `.` or `..`. */
  function FileNameBounds(p: string): (b: Option<(nat, nat)>)
    ensures b.Some? ==> PrefixLength(p) <= b.value.0 < b.value.1 <= |p|
  {
    var end := NameEnd(p, |p|);
    var start := NameStart(p, end);
    var name := p[start..end];
    if name == "" || name == "." || name == ".." then None else Some((start, end))
  }

  /** End of the file stem inside the file name `p[start..end]`: the last dot of the name,
      unless the only dot opens the name, in which case the whole name is the stem
      (Rust's `rsplit_file_at_dot`). */
  function StemEnd(p: string, start: nat, end: nat): (k: nat)
    requires start < end <= |p|
    ensures start < k <= end
    ensures k < end ==> p[k] == '.'
    ensures forall j | k < j < end :: p[j] != '.'
    ensures k == end ==> forall j | start < j < end :: p[j] != '.'
  {
    LastInnerDot(p, start, end, end)
  }

  /** The last dot in `p(start..i)`, or `end` when there is none. */
  function LastInnerDot(p: string, start: nat, end: nat, i: nat): (k: nat)
    requires start < i <= end <= |p|
    requires forall j | i <= j < end :: p[j] != '.'
    ensures start < k <= end
    ensures k < end ==> p[k] == '.'
    ensures forall j | k < j < end :: p[j] != '.'
    ensures k == end ==> forall j | start < j < end :: p[j] != '.'
    decreases i
  {
    if i - 1 == start then end
    else if p[i - 1] == '.' then i - 1
    else LastInnerDot(p, start, end, i - 1)
  }

  /** Everything before the file name: the directory with its trailing separator, and any drive prefix. */
  function Directory(p: string): Option<string> {
    match FileNameBounds(p)
    case None => None
    case Some((start, _)) => Some(p[..start])
  }

  /** Rust's `Path::file_stem`. */
  function FileStem(p: string): Option<string> {
    match FileNameBounds(p)
    case None => None
    case Some((start, end)) => Some(p[start..StemEnd(p, start, end)])
  }

  /** Rust's `Path::extension`: the text after the stem's dot, None when the name has no such dot. */
  function Extension(p: string): Option<string> {
    match FileNameBounds(p)
    case None => None
    case Some((start, end)) =>
      var k := StemEnd(p, start, end);
      if k == end then None else Some(p[k + 1..end])
  }

  /** An extension such as `json` or `esp`: not empty, with neither a dot nor a separator. */
  predicate IsPlainExtension(ext: string) {
    && ext != ""
    && forall i | 0 <= i < |ext| :: ext[i] != '.' && !IsSeparator(ext[i])
  }

  /** `PathBuf::with_extension`: a path without a file name is returned unchanged; otherwise the
      path is cut right after the file stem and, unless `ext` is empty, a dot and `ext` are appended. */
  function WithExtension(p: string, ext: string): string {
    match FileNameBounds(p)
    case None => p
    case Some((start, end)) =>
      var k := StemEnd(p, start, end);
      if ext == "" then p[..k] else p[..k] + "." + ext
  }

  /** Replacing the extension by a plain one keeps the directory and the file stem, whatever the old
      extension was, and the new path's extension is `ext`. */
  lemma WithExtensionKeepsName(p: string, ext: string)
    ensures FileNameBounds(p).None? ==> WithExtension(p, ext) == p
    ensures FileNameBounds(p).Some? && IsPlainExtension(ext) ==>
      var r := WithExtension(p, ext);
      && Directory(r) == Directory(p)
      && FileStem(r) == FileStem(p)
      && Extension(r) == Some(ext)
      && r == Directory(p).value + FileStem(p).value + "." + ext
  {
    match FileNameBounds(p)
    case None =>
    case Some((start, end)) =>
      if IsPlainExtension(ext) {
        ReplacedNameBounds(p, start, end, StemEnd(p, start, end), ext);
      }
  }

  /** The component start is determined by its two defining facts: no separator from `s` to `e`,
      and a separator (or the prefix) just before `s`. */
  lemma NameStartIs(p: string, e: nat, s: nat)
    requires PrefixLength(p) <= s <= e <= |p|
    requires forall j | s <= j < e :: !IsSeparator(p[j])
    requires s == PrefixLength(p) || IsSeparator(p[s - 1])
    ensures NameStart(p, e) == s
  {
  }

  /** The stem end is determined by its defining facts: a dot at `k` inside the name and none after it. */
  lemma StemEndIs(p: string, start: nat, end: nat, k: nat)
    requires start < k < end <= |p|
    requires p[k] == '.'
    requires forall j | k < j < end :: p[j] != '.'
    ensures StemEnd(p, start, end) == k
  {
  }

  /** Appending a dot and a plain extension after `p[..k]` does not change the drive prefix. */
  lemma ExtendedPrefix(p: string, k: nat, ext: string)
    requires PrefixLength(p) < k <= |p|
    ensures PrefixLength(p[..k] + "." + ext) == PrefixLength(p)
  {
    var r := p[..k] + "." + ext;
    assert r[..k] == p[..k];
    if k == 1 {
      assert r[1] == '.';
    }
  }

  /** After the extension of the name `p[start..end]` is replaced by a plain `ext`, the last
      component of the new path runs from the same start to the new path's end. */
  lemma ReplacedNameComponent(p: string, start: nat, end: nat, k: nat, ext: string)
    requires FileNameBounds(p) == Some((start, end))
    requires k == StemEnd(p, start, end)
    requires IsPlainExtension(ext)
    ensures var r := p[..k] + "." + ext;
      && PrefixLength(r) == PrefixLength(p)
      && NameEnd(r, |r|) == |r|
      && NameStart(r, |r|) == start
  {
    var r := p[..k] + "." + ext;
    ExtendedPrefix(p, k, ext);
    assert NameEnd(r, |r|) == |r| by {
      assert r[|r| - 1] == ext[|ext| - 1];
    }
    assert NameStart(p, NameEnd(p, |p|)) == start;
    forall j | start <= j < |r|
      ensures !IsSeparator(r[j])
    {
      if j < k {
        assert r[j] == p[j];
      } else if j > k {
        assert r[j] == ext[j - k - 1];
      }
    }
    if start != PrefixLength(p) {
      assert r[start - 1] == p[start - 1];
    }
    NameStartIs(r, |r|, start);
  }

  /** After the extension of the name `p[start..end]` is replaced by a plain `ext`, the new path's
      file name runs from the same start to its end, and its stem ends where the old one did. */
  lemma ReplacedNameBounds(p: string, start: nat, end: nat, k: nat, ext: string)
    requires FileNameBounds(p) == Some((start, end))
    requires k == StemEnd(p, start, end)
    requires IsPlainExtension(ext)
    ensures var r := p[..k] + "." + ext;
      && FileNameBounds(r) == Some((start, |r|))
      && StemEnd(r, start, |r|) == k
      && Directory(r) == Some(p[..start]) == Directory(p)
      && FileStem(r) == Some(p[start..k]) == FileStem(p)
      && Extension(r) == Some(ext)
  {
    var r := p[..k] + "." + ext;
    ReplacedNameComponent(p, start, end, k, ext);
    assert |r[start..|r|]| >= 3;
    assert FileNameBounds(r) == Some((start, |r|));
    forall j | k < j < |r|
      ensures r[j] != '.'
    {
      assert r[j] == ext[j - k - 1];
    }
    StemEndIs(r, start, |r|, k);
    assert r[..start] == p[..start];
    assert r[start..k] == p[start..k];
    assert r[k + 1..|r|] == ext;
  }

  /** Giving a path one plain extension and then another is the same as giving it the second
      directly: converting a plugin to JSON and back writes the plugin's own name. */
  lemma ReplaceTwice(p: string, first: string, second: string)
    requires IsPlainExtension(first) && IsPlainExtension(second)
    ensures WithExtension(WithExtension(p, first), second) == WithExtension(p, second)
  {
    var once := WithExtension(p, first);
    WithExtensionKeepsName(p, first);
    WithExtensionKeepsName(p, second);
    if FileNameBounds(p).Some? {
      WithExtensionKeepsName(once, second);
      assert Directory(once) == Directory(p) && FileStem(once) == FileStem(p);
      assert FileNameBounds(once).Some?;
    }
  }

  /** In `dir + stem + "." + ext`, with `dir` ending in a separator, the file name starts right
      after `dir` and the stem ends at the dot before `ext`. */
  lemma PlainFileBounds(dir: string, stem: string, ext: string)
    requires |dir| > 0 && IsSeparator(dir[|dir| - 1])
    requires stem != "" && forall i | 0 <= i < |stem| :: stem[i] != '.' && !IsSeparator(stem[i])
    requires IsPlainExtension(ext)
    ensures var p := dir + stem + "." + ext;
      && FileNameBounds(p) == Some((|dir|, |p|))
      && StemEnd(p, |dir|, |p|) == |dir| + |stem|
  {
    var p := dir + stem + "." + ext;
    var start, k := |dir|, |dir| + |stem|;
    assert PrefixLength(p) <= start by {
      if |dir| == 1 {
        assert p[0] == dir[0];
      }
    }
    assert NameEnd(p, |p|) == |p| by {
      assert p[|p| - 1] == ext[|ext| - 1];
    }
    forall j | start <= j < |p|
      ensures !IsSeparator(p[j])
    {
      if j < k {
        assert p[j] == stem[j - start];
      } else if j > k {
        assert p[j] == ext[j - k - 1];
      }
    }
    assert p[start - 1] == dir[|dir| - 1];
    NameStartIs(p, |p|, start);
    assert |p[start..|p|]| >= 3;
    forall j | k < j < |p|
      ensures p[j] != '.'
    {
      assert p[j] == ext[j - k - 1];
    }
    StemEndIs(p, start, |p|, k);
  }

  /** A file `stem.before` inside a directory that ends in a separator is renamed to `stem.after`, the
      directory text kept as it is. */
  lemma RenamesPlainFile(dir: string, stem: string, before: string, after: string)
    requires |dir| > 0 && IsSeparator(dir[|dir| - 1])
    requires stem != "" && forall i | 0 <= i < |stem| :: stem[i] != '.' && !IsSeparator(stem[i])
    requires IsPlainExtension(before) && IsPlainExtension(after)
    ensures WithExtension(dir + stem + "." + before, after) == dir + stem + "." + after
  {
    var p := dir + stem + "." + before;
    PlainFileBounds(dir, stem, before);
    assert p[..|dir| + |stem|] == dir + stem;
  }
}
