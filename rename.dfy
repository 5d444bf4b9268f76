/**
 * `_rename_files` of bibtex_to_xlsx.py: the i-th paper file (in the order the
 * caller lists them) is copied into `out_papers/` under the i-th table title,
 * made safe for a file name and cut to 230 characters, keeping the file's
 * extension. Listing and sorting the files and copying them are left to the
 * caller: the model computes the copies to make.
 */
module Rename {
  import opened Text

  /** The characters a file name must not contain, in the order they are replaced. */
  const Forbidden: seq<char> := ['/', '\\', ':', '*', '?', '"', '<', '>', '|']

  /** What each forbidden character becomes. */
  const Replacement: char := '_'

  /** The longest name kept. */
  const MaxNameLength: nat := 230

  /** The directory the copies go to. */
  const OutDir: string := "out_papers/"

  /** One `shutil.copyfile(source, target)`. */
  datatype Copy = Copy(source: string, target: string)

  /** The title after the replacements for the first `k` forbidden characters. */
  function ReplacedUpTo(title: string, k: nat): string
    requires k <= |Forbidden|
  {
    if k == 0 then title else Replace(ReplacedUpTo(title, k - 1), Forbidden[k - 1], Replacement)
  }

  /** The file name made from a title: every replacement, then `[:230]`. */
  function Sanitized(title: string): string
  {
    PySlice(ReplacedUpTo(title, |Forbidden|), 0, MaxNameLength)
  }

  /** `name.split('.')[-1]`: what follows the last dot, or the whole path without one. */
  function Extension(path: string): string
  {
    var parts := Split(path, ".");
    parts[|parts| - 1]
  }

  /** Where the file `source` is copied when its title is `title`. */
  function Target(title: string, source: string): string
  {
    OutDir + Sanitized(title) + "." + Extension(source)
  }

  function Min(a: nat, b: nat): nat
  {
    if a <= b then a else b
  }

  /** The copies made, file i under title i, as far as both lists go. */
  function Copies(names: seq<string>, files: seq<string>): seq<Copy>
  {
    seq(Min(|names|, |files|), i requires 0 <= i < Min(|names|, |files|) =>
      Copy(files[i], Target(names[i], files[i])))
  }

  // ---------------------------------------------------------------------------
  // The file name
  // ---------------------------------------------------------------------------

  /**
   * Replacing one forbidden character after another is replacing them all at
   * once, because the replacement is not itself forbidden.
   */
  lemma {:induction false} ReplacedChars(title: string, k: nat)
    requires k <= |Forbidden|
    ensures |ReplacedUpTo(title, k)| == |title|
    ensures forall i :: 0 <= i < |title| ==>
      ReplacedUpTo(title, k)[i] == (if title[i] in Forbidden[..k] then Replacement else title[i])
  {
    if k > 0 {
      ReplacedChars(title, k - 1);
      assert Forbidden[..k] == Forbidden[..k - 1] + [Forbidden[k - 1]];
    }
  }

  /**
   * The name has `min(230, |title|)` characters; each is the title's own
   * character at that position, or `_` where the title has a forbidden one.
   */
  lemma SanitizedChars(title: string)
    ensures |Sanitized(title)| == Min(MaxNameLength, |title|)
    ensures forall i :: 0 <= i < |Sanitized(title)| ==>
      Sanitized(title)[i] == (if title[i] in Forbidden then Replacement else title[i])
  {
    ReplacedChars(title, |Forbidden|);
    assert Forbidden[..|Forbidden|] == Forbidden;
  }

  /** No forbidden character survives. */
  lemma SanitizedSafe(title: string)
    ensures forall i :: 0 <= i < |Sanitized(title)| ==> Sanitized(title)[i] !in Forbidden
  {
    SanitizedChars(title);
  }

  /** A name already made safe is left as it is. */
  lemma SanitizedIdempotent(title: string)
    ensures Sanitized(Sanitized(title)) == Sanitized(title)
  {
    var s := Sanitized(title);
    SanitizedChars(title);
    SanitizedChars(s);
  }

  /** `new_name` in the loop of `_rename_files`. */
  method SanitizeName(title: string) returns (name: string)
    ensures name == Sanitized(title)
  {
    name := title;
    for k := 0 to |Forbidden|
      invariant name == ReplacedUpTo(title, k)
    {
      name := Replace(name, Forbidden[k], Replacement);
    }
    name := PySlice(name, 0, MaxNameLength);
  }

  // ---------------------------------------------------------------------------
  // The extension
  // ---------------------------------------------------------------------------

  /**
   * The extension holds no dot; when the path has one, the path ends with a
   * dot and the extension, and otherwise the extension is the whole path.
   */
  lemma ExtensionAfterLastDot(path: string)
    ensures '.' !in Extension(path)
    ensures '.' in path ==> exists stem :: path == stem + "." + Extension(path)
    ensures '.' !in path ==> Extension(path) == path
  {
    var parts := Split(path, ".");
    ContainsChar(parts[|parts| - 1], '.');
    if '.' in path {
      SplitCount(path, '.');
      OccZero(path, '.');
      JoinLast(parts, ".");
      var stem := Join(parts[..|parts| - 1], ".");
      assert path == stem + "." + Extension(path);
    } else {
      SplitAbsent(path, '.');
    }
  }

  /** Different names give different targets, whatever the extensions. */
  lemma TargetsApart(name1: string, ext1: string, name2: string, ext2: string)
    requires '.' !in ext1 && '.' !in ext2 && name1 != name2
    ensures OutDir + name1 + "." + ext1 != OutDir + name2 + "." + ext2
  {
    var x, y := OutDir + name1 + "." + ext1, OutDir + name2 + "." + ext2;
    if |x| == |y| {
      if |ext1| < |ext2| {
        assert x[|x| - 1 - |ext1|] == '.';
        assert y[|y| - 1 - |ext1|] == ext2[|ext2| - 1 - |ext1|];
      } else if |ext2| < |ext1| {
        assert y[|y| - 1 - |ext2|] == '.';
        assert x[|x| - 1 - |ext2|] == ext1[|ext1| - 1 - |ext2|];
      } else {
        assert name1 == x[|OutDir|..|x| - 1 - |ext1|];
        assert name2 == y[|OutDir|..|y| - 1 - |ext2|];
      }
    }
  }

  // ---------------------------------------------------------------------------
  // The loop
  // ---------------------------------------------------------------------------

  /**
   * `_rename_files`: pairs file i with title i. Running out of titles raises
   * `IndexError` (`overflow`) after the copies already made.
   */
  method RenameFiles(names: seq<string>, files: seq<string>) returns (copies: seq<Copy>, overflow: bool)
    ensures copies == Copies(names, files)
    ensures overflow <==> |files| > |names|
  {
    copies := [];
    for i := 0 to |files|
      invariant i <= |names|
      invariant copies == Copies(names[..i], files[..i])
    {
      if i >= |names| {
        assert names[..i] == names && files[..i][..|names|] == files[..|names|];
        overflow := true;
        return;
      }
      var name := SanitizeName(names[i]);
      var ext := Extension(files[i]);
      copies := copies + [Copy(files[i], OutDir + name + "." + ext)];
    }
    assert names[..|files|] == names[..Min(|names|, |files|)];
    overflow := false;
  }
}
