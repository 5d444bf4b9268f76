/**
 * `standard_author_name` of bibtex_to_xlsx.py: every entry's `author` field
 * is cut at each occurrence of the substring `and`, each piece is stripped,
 * a piece with a comma is read as `Last, First` and turned into `First Last`,
 * and the pieces are joined again with `", "`.
 */
module Authors {
  import opened Wrappers
  import opened Text
  import opened Bibliography

  /** What `split` cuts the field at: the bare substring, not a whole word. */
  const AndSep: string := "and"

  /** What the rewritten names are joined with. */
  const NameSep: string := ", "

  /** `bib['author']` on an entry without it raises `KeyError`. */
  datatype AuthorError = MissingAuthor(key: string)

  // ---------------------------------------------------------------------------
  // One field
  // ---------------------------------------------------------------------------

  /**
   * One piece of the field: stripped, and if it holds a comma, the text after
   * the first comma (up to the next one) put before the text ahead of it.
   */
  function RewriteName(piece: string): (r: string)
    ensures ',' !in r
    ensures ',' !in Strip(piece) ==> r == Strip(piece)
  {
    var author := Strip(piece);
    if ',' in author then
      var parts := Split(author, ",");
      CommaPieces(author);
      Strip(parts[1]) + " " + Strip(parts[0])
    else author
  }

  /** Splitting at a comma that occurs gives at least two comma-free parts. */
  lemma CommaPieces(s: string)
    requires ',' in s
    ensures |Split(s, ",")| >= 2
    ensures forall i :: 0 <= i < |Split(s, ",")| ==> ',' !in Split(s, ",")[i]
  {
    SplitCount(s, ',');
    OccZero(s, ',');
    var parts := Split(s, ",");
    forall i | 0 <= i < |parts|
      ensures ',' !in parts[i]
    {
      ContainsChar(parts[i], ',');
    }
  }

  /** Every piece rewritten, in order. */
  function RewriteAll(pieces: seq<string>): (r: seq<string>)
    ensures |r| == |pieces|
    ensures forall i :: 0 <= i < |r| ==> r[i] == RewriteName(pieces[i])
  {
    seq(|pieces|, i requires 0 <= i < |pieces| => RewriteName(pieces[i]))
  }

  /** The normalised author field. */
  function NormalizedAuthors(field: string): (r: string)
  {
    Join(RewriteAll(Split(field, AndSep)), NameSep)
  }

  /** The rewritten names, each followed by `", "` (`new_authors` after the loop). */
  function Terminated(names: seq<string>): (r: string)
    ensures |r| >= 2 * |names|
  {
    if names == [] then [] else Terminated(names[..|names| - 1]) + names[|names| - 1] + NameSep
  }

  /** `new_authors[:-2]` drops exactly the last separator. */
  lemma {:induction false} TerminatedJoin(names: seq<string>)
    requires names != []
    ensures Terminated(names) == Join(names, NameSep) + NameSep
    decreases |names|
  {
    if |names| >= 2 {
      TerminatedJoin(names[..|names| - 1]);
      JoinLast(names, NameSep);
    }
  }

  /** The loop body of `standard_author_name` for one piece. */
  method RewritePiece(piece: string) returns (author: string)
    ensures author == RewriteName(piece)
  {
    author := Strip(piece);
    if ',' in author {
      var parts := Split(author, ",");
      CommaPieces(author);
      author := Strip(parts[1]) + " " + Strip(parts[0]);
    }
  }

  /** The loop of `standard_author_name` over the pieces of one field. */
  method NormalizeField(field: string) returns (r: string)
    ensures r == NormalizedAuthors(field)
  {
    var authors := Split(field, AndSep);
    var newAuthors: string := [];
    var k := 0;
    while k < |authors|
      invariant 0 <= k <= |authors|
      invariant newAuthors == Terminated(RewriteAll(authors[..k]))
    {
      var author := RewritePiece(authors[k]);
      TerminatedStep(authors, k);
      newAuthors := newAuthors + author + NameSep;
      k := k + 1;
    }
    assert authors[..k] == authors;
    DropLastSep(RewriteAll(authors));
    newAuthors := PySlice(newAuthors, 0, -2);
    return newAuthors;
  }

  /** One more piece adds its rewritten name and a separator. */
  lemma TerminatedStep(pieces: seq<string>, k: nat)
    requires k < |pieces|
    ensures Terminated(RewriteAll(pieces[..k + 1])) ==
      Terminated(RewriteAll(pieces[..k])) + RewriteName(pieces[k]) + NameSep
  {
    var names := RewriteAll(pieces[..k + 1]);
    assert names[..k] == RewriteAll(pieces[..k]);
  }

  /** `new_authors[:-2]` on the terminated names is their join. */
  lemma DropLastSep(names: seq<string>)
    requires names != []
    ensures PySlice(Terminated(names), 0, -2) == Join(names, NameSep)
  {
    TerminatedJoin(names);
    var t := Terminated(names);
    assert t[..|t| - 2] == Join(names, NameSep);
  }

  // ---------------------------------------------------------------------------
  // Properties of one field
  // ---------------------------------------------------------------------------

  /**
   * Occurrences of a character in a join with a separator that holds it
   * once: one per separator, plus those of the parts.
   */
  lemma {:induction false} JoinOcc(parts: seq<string>, sep: string, c: char)
    requires parts != [] && Occ(sep, c) == 1
    ensures Occ(Join(parts, sep), c) == |parts| - 1 + SumOcc(parts, c)
    decreases |parts|
  {
    if |parts| >= 2 {
      JoinOcc(parts[1..], sep, c);
      assert Join(parts, sep) == parts[0] + sep + Join(parts[1..], sep);
      OccAppend(parts[0] + sep, Join(parts[1..], sep), c);
      OccAppend(parts[0], sep, c);
    }
  }

  /** The occurrences of `c` over all the parts. */
  function SumOcc(parts: seq<string>, c: char): (n: nat)
    ensures (forall i :: 0 <= i < |parts| ==> c !in parts[i]) ==> n == 0
  {
    if parts == [] then 0 else (OccZero(parts[0], c); Occ(parts[0], c) + SumOcc(parts[1..], c))
  }

  /**
   * The rewritten names hold no comma, so the commas of the result are
   * exactly the separators: one fewer than the pieces of the field.
   */
  lemma CommaCount(field: string)
    ensures Occ(NormalizedAuthors(field), ',') == |Split(field, AndSep)| - 1
  {
    var names := RewriteAll(Split(field, AndSep));
    OneCommaInSep();
    JoinOcc(names, NameSep, ',');
  }

  lemma OneCommaInSep()
    ensures Occ(NameSep, ',') == 1
  {
    assert NameSep == [','] + [' '];
    assert NameSep[1..] == [' '] && [' '][1..] == [];
  }

  /**
   * A field without `and` is one author: `Last, First` (each part stripped
   * already and free of commas) becomes `First Last`.
   */
  lemma LastFirst(last: string, first: string)
    requires last != [] && !IsSpace(last[0]) && !IsSpace(last[|last| - 1]) && ',' !in last
    requires first != [] && !IsSpace(first[0]) && !IsSpace(first[|first| - 1]) && ',' !in first
    requires !Contains(last + ", " + first, AndSep)
    ensures NormalizedAuthors(last + ", " + first) == first + " " + last
  {
    var field := last + ", " + first;
    NoSepSplit(field, AndSep);
    SwapParts(last, first);
    assert RewriteAll([field]) == [RewriteName(field)];
  }

  /**
   * Two authors joined by `and` come out rewritten one by one, in order,
   * separated by `", "`, as long as no other `and` occurs in the field.
   */
  lemma TwoAuthors(a: string, b: string)
    requires !Contains(a + "an", AndSep) && !Contains(b, AndSep)
    ensures NormalizedAuthors(a + AndSep + b) == RewriteName(a) + NameSep + RewriteName(b)
  {
    assert AndSep[..|AndSep| - 1] == "an";
    SplitOnce(a, AndSep, b);
    JoinTwo(RewriteAll([a, b]), NameSep);
  }

  /** The single author `"Doe, Jane"` is rewritten to `"Jane Doe"`. */
  lemma DoeJane()
    ensures NormalizedAuthors("Doe" + NameSep + "Jane") == "Jane" + " " + "Doe"
  {
    MissingCharNoContains("Doe" + NameSep + "Jane", AndSep, 'd');
    LastFirst("Doe", "Jane");
  }

  /**
   * Two names written `First Last`, joined by `" and "`, come out joined by
   * `", "` instead.
   */
  lemma TwoPlainAuthors(a: string, b: string)
    requires a != [] && !IsSpace(a[0]) && !IsSpace(a[|a| - 1]) && ',' !in a
    requires b != [] && !IsSpace(b[0]) && !IsSpace(b[|b| - 1]) && ',' !in b
    requires !Contains(a + " an", AndSep) && !Contains(" " + b, AndSep)
    ensures NormalizedAuthors(a + " " + AndSep + " " + b) == a + NameSep + b
  {
    assert a + " " + "an" == a + " an";
    assert a + " " + AndSep + " " + b == (a + " ") + AndSep + (" " + b);
    TwoAuthors(a + " ", " " + b);
    SpaceAfterName(a);
    SpaceBeforeName(b);
  }

  /** A space after a comma-free name does not survive the rewrite. */
  lemma SpaceAfterName(name: string)
    requires name != [] && !IsSpace(name[0]) && !IsSpace(name[|name| - 1]) && ',' !in name
    ensures RewriteName(name + " ") == name
  {
    StripTrailing(name, " ");
  }

  /** A space before a comma-free name does not survive the rewrite. */
  lemma SpaceBeforeName(name: string)
    requires name != [] && !IsSpace(name[0]) && !IsSpace(name[|name| - 1]) && ',' !in name
    ensures RewriteName(" " + name) == name
  {
    StripLeading(" ", name);
  }

  /**
   * Normalising twice is not normalising once: `"A and B"` becomes
   * `"A, B"`, which a second pass reads as one author written last-first.
   */
  lemma NotIdempotent()
    ensures NormalizedAuthors("A" + " " + AndSep + " " + "B") == "A" + NameSep + "B"
    ensures NormalizedAuthors("A" + NameSep + "B") == "B" + " " + "A"
  {
    MissingCharNoContains("A" + " an", AndSep, 'd');
    MissingCharNoContains(" " + "B", AndSep, 'd');
    TwoPlainAuthors("A", "B");
    MissingCharNoContains("A" + NameSep + "B", AndSep, 'd');
    LastFirst("A", "B");
  }

  /** `Last, First` is rewritten to `First Last`. */
  lemma SwapParts(last: string, first: string)
    requires last != [] && !IsSpace(last[0]) && !IsSpace(last[|last| - 1]) && ',' !in last
    requires first != [] && !IsSpace(first[0]) && !IsSpace(first[|first| - 1]) && ',' !in first
    ensures RewriteName(last + ", " + first) == first + " " + last
  {
    var field := last + ", " + first;
    assert field[0] == last[0] && field[|field| - 1] == first[|first| - 1];
    StripStripped(field);
    assert field[|last|] == ',';
    CommaParts(last, first);
    StripStripped(last);
    StripPadded(" ", first, []);
    assert " " + first + [] == " " + first;
  }

  /** `Last, First` splits at its comma into `Last` and ` First`. */
  lemma CommaParts(last: string, first: string)
    requires ',' !in last && ',' !in first
    ensures Split(last + ", " + first, ",") == [last, " " + first]
  {
    assert last + ", " + first == last + [','] + (" " + first);
    SplitAtFirst(last, ',', " " + first);
    SplitAbsent(" " + first, ',');
  }

  /**
   * A single author already written `First Last` (no comma, no `and`) is
   * only stripped, so normalising it twice changes nothing more.
   */
  lemma PlainNameStable(field: string)
    requires ',' !in field && !Contains(field, AndSep)
    ensures NormalizedAuthors(field) == Strip(field)
    ensures NormalizedAuthors(NormalizedAuthors(field)) == NormalizedAuthors(field)
  {
    NoSepSplit(field, AndSep);
    var s := Strip(field);
    if s != [] {
      StripStripped(s);
    }
    StripKeepsFree(field, AndSep);
    NoSepSplit(s, AndSep);
  }
  /** A single `last, first` field is stable: a second pass leaves `first last` as it is. */
  lemma LastFirstStable(last: string, first: string)
    requires last != [] && !IsSpace(last[0]) && !IsSpace(last[|last| - 1]) && ',' !in last
    requires first != [] && !IsSpace(first[0]) && !IsSpace(first[|first| - 1]) && ',' !in first
    requires !Contains(last + ", " + first, AndSep) && !Contains(first + " " + last, AndSep)
    ensures NormalizedAuthors(NormalizedAuthors(last + ", " + first)) == NormalizedAuthors(last + ", " + first)
  {
    LastFirst(last, first);
    var swapped := first + " " + last;
    StripStripped(swapped);
    PlainNameStable(swapped);
  }


  /** Stripping cannot create an occurrence of a separator. */
  lemma StripKeepsFree(s: string, sep: string)
    requires sep != [] && !Contains(s, sep)
    ensures !Contains(Strip(s), sep)
  {
    var b := StripIsSlice(s);
    SliceFree(s, Strip(s), b, b + |Strip(s)|, sep);
  }

  /** Any string equal to a slice of a `sep`-free string is `sep`-free. */
  lemma SliceFree(s: string, t: string, i: nat, j: nat, sep: string)
    requires i <= j <= |s| && t == s[i..j] && sep != [] && !Contains(s, sep)
    ensures !Contains(t, sep)
  {
    InfixFree(s, i, j, sep);
  }

  /** A slice of a string free of `sep` is free of `sep`. */
  lemma {:induction false} InfixFree(s: string, i: nat, j: nat, sep: string)
    requires i <= j <= |s| && sep != [] && !Contains(s, sep)
    ensures !Contains(s[i..j], sep)
    decreases |s|
  {
    if i > 0 {
      InfixFree(s[1..], i - 1, j - 1, sep);
      assert s[1..][i - 1..j - 1] == s[i..j];
    } else {
      PrefixFree(s, j, sep);
    }
  }

  lemma {:induction false} PrefixFree(s: string, j: nat, sep: string)
    requires j <= |s| && sep != [] && !Contains(s, sep)
    ensures !Contains(s[..j], sep)
    decreases j
  {
    if |sep| <= j {
      assert s[..j][..|sep|] == s[..|sep|];
      PrefixFree(s[1..], j - 1, sep);
      assert s[..j][1..] == s[1..][..j - 1];
    }
  }

  // ---------------------------------------------------------------------------
  // The whole bibliography
  // ---------------------------------------------------------------------------

  /**
   * The loop of `standard_author_name` over the entries with keys `ks`, in
   * order: each entry's `author` is replaced by its normal form; an entry
   * without one stops the run.
   */
  function NormalizeKeys(b: Bib, ks: seq<string>): (r: Result<Bib, AuthorError>)
    requires b.Valid() && forall k :: k in ks ==> k in b.entries
    ensures r.Ok? ==> r.value.Valid() && r.value.keys == b.keys && r.value.entries.Keys == b.entries.Keys
    decreases |ks|
  {
    if ks == [] then Ok(b)
    else
      var e := b.entries[ks[0]];
      if AuthorKey !in e then Err(MissingAuthor(ks[0]))
      else NormalizeKeys(b.SetField(ks[0], AuthorKey, NormalizedAuthors(e[AuthorKey])), ks[1..])
  }

  /** `standard_author_name(bibs)`, over the entries in iteration order. */
  function StandardAuthorNames(b: Bib): (r: Result<Bib, AuthorError>)
    requires b.Valid()
  {
    NormalizeKeys(b, b.keys)
  }

  /** An entry with its author field in normal form. */
  function Normalized(e: Entry): Entry
    requires AuthorKey in e
  {
    e[AuthorKey := NormalizedAuthors(e[AuthorKey])]
  }

  /**
   * Visiting keys succeeds exactly when each of their entries has an author;
   * otherwise the error names a visited key whose entry has no author.
   */
  lemma {:induction false} NormalizeKeysOutcome(b: Bib, ks: seq<string>)
    requires b.Valid() && forall k :: k in ks ==> k in b.entries
    ensures NormalizeKeys(b, ks).Ok? <==> forall k :: k in ks ==> AuthorKey in b.entries[k]
    ensures NormalizeKeys(b, ks).Err? ==>
      var key := NormalizeKeys(b, ks).error.key;
      key in ks && AuthorKey !in b.entries[key]
    decreases |ks|
  {
    if ks != [] {
      var k0 := ks[0];
      var e := b.entries[k0];
      if AuthorKey in e {
        var next := b.SetField(k0, AuthorKey, NormalizedAuthors(e[AuthorKey]));
        TailIn(ks);
        NormalizeKeysOutcome(next, ks[1..]);
      }
    }
  }

  /** The rest of a key list holds only keys of the list. */
  lemma TailIn(ks: seq<string>)
    requires ks != []
    ensures forall k :: k in ks[1..] ==> k in ks
  {
  }

  /** Keys listed once each. */
  predicate Distinct(ks: seq<string>)
  {
    forall i, j :: 0 <= i < j < |ks| ==> ks[i] != ks[j]
  }

  /** The first of distinct keys does not come again. */
  lemma DistinctTail(ks: seq<string>)
    requires ks != [] && Distinct(ks)
    ensures Distinct(ks[1..]) && ks[0] !in ks[1..]
  {
  }

  /**
   * Visiting distinct keys whose entries all have an author succeeds, and
   * exactly the visited entries get their author field in normal form; the
   * others are unchanged.
   */
  lemma {:induction false} NormalizeKeysEntries(b: Bib, ks: seq<string>)
    requires b.Valid() && forall k :: k in ks ==> k in b.entries && AuthorKey in b.entries[k]
    requires Distinct(ks)
    ensures NormalizeKeys(b, ks).Ok?
    ensures forall k :: k in b.entries ==>
      NormalizeKeys(b, ks).value.entries[k] == if k in ks then Normalized(b.entries[k]) else b.entries[k]
    decreases |ks|
  {
    if ks != [] {
      var k0 := ks[0];
      var e := b.entries[k0];
      var next := b.SetField(k0, AuthorKey, NormalizedAuthors(e[AuthorKey]));
      TailIn(ks);
      DistinctTail(ks);
      NormalizeKeysEntries(next, ks[1..]);
    }
  }

  /**
   * `standard_author_name` succeeds exactly when every entry has an author;
   * it then keeps the keys and their order and puts every author field, and
   * nothing else, in normal form. Otherwise it reports an entry without one.
   */
  lemma StandardAuthorNamesSpec(b: Bib)
    requires b.Valid()
    ensures StandardAuthorNames(b).Ok? <==> forall k :: k in b.entries ==> AuthorKey in b.entries[k]
    ensures StandardAuthorNames(b).Err? ==>
      var key := StandardAuthorNames(b).error.key;
      key in b.entries && AuthorKey !in b.entries[key]
    ensures StandardAuthorNames(b).Ok? ==>
      var r := StandardAuthorNames(b).value;
      r.keys == b.keys && forall k :: k in b.entries ==> r.entries[k] == Normalized(b.entries[k])
  {
    NormalizeKeysOutcome(b, b.keys);
    if StandardAuthorNames(b).Ok? {
      assert Distinct(b.keys);
      NormalizeKeysEntries(b, b.keys);
    }
  }

  /** `standard_author_name`: rewrites `bib['author']` of every entry in place. */
  method StandardAuthorName(b: Bib) returns (r: Result<Bib, AuthorError>)
    requires b.Valid()
    ensures r == StandardAuthorNames(b)
  {
    var bibs := b;
    var n := 0;
    while n < |b.keys|
      invariant 0 <= n <= |b.keys|
      invariant bibs.Valid() && bibs.keys == b.keys && bibs.entries.Keys == b.entries.Keys
      invariant NormalizeKeys(b, b.keys) == NormalizeKeys(bibs, b.keys[n..])
    {
      var key := b.keys[n];
      assert b.keys[n..][0] == key && b.keys[n..][1..] == b.keys[n + 1..];
      var bib := bibs.entries[key];
      if AuthorKey !in bib {
        return Err(MissingAuthor(key));
      }
      var newAuthors := NormalizeField(bib[AuthorKey]);
      bibs := bibs.SetField(key, AuthorKey, newAuthors);
      n := n + 1;
    }
    return Ok(bibs);
  }
}
