/**
 * `format_bibtex` of bibtex_to_xlsx.py: read the bibliography, normalise its
 * authors, build the table and copy the papers under the table's titles. The
 * lines of `in.bib` and the sorted list of paper files are its inputs.
 */
module Formatter {
  import opened Wrappers
  import opened Text
  import opened Bibliography
  import opened Parser
  import opened Authors
  import opened Export
  import opened Rename

  /** The step that stopped the run. */
  datatype FormatError =
    | ReadFailed(readError: ParseError)
    | AuthorsFailed(authorError: AuthorError)
    | WriteFailed(writeError: ExportError)

  /** What a run produces: the table, the copies made, and whether titles ran out. */
  datatype Run = Run(rows: seq<Row>, copies: seq<Copy>, overflow: bool)

  /** `df['title'].tolist()`. */
  function Titles(rows: seq<Row>): (ts: seq<string>)
    ensures |ts| == |rows| && forall i :: 0 <= i < |rows| ==> ts[i] == rows[i].title
  {
    seq(|rows|, i requires 0 <= i < |rows| => rows[i].title)
  }

  /** The run, step after step; the first step that fails ends it. */
  function Pipeline(lines: seq<string>, files: seq<string>): Result<Run, FormatError>
  {
    var read := Parse(lines);
    if read.Err? then Err(ReadFailed(read.error))
    else
      var named := StandardAuthorNames(read.value);
      if named.Err? then Err(AuthorsFailed(named.error))
      else
        var table := Table(named.value);
        if table.Err? then Err(WriteFailed(table.error))
        else
          var titles := Titles(table.value);
          Ok(Run(table.value, Copies(titles, files), |files| > |titles|))
  }

  /** `format_bibtex`, calling the four steps in turn. */
  method FormatBibtex(lines: seq<string>, files: seq<string>) returns (r: Result<Run, FormatError>)
    ensures r == Pipeline(lines, files)
  {
    var read := ReadBibtex(lines);
    if read.Err? {
      return Err(ReadFailed(read.error));
    }
    var named := StandardAuthorName(read.value);
    if named.Err? {
      return Err(AuthorsFailed(named.error));
    }
    var table := WriteBibtex(named.value);
    if table.Err? {
      return Err(WriteFailed(table.error));
    }
    var copies, overflow := RenameFiles(Titles(table.value), files);
    return Ok(Run(table.value, copies, overflow));
  }

  // ---------------------------------------------------------------------------
  // What a run produces
  // ---------------------------------------------------------------------------

  /** Normalising the authors leaves the type, the title and the venue alone. */
  lemma NormalizedKeepsOthers(e: Entry)
    requires AuthorKey in e
    ensures Normalized(e).Keys == e.Keys
    ensures forall k :: k in e && k != AuthorKey ==> Normalized(e)[k] == e[k]
    ensures CiteTypeKey in e ==> Venue(Normalized(e)) == Venue(e)
  {
  }

  /**
   * A run completes exactly when the file parses and every entry has an
   * author and a title.
   */
  lemma PipelineOutcome(lines: seq<string>, files: seq<string>)
    ensures Pipeline(lines, files).Ok? <==>
      Parse(lines).Ok? &&
      forall k :: k in Parse(lines).value.entries ==>
        AuthorKey in Parse(lines).value.entries[k] && TitleKey in Parse(lines).value.entries[k]
  {
    if Parse(lines).Ok? {
      var b := Parse(lines).value;
      StandardAuthorNamesSpec(b);
      if StandardAuthorNames(b).Ok? {
        TableOutcome(b);
      }
    }
  }

  /** After normalising, the table exists exactly when every entry has a title. */
  lemma TableOutcome(b: Bib)
    requires b.Valid() && StandardAuthorNames(b).Ok?
    requires forall k :: k in b.entries ==> CiteTypeKey in b.entries[k]
    ensures Table(StandardAuthorNames(b).value).Ok? <==> forall k :: k in b.entries ==> TitleKey in b.entries[k]
  {
    if Table(StandardAuthorNames(b).value).Ok? {
      TitledIfTable(b);
    } else {
      UntitledIfNoTable(b);
    }
  }

  /** A table means every parsed entry has a title. */
  lemma TitledIfTable(b: Bib)
    requires b.Valid() && StandardAuthorNames(b).Ok?
    requires forall k :: k in b.entries ==> CiteTypeKey in b.entries[k]
    requires Table(StandardAuthorNames(b).value).Ok?
    ensures forall k :: k in b.entries ==> TitleKey in b.entries[k]
  {
    var nb := StandardAuthorNames(b).value;
    var vals := nb.Values();
    RowsOutcome(vals);
    forall k | k in b.entries
      ensures TitleKey in b.entries[k]
    {
      EntryComplete(b, k);
      var i :| 0 <= i < |b.keys| && b.keys[i] == k;
      assert vals[i] == nb.entries[k];
    }
  }

  /** No table means some parsed entry has no title. */
  lemma UntitledIfNoTable(b: Bib)
    requires b.Valid() && StandardAuthorNames(b).Ok?
    requires forall k :: k in b.entries ==> CiteTypeKey in b.entries[k]
    requires Table(StandardAuthorNames(b).value).Err?
    ensures exists k :: k in b.entries && TitleKey !in b.entries[k]
  {
    var nb := StandardAuthorNames(b).value;
    var vals := nb.Values();
    RowsOutcome(vals);
    var i :| 0 <= i < |vals| && !Complete(vals[i]);
    EntryComplete(b, nb.keys[i]);
  }

  /** A normalised entry is complete exactly when the parsed one has a title. */
  lemma EntryComplete(b: Bib, k: string)
    requires b.Valid() && StandardAuthorNames(b).Ok? && k in b.entries
    requires forall k :: k in b.entries ==> CiteTypeKey in b.entries[k]
    ensures k in b.keys && k in StandardAuthorNames(b).value.entries
    ensures Complete(StandardAuthorNames(b).value.entries[k]) <==> TitleKey in b.entries[k]
  {
    StandardAuthorNamesSpec(b);
    NormalizedKeepsOthers(b.entries[k]);
  }

  /**
   * Row i of a completed run comes from the i-th entry of the file: its
   * number and title, its authors normalised, and its venue; the copies pair
   * as many files with titles as both lists allow.
   */
  lemma PipelineRows(lines: seq<string>, files: seq<string>)
    requires Pipeline(lines, files).Ok?
    ensures var b, run := Parse(lines).value, Pipeline(lines, files).value;
      |run.rows| == |b.keys| &&
      |run.copies| == Min(|run.rows|, |files|) &&
      (run.overflow <==> |files| > |run.rows|) &&
      forall i :: 0 <= i < |b.keys| ==>
        var e := b.entries[b.keys[i]];
        AuthorKey in e && TitleKey in e && CiteTypeKey in e &&
        run.rows[i] == Row(Numbered(i + 1 + Offset, e[TitleKey]), NormalizedAuthors(e[AuthorKey]), Venue(e))
  {
    var b := Parse(lines).value;
    StandardAuthorNamesSpec(b);
    var nb := StandardAuthorNames(b).value;
    RowsContent(nb.Values());
    forall i | 0 <= i < |b.keys|
      ensures var e := b.entries[b.keys[i]];
        AuthorKey in e && TitleKey in e && CiteTypeKey in e &&
        Table(nb).value[i] == Row(Numbered(i + 1 + Offset, e[TitleKey]), NormalizedAuthors(e[AuthorKey]), Venue(e))
    {
      var k := b.keys[i];
      assert nb.Values()[i] == nb.entries[k] == Normalized(b.entries[k]);
      NormalizedKeepsOthers(b.entries[k]);
    }
  }

  // ---------------------------------------------------------------------------
  // No copy overwrites another
  // ---------------------------------------------------------------------------

  /** A numbered title keeps its number and dash when made a file name. */
  lemma SanitizedNumbered(n: nat, t: string) returns (rest: string)
    requires |Decimal(n)| < MaxNameLength
    ensures Sanitized(Numbered(n, t)) == Numbered(n, rest)
  {
    var d := Decimal(n);
    var x := Numbered(n, t);
    var s := Sanitized(x);
    SanitizedChars(x);
    assert forall i :: 0 <= i < |d| ==> x[i] == d[i] && IsDigit(x[i]);
    assert x[|d|] == '-';
    rest := s[|d| + 1..];
    assert s[..|d|] == d;
    assert s == s[..|d|] + [s[|d|]] + rest;
  }

  /** The file name of row i starts with row i's number. */
  lemma RowFileName(vals: seq<Entry>, i: nat) returns (rest: string)
    requires Rows(vals).Ok? && i < |vals| && i + 1 + Offset < Pow10(MaxNameLength - 1)
    ensures Sanitized(Rows(vals).value[i].title) == Numbered(i + 1 + Offset, rest)
  {
    var t := RowTitle(vals, i);
    DecimalLength(i + 1 + Offset, MaxNameLength - 1);
    rest := SanitizedNumbered(i + 1 + Offset, t);
  }

  /**
   * While the numbers have fewer than 230 digits, the copies of a table's
   * rows all go to different files.
   */
  lemma CopiesApart(vals: seq<Entry>, files: seq<string>)
    requires Rows(vals).Ok? && |vals| + Offset < Pow10(MaxNameLength - 1)
    ensures var c := Copies(Titles(Rows(vals).value), files);
      forall i, j :: 0 <= i < j < |c| ==> c[i].target != c[j].target
  {
    var titles := Titles(Rows(vals).value);
    var c := Copies(titles, files);
    forall i, j | 0 <= i < j < |c|
      ensures c[i].target != c[j].target
    {
      var r1 := RowFileName(vals, i);
      var r2 := RowFileName(vals, j);
      DistinctNumbers(i + 1 + Offset, j + 1 + Offset, r1, r2);
      ExtensionAfterLastDot(files[i]);
      ExtensionAfterLastDot(files[j]);
      TargetsApart(Sanitized(titles[i]), Extension(files[i]), Sanitized(titles[j]), Extension(files[j]));
    }
  }

  /** A completed run never copies two papers to the same file. */
  lemma PipelineCopiesApart(lines: seq<string>, files: seq<string>)
    requires Pipeline(lines, files).Ok?
    requires |Pipeline(lines, files).value.rows| + Offset < Pow10(MaxNameLength - 1)
    ensures var c := Pipeline(lines, files).value.copies;
      forall i, j :: 0 <= i < j < |c| ==> c[i].target != c[j].target
  {
    var b := Parse(lines).value;
    var nb := StandardAuthorNames(b).value;
    CopiesApart(nb.Values(), files);
  }
}
