/**
 * `_write_bibtex` of bibtex_to_xlsx.py: one table row per entry, in the
 * dictionary's order, holding a numbered title, the authors and the venue.
 * Writing the table to `out.csv` and `out.xlsx` is not modelled; the rows
 * themselves are the result.
 */
module Export {
  import opened Wrappers
  import opened Text
  import opened Bibliography

  /** Added to an entry's 1-based position to number its title. */
  const Offset: nat := 600

  /** The venue fields of conference papers and of journal articles. */
  const BooktitleKey: string := "booktitle"
  const JournalKey: string := "journal"

  /** One row of the table: its columns `title`, `author` and `venue`. */
  datatype Row = Row(title: string, author: string, venue: string)

  /**
   * `bib['cite_type']` is read outside the `try` block, so its absence is a
   * `KeyError`; a missing `title` or `author` inside it makes the script
   * print the entry and quit.
   */
  datatype ExportError = MissingCiteType(index: nat) | Aborted(entry: Entry)

  /** The field that names the venue of an entry of the given `@type`. */
  function VenueKey(citeType: string): Option<string>
  {
    if citeType == "@inproceedings" then Some(BooktitleKey)
    else if citeType == "@article" then Some(JournalKey)
    else None
  }

  /** The venue column: the type's venue field when the entry has it, else empty. */
  function Venue(e: Entry): string
    requires CiteTypeKey in e
  {
    var key := VenueKey(e[CiteTypeKey]);
    if key.Some? && key.value in e then e[key.value] else ""
  }

  /** The title column: the number, a dash, and the entry's title. */
  function Numbered(n: nat, title: string): string
  {
    Decimal(n) + "-" + title
  }

  /** An entry has every field a row needs. */
  predicate Complete(e: Entry)
  {
    CiteTypeKey in e && TitleKey in e && AuthorKey in e
  }

  /** The row of the entry at position `i` of the iteration, or the error it raises. */
  function RowOf(i: nat, e: Entry): Result<Row, ExportError>
  {
    if CiteTypeKey !in e then Err(MissingCiteType(i))
    else if TitleKey !in e || AuthorKey !in e then Err(Aborted(e))
    else Ok(Row(Numbered(i + 1 + Offset, e[TitleKey]), e[AuthorKey], Venue(e)))
  }

  /** The rows of `vals` in order; the first entry that fails decides the error. */
  function Rows(vals: seq<Entry>): (r: Result<seq<Row>, ExportError>)
    ensures r.Ok? ==> |r.value| == |vals|
    decreases |vals|
  {
    if vals == [] then Ok([])
    else
      var n := |vals| - 1;
      match Rows(vals[..n])
      case Err(e) => Err(e)
      case Ok(rows) =>
        match RowOf(n, vals[n])
        case Err(e) => Err(e)
        case Ok(row) => Ok(rows + [row])
  }

  /** The table of a whole bibliography. */
  function Table(b: Bib): Result<seq<Row>, ExportError>
    requires b.Valid()
  {
    Rows(b.Values())
  }

  // ---------------------------------------------------------------------------
  // What the table holds
  // ---------------------------------------------------------------------------

  /** The table exists exactly when every entry has a type, a title and authors. */
  lemma {:induction false} RowsOutcome(vals: seq<Entry>)
    ensures Rows(vals).Ok? <==> forall i :: 0 <= i < |vals| ==> Complete(vals[i])
    decreases |vals|
  {
    if vals != [] {
      var n := |vals| - 1;
      RowsOutcome(vals[..n]);
      assert forall i :: 0 <= i < n ==> vals[..n][i] == vals[i];
    }
  }

  /**
   * Row `i` numbers its title `i + 1 + Offset`, copies the authors, and takes
   * the venue from `booktitle` for `@inproceedings`, from `journal` for
   * `@article`, and leaves it empty otherwise or when that field is missing.
   */
  lemma {:induction false} RowsContent(vals: seq<Entry>)
    requires Rows(vals).Ok?
    ensures forall i :: 0 <= i < |vals| ==>
      (Complete(vals[i]) &&
       Rows(vals).value[i] == Row(Numbered(i + 1 + Offset, vals[i][TitleKey]), vals[i][AuthorKey], Venue(vals[i])))
    decreases |vals|
  {
    if vals != [] {
      var n := |vals| - 1;
      RowsContent(vals[..n]);
      assert forall i :: 0 <= i < n ==> vals[..n][i] == vals[i];
    }
  }

  /** The venue rule of a row, spelled out by the entry's type. */
  lemma VenueRule(e: Entry)
    requires CiteTypeKey in e
    ensures e[CiteTypeKey] == "@inproceedings" ==>
      Venue(e) == (if BooktitleKey in e then e[BooktitleKey] else "")
    ensures e[CiteTypeKey] == "@article" ==>
      Venue(e) == (if JournalKey in e then e[JournalKey] else "")
    ensures e[CiteTypeKey] != "@inproceedings" && e[CiteTypeKey] != "@article" ==> Venue(e) == ""
  {
  }

  /** Once a prefix of the entries fails, the whole table fails the same way. */
  lemma {:induction false} RowsErrPrefix(vals: seq<Entry>, n: nat)
    requires n <= |vals| && Rows(vals[..n]).Err?
    ensures Rows(vals) == Rows(vals[..n])
    decreases |vals| - n
  {
    if n < |vals| {
      var m := |vals| - 1;
      assert vals[..m][..n] == vals[..n];
      RowsErrPrefix(vals[..m], n);
    } else {
      assert vals[..n] == vals;
    }
  }

  /**
   * The error is the one raised by the first incomplete entry: `KeyError`
   * when it lacks its type, the abort otherwise.
   */
  lemma FirstError(vals: seq<Entry>, j: nat)
    requires j < |vals| && !Complete(vals[j])
    requires forall i :: 0 <= i < j ==> Complete(vals[i])
    ensures Rows(vals) == Err(if CiteTypeKey in vals[j] then Aborted(vals[j]) else MissingCiteType(j))
  {
    FailsAt(vals, j);
    RowsErrPrefix(vals, j + 1);
  }

  /** The entries up to and including the first incomplete one already fail. */
  lemma FailsAt(vals: seq<Entry>, j: nat)
    requires j < |vals| && !Complete(vals[j])
    requires forall i :: 0 <= i < j ==> Complete(vals[i])
    ensures Rows(vals[..j + 1]) == Err(RowOf(j, vals[j]).error)
  {
    assert vals[..j + 1] == vals[..j] + [vals[j]];
    CompletePrefix(vals, j);
    RowsSnoc(vals[..j], vals[j]);
  }

  /** One more entry: its row is appended, or its error ends the table. */
  lemma RowsSnoc(pre: seq<Entry>, e: Entry)
    ensures Rows(pre).Err? ==> Rows(pre + [e]) == Rows(pre)
    ensures Rows(pre).Ok? && RowOf(|pre|, e).Err? ==> Rows(pre + [e]) == Err(RowOf(|pre|, e).error)
    ensures Rows(pre).Ok? && RowOf(|pre|, e).Ok? ==>
      Rows(pre + [e]) == Ok(Rows(pre).value + [RowOf(|pre|, e).value])
  {
    assert (pre + [e])[..|pre|] == pre;
  }

  /** A prefix of complete entries has a table. */
  lemma CompletePrefix(vals: seq<Entry>, j: nat)
    requires j <= |vals| && forall i :: 0 <= i < j ==> Complete(vals[i])
    ensures Rows(vals[..j]).Ok?
  {
    RowsOutcome(vals[..j]);
    assert forall i :: 0 <= i < j ==> vals[..j][i] == vals[i];
  }

  /** A numeral followed by a dash can be read back off the front. */
  lemma NumberedParts(m: nat, n: nat, s: string, t: string)
    requires Numbered(m, s) == Numbered(n, t)
    ensures m == n && s == t
  {
    var dm, dn := Decimal(m), Decimal(n);
    var x := dm + "-" + s;
    DashIndex(dm, s);
    DashIndex(dn, t);
    assert dm == x[..|dm|] && dn == x[..|dn|];
    assert s == x[|dm| + 1..] && t == x[|dn| + 1..];
    DecimalInjective(m, n);
  }

  /** The first dash of a numbered title is the one after the numeral. */
  lemma DashIndex(d: string, s: string)
    requires forall i :: 0 <= i < |d| ==> IsDigit(d[i])
    ensures '-' in d + "-" + s && IndexOf(d + "-" + s, '-') == |d|
  {
    var x := d + "-" + s;
    assert x[|d|] == '-';
    assert x[..|d|] == d;
  }

  /** Titles with different numbers differ. */
  lemma DistinctNumbers(m: nat, n: nat, s: string, t: string)
    requires m != n
    ensures Numbered(m, s) != Numbered(n, t)
  {
    if Numbered(m, s) == Numbered(n, t) {
      NumberedParts(m, n, s, t);
    }
  }

  /** The title of row `i`, and the entry title it was made from. */
  lemma RowTitle(vals: seq<Entry>, i: nat) returns (title: string)
    requires Rows(vals).Ok? && i < |vals|
    ensures Rows(vals).value[i].title == Numbered(i + 1 + Offset, title)
  {
    RowsContent(vals);
    title := vals[i][TitleKey];
  }

  /** No two rows share a title, whatever the entries' own titles are. */
  lemma TitlesDistinct(vals: seq<Entry>)
    requires Rows(vals).Ok?
    ensures forall i, j :: 0 <= i < j < |vals| ==> Rows(vals).value[i].title != Rows(vals).value[j].title
  {
    var rows := Rows(vals).value;
    forall i, j | 0 <= i < j < |vals|
      ensures rows[i].title != rows[j].title
    {
      var s := RowTitle(vals, i);
      var t := RowTitle(vals, j);
      DistinctNumbers(i + 1 + Offset, j + 1 + Offset, s, t);
    }
  }

  // ---------------------------------------------------------------------------
  // The loop
  // ---------------------------------------------------------------------------

  /** `_write_bibtex`: builds the rows entry by entry, stopping at the first failure. */
  method WriteBibtex(b: Bib) returns (r: Result<seq<Row>, ExportError>)
    requires b.Valid()
    ensures r == Table(b)
  {
    var vals := b.Values();
    var rows: seq<Row> := [];
    var i := 0;
    while i < |vals|
      invariant 0 <= i <= |vals|
      invariant Rows(vals[..i]) == Ok(rows)
    {
      var e := vals[i];
      assert vals[..i + 1][..i] == vals[..i] && vals[..i + 1][i] == e;
      if CiteTypeKey !in e {
        RowsErrPrefix(vals, i + 1);
        return Err(MissingCiteType(i));
      }
      var key := VenueKey(e[CiteTypeKey]);
      if TitleKey !in e || AuthorKey !in e {
        RowsErrPrefix(vals, i + 1);
        return Err(Aborted(e));
      }
      var venue := if key.Some? && key.value in e then e[key.value] else "";
      rows := rows + [Row(Numbered(i + 1 + Offset, e[TitleKey]), e[AuthorKey], venue)];
      i := i + 1;
    }
    assert vals[..i] == vals;
    return Ok(rows);
  }
}
