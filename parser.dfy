/**
 * The line-oriented reader `_read_bibtex_from_file` of bibtex_to_xlsx.py,
 * over the lines of the file (reading the file itself is not modelled).
 *
 * Each line is stripped; empty lines and lines starting with `%` or `}` are
 * skipped. A line pending from before (an unbalanced field line) is joined to
 * the current one with a single space. A line starting with `@` opens an entry
 * under the cite key after its single `{`; any other line must hold `=`, and
 * once it has no more `{` than `}` it sets one field of the entry opened
 * last, the value unwrapped by `_remove_up_to(value, "{},", 1)`.
 */
module Parser {
  import opened Wrappers
  import opened Text
  import opened Unwrap
  import opened Bibliography

  /** The ways the reader aborts. */
  datatype ParseError =
    | MissingEquals(line: string)   // `assert "=" in line` fails
    | BadHeader(line: string)       // `line.split("{")` does not unpack into two parts
    | NoEntry(line: string)         // a field is stored before any `@` line bound `entry`

  /**
   * The reader's variables between two lines: the dictionary `bibs`, the entry
   * `entry` refers to (by its cite key; it is always `bibs[key]`, since every
   * `@` line makes a fresh entry and stores it), and `previous_line`.
   */
  datatype State = State(bib: Bib, current: Option<string>, pending: string)

  const Start: State := State(Empty, None, [])

  /** The lines the reader drops once stripped. */
  predicate Skipped(line: string)
  {
    line == [] || line[0] == '%' || line[0] == '}'
  }

  /**
   * What holds between lines: the dictionary is well formed, the current entry
   * is in it, every entry has its cite type, and a pending line never starts
   * with `@` (so the assertion `previous_line == ""` on an `@` line holds).
   */
  ghost predicate Inv(st: State)
  {
    st.bib.Valid() &&
    (st.current.Some? ==> st.current.value in st.bib.entries) &&
    (st.pending == [] || st.pending[0] != '@') &&
    (forall k :: k in st.bib.entries ==> CiteTypeKey in st.bib.entries[k])
  }

  /** `f"{previous_line} {line}" if previous_line else line`. */
  function Joined(pending: string, line: string): (r: string)
    requires line != []
    ensures r != [] && r[0] == if pending != [] then pending[0] else line[0]
  {
    if pending != [] then pending + " " + line else line
  }

  /**
   * An `@` line: `cite_type, cite_name = line.split("{")`, then a fresh entry
   * holding only its cite type is stored under the key and becomes `entry`.
   */
  function OpenEntry(st: State, line: string): (r: Result<State, ParseError>)
    requires Inv(st) && st.pending == []
    ensures r.Ok? ==> Inv(r.value)
  {
    var parts := Split(line, "{");
    if |parts| != 2 then Err(BadHeader(line))
    else
      var key := Strip(Without(parts[1], ','));
      var entry := map[CiteTypeKey := Strip(Without(parts[0], ','))];
      InsertKeepsInv(st, key, entry);
      Ok(State(st.bib.Insert(key, entry), Some(key), []))
  }

  /**
   * Any other line: it must hold `=`; while it has more `{` than `}` it is
   * held back, otherwise it is split at its first `=` into a field name and a
   * value, and the unwrapped value is stored in `entry`.
   */
  function FieldOrContinue(st: State, line: string): (r: Result<State, ParseError>)
    requires Inv(st) && line != [] && line[0] != '@'
    ensures r.Ok? ==> Inv(r.value)
  {
    if '=' !in line then Err(MissingEquals(line))
    else if Occ(line, '{') > Occ(line, '}') then Ok(st.(pending := line))
    else if st.current.None? then Err(NoEntry(line))
    else
      var i := IndexOf(line, '=');
      var value := EdgeTrim(Strip(line[i + 1..]), Delimiters, 1);
      SetFieldKeepsInv(st, Strip(line[..i]), value);
      Ok(State(st.bib.SetField(st.current.value, Strip(line[..i]), value), st.current, []))
  }

  /** Storing a field in the current entry keeps the invariant. */
  lemma SetFieldKeepsInv(st: State, name: string, value: string)
    requires Inv(st) && st.current.Some?
    ensures Inv(State(st.bib.SetField(st.current.value, name, value), st.current, []))
  {
  }

  /** Storing a fresh entry that has its cite type keeps the invariant. */
  lemma InsertKeepsInv(st: State, key: string, entry: Entry)
    requires Inv(st) && CiteTypeKey in entry
    ensures Inv(State(st.bib.Insert(key, entry), Some(key), []))
  {
  }

  /** One iteration of the reading loop, on the raw line `raw`. */
  function Step(st: State, raw: string): (r: Result<State, ParseError>)
    requires Inv(st)
    ensures r.Ok? ==> Inv(r.value)
  {
    var stripped := Strip(raw);
    if Skipped(stripped) then Ok(st)
    else
      var line := Joined(st.pending, stripped);
      if line[0] == '@' then
        assert st.pending == [];
        OpenEntry(st, line)
      else FieldOrContinue(st, line)
  }

  /** The reading loop from state `st` over `lines`; the first error aborts. */
  function ParseFrom(st: State, lines: seq<string>): (r: Result<State, ParseError>)
    requires Inv(st)
    ensures r.Ok? ==> Inv(r.value)
    decreases |lines|
  {
    if lines == [] then Ok(st)
    else
      var first := Step(st, lines[0]);
      if first.Err? then Err(first.error) else ParseFrom(first.value, lines[1..])
  }

  /**
   * What `_read_bibtex_from_file` returns for a file with these lines. A line
   * still pending at the end of the file is dropped.
   */
  function Parse(lines: seq<string>): (r: Result<Bib, ParseError>)
    ensures r.Ok? ==> r.value.Valid()
    ensures r.Ok? ==> forall k :: k in r.value.entries ==> CiteTypeKey in r.value.entries[k]
  {
    var r := ParseFrom(Start, lines);
    if r.Err? then Err(r.error) else Ok(r.value.bib)
  }

  // ---------------------------------------------------------------------------
  // Properties of the reader
  // ---------------------------------------------------------------------------

  /** Reading `[line] + rest` is one step on `line`, then reading `rest`. */
  lemma ParseFromCons(st: State, line: string, rest: seq<string>)
    requires Inv(st)
    ensures ParseFrom(st, [line] + rest) ==
      var first := Step(st, line);
      if first.Err? then Err(first.error) else ParseFrom(first.value, rest)
  {
    assert ([line] + rest)[1..] == rest;
  }

  lemma ConsShape(pre: seq<string>, raw: string, post: seq<string>)
    requires pre != []
    ensures pre + [raw] + post == [pre[0]] + (pre[1..] + [raw] + post)
    ensures pre + post == [pre[0]] + (pre[1..] + post)
  {
  }

  /** Two inputs that agree after their common first line agree. */
  lemma SameAfterStep(st: State, first: string, a: seq<string>, b: seq<string>)
    requires Inv(st)
    requires Step(st, first).Ok? ==> ParseFrom(Step(st, first).value, a) == ParseFrom(Step(st, first).value, b)
    ensures ParseFrom(st, [first] + a) == ParseFrom(st, [first] + b)
  {
    ParseFromCons(st, first, a);
    ParseFromCons(st, first, b);
  }

  /** A skipped line can be taken out of the file without changing the outcome. */
  lemma {:induction false} SkippedLineIgnored(st: State, pre: seq<string>, raw: string, post: seq<string>)
    requires Inv(st) && Skipped(Strip(raw))
    ensures ParseFrom(st, pre + [raw] + post) == ParseFrom(st, pre + post)
    decreases |pre|
  {
    if pre == [] {
      assert pre + [raw] + post == [raw] + post;
      assert pre + post == post;
      ParseFromCons(st, raw, post);
    } else {
      ConsShape(pre, raw, post);
      var first := Step(st, pre[0]);
      if first.Ok? {
        SkippedLineIgnored(first.value, pre[1..], raw, post);
      }
      SameAfterStep(st, pre[0], pre[1..] + [raw] + post, pre[1..] + post);
    }
  }

  /** One line never reorders or removes keys: a new key goes last. */
  lemma StepKeepsOrder(st: State, raw: string)
    requires Inv(st) && Step(st, raw).Ok?
    ensures st.bib.keys <= Step(st, raw).value.bib.keys
  {
    StepCases(st, raw);
    var stripped := Strip(raw);
    if !Skipped(stripped) {
      var line := Joined(st.pending, stripped);
      if line[0] == '@' {
        OpenEntryAppends(st, line);
      } else {
        FieldKeepsKeys(st, line);
      }
    }
  }

  /** A header line appends its key, or keeps the keys if it is already there. */
  lemma OpenEntryAppends(st: State, line: string)
    requires Inv(st) && st.pending == [] && OpenEntry(st, line).Ok?
    ensures st.bib.keys <= OpenEntry(st, line).value.bib.keys
  {
  }

  /** A field line never touches the keys. */
  lemma FieldKeepsKeys(st: State, line: string)
    requires Inv(st) && line != [] && line[0] != '@' && FieldOrContinue(st, line).Ok?
    ensures FieldOrContinue(st, line).value.bib.keys == st.bib.keys
  {
  }

  /**
   * Entries keep the order in which their keys first appeared: reading more
   * lines only ever appends keys.
   */
  lemma {:induction false} KeysOnlyGrow(st: State, lines: seq<string>)
    requires Inv(st) && ParseFrom(st, lines).Ok?
    ensures st.bib.keys <= ParseFrom(st, lines).value.bib.keys
    decreases |lines|
  {
    if lines != [] {
      var next := Step(st, lines[0]).value;
      StepKeepsOrder(st, lines[0]);
      KeysOnlyGrow(next, lines[1..]);
    }
  }

  /**
   * An `@` line (with nothing pending) opens an entry exactly when it holds
   * a single `{`. The cite type is the text before it and the key the text
   * after it, each without commas and stripped; the type keeps its `@`.
   */
  lemma HeaderLine(st: State, raw: string)
    requires Inv(st) && st.pending == []
    requires Strip(raw) != [] && Strip(raw)[0] == '@'
    ensures Step(st, raw).Ok? <==> Occ(Strip(raw), '{') == 1
    ensures Occ(Strip(raw), '{') == 1 ==>
      var line := Strip(raw);
      var i := IndexOf(line, '{');
      var key := Strip(Without(line[i + 1..], ','));
      Step(st, raw) == Ok(State(st.bib.Insert(key, map[CiteTypeKey := Strip(Without(line[..i], ','))]), Some(key), []))
  {
    var line := Strip(raw);
    StepOnHeader(st, raw);
    HeaderSplit(line);
    if Occ(line, '{') == 1 {
      HeaderOpens(st, line);
    }
  }

  /** A header line with one `{` opens the entry named after it. */
  lemma HeaderOpens(st: State, line: string)
    requires Inv(st) && st.pending == [] && Occ(line, '{') == 1
    ensures '{' in line
    ensures var i := IndexOf(line, '{');
      var key := Strip(Without(line[i + 1..], ','));
      OpenEntry(st, line) == Ok(State(st.bib.Insert(key, map[CiteTypeKey := Strip(Without(line[..i], ','))]), Some(key), []))
  {
    HeaderSplit(line);
    OccZero(line, '{');
  }

  /** With nothing pending, a line starting with `@` goes to the header rule. */
  lemma StepOnHeader(st: State, raw: string)
    requires Inv(st) && st.pending == []
    requires Strip(raw) != [] && Strip(raw)[0] == '@'
    ensures Step(st, raw) == OpenEntry(st, Strip(raw))
  {
  }

  /** A line splits at `{` into two parts exactly when it holds one `{`. */
  lemma HeaderSplit(line: string)
    ensures |Split(line, "{")| == 2 <==> Occ(line, '{') == 1
    ensures Occ(line, '{') == 1 ==>
      var i := IndexOf(line, '{');
      Split(line, "{") == [line[..i], line[i + 1..]]
  {
    SplitCount(line, '{');
    if Occ(line, '{') == 1 {
      var i := IndexOf(line, '{');
      NothingAfterSole(line, '{');
      assert line == line[..i] + ['{'] + line[i + 1..];
      SplitAtFirst(line[..i], '{', line[i + 1..]);
      SplitAbsent(line[i + 1..], '{');
    }
  }

  /** After the first and only `c` of a line, there is no `c`. */
  lemma NothingAfterSole(line: string, c: char)
    requires Occ(line, c) == 1
    ensures c in line && c !in line[IndexOf(line, c) + 1..]
  {
    OccZero(line, c);
    var i := IndexOf(line, c);
    assert line == line[..i] + [c] + line[i + 1..];
    OccAppend(line[..i] + [c], line[i + 1..], c);
    OccAppend(line[..i], [c], c);
    OccZero(line[..i], c);
    OccZero(line[i + 1..], c);
  }

  /**
   * A field line with more `{` than `}` is held back and joined to the next
   * line that is not skipped, with one space: reading the two physical lines
   * is the same as reading the joined one.
   */
  lemma ContinuationJoin(st: State, a: string, b: string, rest: seq<string>)
    requires Inv(st) && st.pending == []
    requires !Skipped(Strip(a)) && Strip(a)[0] != '@' && '=' in Strip(a)
    requires Occ(Strip(a), '{') > Occ(Strip(a), '}')
    requires !Skipped(Strip(b))
    ensures ParseFrom(st, [a, b] + rest) == ParseFrom(st, [Strip(a) + " " + Strip(b)] + rest)
  {
    var a', b' := Strip(a), Strip(b);
    var joined := a' + " " + b';
    var held := st.(pending := a');
    HoldUnbalanced(st, a);
    JoinedStep(held, b);
    assert held.(pending := []) == st;
    PairShape(a, b, rest);
    ParseFromCons(st, a, [b] + rest);
    assert ParseFrom(st, [a, b] + rest) == ParseFrom(held, [b] + rest);
    ParseFromCons(held, b, rest);
    ParseFromCons(st, joined, rest);
  }

  lemma PairShape(a: string, b: string, rest: seq<string>)
    ensures [a, b] + rest == [a] + ([b] + rest)
  {
  }

  /** An unbalanced field line is only held back. */
  lemma HoldUnbalanced(st: State, a: string)
    requires Inv(st) && st.pending == []
    requires !Skipped(Strip(a)) && Strip(a)[0] != '@' && '=' in Strip(a)
    requires Occ(Strip(a), '{') > Occ(Strip(a), '}')
    ensures Step(st, a) == Ok(st.(pending := Strip(a)))
  {
  }

  /** With a line held back, the next line is read as if the two had been one line. */
  lemma JoinedStep(held: State, b: string)
    requires Inv(held) && held.pending != [] && !Skipped(held.pending) && !IsSpace(held.pending[0])
    requires !Skipped(Strip(b))
    ensures Step(held, b) == Step(held.(pending := []), held.pending + " " + Strip(b))
  {
    var joined := held.pending + " " + Strip(b);
    StripStripped(joined);
    PendingIgnored(held, joined);
  }

  /** Past the joining, a field line's outcome does not depend on what was pending. */
  lemma PendingIgnored(st: State, line: string)
    requires Inv(st) && Inv(st.(pending := [])) && line != [] && line[0] != '@'
    ensures FieldOrContinue(st, line) == FieldOrContinue(st.(pending := []), line)
  {
  }

  /** The line `name = {v},` that sets one field. */
  function FieldText(name: string, v: string): (line: string)
    ensures |line| == |name| + |v| + 6
  {
    name + " = {" + v + "},"
  }

  /**
   * A field name the field rule reads back as written: it does not start or
   * end with white space, holds no `=` and no brace, and does not start like
   * a header, a comment or a closing line.
   */
  predicate FieldName(name: string)
  {
    name != [] && !IsSpace(name[0]) && !IsSpace(name[|name| - 1]) &&
    name[0] !in "@%}" && '=' !in name && '{' !in name && '}' !in name
  }

  /**
   * A value that unwrapping gives back from `{v},`: its ends are not
   * delimiters and its braces close.
   */
  predicate BareValue(v: string)
  {
    v != [] && v[0] !in Delimiters && v[|v| - 1] !in Delimiters && Occ(v, '{') <= Occ(v, '}')
  }

  /** A stripped line that the field rule reads (nothing is pending). */
  predicate FieldRuleLine(line: string)
  {
    Strip(line) == line && !Skipped(line) && line[0] != '@'
  }

  /** The field rule on `line` stores `value` under `name`. */
  predicate Stores(line: string, name: string, value: string)
  {
    '=' in line && Occ(line, '{') <= Occ(line, '}') &&
    Strip(line[..IndexOf(line, '=')]) == name &&
    EdgeTrim(Strip(line[IndexOf(line, '=') + 1..]), Delimiters, 1) == value
  }

  /** The brace counts of `name = {v},` are those of `v`, plus one each. */
  lemma FieldLineBraces(name: string, v: string)
    requires '{' !in name && '}' !in name
    ensures Occ(FieldText(name, v), '{') == Occ(v, '{') + 1
    ensures Occ(FieldText(name, v), '}') == Occ(v, '}') + 1
  {
    assert FieldText(name, v) == (name + " = {") + v + "},";
    OccAppend(name + " = {" + v, "},", '{');
    OccAppend(name + " = {", v, '{');
    OpeningBraces(name, []);
    assert name + " = {" + [] == name + " = {";
    OccAppend(name + " = {" + v, "},", '}');
    OccAppend(name + " = {", v, '}');
  }

  /** `name = {v},` splits at its first `=` into `name ` and ` {v},`. */
  lemma FieldLineSplit(name: string, v: string)
    requires FieldName(name)
    ensures '=' in FieldText(name, v)
    ensures var line := FieldText(name, v);
      var i := IndexOf(line, '=');
      Strip(line[..i]) == name && Strip(line[i + 1..]) == "{" + v + "},"
  {
    FirstEquals(name, v);
    NameSide(name, v);
    ValueSide(name, v);
  }

  /** Before the `=` of `name = {v},` is `name` and a space. */
  lemma NameSide(name: string, v: string)
    requires FieldName(name)
    ensures Strip(FieldText(name, v)[..|name| + 1]) == name
  {
    assert FieldText(name, v)[..|name| + 1] == [] + name + " ";
    StripPadded([], name, " ");
  }

  /** After the `=` of `name = {v},` is a space and `{v},`. */
  lemma ValueSide(name: string, v: string)
    ensures Strip(FieldText(name, v)[|name| + 2..]) == "{" + v + "},"
  {
    assert FieldText(name, v)[|name| + 2..] == " " + ("{" + v + "},") + [];
    StripPadded(" ", "{" + v + "},", []);
  }

  /** The first `=` of `name = {v},` is the one after the name. */
  lemma FirstEquals(name: string, v: string)
    requires '=' !in name
    ensures '=' in FieldText(name, v) && IndexOf(FieldText(name, v), '=') == |name| + 1
  {
    var line := FieldText(name, v);
    assert line[|name| + 1] == '=';
    assert line[..|name| + 1] == name + " ";
    assert '=' !in name + " ";
  }

  /**
   * A balanced field line `name = {v},` stores `v` under `name` in the entry
   * opened last, for a plain name and a value that is not itself wrapped in
   * further delimiters.
   */
  lemma FieldLine(st: State, name: string, v: string)
    requires Inv(st) && st.pending == [] && st.current.Some?
    requires FieldName(name) && BareValue(v)
    ensures Step(st, FieldText(name, v)) ==
      Ok(State(st.bib.SetField(st.current.value, name, v), st.current, []))
  {
    var line := FieldText(name, v);
    FieldLineText(name, v);
    FieldLineValue(name, v);
    StepOnFieldLine(st, line);
    StoreField(st, line, name, v);
  }

  /** `name = {v},` is stripped already and the field rule reads it. */
  lemma FieldLineText(name: string, v: string)
    requires FieldName(name) && BareValue(v)
    ensures FieldRuleLine(FieldText(name, v))
    ensures '=' in FieldText(name, v)
    ensures Occ(FieldText(name, v), '{') <= Occ(FieldText(name, v), '}')
  {
    var line := FieldText(name, v);
    StripStripped(line);
    assert line[0] == name[0];
    FirstEquals(name, v);
    FieldLineBraces(name, v);
  }

  /** The field rule on `name = {v},` stores `v` under `name`. */
  lemma FieldLineValue(name: string, v: string)
    requires FieldName(name) && BareValue(v)
    ensures Stores(FieldText(name, v), name, v)
  {
    FieldLineSplit(name, v);
    FieldLineBraces(name, v);
    UnwrapRoundTrip(v);
  }

  /** With nothing pending, a line the field rule reads goes to it. */
  lemma StepOnFieldLine(st: State, line: string)
    requires Inv(st) && st.pending == [] && FieldRuleLine(line)
    ensures Step(st, line) == FieldOrContinue(st, line)
  {
  }

  /** The branches of a non-`@` line that store nothing. */
  lemma FieldCases(st: State, line: string)
    requires Inv(st) && line != [] && line[0] != '@'
    ensures '=' !in line ==> FieldOrContinue(st, line) == Err(MissingEquals(line))
    ensures '=' in line && Occ(line, '{') > Occ(line, '}') ==>
      FieldOrContinue(st, line) == Ok(st.(pending := line))
    ensures '=' in line && Occ(line, '{') <= Occ(line, '}') && st.current.None? ==>
      FieldOrContinue(st, line) == Err(NoEntry(line))
  {
  }

  /** A balanced line with `=` stores its unwrapped value in the current entry. */
  lemma StoreField(st: State, line: string, name: string, value: string)
    requires Inv(st) && st.current.Some? && line != [] && line[0] != '@'
    requires Stores(line, name, value)
    ensures FieldOrContinue(st, line) == Ok(State(st.bib.SetField(st.current.value, name, value), st.current, []))
  {
  }

  /**
   * The first part of a value spread over two lines: not empty, no braces,
   * no leading comma and no trailing white space.
   */
  predicate OpeningPiece(v1: string)
  {
    v1 != [] && v1[0] != ',' && !IsSpace(v1[|v1| - 1]) && '{' !in v1 && '}' !in v1
  }

  /**
   * The second part: not empty, no braces, no trailing comma, and it starts
   * with neither white space nor `%` (a line starting with `%` is a comment).
   */
  predicate ClosingPiece(v2: string)
  {
    v2 != [] && !IsSpace(v2[0]) && v2[0] != '%' && v2[|v2| - 1] != ',' && '{' !in v2 && '}' !in v2
  }

  /**
   * A value spread over two lines, `name = {v1` then ` v2},`, is read as the
   * single value `v1 v2`: the held-back line and the next one are joined with
   * one space before the value is unwrapped.
   */
  lemma ContinuedField(st: State, name: string, v1: string, v2: string, rest: seq<string>)
    requires Inv(st) && st.pending == [] && st.current.Some?
    requires FieldName(name) && OpeningPiece(v1) && ClosingPiece(v2)
    ensures ParseFrom(st, [name + " = {" + v1, " " + v2 + "},"] + rest) ==
      ParseFrom(State(st.bib.SetField(st.current.value, name, v1 + " " + v2), st.current, []), rest)
  {
    var a, b := name + " = {" + v1, " " + v2 + "},";
    var joined := Strip(a) + " " + Strip(b);
    ContinuedFieldText(name, v1, v2);
    ContinuationJoin(st, a, b, rest);
    FieldLine(st, name, v1 + " " + v2);
    ParseFromCons(st, joined, rest);
  }

  /** The text facts behind `ContinuedField`. */
  lemma ContinuedFieldText(name: string, v1: string, v2: string)
    requires FieldName(name) && OpeningPiece(v1) && ClosingPiece(v2)
    ensures var a, b := name + " = {" + v1, " " + v2 + "},";
      !Skipped(Strip(a)) && Strip(a)[0] != '@' && '=' in Strip(a) &&
      Occ(Strip(a), '{') > Occ(Strip(a), '}') && !Skipped(Strip(b)) &&
      Strip(a) + " " + Strip(b) == FieldText(name, v1 + " " + v2)
    ensures BareValue(v1 + " " + v2)
  {
    var a, b := name + " = {" + v1, " " + v2 + "},";
    OpeningLine(name, v1);
    ClosingLine(v2);
    assert (v2 + "},")[0] == v2[0];
    JoinedFieldText(name, v1, v2);
    JoinedValue(v1, v2);
  }

  /** Joining `name = {v1` and `v2},` with a space gives `name = {v1 v2},`. */
  lemma JoinedFieldText(name: string, v1: string, v2: string)
    ensures (name + " = {" + v1) + " " + (v2 + "},") == FieldText(name, v1 + " " + v2)
  {
  }

  /** The joined value `v1 v2` is bare. */
  lemma JoinedValue(v1: string, v2: string)
    requires OpeningPiece(v1) && ClosingPiece(v2)
    ensures BareValue(v1 + " " + v2)
  {
    var v := v1 + " " + v2;
    OccZero(v, '{');
  }

  /** `name = {v1` is stripped already, holds `=` and one unbalanced `{`. */
  lemma OpeningLine(name: string, v1: string)
    requires FieldName(name) && OpeningPiece(v1)
    ensures var a := name + " = {" + v1;
      Strip(a) == a && !Skipped(a) && a[0] != '@' && '=' in a && Occ(a, '{') == 1 && Occ(a, '}') == 0
  {
    var a := name + " = {" + v1;
    StripStripped(a);
    assert a[0] == name[0];
    assert a[|name| + 1] == '=';
    OpeningBraces(name, v1);
  }

  /** `name = {v1` holds one `{` and no `}`. */
  lemma OpeningBraces(name: string, v1: string)
    requires '{' !in name && '}' !in name && '{' !in v1 && '}' !in v1
    ensures Occ(name + " = {" + v1, '{') == 1 && Occ(name + " = {" + v1, '}') == 0
  {
    assert name + " = {" == (name + " = ") + "{";
    OccAppend(name, " = ", '{');
    OccAppend(name + " = ", "{", '{');
    OccAppend(name + " = {", v1, '{');
    OccAppend(name, " = ", '}');
    OccAppend(name + " = ", "{", '}');
    OccAppend(name + " = {", v1, '}');
    OccZero(name, '{');
    OccZero(name, '}');
    OccZero(v1, '{');
    OccZero(v1, '}');
  }

  /** ` v2},` strips to `v2},`. */
  lemma ClosingLine(v2: string)
    requires ClosingPiece(v2)
    ensures Strip(" " + v2 + "},") == v2 + "},"
  {
    StripPadded(" ", v2 + "},", []);
    assert " " + (v2 + "},") + [] == " " + v2 + "},";
  }

  // ---------------------------------------------------------------------------
  // The imperative reader
  // ---------------------------------------------------------------------------

  /** A line that steps to `next` hands the rest of the file to `next`. */
  lemma StepThen(st: State, lines: seq<string>, n: nat, next: State)
    requires Inv(st) && n < |lines| && Step(st, lines[n]) == Ok(next)
    ensures Inv(next) && ParseFrom(st, lines[n..]) == ParseFrom(next, lines[n + 1..])
  {
    Advance(st, lines, n);
  }

  /** Reading from line `n` on is one step on line `n`, then reading the rest. */
  lemma Advance(st: State, lines: seq<string>, n: nat)
    requires Inv(st) && n < |lines|
    ensures ParseFrom(st, lines[n..]) ==
      var first := Step(st, lines[n]);
      if first.Err? then Err(first.error) else ParseFrom(first.value, lines[n + 1..])
  {
    assert lines[n..] == [lines[n]] + lines[n + 1..];
    ParseFromCons(st, lines[n], lines[n + 1..]);
  }

  /** A line that fails ends the reading with its error. */
  lemma StepFails(st: State, lines: seq<string>, n: nat, e: ParseError)
    requires Inv(st) && n < |lines| && Step(st, lines[n]) == Err(e)
    ensures ParseFrom(st, lines[n..]) == Err(e)
  {
    Advance(st, lines, n);
  }

  /** How one line is dispatched: skipped, a header, or a field line. */
  lemma StepCases(st: State, raw: string)
    requires Inv(st)
    ensures Skipped(Strip(raw)) ==> Step(st, raw) == Ok(st)
    ensures !Skipped(Strip(raw)) ==>
      var line := Joined(st.pending, Strip(raw));
      (line[0] == '@' ==> st.pending == [] && Step(st, raw) == OpenEntry(st, line)) &&
      (line[0] != '@' ==> Step(st, raw) == FieldOrContinue(st, line))
  {
  }

  /**
   * One pass of the `for line in lines` body of `_read_bibtex_from_file`, on
   * the variables `bibs`, `entry` and `previous_line` it carries over; a
   * failed assertion or unpacking ends the loop with an error.
   */
  method ReadLine(bibs: Bib, entry: Option<string>, previousLine: string, raw: string)
    returns (r: Result<State, ParseError>)
    requires Inv(State(bibs, entry, previousLine))
    ensures r == Step(State(bibs, entry, previousLine), raw)
  {
    ghost var st := State(bibs, entry, previousLine);
    StepCases(st, raw);
    var line := Strip(raw);
    if Skipped(line) {
      return Ok(State(bibs, entry, previousLine));
    }
    line := if previousLine != [] then previousLine + " " + line else line;
    if line[0] == '@' {
      assert previousLine == [];
      r := ReadHeader(bibs, entry, line);
    } else {
      r := ReadField(bibs, entry, previousLine, line);
    }
  }

  /** The `line.startswith("@")` branch: a new entry under the cite key. */
  method ReadHeader(bibs: Bib, entry: Option<string>, line: string)
    returns (r: Result<State, ParseError>)
    requires Inv(State(bibs, entry, []))
    ensures r == OpenEntry(State(bibs, entry, []), line)
  {
    var parts := Split(line, "{");
    if |parts| != 2 {
      return Err(BadHeader(line));
    }
    var citeType, citeName := parts[0], parts[1];
    var key := Strip(Without(citeName, ','));
    return Ok(State(bibs.Insert(key, map[CiteTypeKey := Strip(Without(citeType, ','))]), Some(key), []));
  }

  /** The other branch: hold an unbalanced line back, or store one field. */
  method ReadField(bibs: Bib, entry: Option<string>, previousLine: string, line: string)
    returns (r: Result<State, ParseError>)
    requires Inv(State(bibs, entry, previousLine)) && line != [] && line[0] != '@'
    ensures r == FieldOrContinue(State(bibs, entry, previousLine), line)
  {
    FieldCases(State(bibs, entry, previousLine), line);
    if '=' !in line {
      return Err(MissingEquals(line));
    }
    if Occ(line, '{') > Occ(line, '}') {
      return Ok(State(bibs, entry, line));
    }
    if entry.None? {
      return Err(NoEntry(line));
    }
    var name, value := SplitField(line);
    StoreField(State(bibs, entry, previousLine), line, name, value);
    return Ok(State(bibs.SetField(entry.value, name, value), entry, []));
  }

  /** `key, value = line.split("=", 1)`, stripped and unwrapped as they are stored. */
  method SplitField(line: string) returns (name: string, value: string)
    requires '=' in line && Occ(line, '{') <= Occ(line, '}')
    ensures Stores(line, name, value)
  {
    var i := IndexOf(line, '=');
    var key, rest := line[..i], line[i + 1..];
    name := Strip(key);
    value := RemoveUpTo(Strip(rest), Delimiters, 1);
  }

  /** `_read_bibtex_from_file`, over the lines `f.readlines()` returned. */
  method ReadBibtex(lines: seq<string>) returns (r: Result<Bib, ParseError>)
    ensures r == Parse(lines)
  {
    var bibs := Empty;
    var previousLine: string := [];
    var entry: Option<string> := None;
    var n := 0;
    while n < |lines|
      invariant 0 <= n <= |lines|
      invariant Inv(State(bibs, entry, previousLine))
      invariant ParseFrom(Start, lines) == ParseFrom(State(bibs, entry, previousLine), lines[n..])
    {
      ghost var st := State(bibs, entry, previousLine);
      var next := ReadLine(bibs, entry, previousLine, lines[n]);
      if next.Err? {
        StepFails(st, lines, n, next.error);
        return Err(next.error);
      }
      StepThen(st, lines, n, next.value);
      bibs, entry, previousLine := next.value.bib, next.value.current, next.value.pending;
      n := n + 1;
    }
    assert lines[n..] == [];
    return Ok(bibs);
  }
}
