/**
 * The edge-trim helper `_remove_up_to(in_string, chars, times)` of
 * bibtex_to_xlsx.py: it counts, per character of `chars`, how many of the
 * leading characters of the string it may cut (each at most `times` times,
 * stopping at the first character that is not in `chars` or is used up), does
 * the same from the back, and returns the slice
 * `in_string[num_to_cut_before:-num_to_cut_after]`.
 *
 * Because `-0 == 0` in Python, a string from which nothing is cut at the back
 * comes out empty; the model keeps that, through `PySlice`.
 */
module Unwrap {
  import opened Text

  /** The characters the parser unwraps from field values. */
  const Delimiters: string := "{},"

  /**
   * The loop's test on the character at position `i`, all of `s[..i]` having
   * been cut already: it is one of `chars`, and its counter (its number of
   * occurrences in `s[..i]`) is still below `times`.
   */
  predicate Cuttable(s: string, i: nat, chars: string, times: int)
    requires i < |s|
  {
    s[i] in chars && Occ(s[..i], s[i]) < times
  }

  /** Where the cutting loop stops, having got as far as position `i`. */
  function CutFrom(s: string, i: nat, chars: string, times: int): (k: nat)
    requires i <= |s|
    ensures i <= k <= |s|
    decreases |s| - i
  {
    if i < |s| && Cuttable(s, i, chars, times) then CutFrom(s, i + 1, chars, times) else i
  }

  /** `num_to_cut_before`. */
  function LeadingCut(s: string, chars: string, times: int): (k: nat)
    ensures k <= |s|
  {
    CutFrom(s, 0, chars, times)
  }

  /** `num_to_cut_after`: the same loop run over `s[::-1]`. */
  function TrailingCut(s: string, chars: string, times: int): nat
  {
    LeadingCut(Reverse(s), chars, times)
  }

  /** The value `_remove_up_to(s, chars, times)` returns. */
  function EdgeTrim(s: string, chars: string, times: int): string
  {
    PySlice(s, LeadingCut(s, chars, times), -(TrailingCut(s, chars, times) as int))
  }

  /** The cut prefix: every one of its characters passed the loop's test. */
  ghost predicate CutPrefix(s: string, k: nat, chars: string, times: int)
    requires k <= |s|
  {
    forall j :: 0 <= j < k ==> Cuttable(s, j, chars, times)
  }

  lemma {:induction false} CutFromSpec(s: string, i: nat, chars: string, times: int)
    requires i <= |s| && CutPrefix(s, i, chars, times)
    ensures i <= CutFrom(s, i, chars, times) <= |s|
    ensures CutPrefix(s, CutFrom(s, i, chars, times), chars, times)
    ensures CutFrom(s, i, chars, times) < |s| ==> !Cuttable(s, CutFrom(s, i, chars, times), chars, times)
    decreases |s| - i
  {
    if i < |s| && Cuttable(s, i, chars, times) {
      CutFromSpec(s, i + 1, chars, times);
    }
  }

  /**
   * The leading cut is the longest prefix whose characters all pass the loop's
   * test: each is in `chars` and occurs fewer than `times` times before it.
   */
  lemma LeadingCutSpec(s: string, chars: string, times: int)
    ensures LeadingCut(s, chars, times) <= |s|
    ensures CutPrefix(s, LeadingCut(s, chars, times), chars, times)
    ensures LeadingCut(s, chars, times) < |s| ==> !Cuttable(s, LeadingCut(s, chars, times), chars, times)
  {
    CutFromSpec(s, 0, chars, times);
  }

  /**
   * The result is `s[before..|s| - after]` when something is cut at the back
   * and the two cuts do not meet; otherwise it is empty.
   */
  lemma EdgeTrimSlice(s: string, chars: string, times: int)
    ensures var b, a := LeadingCut(s, chars, times), TrailingCut(s, chars, times);
      a <= |s| &&
      EdgeTrim(s, chars, times) == if a > 0 && b + a < |s| then s[b..|s| - a] else []
  {
    LeadingCutSpec(s, chars, times);
    LeadingCutSpec(Reverse(s), chars, times);
  }

  /** Nothing is cut at the back, and so nothing is returned, unless `s` ends in one of `chars`. */
  lemma EmptyUnlessClosed(s: string, chars: string, times: int)
    requires s == [] || s[|s| - 1] !in chars || times <= 0
    ensures TrailingCut(s, chars, times) == 0
    ensures EdgeTrim(s, chars, times) == []
  {
    if s != [] {
      assert Reverse(s)[0] == s[|s| - 1];
      assert Reverse(s)[..0] == [];
    }
  }

  lemma CutOnceDistinct(s: string, k: nat, chars: string)
    requires k <= |s| && CutPrefix(s, k, chars, 1)
    ensures forall j :: 0 <= j < k ==> s[j] in chars
    ensures forall i, j :: 0 <= i < j < k ==> s[i] != s[j]
  {
    forall i, j | 0 <= i < j < k
      ensures s[i] != s[j]
    {
      assert Cuttable(s, j, chars, 1);
      OccZero(s[..j], s[j]);
      assert s[i] == s[..j][i];
    }
    forall j | 0 <= j < k
      ensures s[j] in chars
    {
      assert Cuttable(s, j, chars, 1);
    }
  }

  /** Among any four delimiters, two are the same character. */
  lemma FourDelimiters(a: char, b: char, c: char, d: char)
    requires a in Delimiters && b in Delimiters && c in Delimiters && d in Delimiters
    ensures a == b || a == c || a == d || b == c || b == d || c == d
  {
  }

  /** A run of pairwise distinct delimiters is at most three long. */
  lemma AtMostThreeDistinctDelimiters(s: string, k: nat)
    requires k <= |s|
    requires forall j :: 0 <= j < k ==> s[j] in Delimiters
    requires forall i, j :: 0 <= i < j < k ==> s[i] != s[j]
    ensures k <= 3
  {
    if k > 3 {
      FourDelimiters(s[0], s[1], s[2], s[3]);
      assert false;
    }
  }

  /**
   * With the parser's arguments `("{},", 1)`: at most three characters are
   * cut at each end, every cut character is a delimiter, and no delimiter is
   * cut twice at the same end.
   */
  lemma DelimiterCuts(s: string)
    ensures var b, a := LeadingCut(s, Delimiters, 1), TrailingCut(s, Delimiters, 1);
      b <= 3 && a <= 3 && b <= |s| && a <= |s| &&
      (forall j :: 0 <= j < b ==> s[j] in Delimiters) &&
      (forall i, j :: 0 <= i < j < b ==> s[i] != s[j]) &&
      (forall j :: |s| - a <= j < |s| ==> s[j] in Delimiters) &&
      (forall i, j :: |s| - a <= i < j < |s| ==> s[i] != s[j])
  {
    var b, a := LeadingCut(s, Delimiters, 1), TrailingCut(s, Delimiters, 1);
    var r := Reverse(s);
    LeadingCutSpec(s, Delimiters, 1);
    LeadingCutSpec(r, Delimiters, 1);
    CutOnceDistinct(s, b, Delimiters);
    CutOnceDistinct(r, a, Delimiters);
    AtMostThreeDistinctDelimiters(s, b);
    AtMostThreeDistinctDelimiters(r, a);
    forall j | |s| - a <= j < |s|
      ensures s[j] in Delimiters
    {
      assert s[j] == r[|s| - 1 - j];
    }
    forall i, j | |s| - a <= i < j < |s|
      ensures s[i] != s[j]
    {
      assert s[i] == r[|s| - 1 - i] && s[j] == r[|s| - 1 - j];
    }
  }

  /**
   * Unwrapping undoes the wrappings a BibTeX value comes in: `{v}`, `{v},`
   * and `v,` all give back `v`, for a non-empty `v` that neither starts nor
   * ends with a delimiter.
   */
  lemma UnwrapRoundTrip(v: string)
    requires v != [] && v[0] !in Delimiters && v[|v| - 1] !in Delimiters
    ensures EdgeTrim("{" + v + "}", Delimiters, 1) == v
    ensures EdgeTrim("{" + v + "},", Delimiters, 1) == v
    ensures EdgeTrim(v + ",", Delimiters, 1) == v
  {
    UnwrapBraced(v);
    UnwrapBracedComma(v);
    UnwrapComma(v);
  }

  lemma UnwrapBraced(v: string)
    requires v != [] && v[0] !in Delimiters && v[|v| - 1] !in Delimiters
    ensures EdgeTrim("{" + v + "}", Delimiters, 1) == v
  {
    var s := "{" + v + "}";
    var r := Reverse(s);
    assert r[0] == '}' && r[1] == v[|v| - 1];
    assert s[..0] == r[..0] == [] && s[..1] == "{" && r[..1] == "}";
    assert Cuttable(s, 0, Delimiters, 1) && !Cuttable(s, 1, Delimiters, 1);
    assert Cuttable(r, 0, Delimiters, 1) && !Cuttable(r, 1, Delimiters, 1);
    assert CutFrom(s, 0, Delimiters, 1) == CutFrom(s, 1, Delimiters, 1) == 1;
    assert CutFrom(r, 0, Delimiters, 1) == CutFrom(r, 1, Delimiters, 1) == 1;
    assert s[1..|s| - 1] == v;
  }

  lemma UnwrapBracedComma(v: string)
    requires v != [] && v[0] !in Delimiters && v[|v| - 1] !in Delimiters
    ensures EdgeTrim("{" + v + "},", Delimiters, 1) == v
  {
    var s := "{" + v + "},";
    var r := Reverse(s);
    assert r[0] == ',' && r[1] == '}' && r[2] == v[|v| - 1];
    assert s[..0] == r[..0] == [] && s[..1] == "{" && r[..1] == "," && r[..2] == ",}";
    assert Cuttable(s, 0, Delimiters, 1) && !Cuttable(s, 1, Delimiters, 1);
    assert Cuttable(r, 0, Delimiters, 1) && Cuttable(r, 1, Delimiters, 1) && !Cuttable(r, 2, Delimiters, 1);
    assert CutFrom(s, 0, Delimiters, 1) == CutFrom(s, 1, Delimiters, 1) == 1;
    assert CutFrom(r, 0, Delimiters, 1) == CutFrom(r, 1, Delimiters, 1) == CutFrom(r, 2, Delimiters, 1) == 2;
    assert s[1..|s| - 2] == v;
  }

  lemma UnwrapComma(v: string)
    requires v != [] && v[0] !in Delimiters && v[|v| - 1] !in Delimiters
    ensures EdgeTrim(v + ",", Delimiters, 1) == v
  {
    var s := v + ",";
    var r := Reverse(s);
    assert r[0] == ',' && r[1] == v[|v| - 1];
    assert s[..0] == r[..0] == [] && r[..1] == ",";
    assert !Cuttable(s, 0, Delimiters, 1);
    assert Cuttable(r, 0, Delimiters, 1) && !Cuttable(r, 1, Delimiters, 1);
    assert CutFrom(s, 0, Delimiters, 1) == 0;
    assert CutFrom(r, 0, Delimiters, 1) == CutFrom(r, 1, Delimiters, 1) == 1;
    assert s[0..|s| - 1] == v;
  }

  // ---------------------------------------------------------------------------
  // The imperative helper
  // ---------------------------------------------------------------------------

  /**
   * The sum of a counter dictionary's values, one per distinct key of `keys`
   * (`sum(count.values())` for a dictionary built over `set(keys)`).
   */
  function DistinctSum(keys: string, count: map<char, int>): int
    requires forall c :: c in keys ==> c in count
  {
    if keys == [] then 0
    else
      var last := keys[|keys| - 1];
      DistinctSum(keys[..|keys| - 1], count) + (if last in keys[..|keys| - 1] then 0 else count[last])
  }

  /** The number of characters of `p` that are in `keys`. */
  function CountIn(p: string, keys: string): nat
  {
    if p == [] then 0 else (if p[0] in keys then 1 else 0) + CountIn(p[1..], keys)
  }

  lemma {:induction false} CountInExtend(p: string, keys: string, k: char)
    ensures CountIn(p, keys + [k]) == CountIn(p, keys) + (if k in keys then 0 else Occ(p, k))
  {
    if p != [] {
      CountInExtend(p[1..], keys, k);
    }
  }

  lemma {:induction false} CountInNone(p: string)
    ensures CountIn(p, []) == 0
  {
    if p != [] {
      CountInNone(p[1..]);
    }
  }

  lemma {:induction false} CountInAll(p: string, keys: string)
    requires forall j :: 0 <= j < |p| ==> p[j] in keys
    ensures CountIn(p, keys) == |p|
  {
    if p != [] {
      CountInAll(p[1..], keys);
    }
  }

  /** Summing per-key counters of `p` over the distinct keys counts the characters of `p` among the keys. */
  lemma {:induction false} DistinctSumCounts(keys: string, count: map<char, int>, p: string)
    requires forall c :: c in keys ==> c in count && count[c] == Occ(p, c)
    ensures DistinctSum(keys, count) == CountIn(p, keys)
  {
    if keys != [] {
      var init, last := keys[..|keys| - 1], keys[|keys| - 1];
      DistinctSumCounts(init, count, p);
      assert init + [last] == keys;
      CountInExtend(p, init, last);
      assert last in keys;
    } else {
      CountInNone(p);
    }
  }

  /**
   * One cutting loop of `_remove_up_to`: walks `s` from the front, bumping
   * the counter of each character it cuts, and stops at the first character
   * that is not in `chars` or whose counter has reached `times`.
   */
  method CountCuts(s: string, chars: string, times: int) returns (count: map<char, int>)
    ensures forall c :: c in count <==> c in chars
    ensures forall c :: c in count ==> count[c] == Occ(s[..LeadingCut(s, chars, times)], c)
  {
    count := map c | c in chars :: 0;
    var i := 0;
    while i < |s|
      invariant 0 <= i <= |s|
      invariant CutFrom(s, i, chars, times) == LeadingCut(s, chars, times)
      invariant forall c :: c in count <==> c in chars
      invariant forall c :: c in count ==> count[c] == Occ(s[..i], c)
    {
      var cb := s[i];
      if cb !in chars || count[cb] >= times {
        break;
      }
      OccAppend(s[..i], [cb], cb);
      assert s[..i + 1] == s[..i] + [cb];
      forall c | c in count && c != cb
        ensures Occ(s[..i + 1], c) == Occ(s[..i], c)
      {
        OccAppend(s[..i], [cb], c);
      }
      count := count[cb := count[cb] + 1];
      i := i + 1;
    }
  }

  /** `sum(count.values())` for a counter dictionary keyed by `set(chars)`. */
  method SumCounts(chars: string, count: map<char, int>) returns (total: int)
    requires forall c :: c in chars ==> c in count
    ensures total == DistinctSum(chars, count)
  {
    total := 0;
    var j := 0;
    while j < |chars|
      invariant 0 <= j <= |chars|
      invariant total == DistinctSum(chars[..j], count)
    {
      assert chars[..j + 1][..j] == chars[..j];
      if chars[j] !in chars[..j] {
        total := total + count[chars[j]];
      }
      j := j + 1;
    }
    assert chars[..j] == chars;
  }

  /** The number of characters a cutting loop's counters add up to. */
  lemma CutCountersSum(s: string, chars: string, times: int, count: map<char, int>)
    requires forall c :: c in count <==> c in chars
    requires forall c :: c in count ==> count[c] == Occ(s[..LeadingCut(s, chars, times)], c)
    ensures DistinctSum(chars, count) == LeadingCut(s, chars, times)
  {
    var k := LeadingCut(s, chars, times);
    LeadingCutSpec(s, chars, times);
    DistinctSumCounts(chars, count, s[..k]);
    forall j | 0 <= j < k ensures s[..k][j] in chars {
      assert Cuttable(s, j, chars, times);
    }
    CountInAll(s[..k], chars);
  }

  /** `_remove_up_to(in_string, chars, times)`. */
  method RemoveUpTo(s: string, chars: string, times: int) returns (r: string)
    ensures r == EdgeTrim(s, chars, times)
  {
    var countBefore := CountCuts(s, chars, times);
    var countAfter := CountCuts(Reverse(s), chars, times);
    var numToCutBefore := SumCounts(chars, countBefore);
    var numToCutAfter := SumCounts(chars, countAfter);
    CutCountersSum(s, chars, times, countBefore);
    CutCountersSum(Reverse(s), chars, times, countAfter);
    r := PySlice(s, numToCutBefore, -numToCutAfter);
  }
}
