/**
 * The Python string operations the script relies on, as pure functions over
 * `string` (= `seq<char>`): `str.strip()`, `str.split(sep)`, `sep.join(...)`,
 * `sep in s`, `str.count(c)`, `str.replace(c, d)`, slicing `s[i:j]` with
 * negative indices, `s[::-1]` and `str(n)` for natural numbers.
 */
module Text {

  // ---------------------------------------------------------------------------
  // Whitespace and str.strip()
  // ---------------------------------------------------------------------------

  /** Python's `str.isspace()` for a single character. */
  predicate IsSpace(c: char) {
    ('\t' <= c <= '\r') || ('\U{1c}' <= c <= ' ') || c == '\U{85}' || c == '\U{a0}' ||
    c == '\U{1680}' || ('\U{2000}' <= c <= '\U{200a}') || c == '\U{2028}' || c == '\U{2029}' ||
    c == '\U{202f}' || c == '\U{205f}' || c == '\U{3000}'
  }

  /** `s.lstrip()`: drops the leading whitespace, and only that. */
  function StripLeft(s: string): (r: string)
    ensures |r| <= |s| && r == s[|s| - |r|..]
    ensures r == [] || !IsSpace(r[0])
    ensures forall i :: 0 <= i < |s| - |r| ==> IsSpace(s[i])
  {
    if s != [] && IsSpace(s[0]) then StripLeft(s[1..]) else s
  }

  /** `s.rstrip()`: drops the trailing whitespace, and only that. */
  function StripRight(s: string): (r: string)
    ensures |r| <= |s| && r == s[..|r|]
    ensures r == [] || !IsSpace(r[|r| - 1])
    ensures forall i :: |r| <= i < |s| ==> IsSpace(s[i])
  {
    if s != [] && IsSpace(s[|s| - 1]) then StripRight(s[..|s| - 1]) else s
  }

  /** `s.strip()`. */
  function Strip(s: string): (r: string)
    ensures r == [] || (!IsSpace(r[0]) && !IsSpace(r[|r| - 1]))
    ensures forall c :: c in r ==> c in s
  {
    StripRight(StripLeft(s))
  }

  /** The stripped string is a slice of the original. */
  lemma StripIsSlice(s: string) returns (b: nat)
    ensures b + |Strip(s)| <= |s| && Strip(s) == s[b..b + |Strip(s)|]
  {
    var left := StripLeft(s);
    b := |s| - |left|;
    var t := StripRight(left);
    assert t == left[..|t|] && left == s[b..];
    SliceOfSuffix(s, b, |t|);
  }

  /** Taking `k` characters of the suffix from `b` is slicing `b` to `b + k`. */
  lemma SliceOfSuffix(s: string, b: nat, k: nat)
    requires b + k <= |s|
    ensures s[b..][..k] == s[b..b + k]
  {
  }

  /** A string that begins and ends with a non-space character is its own strip. */
  lemma StripStripped(s: string)
    requires s != [] && !IsSpace(s[0]) && !IsSpace(s[|s| - 1])
    ensures Strip(s) == s
  {
  }

  /** Leading whitespace before a non-space character is all `lstrip` removes. */
  lemma {:induction false} StripLeftPadded(pre: string, s: string)
    requires forall i :: 0 <= i < |pre| ==> IsSpace(pre[i])
    requires s != [] && !IsSpace(s[0])
    ensures StripLeft(pre + s) == s
  {
    if pre == [] {
      assert pre + s == s;
    } else {
      assert (pre + s)[1..] == pre[1..] + s;
      StripLeftPadded(pre[1..], s);
    }
  }

  /** Trailing whitespace after a non-space character is all `rstrip` removes. */
  lemma {:induction false} StripRightPadded(s: string, post: string)
    requires forall i :: 0 <= i < |post| ==> IsSpace(post[i])
    requires s != [] && !IsSpace(s[|s| - 1])
    ensures StripRight(s + post) == s
  {
    if post == [] {
      assert s + post == s;
    } else {
      assert (s + post)[..|s + post| - 1] == s + post[..|post| - 1];
      StripRightPadded(s, post[..|post| - 1]);
    }
  }

  /** Trailing whitespace alone is what `strip` removes from `s + post`. */
  lemma StripTrailing(s: string, post: string)
    requires forall i :: 0 <= i < |post| ==> IsSpace(post[i])
    requires s != [] && !IsSpace(s[0]) && !IsSpace(s[|s| - 1])
    ensures Strip(s + post) == s
  {
    assert StripLeft(s + post) == s + post;
    StripRightPadded(s, post);
  }

  /** Leading whitespace alone is what `strip` removes from `pre + s`. */
  lemma StripLeading(pre: string, s: string)
    requires forall i :: 0 <= i < |pre| ==> IsSpace(pre[i])
    requires s != [] && !IsSpace(s[0]) && !IsSpace(s[|s| - 1])
    ensures Strip(pre + s) == s
  {
    StripLeftPadded(pre, s);
    assert StripRight(s) == s;
  }

  /** Surrounding whitespace is exactly what `strip` removes. */
  lemma StripPadded(pre: string, s: string, post: string)
    requires forall i :: 0 <= i < |pre| ==> IsSpace(pre[i])
    requires forall i :: 0 <= i < |post| ==> IsSpace(post[i])
    requires s != [] && !IsSpace(s[0]) && !IsSpace(s[|s| - 1])
    ensures Strip(pre + s + post) == s
  {
    assert pre + s + post == pre + (s + post);
    StripLeftPadded(pre, s + post);
    StripRightPadded(s, post);
  }

  // ---------------------------------------------------------------------------
  // Occurrences, substrings
  // ---------------------------------------------------------------------------

  /** `s.count(c)` for a one-character argument. */
  function Occ(s: string, c: char): nat
  {
    if s == [] then 0 else (if s[0] == c then 1 else 0) + Occ(s[1..], c)
  }

  lemma {:induction false} OccAppend(a: string, b: string, c: char)
    ensures Occ(a + b, c) == Occ(a, c) + Occ(b, c)
  {
    if a == [] {
      assert a + b == b;
    } else {
      assert (a + b)[1..] == a[1..] + b;
      OccAppend(a[1..], b, c);
    }
  }

  lemma {:induction false} OccZero(s: string, c: char)
    ensures Occ(s, c) == 0 <==> c !in s
  {
    if s != [] {
      OccZero(s[1..], c);
      assert s == [s[0]] + s[1..];
    }
  }

  /** `sep in s` for strings: `sep` occurs in `s` as a contiguous substring. */
  predicate Contains(s: string, sep: string)
    decreases |s|
  {
    |sep| <= |s| && (s[..|sep|] == sep || Contains(s[1..], sep))
  }

  /** For a one-character separator, substring search is character membership. */
  lemma {:induction false} ContainsChar(s: string, c: char)
    ensures Contains(s, [c]) <==> c in s
  {
    if s != [] {
      ContainsChar(s[1..], c);
      assert s == [s[0]] + s[1..];
    }
  }

  // ---------------------------------------------------------------------------
  // str.split(sep) and sep.join(parts)
  // ---------------------------------------------------------------------------

  /** `sep.join(parts)`. */
  function Join(parts: seq<string>, sep: string): string
  {
    if parts == [] then []
    else if |parts| == 1 then parts[0]
    else parts[0] + sep + Join(parts[1..], sep)
  }

  /**
   * `s.split(sep)` for a non-empty separator: cuts at every occurrence of
   * `sep`, scanning left to right without overlaps. Joining the pieces with
   * `sep` gives `s` back and no piece contains `sep`.
   */
  function Split(s: string, sep: string): (r: seq<string>)
    requires sep != []
    ensures |r| >= 1
    ensures Join(r, sep) == s
    ensures forall i :: 0 <= i < |r| ==> !Contains(r[i], sep)
    decreases |s|
  {
    if |s| < |sep| then [s]
    else if s[..|sep|] == sep then
      var rest := Split(s[|sep|..], sep);
      assert Join([[]] + rest, sep) == [] + sep + Join(rest, sep);
      [[]] + rest
    else
      var rest := Split(s[1..], sep);
      var first := [s[0]] + rest[0];
      SplitExtend(s, sep, rest);
      [first] + rest[1..]
  }

  /**
   * When `s` does not start with `sep`, its first character joins the first
   * piece of the split of the rest.
   */
  lemma SplitExtend(s: string, sep: string, rest: seq<string>)
    requires sep != [] && |s| >= |sep| && s[..|sep|] != sep
    requires |rest| >= 1 && Join(rest, sep) == s[1..]
    requires forall i :: 0 <= i < |rest| ==> !Contains(rest[i], sep)
    ensures var first := [s[0]] + rest[0];
      !Contains(first, sep) && Join([first] + rest[1..], sep) == s
  {
    JoinPrepend(s[0], rest, sep);
    assert [s[0]] + s[1..] == s;
    JoinStartsWith(rest, sep);
    FirstPieceClean(s, sep, rest[0]);
  }

  /**
   * A piece free of `sep`, extended in front by the first character of a
   * string that does not start with `sep`, is still free of `sep`.
   */
  lemma FirstPieceClean(s: string, sep: string, piece: string)
    requires sep != [] && |s| >= |sep| && s[..|sep|] != sep
    requires piece <= s[1..] && !Contains(piece, sep)
    ensures !Contains([s[0]] + piece, sep)
  {
    var first := [s[0]] + piece;
    assert first[1..] == piece;
    if |sep| <= |first| {
      assert first[..|sep|] == s[..|sep|];
    }
  }

  /** Prepending a character to the first piece prepends it to the join. */
  lemma JoinPrepend(c: char, rest: seq<string>, sep: string)
    requires |rest| >= 1
    ensures Join([[c] + rest[0]] + rest[1..], sep) == [c] + Join(rest, sep)
  {
    var parts := [[c] + rest[0]] + rest[1..];
    if |rest| > 1 {
      assert parts[1..] == rest[1..];
    }
  }

  /** The join of several pieces starts with the first piece. */
  lemma JoinStartsWith(parts: seq<string>, sep: string)
    requires |parts| >= 1
    ensures parts[0] <= Join(parts, sep)
  {
  }

  /** Joining two pieces puts the separator between them. */
  lemma JoinTwo(parts: seq<string>, sep: string)
    requires |parts| == 2
    ensures Join(parts, sep) == parts[0] + sep + parts[1]
  {
    assert parts[1..] == [parts[1]];
  }

  /** A string that lacks one of the separator's characters does not contain it. */
  lemma {:induction false} MissingCharNoContains(s: string, sep: string, c: char)
    requires c in sep && c !in s
    ensures !Contains(s, sep)
    decreases |s|
  {
    if |sep| <= |s| {
      assert c !in s[..|sep|];
      MissingCharNoContains(s[1..], sep, c);
    }
  }

  /** A string without the separator splits into itself alone. */
  lemma {:induction false} NoSepSplit(s: string, sep: string)
    requires sep != [] && !Contains(s, sep)
    ensures Split(s, sep) == [s]
    decreases |s|
  {
    if |s| >= |sep| {
      NoSepSplit(s[1..], sep);
    }
  }

  /**
   * `x + sep + y` splits into `[x, y]` when no occurrence of `sep` starts
   * before the one placed between them and `y` has none.
   */
  lemma SplitOnce(x: string, sep: string, y: string)
    requires sep != [] && !Contains(x + sep[..|sep| - 1], sep) && !Contains(y, sep)
    ensures Split(x + sep + y, sep) == [x, y]
  {
    SplitAfter(x, sep, y);
    NoSepSplit(y, sep);
  }

  /** The first piece ends at the first occurrence of `sep`. */
  lemma {:induction false} SplitAfter(x: string, sep: string, z: string)
    requires sep != [] && !Contains(x + sep[..|sep| - 1], sep)
    ensures Split(x + sep + z, sep) == [x] + Split(z, sep)
    decreases |x|
  {
    var s := x + sep + z;
    if x == [] {
      assert s[..|sep|] == sep && s[|sep|..] == z;
    } else {
      NoEarlySep(x, sep, z);
      assert s[1..] == x[1..] + sep + z;
      SplitAfter(x[1..], sep, z);
      assert [x[0]] + x[1..] == x;
    }
  }

  /** No occurrence of `sep` starts at the front of `x + sep + y`, nor inside `x[1..]`. */
  lemma NoEarlySep(x: string, sep: string, y: string)
    requires sep != [] && x != [] && !Contains(x + sep[..|sep| - 1], sep)
    ensures (x + sep + y)[..|sep|] != sep
    ensures !Contains(x[1..] + sep[..|sep| - 1], sep)
  {
    var w := x + sep[..|sep| - 1];
    assert w[..|sep|] != sep;
    assert (x + sep + y)[..|sep|] == w[..|sep|];
    assert w[1..] == x[1..] + sep[..|sep| - 1];
  }

  /** Splitting on a character that does not occur gives the whole string. */
  lemma {:induction false} SplitAbsent(s: string, c: char)
    requires c !in s
    ensures Split(s, [c]) == [s]
  {
    if |s| >= 1 {
      assert s[..1] == [s[0]];
      SplitAbsent(s[1..], c);
      assert [s[0]] + s[1..] == s;
    }
  }

  /** Splitting `a + [c] + b` where `a` is free of `c` cuts right after `a`. */
  lemma {:induction false} SplitAtFirst(a: string, c: char, b: string)
    requires c !in a
    ensures Split(a + [c] + b, [c]) == [a] + Split(b, [c])
  {
    var s := a + [c] + b;
    if a == [] {
      assert s[..1] == [c] && s[1..] == b;
    } else {
      assert s[..1] == [a[0]];
      assert s[1..] == a[1..] + [c] + b;
      SplitAtFirst(a[1..], c, b);
      assert [a[0]] + a[1..] == a;
    }
  }

  /** `s.split(c)` has exactly one more piece than `s` has occurrences of `c`. */
  lemma {:induction false} SplitCount(s: string, c: char)
    ensures |Split(s, [c])| == Occ(s, c) + 1
  {
    if |s| >= 1 {
      assert s[..1] == [s[0]];
      SplitCount(s[1..], c);
    }
  }

  /** The last piece of `s.split(sep)` is what follows the last `sep`. */
  lemma {:induction false} JoinLast(parts: seq<string>, sep: string)
    requires |parts| >= 2
    ensures Join(parts, sep) == Join(parts[..|parts| - 1], sep) + sep + parts[|parts| - 1]
  {
    if |parts| > 2 {
      JoinLast(parts[1..], sep);
      assert parts[1..][..|parts| - 2] == parts[..|parts| - 1][1..];
    }
  }

  /** Where `c` occurs, `s` can be cut at its first occurrence: `s.split(c, 1)`. */
  function IndexOf(s: string, c: char): (i: nat)
    requires c in s
    ensures i < |s| && s[i] == c && c !in s[..i]
  {
    if s[0] == c then 0 else 1 + IndexOf(s[1..], c)
  }

  // ---------------------------------------------------------------------------
  // replace, slicing, reversal
  // ---------------------------------------------------------------------------

  /** `s.replace(c, "")`. */
  function Without(s: string, c: char): (r: string)
    ensures c !in r
    ensures forall x :: x != c ==> (x in r <==> x in s)
  {
    if s == [] then []
    else if s[0] == c then Without(s[1..], c)
    else [s[0]] + Without(s[1..], c)
  }

  /** `s.replace(c, d)` for one-character arguments. */
  function Replace(s: string, c: char, d: char): (r: string)
    ensures |r| == |s|
  {
    seq(|s|, i requires 0 <= i < |s| => if s[i] == c then d else s[i])
  }

  /** Python's normalisation of a slice bound against a length `n`. */
  function SliceBound(x: int, n: nat): nat
  {
    if x < 0 then (if x + n < 0 then 0 else x + n)
    else if x > n then n
    else x
  }

  /** `s[start:stop]`, with Python's treatment of negative and out-of-range bounds. */
  function PySlice(s: string, start: int, stop: int): string
  {
    var lo, hi := SliceBound(start, |s|), SliceBound(stop, |s|);
    if lo < hi then s[lo..hi] else []
  }

  /** `s[::-1]`. */
  function Reverse(s: string): (r: string)
    ensures |r| == |s|
    ensures forall i :: 0 <= i < |s| ==> r[i] == s[|s| - 1 - i]
  {
    if s == [] then [] else Reverse(s[1..]) + [s[0]]
  }

  // ---------------------------------------------------------------------------
  // str(n) for n >= 0
  // ---------------------------------------------------------------------------

  predicate IsDigit(c: char) { '0' <= c <= '9' }

  function DigitChar(d: nat): (c: char)
    requires d < 10
    ensures IsDigit(c) && (c as int) - ('0' as int) == d
  {
    (('0' as int) + d) as char
  }

  /** `str(n)`: the decimal numeral of `n`, without leading zeros. */
  function Decimal(n: nat): (r: string)
    ensures |r| >= 1
    ensures forall i :: 0 <= i < |r| ==> IsDigit(r[i])
  {
    if n < 10 then [DigitChar(n)] else Decimal(n / 10) + [DigitChar(n % 10)]
  }

  /** The value of a string of decimal digits. */
  function DecimalValue(s: string): int
    requires forall i :: 0 <= i < |s| ==> IsDigit(s[i])
  {
    if s == [] then 0
    else DecimalValue(s[..|s| - 1]) * 10 + ((s[|s| - 1] as int) - ('0' as int))
  }

  /** Reading back the numeral `str(n)` gives `n`. */
  lemma {:induction false} DecimalRoundTrip(n: nat)
    ensures DecimalValue(Decimal(n)) == n
  {
    if n >= 10 {
      DecimalRoundTrip(n / 10);
      var s := Decimal(n);
      assert s[..|s| - 1] == Decimal(n / 10);
    }
  }

  /** Distinct numbers have distinct numerals. */
  lemma DecimalInjective(m: nat, n: nat)
    requires Decimal(m) == Decimal(n)
    ensures m == n
  {
    DecimalRoundTrip(m);
    DecimalRoundTrip(n);
  }

  /** `10 ** k`. */
  function Pow10(k: nat): (p: nat)
    ensures p >= 1
  {
    if k == 0 then 1 else 10 * Pow10(k - 1)
  }

  /** A number below `10 ** k` has at most `k` digits. */
  lemma {:induction false} DecimalLength(n: nat, k: nat)
    requires 1 <= k && n < Pow10(k)
    ensures |Decimal(n)| <= k
  {
    if n >= 10 {
      DecimalLength(n / 10, k - 1);
    }
  }
}
