/**
 The Go standard-library string operations the enumerator relies on
 (`strings.TrimSpace`, `strings.Split`, `strings.Join`, `strings.ToUpper`,
 `strings.ReplaceAll`, `strconv.ParseUint`, `strconv.Itoa`), written out over
 `seq<char>` so the rest of the model can state properties in their terms.
 */
module GoStrings {

  // ---------------------------------------------------------------------------
  // Prefixes and suffixes

  predicate HasPrefix(s: string, p: string) {
    |p| <= |s| && s[..|p|] == p
  }

  predicate HasSuffix(s: string, p: string) {
    |p| <= |s| && s[|s| - |p|..] == p
  }

  // ---------------------------------------------------------------------------
  // strings.TrimSpace

  /** `unicode.IsSpace`: the Latin-1 spaces plus the other White_Space code points. */
  predicate IsSpace(c: char) {
    || c == ' ' || c == '\t' || c == '\n' || c == '\U{0B}' || c == '\U{0C}' || c == '\r'
    || c == '\U{85}' || c == '\U{A0}' || c == '\U{1680}'
    || ('\U{2000}' <= c <= '\U{200A}')
    || c == '\U{2028}' || c == '\U{2029}' || c == '\U{202F}' || c == '\U{205F}' || c == '\U{3000}'
  }

  predicate AllSpace(s: string) {
    forall i | 0 <= i < |s| :: IsSpace(s[i])
  }

  /** Neither end of `r` is a space. */
  predicate IsTrimmed(r: string) {
    r == [] || (!IsSpace(r[0]) && !IsSpace(r[|r| - 1]))
  }

  /** Index of the first non-space at or after `i`. */
  function SkipSpaces(s: string, i: nat): (k: nat)
    requires i <= |s|
    ensures i <= k <= |s|
    ensures forall j | i <= j < k :: IsSpace(s[j])
    ensures k < |s| ==> !IsSpace(s[k])
    decreases |s| - i
  {
    if i < |s| && IsSpace(s[i]) then SkipSpaces(s, i + 1) else i
  }

  /** Index just past the last non-space in `s[lo..j]`, or `lo`. */
  function SkipSpacesBack(s: string, lo: nat, j: nat): (k: nat)
    requires lo <= j <= |s|
    ensures lo <= k <= j
    ensures forall m | k <= m < j :: IsSpace(s[m])
    ensures k > lo ==> !IsSpace(s[k - 1])
    decreases j
  {
    if j > lo && IsSpace(s[j - 1]) then SkipSpacesBack(s, lo, j - 1) else j
  }

  /** `strings.TrimSpace`: `s` with its leading and trailing spaces removed. */
  function TrimSpace(s: string): (r: string)
    ensures IsTrimmed(r) && |r| <= |s|
  {
    var lo := SkipSpaces(s, 0);
    var hi := SkipSpacesBack(s, lo, |s|);
    s[lo..hi]
  }

  /** What TrimSpace removes is spaces only, and what it keeps starts at the first non-space. */
  lemma TrimSpaceSlice(s: string)
    ensures SkipSpaces(s, 0) + |TrimSpace(s)| <= |s|
    ensures s[SkipSpaces(s, 0)..SkipSpaces(s, 0) + |TrimSpace(s)|] == TrimSpace(s)
    ensures AllSpace(s[..SkipSpaces(s, 0)]) && AllSpace(s[SkipSpaces(s, 0) + |TrimSpace(s)|..])
  {
  }

  lemma AllSpaceAppend(a: string, b: string)
    requires AllSpace(a) && AllSpace(b)
    ensures AllSpace(a + b)
  {
    forall i | 0 <= i < |a + b| ensures IsSpace((a + b)[i]) {
      if i < |a| { assert (a + b)[i] == a[i]; } else { assert (a + b)[i] == b[i - |a|]; }
    }
  }

  /** A trimmed core between two runs of spaces is exactly what TrimSpace returns. */
  lemma TrimSpaceUnique(p: string, r: string, q: string)
    requires AllSpace(p) && AllSpace(q) && IsTrimmed(r)
    ensures TrimSpace(p + r + q) == r
  {
    var s := p + r + q;
    var lo := SkipSpaces(s, 0);
    if r == [] {
      assert s == p + q;
      AllSpaceAppend(p, q);
    } else {
      assert s[|p|] == r[0];
      forall i | 0 <= i < |p| ensures IsSpace(s[i]) { assert s[i] == p[i]; }
      assert lo == |p|;
      var hi := SkipSpacesBack(s, lo, |s|);
      assert s[|p| + |r| - 1] == r[|r| - 1];
      forall i | |p| + |r| <= i < |s| ensures IsSpace(s[i]) { assert s[i] == q[i - |p| - |r|]; }
      assert hi == |p| + |r|;
      assert s[lo..hi] == r;
    }
  }

  /** Every string is its trimmed form between two runs of spaces. */
  lemma TrimSpaceParts(s: string) returns (a: string, b: string)
    ensures AllSpace(a) && AllSpace(b) && s == a + TrimSpace(s) + b
  {
    var r := TrimSpace(s);
    var lo := SkipSpaces(s, 0);
    TrimSpaceSlice(s);
    a, b := s[..lo], s[lo + |r|..];
    assert s[lo..lo + |r|] == r;
  }

  /** Spaces added around a string do not change its trimmed form. */
  lemma TrimSpaceOfSpacesAround(s: string, p: string, q: string)
    requires AllSpace(p) && AllSpace(q)
    ensures TrimSpace(p + s + q) == TrimSpace(s)
  {
    var r := TrimSpace(s);
    var a, b := TrimSpaceParts(s);
    AllSpaceAppend(p, a);
    AllSpaceAppend(b, q);
    Regroup(p, a, r, b, q);
    TrimSpaceUnique(p + a, r, b + q);
  }

  lemma Regroup(p: string, a: string, r: string, b: string, q: string)
    ensures p + (a + r + b) + q == (p + a) + r + (b + q)
  {
  }

  /** A trailing space (the `\n` that `ReadString` keeps) does not change the trimmed line. */
  lemma TrimSpaceDropsTrailing(s: string, c: char)
    requires IsSpace(c)
    ensures TrimSpace(s + [c]) == TrimSpace(s)
  {
    assert [] + s + [c] == s + [c];
    TrimSpaceOfSpacesAround(s, [], [c]);
  }

  // ---------------------------------------------------------------------------
  // strings.Join and strings.Split with a one-character separator

  /** `strings.Join`: the parts with `sep` between consecutive ones. */
  function Join(parts: seq<string>, sep: string): (r: string)
    ensures |parts| == 1 ==> r == parts[0]
    ensures parts == [] ==> r == []
  {
    if parts == [] then []
    else if |parts| == 1 then parts[0]
    else parts[0] + sep + Join(parts[1..], sep)
  }

  /** Index of the first `c` in `s`. */
  function IndexOf(s: string, c: char): (i: nat)
    requires c in s
    ensures i < |s| && s[i] == c && c !in s[..i]
  {
    if s[0] == c then 0 else 1 + IndexOf(s[1..], c)
  }

  /** The first `c` in `x + [c] + t` is the one after `x` when `x` has none. */
  lemma {:induction false} IndexOfAfter(x: string, c: char, t: string)
    requires c !in x
    ensures c in x + [c] + t
    ensures IndexOf(x + [c] + t, c) == |x|
  {
    var s := x + [c] + t;
    assert s[|x|] == c;
    if x != [] {
      assert s[1..] == x[1..] + [c] + t;
      IndexOfAfter(x[1..], c, t);
    }
  }

  /** `strings.Split(s, sep)` for a one-character separator. */
  function Split(s: string, sep: char): (parts: seq<string>)
    ensures |parts| >= 1
    ensures |parts| >= 2 <==> sep in s
    ensures sep in s ==> parts[0] == s[..IndexOf(s, sep)]
    ensures forall i | 0 <= i < |parts| :: sep !in parts[i]
    ensures Join(parts, [sep]) == s
    decreases |s|
  {
    if sep !in s then [s]
    else
      var i := IndexOf(s, sep);
      assert s == s[..i] + [sep] + s[i + 1..];
      [s[..i]] + Split(s[i + 1..], sep)
  }

  /** Splitting at a first separator peels off the field before it. */
  lemma SplitAfter(x: string, sep: char, t: string)
    requires sep !in x
    ensures Split(x + [sep] + t, sep) == [x] + Split(t, sep)
  {
    var s := x + [sep] + t;
    IndexOfAfter(x, sep, t);
    assert s[..|x|] == x;
    assert s[|x| + 1..] == t;
  }

  /** Splitting a join of separator-free parts gives the parts back. */
  lemma {:induction false} SplitJoin(parts: seq<string>, sep: char)
    requires |parts| >= 1
    requires forall i | 0 <= i < |parts| :: sep !in parts[i]
    ensures Split(Join(parts, [sep]), sep) == parts
  {
    if |parts| > 1 {
      SplitJoin(parts[1..], sep);
      SplitJoinStep(parts, sep);
    }
  }

  /** One field more: if the later fields split back, so does the whole join. */
  lemma SplitJoinStep(parts: seq<string>, sep: char)
    requires |parts| >= 2 && sep !in parts[0]
    requires Split(Join(parts[1..], [sep]), sep) == parts[1..]
    ensures Split(Join(parts, [sep]), sep) == parts
  {
    var rest := Join(parts[1..], [sep]);
    assert Join(parts, [sep]) == parts[0] + [sep] + rest;
    SplitAfter(parts[0], sep, rest);
    assert [parts[0]] + parts[1..] == parts;
  }

  /** Joining one-character strings with no separator lays their characters side by side. */
  lemma {:induction false} JoinSingletons(parts: seq<string>)
    requires forall i | 0 <= i < |parts| :: |parts[i]| == 1
    ensures |Join(parts, "")| == |parts|
    ensures forall i | 0 <= i < |parts| :: Join(parts, "")[i] == parts[i][0]
  {
    if |parts| >= 2 {
      JoinSingletons(parts[1..]);
      assert Join(parts, "") == parts[0] + Join(parts[1..], "");
    }
  }

  /** `strings.Split(s, "")`: one part per character. */
  function SplitChars(s: string): (parts: seq<string>)
    ensures |parts| == |s|
    ensures forall i | 0 <= i < |s| :: parts[i] == [s[i]]
  {
    seq(|s|, i requires 0 <= i < |s| => [s[i]])
  }

  // ---------------------------------------------------------------------------
  // strings.ToUpper, restricted to the ASCII letters

  function ToUpperChar(c: char): (u: char)
    ensures 'a' <= c <= 'z' ==> u as int == c as int - 32
    ensures !('a' <= c <= 'z') ==> u == c
  {
    if 'a' <= c <= 'z' then (c as int - 32) as char else c
  }

  function ToUpper(s: string): (r: string)
    ensures |r| == |s|
    ensures forall i | 0 <= i < |s| :: r[i] == ToUpperChar(s[i])
  {
    seq(|s|, i requires 0 <= i < |s| => ToUpperChar(s[i]))
  }

  // ---------------------------------------------------------------------------
  // strings.ReplaceAll

  /** `pat` occurs in `s` starting at index `i`. */
  predicate OccursAt(s: string, pat: string, i: nat) {
    i + |pat| <= |s| && s[i..i + |pat|] == pat
  }

  predicate Occurs(s: string, pat: string) {
    exists i: nat | i <= |s| :: OccursAt(s, pat, i)
  }

  /** `strings.ReplaceAll` with a non-empty pattern: leftmost, non-overlapping replacement. */
  function ReplaceAll(s: string, pat: string, rep: string): string
    requires |pat| > 0
    decreases |s|
  {
    if s == [] then []
    else if HasPrefix(s, pat) then rep + ReplaceAll(s[|pat|..], pat, rep)
    else [s[0]] + ReplaceAll(s[1..], pat, rep)
  }

  /** A string without the pattern is left as it is. */
  lemma {:induction false} ReplaceAllAbsent(s: string, pat: string, rep: string)
    requires |pat| > 0 && !Occurs(s, pat)
    ensures ReplaceAll(s, pat, rep) == s
    decreases |s|
  {
    if s != [] {
      if HasPrefix(s, pat) {
        assert OccursAt(s, pat, 0);
      } else {
        forall i: nat | i <= |s[1..]| && OccursAt(s[1..], pat, i) ensures OccursAt(s, pat, i + 1) {
          assert s[1..][i..i + |pat|] == s[i + 1..i + 1 + |pat|];
        }
        ReplaceAllAbsent(s[1..], pat, rep);
      }
    }
  }

  /** `y` cannot finish an occurrence of `pat` begun before it. */
  predicate NoStraddle(y: string, pat: string) {
    y == [] || pat == [] || y[0] !in pat[1..]
  }

  /** A match at the start of `x + y` that is longer than `x` continues into `y`. */
  lemma MatchCrossesInto(x: string, y: string, pat: string)
    requires HasPrefix(x + y, pat) && 0 < |x| < |pat|
    ensures y != [] && y[0] in pat[1..]
  {
    assert (x + y)[|x|] == y[0] == pat[|x|];
    assert pat[1..][|x| - 1] == pat[|x|];
  }

  /** Replacement distributes over a concatenation no occurrence straddles. */
  lemma {:induction false} ReplaceAllAppend(x: string, y: string, pat: string, rep: string)
    requires |pat| > 0
    requires NoStraddle(y, pat)
    ensures ReplaceAll(x + y, pat, rep) == ReplaceAll(x, pat, rep) + ReplaceAll(y, pat, rep)
    decreases |x|
  {
    if x == [] {
      assert x + y == y;
    } else if HasPrefix(x + y, pat) {
      if |x| < |pat| {
        MatchCrossesInto(x, y, pat);
        assert false;
      }
      ReplaceAllAppend(x[|pat|..], y, pat, rep);
      ReplaceAllAppendMatch(x, y, pat, rep);
    } else {
      ReplaceAllAppend(x[1..], y, pat, rep);
      ReplaceAllAppendSkip(x, y, pat, rep);
    }
  }

  /** The step of `ReplaceAllAppend` when a match starts the string and lies within `x`. */
  lemma ReplaceAllAppendMatch(x: string, y: string, pat: string, rep: string)
    requires 0 < |pat| <= |x| && HasPrefix(x + y, pat)
    requires ReplaceAll(x[|pat|..] + y, pat, rep) == ReplaceAll(x[|pat|..], pat, rep) + ReplaceAll(y, pat, rep)
    ensures ReplaceAll(x + y, pat, rep) == ReplaceAll(x, pat, rep) + ReplaceAll(y, pat, rep)
  {
    var xy := x + y;
    assert x[..|pat|] == xy[..|pat|];
    assert xy[|pat|..] == x[|pat|..] + y;
    ReplaceAllMatchOne(xy, pat, rep);
    ReplaceAllMatchOne(x, pat, rep);
    var a, b := ReplaceAll(x[|pat|..], pat, rep), ReplaceAll(y, pat, rep);
    assert rep + (a + b) == (rep + a) + b;
  }

  /** A string that starts with the pattern has it replaced there. */
  lemma ReplaceAllMatchOne(s: string, pat: string, rep: string)
    requires |pat| > 0 && HasPrefix(s, pat)
    ensures ReplaceAll(s, pat, rep) == rep + ReplaceAll(s[|pat|..], pat, rep)
  {
  }

  /** The step of `ReplaceAllAppend` when no match starts the string. */
  lemma ReplaceAllAppendSkip(x: string, y: string, pat: string, rep: string)
    requires |pat| > 0 && x != [] && !HasPrefix(x + y, pat)
    requires ReplaceAll(x[1..] + y, pat, rep) == ReplaceAll(x[1..], pat, rep) + ReplaceAll(y, pat, rep)
    ensures ReplaceAll(x + y, pat, rep) == ReplaceAll(x, pat, rep) + ReplaceAll(y, pat, rep)
  {
    NoPrefixOfShorter(x, y, pat);
    var xy := x + y;
    assert xy[0] == x[0] && xy[1..] == x[1..] + y;
    ReplaceAllSkipOne(xy, pat, rep);
    ReplaceAllSkipOne(x, pat, rep);
    var a, b := ReplaceAll(x[1..], pat, rep), ReplaceAll(y, pat, rep);
    assert [x[0]] + (a + b) == ([x[0]] + a) + b;
  }

  /** A string that does not start with the pattern keeps its first character. */
  lemma ReplaceAllSkipOne(s: string, pat: string, rep: string)
    requires |pat| > 0 && s != [] && !HasPrefix(s, pat)
    ensures ReplaceAll(s, pat, rep) == [s[0]] + ReplaceAll(s[1..], pat, rep)
  {
  }

  /** A string that does not start with `pat` has no prefix that does. */
  lemma NoPrefixOfShorter(x: string, y: string, pat: string)
    requires !HasPrefix(x + y, pat)
    ensures !HasPrefix(x, pat)
  {
    if |pat| <= |x| {
      assert x[..|pat|] == (x + y)[..|pat|];
    }
  }

  /** A prefix without the pattern's first character passes through unchanged. */
  lemma {:induction false} ReplaceAllPlainPrefix(x: string, y: string, pat: string, rep: string)
    requires |pat| > 0 && pat[0] !in x
    ensures ReplaceAll(x + y, pat, rep) == x + ReplaceAll(y, pat, rep)
    decreases |x|
  {
    if x != [] {
      assert (x + y)[0] == x[0] != pat[0];
      assert (x + y)[1..] == x[1..] + y;
      ReplaceAllPlainPrefix(x[1..], y, pat, rep);
      assert x == [x[0]] + x[1..];
    } else {
      assert x + y == y;
    }
  }

  /** Replacing in the pattern itself gives the replacement. */
  lemma ReplaceAllSelf(pat: string, rep: string)
    requires |pat| > 0
    ensures ReplaceAll(pat, pat, rep) == rep
  {
    assert pat[|pat|..] == [];
  }

  // ---------------------------------------------------------------------------
  // Decimal numbers: strconv.ParseUint(s, 10, 32) and strconv.Itoa

  predicate IsDigit(c: char) {
    '0' <= c <= '9'
  }

  function DigitValue(c: char): (d: nat)
    requires IsDigit(c)
    ensures d < 10
  {
    c as int - '0' as int
  }

  function DigitChar(d: nat): (c: char)
    requires d < 10
    ensures IsDigit(c) && DigitValue(c) == d
  {
    ('0' as int + d) as char
  }

  predicate AllDigits(s: string) {
    forall i | 0 <= i < |s| :: IsDigit(s[i])
  }

  /** The number a string of decimal digits denotes, without bound. */
  function DecimalValue(s: string): (v: nat)
    requires AllDigits(s)
  {
    if s == [] then 0 else 10 * DecimalValue(s[..|s| - 1]) + DigitValue(s[|s| - 1])
  }

  /** Largest value `strconv.ParseUint` returns for a 32-bit size. */
  const MaxUint32: nat := 4294967295

  /** The digit loop of `strconv.ParseUint(s, 10, 32)` from position `i` with
      accumulator `acc`: a non-digit gives 0 (syntax error), a value over
      `MaxUint32` gives `MaxUint32` (range error). */
  function ParseDigitsFrom(s: string, i: nat, acc: nat): (v: nat)
    requires i <= |s| && acc <= MaxUint32
    ensures v <= MaxUint32
    decreases |s| - i
  {
    if i == |s| then acc
    else if !IsDigit(s[i]) then 0
    else if acc * 10 + DigitValue(s[i]) > MaxUint32 then MaxUint32
    else ParseDigitsFrom(s, i + 1, acc * 10 + DigitValue(s[i]))
  }

  /** The value `strconv.ParseUint(s, 10, 32)` returns, its error discarded as `buildBruteLengthTask` does. */
  function ParseUint32(s: string): (v: nat)
    ensures v <= MaxUint32
    ensures s == [] ==> v == 0
  {
    if s == [] then 0 else ParseDigitsFrom(s, 0, 0)
  }

  lemma DecimalValuePrefix(s: string, i: nat)
    requires AllDigits(s) && i < |s|
    ensures DecimalValue(s[..i + 1]) == 10 * DecimalValue(s[..i]) + DigitValue(s[i])
  {
    assert s[..i + 1][..i] == s[..i];
  }

  lemma {:induction false} DecimalValueMonotone(s: string, i: nat)
    requires AllDigits(s) && i <= |s|
    ensures DecimalValue(s[..i]) <= DecimalValue(s)
    decreases |s| - i
  {
    if i < |s| {
      DecimalValuePrefix(s, i);
      DecimalValueMonotone(s, i + 1);
    } else {
      assert s[..i] == s;
    }
  }

  lemma {:induction false} ParseDigitsFromValue(s: string, i: nat)
    requires AllDigits(s) && i <= |s| && DecimalValue(s) <= MaxUint32
    ensures DecimalValue(s[..i]) <= MaxUint32
    ensures ParseDigitsFrom(s, i, DecimalValue(s[..i])) == DecimalValue(s)
    decreases |s| - i
  {
    DecimalValueMonotone(s, i);
    if i == |s| {
      assert s[..i] == s;
    } else {
      DecimalValuePrefix(s, i);
      DecimalValueMonotone(s, i + 1);
      ParseDigitsFromValue(s, i + 1);
    }
  }

  /** On a non-empty digit string whose value fits, ParseUint32 is its decimal value. */
  lemma ParseUint32OfDigits(s: string)
    requires s != [] && AllDigits(s) && DecimalValue(s) <= MaxUint32
    ensures ParseUint32(s) == DecimalValue(s)
  {
    assert s[..0] == [];
    ParseDigitsFromValue(s, 0);
  }

  /** `strconv.ParseUint` stops with a syntax error at position `j`: the
      digits before it still fit, and `s[j]` is not a digit. */
  predicate SyntaxErrorAt(s: string, j: nat) {
    j < |s| && AllDigits(s[..j]) && !IsDigit(s[j]) && DecimalValue(s[..j]) <= MaxUint32
  }

  /** `strconv.ParseUint` stops with a range error within the first `j`
      characters: they are digits whose value exceeds 2^32 - 1. */
  predicate RangeErrorAt(s: string, j: nat) {
    j <= |s| && AllDigits(s[..j]) && DecimalValue(s[..j]) > MaxUint32
  }

  /** The digit loop from `i`, with the value of the digits before `i`,
      reaches the non-digit at `j` and gives 0. */
  lemma {:induction false} ParseDigitsFromSyntaxError(s: string, i: nat, j: nat)
    requires i <= j && SyntaxErrorAt(s, j)
    ensures AllDigits(s[..i]) && DecimalValue(s[..i]) <= MaxUint32
    ensures ParseDigitsFrom(s, i, DecimalValue(s[..i])) == 0
    decreases j - i
  {
    var t := s[..j];
    assert t[..i] == s[..i];
    DecimalValueMonotone(t, i);
    if i < j {
      assert t[..i + 1] == s[..i + 1];
      DecimalValuePrefix(t, i);
      DecimalValueMonotone(t, i + 1);
      ParseDigitsFromSyntaxError(s, i + 1, j);
    }
  }

  /** The digit loop from `i`, with a value that still fits, overflows
      before position `j` and gives 2^32 - 1. */
  lemma {:induction false} ParseDigitsFromRangeError(s: string, i: nat, j: nat)
    requires i < j && RangeErrorAt(s, j)
    requires AllDigits(s[..i]) && DecimalValue(s[..i]) <= MaxUint32
    ensures ParseDigitsFrom(s, i, DecimalValue(s[..i])) == MaxUint32
    decreases j - i
  {
    var t := s[..j];
    assert t[..i] == s[..i] && t[..i + 1] == s[..i + 1];
    DecimalValuePrefix(t, i);
    if DecimalValue(s[..i + 1]) <= MaxUint32 {
      ParseDigitsFromRangeError(s, i + 1, j);
    }
  }

  /** A non-digit reached while the value still fits makes ParseUint32 0. */
  lemma ParseUint32SyntaxError(s: string, j: nat)
    requires SyntaxErrorAt(s, j)
    ensures ParseUint32(s) == 0
  {
    ParseDigitsFromSyntaxError(s, 0, j);
    assert s[..0] == [];
  }

  /** Digits whose value exceeds 2^32 - 1 make ParseUint32 2^32 - 1, whatever follows them. */
  lemma ParseUint32RangeError(s: string, j: nat)
    requires RangeErrorAt(s, j)
    ensures ParseUint32(s) == MaxUint32
  {
    assert s[..0] == [];
    ParseDigitsFromRangeError(s, 0, j);
  }

  /** The number of digits in the run starting at `i`. */
  function DigitRun(s: string, i: nat): (n: nat)
    requires i <= |s|
    ensures i + n <= |s|
    ensures forall j | i <= j < i + n :: IsDigit(s[j])
    ensures i + n < |s| ==> !IsDigit(s[i + n])
    decreases |s| - i
  {
    if i < |s| && IsDigit(s[i]) then 1 + DigitRun(s, i + 1) else 0
  }

  /** Every non-empty string is a number that fits, or stops the digit loop
      with a syntax error, or with a range error: together with
      `ParseUint32OfDigits`, `ParseUint32SyntaxError` and
      `ParseUint32RangeError` this fixes ParseUint32 on every input. */
  lemma ParseUint32Cases(s: string)
    requires s != []
    ensures || (AllDigits(s) && DecimalValue(s) <= MaxUint32)
            || (exists j :: SyntaxErrorAt(s, j))
            || (exists j :: RangeErrorAt(s, j))
  {
    var j := DigitRun(s, 0);
    assert forall k | 0 <= k < j :: s[..j][k] == s[k];
    if DecimalValue(s[..j]) > MaxUint32 {
      assert RangeErrorAt(s, j);
    } else if j < |s| {
      assert SyntaxErrorAt(s, j);
    } else {
      assert s[..j] == s;
    }
  }

  /** Decimal rendering of a natural number, most significant digit first. */
  function NatToString(n: nat): (s: string)
    ensures s != [] && AllDigits(s)
    ensures DecimalValue(s) == n
  {
    if n < 10 then [DigitChar(n)]
    else
      var s := NatToString(n / 10) + [DigitChar(n % 10)];
      assert s[..|s| - 1] == NatToString(n / 10);
      s
  }

  /** `strconv.Itoa`: decimal rendering, with a leading '-' for negatives. */
  function Itoa(n: int): (s: string)
    ensures n >= 0 ==> AllDigits(s) && DecimalValue(s) == n
    ensures n < 0 ==> |s| >= 2 && s[0] == '-' && AllDigits(s[1..]) && DecimalValue(s[1..]) == -n
  {
    if n >= 0 then NatToString(n) else "-" + NatToString(-n)
  }

  /** Itoa and ParseUint32 are inverse on the 32-bit range. */
  lemma ParseItoa(n: nat)
    requires n <= MaxUint32
    ensures ParseUint32(Itoa(n)) == n
  {
    ParseUint32OfDigits(Itoa(n));
  }
}
