/**
 Length brute force (`buildBruteLengthTask`): the `brute-length` setting is
 read as a single length or a `min-max` range, and for every length from min up
 to max each tuple of `product(alphaTable, length)` is joined into a label and
 sent unless it starts or ends with '-' (a hyphen may only sit inside a label,
 as in section 2.3.1 of RFC 1035 as relaxed by section 2.1 of RFC 1123).

 Length 0 is the one case that never finishes: `product(a, 0)` spins without
 returning (see `Odometer.Product`), so a range starting at 0 sends nothing and
 never completes.
 */
module BruteLength {
  import opened Common
  import opened GoStrings
  import opened Alphabet
  import opened Odometer

  datatype LengthRange = LengthRange(min: nat, max: nat)

  // ---------------------------------------------------------------------------
  // The length setting

  /** The two lengths read from the setting. With a '-' the setting is split at
      every '-' and the first two fields are min and max (later fields are
      ignored); otherwise the whole setting is both. A field is read by
      `strconv.ParseUint(_, 10, 32)` with its error discarded: a non-digit
      reached before the value exceeds 2^32 - 1 gives 0, digits whose value
      exceeds 2^32 - 1 give 2^32 - 1 (`ParseLengthSpecErrors`). */
  function ParseLengthSpec(spec: string): (r: LengthRange)
    ensures r.min <= MaxUint32 && r.max <= MaxUint32
    ensures '-' !in spec ==> r.min == r.max == ParseUint32(spec)
    ensures '-' in spec ==> r.min == ParseUint32(spec[..IndexOf(spec, '-')])
  {
    if '-' in spec then
      var parts := Split(spec, '-');
      LengthRange(ParseUint32(parts[0]), ParseUint32(parts[1]))
    else
      var l := ParseUint32(spec);
      LengthRange(l, l)
  }

  /** A setting `x-y...` reads min from `x` and max from `y`, whatever follows `y`. */
  lemma ParseLengthSpecFields(x: string, y: string, rest: string)
    requires '-' !in x && '-' !in y
    requires rest == [] || rest[0] == '-'
    ensures ParseLengthSpec(x + "-" + y + rest) == LengthRange(ParseUint32(x), ParseUint32(y))
  {
    var spec := x + "-" + y + rest;
    var tail := y + rest;
    assert spec == x + ['-'] + tail;
    SplitAfter(x, '-', tail);
    if rest == [] {
      assert tail == y;
    } else {
      assert tail == y + ['-'] + rest[1..];
      SplitAfter(y, '-', rest[1..]);
    }
  }

  /** The error paths of the field reader: a field whose parse stops at a
      non-digit reads as 0, one whose digits overflow reads as 2^32 - 1. */
  lemma ParseLengthSpecErrors(x: string, y: string, rest: string, i: nat, j: nat)
    requires '-' !in x && '-' !in y
    requires rest == [] || rest[0] == '-'
    ensures SyntaxErrorAt(x, i) ==> ParseLengthSpec(x) == LengthRange(0, 0)
    ensures RangeErrorAt(x, i) ==> ParseLengthSpec(x) == LengthRange(MaxUint32, MaxUint32)
    ensures SyntaxErrorAt(x, i) ==> ParseLengthSpec(x + "-" + y + rest).min == 0
    ensures RangeErrorAt(x, i) ==> ParseLengthSpec(x + "-" + y + rest).min == MaxUint32
    ensures SyntaxErrorAt(y, j) ==> ParseLengthSpec(x + "-" + y + rest).max == 0
    ensures RangeErrorAt(y, j) ==> ParseLengthSpec(x + "-" + y + rest).max == MaxUint32
  {
    ParseLengthSpecFields(x, y, rest);
    if SyntaxErrorAt(x, i) {
      ParseUint32SyntaxError(x, i);
    }
    if RangeErrorAt(x, i) {
      ParseUint32RangeError(x, i);
    }
    if SyntaxErrorAt(y, j) {
      ParseUint32SyntaxError(y, j);
    }
    if RangeErrorAt(y, j) {
      ParseUint32RangeError(y, j);
    }
  }

  /** Settings the flag check lets through that are not numbers: "x1" reads as
      the range 0..0 and "5-" as 5..0. */
  lemma ParseLengthSpecExamples()
    ensures ParseLengthSpec("x1") == LengthRange(0, 0)
    ensures ParseLengthSpec("5-") == LengthRange(5, 0)
  {
    ParseLengthSpecErrors("x1", "", [], 0, 0);
    ParseLengthSpecFields("5", "", []);
    assert "5" + "-" + "" + [] == "5-";
    ParseUint32OfDigits("5");
  }

  /** The canonical settings read back as the lengths they name. */
  lemma ParseLengthSpecOfNumbers(lo: nat, hi: nat)
    requires lo <= MaxUint32 && hi <= MaxUint32
    ensures ParseLengthSpec(Itoa(lo)) == LengthRange(lo, lo)
    ensures ParseLengthSpec(Itoa(lo) + "-" + Itoa(hi)) == LengthRange(lo, hi)
  {
    var x, y := Itoa(lo), Itoa(hi);
    assert '-' !in x;
    assert '-' !in y;
    ParseItoa(lo);
    ParseItoa(hi);
    ParseLengthSpecFields(x, y, []);
    assert x + "-" + y + [] == x + "-" + y;
  }

  // ---------------------------------------------------------------------------
  // Labels of one length

  /** The label round `j` of `product(alphaTable, k)` yields: the k symbols
      the base-37 numeral of `j` selects, most significant first. That this is
      the joined tuple is `JoinedTupleIsLabel`. */
  function Label(k: nat, j: nat): (w: string)
    ensures |w| == k
  {
    if k == 0 then "" else Label(k - 1, j / 37) + [AlphaChar(j % 37)]
  }

  /** All the labels `product(alphaTable, k)` yields, in its order. */
  function Tuples(k: nat): seq<string> {
    seq(Pow(37, k), j requires 0 <= j => Label(k, j))
  }

  /** The boundary-hyphen test of `buildBruteLengthTask`. */
  predicate KeepLabel(w: string) {
    !HasSuffix(w, "-") && !HasPrefix(w, "-")
  }

  /** The labels of length k that are sent, in product order. */
  function LabelsOfLength(k: nat): seq<string> {
    Filter(Tuples(k), KeepLabel)
  }

  /** A label of round j spells, position by position, the symbols its numeral selects. */
  lemma {:induction false} LabelChars(k: nat, j: nat)
    ensures forall i | 0 <= i < k :: Label(k, j)[i] == AlphaChar(ToDigits(j, 37, k)[i])
  {
    if k > 0 {
      LabelChars(k - 1, j / 37);
      ToDigitsSnoc(j, j / 37, j % 37, 37, k);
    }
  }

  /** Joining tuple `j` of `product(alphaTable, k)` with no separator gives `Label(k, j)`. */
  lemma JoinedTupleIsLabel(k: nat, j: nat)
    ensures Join(TupleAt(Alpha(), k, j), "") == Label(k, j)
  {
    var t := TupleAt(Alpha(), k, j);
    var d := ToDigits(j, 37, k);
    forall i | 0 <= i < k ensures t[i] == [AlphaChar(d[i])] {
    }
    JoinSingletons(t);
    LabelChars(k, j);
  }

  /** A well-formed label: length k over the alphabet with no hyphen at either end. */
  predicate WellFormedLabel(w: string, k: nat) {
    |w| == k && k >= 1 &&
    (forall i | 0 <= i < |w| :: InAlphabet(w[i])) &&
    w[0] != '-' && w[k - 1] != '-'
  }

  /** On a label of length k >= 1 the hyphen test looks at its first and last character. */
  lemma KeepLabelEnds(w: string)
    requires |w| >= 1
    ensures KeepLabel(w) <==> w[0] != '-' && w[|w| - 1] != '-'
  {
    assert w[..1] == [w[0]];
    assert w[|w| - 1..] == [w[|w| - 1]];
  }

  /** Every label of length k over the alphabet is yielded by some round of the product. */
  lemma LabelOfEveryWord(k: nat, w: string)
    requires |w| == k && forall i | 0 <= i < k :: InAlphabet(w[i])
    ensures w in Tuples(k)
  {
    var d := seq(k, i requires 0 <= i < k => AlphaIndex(w[i]));
    assert ValidIndexes(d, 37);
    ToFromDigits(d, 37);
    var j := FromDigits(d, 37);
    LabelChars(k, j);
    assert Label(k, j) == w;
    assert Tuples(k)[j] == w;
  }

  /** Every label the product yields is a word of length k over the alphabet. */
  lemma TuplesAreWords(k: nat, w: string)
    requires w in Tuples(k)
    ensures |w| == k && forall i | 0 <= i < k :: InAlphabet(w[i])
  {
    var ts := Tuples(k);
    var j :| 0 <= j < |ts| && ts[j] == w;
    LabelChars(k, j);
    forall i | 0 <= i < k ensures InAlphabet(w[i]) {
      AlphaCharIndex(ToDigits(j, 37, k)[i]);
    }
  }

  /** For k >= 1 the labels of length k sent are exactly the well-formed ones. */
  lemma LabelsOfLengthMembers(k: nat, w: string)
    requires k >= 1
    ensures w in LabelsOfLength(k) <==> WellFormedLabel(w, k)
  {
    FilterMembers(Tuples(k), KeepLabel, w);
    if w in LabelsOfLength(k) {
      TuplesAreWords(k, w);
      KeepLabelEnds(w);
    }
    if WellFormedLabel(w, k) {
      LabelOfEveryWord(k, w);
      KeepLabelEnds(w);
    }
  }

  /** Two different rounds of one length yield different labels. */
  lemma TuplesDiffer(k: nat, j1: nat, j2: nat)
    requires j1 < j2 < Pow(37, k)
    ensures Label(k, j1) != Label(k, j2)
  {
    LabelChars(k, j1);
    LabelChars(k, j2);
    var d1, d2 := ToDigits(j1, 37, k), ToDigits(j2, 37, k);
    FromToDigits(j1, 37, k);
    FromToDigits(j2, 37, k);
    assert d1 != d2;
    var i :| 0 <= i < k && d1[i] != d2[i];
    AlphaCharIndex(d1[i]);
    AlphaCharIndex(d2[i]);
    assert Label(k, j1)[i] != Label(k, j2)[i];
  }

  /** The product yields no label twice. */
  lemma TuplesDistinct(k: nat)
    ensures NoDuplicates(Tuples(k))
  {
    var ts := Tuples(k);
    forall j1, j2 | 0 <= j1 < j2 < |ts| ensures ts[j1] != ts[j2] {
      TuplesDiffer(k, j1, j2);
    }
  }

  /** No label of one length is sent twice. */
  lemma LabelsOfLengthDistinct(k: nat)
    ensures NoDuplicates(LabelsOfLength(k))
  {
    TuplesDistinct(k);
    FilterNoDuplicates(Tuples(k), KeepLabel);
  }

  lemma {:induction false} FilterNoDuplicates<T>(s: seq<T>, keep: T -> bool)
    requires NoDuplicates(s)
    ensures NoDuplicates(Filter(s, keep))
  {
    if s != [] {
      FilterNoDuplicates(s[1..], keep);
      var rest := Filter(s[1..], keep);
      forall i | 0 <= i < |s| - 1 ensures s[1..][i] != s[0] {
        assert s[1..][i] == s[i + 1];
      }
      FilterMembers(s[1..], keep, s[0]);
      forall i | 0 <= i < |rest| ensures rest[i] in s[1..] {
        FilterMembers(s[1..], keep, rest[i]);
      }
    }
  }

  // ---------------------------------------------------------------------------
  // All lengths

  /** Labels of the `count` lengths `lo, lo + 1, ...`, shortest first. */
  function LabelsBetween(lo: nat, count: nat): seq<string> {
    FlattenRange(LabelsOfLength, lo, count)
  }

  lemma LabelsBetweenStep(lo: nat, count: nat)
    ensures LabelsBetween(lo, count + 1) == LabelsBetween(lo, count) + LabelsOfLength(lo + count)
  {
  }

  /** Every label of length k that `LabelsOfLength` sends has length k. */
  lemma LabelsOfLengthLength(k: nat, w: string)
    requires w in LabelsOfLength(k)
    ensures |w| == k
  {
    FilterMembers(Tuples(k), KeepLabel, w);
    TuplesAreWords(k, w);
  }

  /** For k >= 1, the labels of length k sent are the well-formed words of that length. */
  lemma LabelsOfLengthExactly(k: nat, w: string)
    requires k >= 1
    ensures w in LabelsOfLength(k) <==> |w| == k && WellFormedLabel(w, |w|)
  {
    LabelsOfLengthMembers(k, w);
    if w in LabelsOfLength(k) {
      LabelsOfLengthLength(k, w);
    }
  }

  /** For lo >= 1, a label is sent exactly when it is well formed and its
      length lies in the range. */
  lemma LabelsBetweenMembers(lo: nat, count: nat, w: string)
    requires lo >= 1
    ensures w in LabelsBetween(lo, count) <==> lo <= |w| < lo + count && WellFormedLabel(w, |w|)
  {
    FlattenRangeMembers(LabelsOfLength, lo, count, w);
    if w in LabelsBetween(lo, count) {
      var k :| lo <= k < lo + count && w in LabelsOfLength(k);
      LabelsOfLengthExactly(k, w);
    }
    if lo <= |w| < lo + count && WellFormedLabel(w, |w|) {
      LabelsOfLengthExactly(|w|, w);
    }
  }

  /** Labels come in ascending length order: all of one length before any longer one. */
  lemma {:induction false} LabelsBetweenAscending(lo: nat, count: nat)
    ensures forall i | 0 <= i < |LabelsBetween(lo, count)| ::
              lo <= |LabelsBetween(lo, count)[i]| < lo + count
    ensures forall i, j | 0 <= i < j < |LabelsBetween(lo, count)| ::
              |LabelsBetween(lo, count)[i]| <= |LabelsBetween(lo, count)[j]|
  {
    if count > 0 {
      LabelsBetweenAscending(lo, count - 1);
      var pre := LabelsBetween(lo, count - 1);
      var k := lo + count - 1;
      var last := LabelsOfLength(k);
      assert LabelsBetween(lo, count) == pre + last;
      forall i | 0 <= i < |last| ensures |last[i]| == k {
        LabelsOfLengthLength(k, last[i]);
      }
    }
  }

  // ---------------------------------------------------------------------------
  // The task builder for the length technique

  /** What `buildBruteLengthTask` sends for a length range: nothing when
      min > max, a hang before anything is sent when the range starts at
      length 0, and otherwise the labels of every length from min to max. */
  function RangeOutcome(r: LengthRange): Emission {
    if r.min > r.max then Finished([])
    else if r.min == 0 then Hangs([])
    else Finished(LabelsBetween(r.min, r.max - r.min + 1))
  }

  /** What `buildBruteLengthTask` sends for a setting. */
  function BruteLengthOutcome(spec: string): Emission {
    RangeOutcome(ParseLengthSpec(spec))
  }

  /** The tuples of `product(alphaTable, k)` for k >= 1, each joined into a label. */
  method JoinedProduct(k: nat) returns (labels: seq<string>)
    requires k >= 1
    ensures labels == Tuples(k)
  {
    var ps, stopped := Product(Alpha(), k, Pow(37, k));
    labels := [];
    var t := 0;
    while t < |ps|
      invariant t <= |ps| == Pow(37, k)
      invariant |labels| == t
      invariant forall j | 0 <= j < t :: labels[j] == Label(k, j)
    {
      JoinedTupleIsLabel(k, t);
      labels := labels + [Join(ps[t], "")];
      t := t + 1;
    }
  }

  /** The inner loop of `buildBruteLengthTask` for one length k >= 1: every
      joined tuple that passes the hyphen test is sent, in product order. */
  method SendLabelsOfLength(k: nat) returns (chunk: seq<string>)
    requires k >= 1
    ensures chunk == LabelsOfLength(k)
  {
    var labels := JoinedProduct(k);
    chunk := [];
    var t := 0;
    while t < |labels|
      invariant t <= |labels|
      invariant chunk == Filter(labels[..t], KeepLabel)
    {
      var task := labels[t];
      assert labels[..t + 1] == labels[..t] + [task];
      FilterAppend(labels[..t], [task], KeepLabel);
      if KeepLabel(task) {
        chunk := chunk + [task];
      }
      t := t + 1;
    }
    assert labels[..t] == labels;
  }

  /** A range hangs, before anything is sent, exactly when it starts at length 0. */
  lemma RangeOutcomeHangs(r: LengthRange)
    ensures RangeOutcome(r).Hangs? <==> r.min == 0 <= r.max
    ensures RangeOutcome(r).Hangs? ==> RangeOutcome(r).items == []
  {
  }

  /** Only well-formed labels whose length lies in the range are sent. */
  lemma RangeOutcomeSound(r: LengthRange, w: string)
    requires w in RangeOutcome(r).items
    ensures WellFormedLabel(w, |w|) && r.min <= |w| <= r.max
  {
    LabelsBetweenMembers(r.min, r.max - r.min + 1, w);
  }

  /** Every well-formed label of a length in a range starting at 1 or more is sent. */
  lemma RangeOutcomeComplete(r: LengthRange, w: string)
    requires 1 <= r.min <= |w| <= r.max && WellFormedLabel(w, |w|)
    ensures w in RangeOutcome(r).items
  {
    LabelsBetweenMembers(r.min, r.max - r.min + 1, w);
  }

  /** Labels are sent shortest first. */
  lemma RangeOutcomeAscending(r: LengthRange)
    ensures var out := RangeOutcome(r).items;
            forall i, j | 0 <= i < j < |out| :: |out[i]| <= |out[j]|
  {
    if 1 <= r.min <= r.max {
      LabelsBetweenAscending(r.min, r.max - r.min + 1);
    }
  }

  /** One round of the length loop of `buildBruteLengthTask`: the labels of
      the next length are sent after those of the shorter lengths. */
  method SendNextLength(lo: nat, done: nat, items: seq<string>) returns (items': seq<string>)
    requires lo >= 1 && items == LabelsBetween(lo, done)
    ensures items' == LabelsBetween(lo, done + 1)
  {
    var chunk := SendLabelsOfLength(lo + done);
    FlattenRangeAppend(LabelsOfLength, lo, done, items, chunk);
    items' := items + chunk;
  }

  /** The length loop of `buildBruteLengthTask`: the `count` lengths from `lo`
      up, each sent in full before the next begins. */
  method SendLabelsBetween(lo: nat, count: nat) returns (items: seq<string>)
    requires lo >= 1
    ensures items == LabelsBetween(lo, count)
  {
    items := [];
    var done := 0;
    while done < count
      invariant done <= count
      invariant items == LabelsBetween(lo, done)
    {
      items := SendNextLength(lo, done, items);
      done := done + 1;
    }
  }

  /** `buildBruteLengthTask` after the setting is read: send nothing
      (min > max), hang in `product(alphaTable, 0)` (min = 0), or send the
      labels of every length from min to max. */
  method SendRange(r: LengthRange) returns (out: Emission)
    ensures out == RangeOutcome(r)
  {
    if r.min > r.max {
      out := Finished([]);
    } else if r.min == 0 {
      // `product(alphaTable, 0)` never returns (`Odometer.AdvanceEmptyNeverStops`).
      out := Hangs([]);
    } else {
      var items := SendLabelsBetween(r.min, r.max - r.min + 1);
      out := Finished(items);
    }
  }

  /** `buildBruteLengthTask`: read the setting, then send its range. */
  method BuildBruteLengthTask(spec: string) returns (out: Emission)
    ensures out == BruteLengthOutcome(spec)
  {
    var r := ParseLengthSpec(spec);
    out := SendRange(r);
  }
}
