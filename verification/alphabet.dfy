/**
 The character tables of the candidate generator: the 37-symbol brute-force
 alphabet (`BuildAlphaTable` / `buildAlphaTable`) and the 36-letter set random
 probe labels are drawn from (`RandString` / `randStr`).
 */
module Alphabet {
  import opened Common

  /** Symbol `i` of the brute-force alphabet: 'a'..'z', then '0'..'9', then '-'. */
  function AlphaChar(i: nat): char
    requires i < 37
  {
    if i < 26 then ('a' as int + i) as char
    else if i < 36 then ('0' as int + (i - 26)) as char
    else '-'
  }

  /** The alphabet as the list of one-character strings the generator combines. */
  function Alpha(): (a: seq<string>)
    ensures |a| == 37
    ensures forall i | 0 <= i < 37 :: a[i] == [AlphaChar(i)]
  {
    seq(37, i requires 0 <= i < 37 => [AlphaChar(i)])
  }

  /** Index of the hyphen, the only symbol that may not start or end a label. */
  const Hyphen: nat := 36

  /** The alphabet, built the way `BuildAlphaTable` builds it: three appending loops. */
  method BuildAlphaTable() returns (table: seq<string>)
    ensures |table| == 37
    ensures forall i | 0 <= i < 26 :: table[i] == [('a' as int + i) as char]
    ensures forall i | 26 <= i < 36 :: table[i] == [('0' as int + (i - 26)) as char]
    ensures table[36] == "-"
    ensures table == Alpha()
  {
    table := [];
    var c := 97;
    while c < 123
      invariant 97 <= c <= 123
      invariant |table| == c - 97
      invariant forall j | 0 <= j < |table| :: table[j] == [(97 + j) as char]
    {
      table := table + [[c as char]];
      c := c + 1;
    }
    c := 48;
    while c < 58
      invariant 48 <= c <= 58
      invariant |table| == 26 + (c - 48)
      invariant forall j | 0 <= j < 26 :: table[j] == [(97 + j) as char]
      invariant forall j | 26 <= j < |table| :: table[j] == [(48 + (j - 26)) as char]
    {
      table := table + [[c as char]];
      c := c + 1;
    }
    table := table + ["-"];
  }

  /** Every symbol is a different one-character string. */
  lemma AlphaDistinct()
    ensures NoDuplicates(Alpha())
    ensures forall i | 0 <= i < 37 :: |Alpha()[i]| == 1
  {
    var a := Alpha();
    forall i, j | 0 <= i < j < 37 ensures a[i] != a[j] {
      assert a[i][0] == AlphaChar(i) && a[j][0] == AlphaChar(j);
    }
  }

  /** The characters of the brute-force alphabet. */
  predicate InAlphabet(c: char) {
    ('a' <= c <= 'z') || ('0' <= c <= '9') || c == '-'
  }

  /** Position of an alphabet character; the inverse of `AlphaChar`. */
  function AlphaIndex(c: char): (i: nat)
    requires InAlphabet(c)
    ensures i < 37 && AlphaChar(i) == c
    ensures c == '-' <==> i == Hyphen
  {
    if 'a' <= c <= 'z' then c as int - 'a' as int
    else if '0' <= c <= '9' then 26 + (c as int - '0' as int)
    else Hyphen
  }

  /** Every symbol is an alphabet character, recovered by `AlphaIndex`. */
  lemma AlphaCharIndex(i: nat)
    requires i < 37
    ensures InAlphabet(AlphaChar(i)) && AlphaIndex(AlphaChar(i)) == i
  {
  }

  /** Character `k` of the random-label set: 'a'..'z', then '0'..'9'. */
  function LetterChar(k: nat): (c: char)
    requires k < 36
    ensures c != '-'
  {
    if k < 26 then ('a' as int + k) as char else ('0' as int + (k - 26)) as char
  }

  /** The characters random probe labels are drawn from: letters and digits, no '-'. */
  function Letters(): (s: string)
    ensures |s| == 36
    ensures forall k | 0 <= k < 36 :: s[k] == LetterChar(k)
  {
    seq(36, k requires 0 <= k < 36 => LetterChar(k))
  }

  /** `Letters()` is the constant `LETTERS`. */
  lemma LettersLiteral()
    ensures Letters() == "abcdefghijklmnopqrstuvwxyz0123456789"
  {
  }

  /** `RandString(n)`: `picks` are the `n` values `rand.Intn(len(LETTERS))` returned. */
  function RandString(n: nat, picks: seq<nat>): (s: string)
    requires |picks| == n
    requires forall i | 0 <= i < n :: picks[i] < 36
    ensures |s| == n
    ensures forall i | 0 <= i < n :: s[i] in Letters() && s[i] != '-'
  {
    seq(n, i requires 0 <= i < n => Letters()[picks[i]])
  }

  /** Position of a letter in `Letters`. */
  function LetterIndex(c: char): (k: nat)
    requires c in Letters()
    ensures k < 36 && Letters()[k] == c
  {
    if 'a' <= c <= 'z' then c as int - 'a' as int else 26 + (c as int - '0' as int)
  }

  /** Every string over `Letters` is a possible random label: the charset is exact. */
  lemma {:induction false} RandStringCoversLetters(s: string)
    requires forall i | 0 <= i < |s| :: s[i] in Letters()
    ensures exists picks: seq<nat> | |picks| == |s| && (forall i | 0 <= i < |s| :: picks[i] < 36)
              :: RandString(|s|, picks) == s
  {
    var picks := seq(|s|, i requires 0 <= i < |s| => LetterIndex(s[i]));
    assert RandString(|s|, picks) == s;
  }
}
