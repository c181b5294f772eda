/** Failure-carrying values shared by every module of the model. */
module Common {

  /** A value that may be absent: Go's nil pointer results and `(value, ok)` pairs. */
  datatype Option<T> = None | Some(value: T)

  /** A value or an error message: Go's `(value, error)` returns. */
  datatype Result<T> = Ok(value: T) | Err(msg: string)

  /** What a producer loop sends before it ends (`Finished`) or before it
      starts spinning forever without sending anything more (`Hangs`). */
  datatype Emission = Finished(items: seq<string>) | Hangs(items: seq<string>)

  /** Order-preserving filter of a sequence by a predicate. */
  function Filter<T>(s: seq<T>, keep: T -> bool): (r: seq<T>)
    ensures |r| <= |s|
  {
    if s == [] then [] else (if keep(s[0]) then [s[0]] else []) + Filter(s[1..], keep)
  }

  /** Exactly the elements of `s` that satisfy `keep` survive the filter. */
  lemma {:induction false} FilterMembers<T>(s: seq<T>, keep: T -> bool, x: T)
    ensures x in Filter(s, keep) <==> x in s && keep(x)
  {
    if s != [] {
      FilterMembers(s[1..], keep, x);
      assert s == [s[0]] + s[1..];
    }
  }

  /** Filtering distributes over concatenation: it keeps input order. */
  lemma {:induction false} FilterAppend<T>(a: seq<T>, b: seq<T>, keep: T -> bool)
    ensures Filter(a + b, keep) == Filter(a, keep) + Filter(b, keep)
  {
    if a == [] {
      assert a + b == b;
    } else {
      var head := if keep(a[0]) then [a[0]] else [];
      assert (a + b)[0] == a[0];
      assert (a + b)[1..] == a[1..] + b;
      assert Filter(a + b, keep) == head + Filter(a[1..] + b, keep);
      FilterAppend(a[1..], b, keep);
      assert Filter(a, keep) == head + Filter(a[1..], keep);
    }
  }

  lemma AppendAssoc<T>(a: seq<T>, b: seq<T>, c: seq<T>)
    ensures a + (b + c) == (a + b) + c
  {
  }

  /** Number of occurrences of `x` in `s`. */
  function Count<T(==)>(s: seq<T>, x: T): (n: nat)
    ensures n <= |s|
    ensures n == 0 <==> x !in s
  {
    if s == [] then 0 else (if s[0] == x then 1 else 0) + Count(s[1..], x)
  }

  lemma {:induction false} CountAppend<T>(a: seq<T>, b: seq<T>, x: T)
    ensures Count(a + b, x) == Count(a, x) + Count(b, x)
  {
    if a == [] {
      assert a + b == b;
    } else {
      assert (a + b)[1..] == a[1..] + b;
      CountAppend(a[1..], b, x);
    }
  }

  /** No element occurs twice. */
  predicate NoDuplicates<T(==)>(s: seq<T>) {
    forall i, j | 0 <= i < j < |s| :: s[i] != s[j]
  }

  /** In a list without duplicates an element occurs at most once. */
  lemma {:induction false} CountDistinct<T>(s: seq<T>, x: T)
    requires NoDuplicates(s)
    ensures Count(s, x) == if x in s then 1 else 0
  {
    if s != [] {
      assert NoDuplicates(s[1..]) by {
        forall i, j | 0 <= i < j < |s[1..]| ensures s[1..][i] != s[1..][j] {
          assert s[1..][i] == s[i + 1] && s[1..][j] == s[j + 1];
        }
      }
      CountDistinct(s[1..], x);
      if s[0] == x {
        assert x !in s[1..] by {
          forall k | 0 <= k < |s[1..]| ensures s[1..][k] != x {
            assert s[1..][k] == s[k + 1];
          }
        }
      } else {
        assert x in s <==> x in s[1..] by {
          assert s == [s[0]] + s[1..];
        }
      }
    }
  }

  /** The sequences `f(lo)`, `f(lo + 1)`, ..., `f(lo + count - 1)` one after another. */
  function FlattenRange<T>(f: nat -> seq<T>, lo: nat, count: nat): seq<T> {
    if count == 0 then [] else FlattenRange(f, lo, count - 1) + f(lo + count - 1)
  }

  /** An element is in the flattened range exactly when one of its parts holds it. */
  lemma {:induction false} FlattenRangeMembers<T>(f: nat -> seq<T>, lo: nat, count: nat, x: T)
    ensures x in FlattenRange(f, lo, count) <==> exists k | lo <= k < lo + count :: x in f(k)
  {
    if count > 0 {
      FlattenRangeMembers(f, lo, count - 1, x);
      var k := lo + count - 1;
      if x in f(k) {
        assert lo <= k < lo + count && x in f(k);
      }
    }
  }

  /** Appending the next part extends the flattened range by one. */
  lemma FlattenRangeAppend<T>(f: nat -> seq<T>, lo: nat, count: nat, prefix: seq<T>, part: seq<T>)
    requires prefix == FlattenRange(f, lo, count) && part == f(lo + count)
    ensures prefix + part == FlattenRange(f, lo, count + 1)
  {
  }
}
