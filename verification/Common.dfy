/** Shared vocabulary: octets, and the Option and Result shapes that stand for
    JavaScript's null results and for Rust's Result. */
module Common {
  type Byte = b: int | 0 <= b < 256

  datatype Option<+T> = None | Some(value: T)

  datatype Result<+T, +E> = Ok(value: T) | Err(error: E)

  function Min(a: int, b: int): int { if a < b then a else b }

  /** No value occurs twice. */
  predicate Distinct<T(==)>(s: seq<T>) {
    forall i, j :: 0 <= i < j < |s| ==> s[i] != s[j]
  }

  /** The last `n` elements, or all of them when there are fewer. */
  function Last<T>(s: seq<T>, n: nat): seq<T> {
    if |s| <= n then s else s[|s| - n..]
  }

  /** The encodings of the elements of `xs`, one after another. */
  function Concat<T, U>(encode: T -> seq<U>, xs: seq<T>): seq<U> {
    if xs == [] then [] else encode(xs[0]) + Concat(encode, xs[1..])
  }

  lemma {:induction false} ConcatAppend<T, U>(encode: T -> seq<U>, xs: seq<T>, ys: seq<T>)
    ensures Concat(encode, xs + ys) == Concat(encode, xs) + Concat(encode, ys)
  {
    if xs == [] {
      assert xs + ys == ys;
    } else {
      assert (xs + ys)[1..] == xs[1..] + ys;
      ConcatAppend(encode, xs[1..], ys);
    }
  }

  /** The longest run of whole encodings that fits in `limit`. */
  function Within<T, U>(encode: T -> seq<U>, xs: seq<T>, limit: int): seq<T> {
    if xs == [] || |encode(xs[0])| > limit then []
    else [xs[0]] + Within(encode, xs[1..], limit - |encode(xs[0])|)
  }

  lemma {:induction false} WithinAppend<T, U>(encode: T -> seq<U>, xs: seq<T>, ys: seq<T>, limit: int)
    requires |Concat(encode, xs)| <= limit
    ensures Within(encode, xs + ys, limit) == xs + Within(encode, ys, limit - |Concat(encode, xs)|)
  {
    hide Within;
    if xs == [] {
      assert xs + ys == ys;
      assert [] + Within(encode, ys, limit) == Within(encode, ys, limit);
    } else {
      var head, tail := xs[0], xs[1..];
      var rest := Within(encode, ys, limit - |Concat(encode, xs)|);
      WithinAppend(encode, tail, ys, limit - |encode(head)|);
      WithinCons(encode, head, tail + ys, limit);
      assert xs == [head] + tail;
      assert [head] + (tail + ys) == xs + ys;
      assert [head] + (tail + rest) == xs + rest;
    }
  }

  lemma WithinCons<T, U>(encode: T -> seq<U>, head: T, tail: seq<T>, limit: int)
    requires |encode(head)| <= limit
    ensures Within(encode, [head] + tail, limit) == [head] + Within(encode, tail, limit - |encode(head)|)
  {
    assert ([head] + tail)[1..] == tail;
  }

  lemma {:induction false} WithinStuck<T, U>(encode: T -> seq<U>, xs: seq<T>, ys: seq<T>, limit: int)
    requires |Concat(encode, xs)| > limit
    ensures Within(encode, xs + ys, limit) == Within(encode, xs, limit)
  {
    if xs == [] {
      assert limit < 0;
    } else {
      assert (xs + ys)[1..] == xs[1..] + ys;
      WithinStuck(encode, xs[1..], ys, limit - |encode(xs[0])|);
    }
  }

  /** Within never splits an encoding, never exceeds the limit, and stops only
      when the next encoding does not fit. */
  lemma {:induction false} WithinIsLongestFit<T, U>(encode: T -> seq<U>, xs: seq<T>, limit: nat)
    ensures Within(encode, xs, limit) <= xs
    ensures |Concat(encode, Within(encode, xs, limit))| <= limit
    ensures var p := |Within(encode, xs, limit)|; p < |xs| ==> |Concat(encode, xs[..p + 1])| > limit
  {
    if xs != [] && |encode(xs[0])| <= limit {
      var rest := limit - |encode(xs[0])|;
      WithinIsLongestFit(encode, xs[1..], rest);
      var p := |Within(encode, xs[1..], rest)|;
      if p < |xs[1..]| {
        assert xs[..p + 2][1..] == xs[1..][..p + 1];
        assert xs[..p + 2][0] == xs[0];
      }
    } else if xs != [] {
      assert xs[..1][1..] == [];
    }
  }

  function Repeat(c: char, n: nat): (s: string)
    ensures |s| == n && forall i :: 0 <= i < n ==> s[i] == c
  {
    seq(n, _ => c)
  }

  /** The first occurrence, or the length when there is none. */
  function Until(s: string, c: char): (n: nat)
    ensures n <= |s| && (n < |s| ==> s[n] == c) && c !in s[..n]
  {
    if s == [] || s[0] == c then 0 else 1 + Until(s[1..], c)
  }

  lemma {:induction false} UntilIsUnique(a: string, b: string, c: char)
    requires c !in a && (b == [] || b[0] == c)
    ensures Until(a + b, c) == |a|
  {
    if a == [] {
      assert a + b == b;
    } else {
      assert (a + b)[1..] == a[1..] + b;
      UntilIsUnique(a[1..], b, c);
    }
  }
}
