/** Splitting a string at the first or the last occurrence of a separator. */
module Strings {
  import opened Results

  /** `t` is the tail end of `s`. */
  predicate EndsWith(s: string, t: string)
  {
    |t| <= |s| && s[|s| - |t|..] == t
  }

  /** Splits `s` at its first `c`: the part before it holds no `c`. */
  function SplitFirst(s: string, c: char): (r: Option<(string, string)>)
    ensures r.None? <==> c !in s
    ensures r.Some? ==> s == r.value.0 + [c] + r.value.1 && c !in r.value.0
    decreases |s|
  {
    if |s| == 0 then None
    else if s[0] == c then Some(([], s[1..]))
    else
      var rest :- SplitFirst(s[1..], c);
      Some(([s[0]] + rest.0, rest.1))
  }

  /** Splits `s` at its last `c`: the part after it holds no `c`. */
  function SplitLast(s: string, c: char): (r: Option<(string, string)>)
    ensures r.None? <==> c !in s
    ensures r.Some? ==> s == r.value.0 + [c] + r.value.1 && c !in r.value.1
    decreases |s|
  {
    if |s| == 0 then None
    else if s[|s| - 1] == c then Some((s[..|s| - 1], []))
    else
      var rest :- SplitLast(s[..|s| - 1], c);
      Some((rest.0, rest.1 + [s[|s| - 1]]))
  }

  /** Joining two parts with a separator absent from the first part and splitting at the first separator gives the parts back. */
  lemma {:induction false} SplitFirstJoin(a: string, c: char, b: string)
    requires c !in a
    ensures SplitFirst(a + [c] + b, c) == Some((a, b))
    decreases |a|
  {
    var s := a + [c] + b;
    if |a| > 0 {
      assert s[0] == a[0];
      assert s[1..] == a[1..] + [c] + b;
      SplitFirstJoin(a[1..], c, b);
      assert [a[0]] + a[1..] == a;
    } else {
      assert s[1..] == b;
    }
  }

  /** Joining two parts with a separator absent from the second part and splitting at the last separator gives the parts back. */
  lemma {:induction false} SplitLastJoin(a: string, c: char, b: string)
    requires c !in b
    ensures SplitLast(a + [c] + b, c) == Some((a, b))
    decreases |b|
  {
    var s := a + [c] + b;
    if |b| > 0 {
      var n := |b| - 1;
      assert s[|s| - 1] == b[n];
      assert s[..|s| - 1] == a + [c] + b[..n];
      SplitLastJoin(a, c, b[..n]);
      assert b[..n] + [b[n]] == b;
    } else {
      assert s[..|s| - 1] == a;
    }
  }
}
