/**
 * The code-point list compressor of GoogleBackendService
 * (`compressedGlyphsList_`). Walking the list in order, every code point other
 * than 45 (hyphen-minus) is appended to the result, and every 45 puts a '-' in
 * front of it: the transport format treats '-' as special only at the start.
 * Each code point stands for the one character it is emitted as, so the result
 * is modelled as a sequence of code points.
 */
module GlyphList {

  /** The code point of hyphen-minus. */
  const Dash: int := 45

  /** How many 45s the list holds. */
  function DashCount(codes: seq<int>): nat
  {
    if |codes| == 0 then 0
    else if codes[0] == Dash then DashCount(codes[1..]) + 1
    else DashCount(codes[1..])
  }

  /** The list with every 45 removed, the others in their original order. */
  function NonDashes(codes: seq<int>): seq<int>
  {
    if |codes| == 0 then []
    else if codes[0] == Dash then NonDashes(codes[1..])
    else [codes[0]] + NonDashes(codes[1..])
  }

  /** `k` dashes. */
  function Dashes(k: nat): seq<int>
  {
    if k == 0 then [] else Dashes(k - 1) + [Dash]
  }

  /**
   * The loop of `compressedGlyphsList_` from index `i` on, with `result` the
   * text built so far: a 45 is put in front, anything else is appended.
   */
  function CompressFrom(codes: seq<int>, i: nat, result: seq<int>): (r: seq<int>)
    requires i <= |codes|
    ensures r == Dashes(DashCount(codes[i..])) + result + NonDashes(codes[i..])
    decreases |codes| - i
  {
    if i == |codes| then
      assert codes[i..] == [];
      result
    else
      var c, rest := codes[i], codes[i + 1..];
      assert codes[i..][0] == c && codes[i..][1..] == rest;
      if c != Dash then
        CompressFrom(codes, i + 1, result + [c])
      else
        CompressFrom(codes, i + 1, [Dash] + result)
  }

  /** `compressedGlyphsList_`: as many leading dashes as the list has 45s, then the rest in order. */
  function CompressedGlyphsList(codes: seq<int>): (r: seq<int>)
    ensures r == Dashes(DashCount(codes)) + NonDashes(codes)
  {
    assert codes[0..] == codes;
    CompressFrom(codes, 0, [])
  }

  /** Splitting a list splits its 45s and its other code points alike. */
  lemma {:induction false} AppendSplits(a: seq<int>, b: seq<int>)
    ensures DashCount(a + b) == DashCount(a) + DashCount(b)
    ensures NonDashes(a + b) == NonDashes(a) + NonDashes(b)
    decreases |a|
  {
    if |a| == 0 {
      assert a + b == b;
    } else {
      assert (a + b)[0] == a[0] && (a + b)[1..] == a[1..] + b;
      AppendSplits(a[1..], b);
    }
  }

  /** What is left after removing the 45s holds none. */
  lemma {:induction false} NonDashesHaveNoDash(codes: seq<int>)
    ensures Dash !in NonDashes(codes)
    ensures DashCount(NonDashes(codes)) == 0
    ensures NonDashes(NonDashes(codes)) == NonDashes(codes)
    decreases |codes|
  {
    if |codes| > 0 {
      NonDashesHaveNoDash(codes[1..]);
      var head := if codes[0] == Dash then [] else [codes[0]];
      AppendSplits(head, NonDashes(codes[1..]));
      if codes[0] != Dash {
        assert head[1..] == [];
      }
    }
  }

  /** A run of dashes is all 45s and nothing else. */
  lemma {:induction false} DashesAreDashes(k: nat)
    ensures |Dashes(k)| == k
    ensures forall i :: 0 <= i < k ==> Dashes(k)[i] == Dash
    ensures DashCount(Dashes(k)) == k
    ensures NonDashes(Dashes(k)) == []
  {
    if k > 0 {
      DashesAreDashes(k - 1);
      AppendSplits(Dashes(k - 1), [Dash]);
      assert [Dash][1..] == [];
    }
  }

  /** `DashCount` is the multiplicity of 45 in the list. */
  lemma {:induction false} DashCountIsMultiplicity(codes: seq<int>)
    ensures DashCount(codes) == multiset(codes)[Dash]
    decreases |codes|
  {
    if |codes| > 0 {
      assert codes == [codes[0]] + codes[1..];
      DashCountIsMultiplicity(codes[1..]);
    }
  }

  /** Dashes and non-dashes together hold exactly the code points of the list. */
  lemma {:induction false} PartitionMultiset(codes: seq<int>)
    ensures multiset(Dashes(DashCount(codes))) + multiset(NonDashes(codes)) == multiset(codes)
    decreases |codes|
  {
    if |codes| > 0 {
      var c, rest := codes[0], codes[1..];
      PartitionMultiset(rest);
      ConsMultiset(codes);
      var k := DashCount(rest);
      if c == Dash {
        assert Dashes(DashCount(codes)) == Dashes(k) + [c];
        assert NonDashes(codes) == NonDashes(rest);
      } else {
        assert Dashes(DashCount(codes)) == Dashes(k);
        assert NonDashes(codes) == [c] + NonDashes(rest);
      }
    }
  }

  /** The multiset of a non-empty list is its head plus the multiset of its tail. */
  lemma ConsMultiset(codes: seq<int>)
    requires |codes| > 0
    ensures multiset(codes) == multiset{codes[0]} + multiset(codes[1..])
  {
    assert codes == [codes[0]] + codes[1..];
  }

  /** The compressed list is a permutation of the input, so it has the same length. */
  lemma CompressIsPermutation(codes: seq<int>)
    ensures multiset(CompressedGlyphsList(codes)) == multiset(codes)
    ensures |CompressedGlyphsList(codes)| == |codes|
  {
    PartitionMultiset(codes);
    assert |multiset(CompressedGlyphsList(codes))| == |multiset(codes)|;
  }

  /** The compressed list is the 45s first, then no 45 at all, the other code points in their input order. */
  lemma CompressShape(codes: seq<int>)
    ensures var r := CompressedGlyphsList(codes);
      && DashCount(codes) <= |r|
      && (forall i :: 0 <= i < DashCount(codes) ==> r[i] == Dash)
      && (forall i :: DashCount(codes) <= i < |r| ==> r[i] != Dash)
      && NonDashes(r) == NonDashes(codes)
  {
    var k := DashCount(codes);
    var d, n := Dashes(k), NonDashes(codes);
    var r := CompressedGlyphsList(codes);
    assert r == d + n;
    DashesAreDashes(k);
    NonDashesHaveNoDash(codes);
    AppendSplits(d, n);
    assert NonDashes(r) == n by {
      assert NonDashes(d) == [] && NonDashes(n) == n;
      assert [] + n == n;
    }
    SplitAtDashes(d, n);
  }

  /** Dashes followed by a list without dashes: 45s exactly up to the join. */
  lemma SplitAtDashes(d: seq<int>, n: seq<int>)
    requires forall i :: 0 <= i < |d| ==> d[i] == Dash
    requires Dash !in n
    ensures forall i :: 0 <= i < |d| ==> (d + n)[i] == Dash
    ensures forall i :: |d| <= i < |d + n| ==> (d + n)[i] != Dash
  {
  }

  /** A list without 45 is left unchanged. */
  lemma {:induction false} CompressWithoutDash(codes: seq<int>)
    requires Dash !in codes
    ensures CompressedGlyphsList(codes) == codes
    decreases |codes|
  {
    if |codes| > 0 {
      assert codes == [codes[0]] + codes[1..];
      CompressWithoutDash(codes[1..]);
      assert DashCount(codes[1..]) == 0 && NonDashes(codes[1..]) == codes[1..];
    }
  }

  /** A single 45 anywhere moves to the front; the rest keep their order. */
  lemma CompressSingleDash(before: seq<int>, after: seq<int>)
    requires Dash !in before && Dash !in after
    ensures CompressedGlyphsList(before + [Dash] + after) == [Dash] + before + after
  {
    CompressWithoutDash(before);
    CompressWithoutDash(after);
    AppendSplits(before, [Dash]);
    AppendSplits(before + [Dash], after);
    assert [Dash][1..] == [];
    assert Dashes(1) == [Dash];
  }

  /** Compressing a compressed list changes nothing. */
  lemma CompressIdempotent(codes: seq<int>)
    ensures CompressedGlyphsList(CompressedGlyphsList(codes)) == CompressedGlyphsList(codes)
  {
    var k := DashCount(codes);
    DashesAreDashes(k);
    NonDashesHaveNoDash(codes);
    AppendSplits(Dashes(k), NonDashes(codes));
  }
}
