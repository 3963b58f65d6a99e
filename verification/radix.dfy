/**
 * The string rendering of a non-negative integer number, as JavaScript's
 * `Number.prototype.toString(radix)` produces it (and as `number + '.'`
 * produces it for radix 10): the shortest digit string, with the letters
 * `a`..`f` for digit values 10..15 and no padding.
 */
module Radix {
  import opened Results

  /** The radixes this model needs (10 and 16). */
  type Base = b: nat | 2 <= b <= 16 witness 10

  /** The value of a digit character, or 36 for a character that is no digit. */
  function DigitValue(c: char): nat
  {
    if '0' <= c <= '9' then c as int - '0' as int
    else if 'a' <= c <= 'z' then c as int - 'a' as int + 10
    else 36
  }

  predicate IsDigit(c: char, base: Base)
  {
    DigitValue(c) < base
  }

  /** The lower-case digit character of value `d`. */
  function DigitChar(d: nat): (c: char)
    requires d < 16
    ensures DigitValue(c) == d
  {
    if d < 10 then ('0' as int + d) as char else ('a' as int + (d - 10)) as char
  }

  /** `n.toString(base)`: most significant digit first, no leading zeros. */
  function ToRadix(n: nat, base: Base): (s: string)
    ensures 1 <= |s|
    ensures forall i :: 0 <= i < |s| ==> IsDigit(s[i], base)
    ensures |s| == 1 <==> n < base
    ensures s[0] == '0' ==> n == 0
    decreases n
  {
    if n < base then [DigitChar(n)]
    else
      DivMod(n, base);
      ToRadix(n / base, base) + [DigitChar(n % base)]
  }

  /** Reads a non-empty digit string back into the number it denotes. */
  function FromRadix(s: string, base: Base): Option<nat>
    decreases |s|
  {
    if |s| == 0 || !IsDigit(s[|s| - 1], base) then None
    else if |s| == 1 then Some(DigitValue(s[0]))
    else
      var high :- FromRadix(s[..|s| - 1], base);
      Some(high * base + DigitValue(s[|s| - 1]))
  }

  /** Rendering a number and reading it back gives the number again. */
  lemma {:induction false} FromToRadix(n: nat, base: Base)
    ensures FromRadix(ToRadix(n, base), base) == Some(n)
    decreases n
  {
    if n >= base {
      var q, d := n / base, n % base;
      var t := ToRadix(q, base);
      assert ToRadix(n, base) == t + [DigitChar(d)];
      DivMod(n, base);
      FromToRadix(q, base);
      FromRadixSnoc(t, DigitChar(d), base);
    } else {
      SingleDigit(n, base);
    }
  }

  /** A single digit reads back as itself. */
  lemma SingleDigit(n: nat, base: Base)
    requires n < base
    ensures FromRadix(ToRadix(n, base), base) == Some(n)
  {
  }

  /** Reading one more digit multiplies by the base and adds it. */
  lemma FromRadixSnoc(t: string, c: char, base: Base)
    requires 1 <= |t| && IsDigit(c, base) && FromRadix(t, base).Some?
    ensures FromRadix(t + [c], base) == Some(FromRadix(t, base).value * base + DigitValue(c))
  {
  }

  /**
   * The quotient-remainder facts the recursion of `ToRadix` rests on, kept in
   * a lemma of their own so that the nonlinear arithmetic stays out of the
   * larger proofs.
   */
  lemma DivMod(n: nat, base: Base)
    ensures (n / base) * base + n % base == n
    ensures n >= base ==> 1 <= n / base < n
    ensures n % base < base
  {
  }

  /** Two numbers have the same rendering exactly when they are equal. */
  lemma ToRadixInjective(m: nat, n: nat, base: Base)
    ensures ToRadix(m, base) == ToRadix(n, base) <==> m == n
  {
    FromToRadix(m, base);
    FromToRadix(n, base);
  }

  /** A byte in hex takes one digit below 16 and two digits from 16 on. */
  lemma HexByteLength(b: nat)
    requires b < 256
    ensures |ToRadix(b, 16)| == (if b < 16 then 1 else 2)
  {
  }
}
