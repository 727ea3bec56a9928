/**
 * Binary digit strings and the numbers they denote: the per-number helpers of
 * asciibin.py (`ascii_to_bin`, `decimal_to_bin6`, `binario_a_decimal`).
 *
 * A binary string is a `string` over '0' and '1', most significant digit
 * first, as the Python code builds it with `''.join`.
 */
module Binary {

  predicate IsBit(c: char) {
    c == '0' || c == '1'
  }

  predicate IsBinary(s: string) {
    forall i :: 0 <= i < |s| ==> IsBit(s[i])
  }

  /** `int(c)` for a binary digit. */
  function BitValue(c: char): (b: nat)
    ensures b < 2
  {
    if c == '1' then 1 else 0
  }

  /** `str(b)` for a remainder of a division by two. */
  function BitChar(b: nat): (c: char)
    requires b < 2
    ensures IsBit(c) && BitValue(c) == b
  {
    if b == 0 then '0' else '1'
  }

  /** Python's `2 ** n`. */
  function Pow2(n: nat): (r: nat)
    ensures r >= 1
  {
    if n == 0 then 1 else 2 * Pow2(n - 1)
  }

  function Max(a: nat, b: nat): nat {
    if a < b then b else a
  }

  function Zeros(k: nat): (z: string)
    ensures |z| == k && IsBinary(z)
  {
    seq(k, _ => '0')
  }

  /**
   * The number a binary string denotes: the digit at distance `i` from the
   * right end weighs `2 ** i`.
   */
  function Value(s: string): nat
    requires IsBinary(s)
  {
    if |s| == 0 then 0 else BitValue(s[0]) * Pow2(|s| - 1) + Value(s[1..])
  }

  lemma {:induction false} Pow2Add(a: nat, b: nat)
    ensures Pow2(a + b) == Pow2(a) * Pow2(b)
  {
    if a > 0 {
      Pow2Add(a - 1, b);
      assert Pow2(a + b) == 2 * Pow2(a - 1 + b);
    }
  }

  lemma {:induction false} Pow2Monotone(a: nat, b: nat)
    requires a <= b
    ensures Pow2(a) <= Pow2(b)
  {
    if a < b {
      Pow2Monotone(a, b - 1);
    }
  }

  /** A binary string of length n denotes a number below 2^n. */
  lemma {:induction false} ValueBound(s: string)
    requires IsBinary(s)
    ensures Value(s) < Pow2(|s|)
  {
    if |s| > 0 {
      ValueBound(s[1..]);
      assert BitValue(s[0]) * Pow2(|s| - 1) <= Pow2(|s| - 1);
    }
  }

  lemma BinaryConcat(a: string, b: string)
    requires IsBinary(a) && IsBinary(b)
    ensures IsBinary(a + b)
  {
    forall i | 0 <= i < |a + b|
      ensures IsBit((a + b)[i])
    {
      if i < |a| {
        assert (a + b)[i] == a[i];
      } else {
        assert (a + b)[i] == b[i - |a|];
      }
    }
  }

  lemma Regroup(d: int, p: int, q: int, v: int)
    ensures d * (p * q) + v * q == (d * p + v) * q
  {
  }

  /** Concatenation shifts the left part by the width of the right part. */
  lemma {:induction false} ValueConcat(a: string, b: string)
    requires IsBinary(a) && IsBinary(b)
    ensures IsBinary(a + b)
    ensures Value(a + b) == Value(a) * Pow2(|b|) + Value(b)
  {
    BinaryConcat(a, b);
    if |a| > 0 {
      var d := BitValue(a[0]);
      var rest := a[1..];
      assert (a + b)[1..] == rest + b;
      assert (a + b)[0] == a[0];
      BinaryConcat(rest, b);
      assert Value(a + b) == d * Pow2(|a| + |b| - 1) + Value(rest + b);
      ValueConcat(rest, b);
      Pow2Add(|a| - 1, |b|);
      Regroup(d, Pow2(|a| - 1), Pow2(|b|), Value(rest));
    } else {
      assert a + b == b;
    }
  }

  lemma {:induction false} ValueZeros(k: nat)
    ensures Value(Zeros(k)) == 0
  {
    if k > 0 {
      assert Zeros(k)[1..] == Zeros(k - 1);
      ValueZeros(k - 1);
    }
  }

  /** Leading zeros do not change the value of a binary string. */
  lemma ValueLeadingZeros(k: nat, s: string)
    requires IsBinary(s)
    ensures IsBinary(Zeros(k) + s)
    ensures Value(Zeros(k) + s) == Value(s)
  {
    ValueConcat(Zeros(k), s);
    ValueZeros(k);
  }

  /** Appending one digit doubles the value and adds the digit. */
  lemma ValueAppendBit(s: string, c: char)
    requires IsBinary(s) && IsBit(c)
    ensures IsBinary(s + [c])
    ensures Value(s + [c]) == 2 * Value(s) + BitValue(c)
  {
    ValueConcat(s, [c]);
    assert [c][1..] == [];
  }

  /** A binary string whose first digit is '1' is at least 2^(n-1). */
  lemma LeadingOneLowerBound(s: string)
    requires IsBinary(s) && |s| > 0 && s[0] == '1'
    ensures Pow2(|s| - 1) <= Value(s)
  {
  }

  /** Binary strings of equal length are equal exactly when their values are. */
  lemma {:induction false} ValueInjective(a: string, b: string)
    requires IsBinary(a) && IsBinary(b) && |a| == |b|
    requires Value(a) == Value(b)
    ensures a == b
  {
    if |a| > 0 {
      ValueBound(a[1..]);
      ValueBound(b[1..]);
      assert a[0] == b[0];
      ValueInjective(a[1..], b[1..]);
      assert a == [a[0]] + a[1..];
      assert b == [b[0]] + b[1..];
    }
  }

  /**
   * The digits the remainder loop of `ascii_to_bin` collects, already
   * reversed: no leading zero, the empty string for zero.
   */
  function Digits(n: nat): (r: string)
    ensures IsBinary(r)
    ensures Value(r) == n
    ensures |r| == 0 <==> n == 0
    ensures n > 0 ==> r[0] == '1'
  {
    if n == 0 then ""
    else
      var high := Digits(n / 2);
      ValueAppendBit(high, BitChar(n % 2));
      high + [BitChar(n % 2)]
  }

  /** `ascii_to_bin` turns zero into the single digit '0'. */
  function Unpadded(n: nat): string {
    if n == 0 then "0" else Digits(n)
  }

  lemma UnpaddedFacts(n: nat)
    ensures IsBinary(Unpadded(n)) && Value(Unpadded(n)) == n
    ensures |Unpadded(n)| >= 1
    ensures n < Pow2(|Unpadded(n)|)
    ensures |Unpadded(n)| > 1 ==> Unpadded(n)[0] == '1' && Pow2(|Unpadded(n)| - 1) <= n
  {
    var u := Unpadded(n);
    ValueBound(u);
    if |u| > 1 {
      LeadingOneLowerBound(u);
    }
  }

  /**
   * The `while len(bits) < w: bits.insert(0, '0')` loop: zeros on the left
   * up to the width, a longer string unchanged.
   */
  function PadLeft(s: string, width: nat): (r: string)
    ensures |r| == Max(|s|, width)
    ensures r == Zeros(|r| - |s|) + s
    decreases width - |s|
  {
    if |s| < width then
      var r := PadLeft("0" + s, width);
      assert Zeros(|r| - |s|) == Zeros(|r| - |s| - 1) + "0";
      r
    else
      assert s == Zeros(0) + s;
      s
  }

  /**
   * One entry of `ascii_to_bin` (width 8) or the result of `decimal_to_bin6`
   * (width 6): binary digits of `n`, zero-padded on the left to `width`.
   */
  function ToBinary(n: nat, width: nat): (r: string)
    ensures IsBinary(r)
    ensures Value(r) == n
    ensures |r| >= width && |r| >= 1
    ensures width >= 1 ==> (|r| == width <==> n < Pow2(width))
    ensures |r| > width && |r| > 1 ==> r[0] == '1'
  {
    var u := Unpadded(n);
    var r := PadLeft(u, width);
    UnpaddedFacts(n);
    ValueLeadingZeros(|r| - |u|, u);
    if width >= 1 then PaddedWidth(n, width); r else r
  }

  /** The padded form has exactly the width when the number fits in it. */
  lemma PaddedWidth(n: nat, width: nat)
    requires width >= 1
    ensures |Unpadded(n)| <= width <==> n < Pow2(width)
  {
    var u := Unpadded(n);
    UnpaddedFacts(n);
    if |u| <= width {
      Pow2Monotone(|u|, width);
    } else {
      Pow2Monotone(width, |u| - 1);
    }
  }

  /** `ascii_to_bin`: one binary string per code, at least eight digits each. */
  function AsciiToBin(codes: seq<nat>): (r: seq<string>)
    ensures |r| == |codes|
    ensures forall i :: 0 <= i < |r| ==>
              IsBinary(r[i]) && Value(r[i]) == codes[i] && |r[i]| >= 8
    ensures forall i :: 0 <= i < |r| ==> (|r[i]| == 8 <==> codes[i] < 256)
  {
    assert Pow2(8) == 256;
    seq(|codes|, i requires 0 <= i < |codes| => ToBinary(codes[i], 8))
  }

  /** `decimal_to_bin6`: at least six digits, exactly six below 64. */
  function DecimalToBin6(n: nat): (r: string)
    ensures IsBinary(r) && Value(r) == n
    ensures |r| >= 6
    ensures |r| == 6 <==> n < 64
  {
    assert Pow2(6) == 64;
    ToBinary(n, 6)
  }

  /**
   * A binary string of the padding width is the padded form of its own
   * value: `ToBinary` and `Value` are inverse on fixed-width strings.
   */
  lemma ToBinaryOfValue(s: string, width: nat)
    requires IsBinary(s) && |s| == width && width >= 1
    ensures ToBinary(Value(s), width) == s
  {
    ValueBound(s);
    ValueInjective(ToBinary(Value(s), width), s);
  }

  /** Python's `list.reverse()`. */
  function Reverse(s: string): (r: string)
    ensures |r| == |s|
  {
    if |s| == 0 then [] else [s[|s| - 1]] + Reverse(s[..|s| - 1])
  }

  /**
   * The loops of `ascii_to_bin` for one number (and of `decimal_to_bin6`):
   * collect remainders, reverse them, then insert zeros at the front.
   */
  method NumberToBinary(n: nat, width: nat) returns (bits: string)
    ensures bits == ToBinary(n, width)
    ensures Value(bits) == n
  {
    if n == 0 {
      bits := "0";
    } else {
      var rest := [];
      var m := n;
      while m > 0
        invariant Digits(n) == Digits(m) + Reverse(rest)
        decreases m
      {
        assert (rest + [BitChar(m % 2)])[..|rest|] == rest;
        rest := rest + [BitChar(m % 2)];
        m := m / 2;
      }
      bits := Reverse(rest);
    }
    while |bits| < width
      invariant PadLeft(bits, width) == ToBinary(n, width)
      decreases width - |bits|
    {
      bits := "0" + bits;
    }
  }

  /** `binario_a_decimal`: the loop reads digits from the right end. */
  method BinaryToDecimal(s: string) returns (d: nat)
    requires IsBinary(s)
    ensures d == Value(s)
    ensures d < Pow2(|s|)
  {
    d := 0;
    var i := 0;
    while i < |s|
      invariant 0 <= i <= |s|
      invariant d == Value(s[|s| - i..])
    {
      var bit := BitValue(s[|s| - 1 - i]);
      assert s[|s| - 1 - i..][1..] == s[|s| - i..];
      d := d + bit * Pow2(i);
      i := i + 1;
    }
    assert s[|s| - i..] == s;
    ValueBound(s);
  }
}
