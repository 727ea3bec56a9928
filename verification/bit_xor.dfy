/**
 * `XOR_to_BIN` of asciibin.py: digit-wise exclusive or of two digit strings,
 * after `str.zfill` has padded the shorter one to the longer one's length.
 */
module BitXor {

  import opened Binary

  /**
   * Python's `s.zfill(width)`: zeros on the left up to `width`, inserted
   * after a leading '+' or '-' sign; a string already that long is unchanged.
   */
  function Zfill(s: string, width: nat): (r: string)
    ensures |r| == Max(|s|, width)
  {
    if |s| >= width then s
    else if |s| > 0 && (s[0] == '+' || s[0] == '-') then [s[0]] + Zeros(width - |s|) + s[1..]
    else Zeros(width - |s|) + s
  }

  /** On a string without a sign `zfill` is the padding loop of `ascii_to_bin`. */
  lemma ZfillIsPadLeft(s: string, width: nat)
    requires |s| == 0 || (s[0] != '+' && s[0] != '-')
    ensures Zfill(s, width) == PadLeft(s, width)
  {
  }

  /**
   * `XOR_to_BIN`: '1' where the padded strings hold different characters,
   * '0' where they hold the same one.
   */
  function Xor(a: string, b: string): (r: string)
    ensures |r| == Max(|a|, |b|)
    ensures IsBinary(r)
    ensures forall i :: 0 <= i < |r| ==>
              (r[i] == '1' <==> Zfill(a, |r|)[i] != Zfill(b, |r|)[i])
  {
    var width := Max(|a|, |b|);
    var pa, pb := Zfill(a, width), Zfill(b, width);
    seq(width, i requires 0 <= i < width => if pa[i] != pb[i] then '1' else '0')
  }

  /** On binary strings of equal length each digit follows the truth table of exclusive or. */
  lemma XorTruthTable(a: string, b: string, i: nat)
    requires IsBinary(a) && IsBinary(b) && |a| == |b| && i < |a|
    ensures BitValue(Xor(a, b)[i]) == (BitValue(a[i]) + BitValue(b[i])) % 2
  {
  }

  lemma XorCommutative(a: string, b: string)
    ensures Xor(a, b) == Xor(b, a)
  {
    var r, s := Xor(a, b), Xor(b, a);
    assert Max(|a|, |b|) == Max(|b|, |a|);
    forall i | 0 <= i < |r|
      ensures r[i] == s[i]
    {
    }
  }

  /** A string exclusive-or itself is all zeros. */
  lemma XorSelf(a: string)
    ensures Xor(a, a) == Zeros(|a|)
  {
    var r := Xor(a, a);
    assert Max(|a|, |a|) == |a|;
    forall i | 0 <= i < |r|
      ensures r[i] == '0'
    {
    }
  }

  /** On strings of one length no padding happens: digits are compared in place. */
  lemma XorSameLength(a: string, b: string)
    requires |a| == |b|
    ensures forall i :: 0 <= i < |a| ==> Xor(a, b)[i] == if a[i] != b[i] then '1' else '0'
  {
    assert Zfill(a, |a|) == a && Zfill(b, |b|) == b;
  }

  /** Padding the operands first changes nothing. */
  lemma XorOfPadded(a: string, b: string)
    ensures Xor(Zfill(a, Max(|a|, |b|)), Zfill(b, Max(|a|, |b|))) == Xor(a, b)
  {
    var width := Max(|a|, |b|);
    var pa, pb := Zfill(a, width), Zfill(b, width);
    assert Zfill(pa, width) == pa && Zfill(pb, width) == pb;
  }

  lemma XorTwiceSameLength(a: string, b: string)
    requires IsBinary(a) && IsBinary(b) && |a| == |b|
    ensures Xor(Xor(a, b), b) == a
  {
    var once := Xor(a, b);
    XorSameLength(a, b);
    XorSameLength(once, b);
    var twice := Xor(once, b);
    forall i | 0 <= i < |a|
      ensures twice[i] == a[i]
    {
      assert IsBit(a[i]) && IsBit(b[i]);
    }
  }

  /** Exclusive or with the same binary string twice gives back the padded original. */
  lemma XorInvolution(a: string, b: string)
    requires IsBinary(a) && IsBinary(b)
    ensures Xor(Xor(a, b), b) == PadLeft(a, Max(|a|, |b|))
  {
    var width := Max(|a|, |b|);
    var pa := PaddedBinary(a, width);
    var pb := PaddedBinary(b, width);
    var once := Xor(pa, pb);
    assert Xor(a, b) == once by {
      XorOfPadded(a, b);
    }
    assert Xor(once, b) == Xor(once, pb) by {
      XorOfPadded(once, b);
      assert Max(|once|, |b|) == width;
      assert Zfill(once, width) == once;
    }
    XorTwiceSameLength(pa, pb);
  }

  /** `zfill` of a binary string is binary and equals the padding of `ascii_to_bin`. */
  lemma PaddedBinary(s: string, width: nat) returns (p: string)
    requires IsBinary(s) && |s| <= width
    ensures p == Zfill(s, width) == PadLeft(s, width)
    ensures IsBinary(p) && |p| == width
  {
    assert |s| == 0 || IsBit(s[0]);
    ZfillIsPadLeft(s, width);
    ValueLeadingZeros(width - |s|, s);
    p := Zfill(s, width);
  }
}
