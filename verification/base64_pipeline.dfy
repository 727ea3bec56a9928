/**
 * The Base64 script of asciibin.py (lines 132-144) as two pure functions.
 *
 * Encoding: codes -> `ascii_to_bin` -> `concatenar_lista` -> `bloques_de_6`
 * -> `binario_a_decimal` per block -> `decimal_to_base64_char` per value.
 * Decoding: `base64_to_decimal` -> `decimal_to_bin6` per index ->
 * `concatenar_lista` -> `bloques_de_8` -> `binario_a_decimal` per block.
 *
 * Unlike RFC 4648 the script writes no '=' padding and reads a short last
 * block as a short number instead of filling it with zeros on the right, so
 * the round trip only holds when the number of codes is a multiple of 3.
 */
module Base64Pipeline {

  import opened Outcomes
  import opened Binary
  import opened Blocks
  import opened Base64Alphabet

  /** `[binario_a_decimal(b) for b in groups]`: a block of `w` digits gives a value below 2^w. */
  function GroupValues(groups: seq<string>): (r: seq<nat>)
    requires forall i :: 0 <= i < |groups| ==> IsBinary(groups[i])
    ensures |r| == |groups|
    ensures forall i :: 0 <= i < |r| ==> r[i] < Pow2(|groups[i]|)
  {
    ValuesBounded(groups);
    seq(|groups|, i requires 0 <= i < |groups| => Value(groups[i]))
  }

  lemma ValuesBounded(groups: seq<string>)
    requires forall i :: 0 <= i < |groups| ==> IsBinary(groups[i])
    ensures forall i :: 0 <= i < |groups| ==> Value(groups[i]) < Pow2(|groups[i]|)
  {
    forall i | 0 <= i < |groups|
      ensures Value(groups[i]) < Pow2(|groups[i]|)
    {
      ValueBound(groups[i]);
    }
  }

  /** Every block of at most `w` digits has a value below 2^w. */
  lemma GroupValuesBelow(groups: seq<string>, w: nat)
    requires forall i :: 0 <= i < |groups| ==> IsBinary(groups[i]) && |groups[i]| <= w
    ensures forall i :: 0 <= i < |groups| ==> GroupValues(groups)[i] < Pow2(w)
  {
    forall i | 0 <= i < |groups|
      ensures GroupValues(groups)[i] < Pow2(w)
    {
      Pow2Monotone(|groups[i]|, w);
    }
  }

  /** The six-digit blocks of the joined binary forms of `codes`. */
  function SixBitGroups(codes: seq<nat>): (r: seq<string>)
    ensures forall i :: 0 <= i < |r| ==> IsBinary(r[i]) && 0 < |r[i]| <= 6
    ensures (forall i :: 0 <= i < |codes| ==> codes[i] < 256) ==> |r| == (8 * |codes| + 5) / 6
  {
    var bins := AsciiToBin(codes);
    if forall i :: 0 <= i < |codes| ==> codes[i] < 256 then
      ConcatUniformLength(bins, 8);
      Blocks6(Concat(bins))
    else
      Blocks6(Concat(bins))
  }

  /**
   * Lines 134-138: the Base64 text of `codes`. The lookup never fails, since
   * a block has at most six digits.
   */
  function Encode(codes: seq<nat>): (r: Option<string>)
    ensures r.Some?
    ensures forall i :: 0 <= i < |r.value| ==> r.value[i] in Alphabet
    ensures (forall i :: 0 <= i < |codes| ==> codes[i] < 256) ==>
              |r.value| == (8 * |codes| + 5) / 6
  {
    var groups := SixBitGroups(codes);
    GroupValuesBelow(groups, 6);
    assert Pow2(6) == 64;
    IndicesToBase64(GroupValues(groups))
  }

  /** Line 141: `decimal_to_bin6` of every index. */
  function SixBitForms(indices: seq<nat>): (r: seq<string>)
    ensures |r| == |indices|
    ensures forall i :: 0 <= i < |r| ==> IsBinary(r[i]) && Value(r[i]) == indices[i]
    ensures forall i :: 0 <= i < |r| ==> (|r[i]| == 6 <==> indices[i] < 64)
  {
    seq(|indices|, i requires 0 <= i < |indices| => DecimalToBin6(indices[i]))
  }

  /**
   * Lines 141-144: the codes of the 8-digit blocks of the joined six-digit
   * forms. Indices below 64 give `ceil(6m / 8)` codes below 256.
   */
  function CodesOfIndices(indices: seq<nat>): (r: seq<nat>)
    ensures (forall i :: 0 <= i < |indices| ==> indices[i] < 64) ==>
              |r| == (6 * |indices| + 7) / 8
    ensures forall i :: 0 <= i < |r| ==> r[i] < 256
  {
    var forms := SixBitForms(indices);
    var groups := Blocks8(Concat(forms));
    GroupValuesBelow(groups, 8);
    assert Pow2(8) == 256;
    if forall i :: 0 <= i < |indices| ==> indices[i] < 64 then
      ConcatUniformLength(forms, 6);
      GroupValues(groups)
    else
      GroupValues(groups)
  }

  /**
   * Lines 140-144: the codes of a Base64 text; `None` when a character is
   * outside the alphabet.
   */
  function Decode(text: string): (r: Option<seq<nat>>)
    ensures r.Some? <==> forall i :: 0 <= i < |text| ==> text[i] in Alphabet
    ensures r.Some? ==> |r.value| == (6 * |text| + 7) / 8
    ensures r.Some? ==> forall i :: 0 <= i < |r.value| ==> r.value[i] < 256
  {
    match Base64ToDecimal(text)
    case None => None
    case Some(indices) => Some(CodesOfIndices(indices))
  }

  /**
   * Decoding the encoding of byte codes gives them back when there are a
   * multiple of 3 of them.
   */
  lemma RoundTrip(codes: seq<nat>)
    requires |codes| % 3 == 0
    requires forall i :: 0 <= i < |codes| ==> codes[i] < 256
    ensures Decode(Encode(codes).value) == Some(codes)
  {
    var values := GroupValues(SixBitGroups(codes));
    EncodedIndices(codes);
    assert Decode(Encode(codes).value) == Some(CodesOfIndices(values));
    CodesOfBlockValues(codes);
  }

  /** The indices read back from an encoding are the values of its six-digit blocks. */
  lemma EncodedIndices(codes: seq<nat>)
    ensures forall i :: 0 <= i < |SixBitGroups(codes)| ==> GroupValues(SixBitGroups(codes))[i] < 64
    ensures Base64ToDecimal(Encode(codes).value) == Some(GroupValues(SixBitGroups(codes)))
  {
    var values := GroupValues(SixBitGroups(codes));
    GroupValuesBelow(SixBitGroups(codes), 6);
    assert Pow2(6) == 64;
    DecodeIndices(values);
  }

  /** Regrouping the values of full six-digit blocks into bytes gives the codes back. */
  lemma CodesOfBlockValues(codes: seq<nat>)
    requires |codes| % 3 == 0
    requires forall i :: 0 <= i < |codes| ==> codes[i] < 256
    ensures CodesOfIndices(GroupValues(SixBitGroups(codes))) == codes
  {
    var bins := AsciiToBin(codes);
    var groups := SixBitGroups(codes);
    var forms := SixBitForms(GroupValues(groups));
    EncodedIndices(codes);
    ExactSixBitGroups(codes);
    SixBitFormsOfValues(groups, forms);
    ConcatOfChunks(Concat(bins), 6);
    ChunksOfConcat(bins, 8);
    assert Blocks8(Concat(forms)) == bins;
    assert GroupValues(bins) == codes;
  }

  /** With a multiple of 3 byte codes, every six-digit block is full. */
  lemma ExactSixBitGroups(codes: seq<nat>)
    requires |codes| % 3 == 0
    requires forall i :: 0 <= i < |codes| ==> codes[i] < 256
    ensures SixBitGroups(codes) == Chunks(Concat(AsciiToBin(codes)), 6)
    ensures forall i :: 0 <= i < |SixBitGroups(codes)| ==> |SixBitGroups(codes)[i]| == 6
  {
    var bins := AsciiToBin(codes);
    var joined := Concat(bins);
    ConcatUniformLength(bins, 8);
    assert |joined| % 6 == 0 by {
      DivModUnique(|joined|, 6, 4 * (|codes| / 3), 0);
    }
    ChunksExact(joined, 6);
    assert SixBitGroups(codes) == Blocks6(joined) == Chunks(joined, 6);
  }

  /** Full six-digit blocks are the six-digit forms of their own values. */
  lemma SixBitFormsOfValues(groups: seq<string>, forms: seq<string>)
    requires forall i :: 0 <= i < |groups| ==> IsBinary(groups[i]) && |groups[i]| == 6
    requires |forms| == |groups|
    requires forall i :: 0 <= i < |forms| ==> IsBinary(forms[i])
    requires forall i :: 0 <= i < |groups| ==> Value(forms[i]) == Value(groups[i]) && |forms[i]| == 6
    ensures forms == groups
  {
    forall i | 0 <= i < |groups|
      ensures forms[i] == groups[i]
    {
      ValueInjective(forms[i], groups[i]);
    }
  }

  /** Byte codes come back from the round trip exactly when their number is a multiple of 3. */
  lemma RoundTripExactly(codes: seq<nat>)
    requires forall i :: 0 <= i < |codes| ==> codes[i] < 256
    ensures Decode(Encode(codes).value) == Some(codes) <==> |codes| % 3 == 0
  {
    if |codes| % 3 == 0 {
      RoundTrip(codes);
    } else {
      DecodedLength(codes);
    }
  }

  /**
   * Without a multiple of 3 byte codes, decoding the encoding yields one code
   * more than were encoded: the short last 8-digit block becomes an extra code.
   */
  lemma DecodedLength(codes: seq<nat>)
    requires forall i :: 0 <= i < |codes| ==> codes[i] < 256
    requires |codes| % 3 != 0
    ensures Decode(Encode(codes).value).Some?
    ensures |Decode(Encode(codes).value).value| == |codes| + 1
  {
    DecodedLengthArithmetic(|codes|, |Encode(codes).value|);
  }

  /** A text of `ceil(8n / 6)` characters has `ceil(6 * len / 8) == n + 1` unless 3 divides `n`. */
  lemma DecodedLengthArithmetic(n: nat, textLength: nat)
    requires n % 3 != 0 && textLength == (8 * n + 5) / 6
    ensures (6 * textLength + 7) / 8 == n + 1
  {
    var m := n / 3;
    if n % 3 == 1 {
      assert 8 * n + 5 == 6 * (4 * m + 2) + 1;
      assert textLength == 4 * m + 2;
      assert 6 * textLength + 7 == 8 * (3 * m + 2) + 3;
    } else {
      assert 8 * n + 5 == 6 * (4 * m + 3) + 3;
      assert textLength == 4 * m + 3;
      assert 6 * textLength + 7 == 8 * (3 * m + 3) + 1;
    }
  }
}
