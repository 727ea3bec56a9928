/**
 * The 64-character alphabet of asciibin.py (`base64_chars`), the one of
 * Table 1 in section 4 of RFC 4648, and the two lookups into it:
 * `decimal_to_base64_char` and `base64_to_decimal`.
 */
module Base64Alphabet {

  import opened Outcomes

  const UpperCase: string := "ABCDEFGHIJKLMNOPQRSTUVWXYZ"
  const LowerCase: string := "abcdefghijklmnopqrstuvwxyz"
  const DecimalDigits: string := "0123456789"

  /** `base64_chars`, written as its four runs of consecutive code points. */
  const Alphabet: string := UpperCase + LowerCase + DecimalDigits + "+/"

  /** The runs spell out the 64-character literal of the source. */
  lemma AlphabetLiteral()
    ensures Alphabet == "ABCDEFGHIJKLMNOPQRSTUVWXYZabcdefghijklmnopqrstuvwxyz0123456789+/"
  {
    assert UpperCase + LowerCase == "ABCDEFGHIJKLMNOPQRSTUVWXYZabcdefghijklmnopqrstuvwxyz";
    assert DecimalDigits + "+/" == "0123456789+/";
    assert Alphabet == (UpperCase + LowerCase) + (DecimalDigits + "+/");
  }

  /** Code point of the alphabet character at `i`, run by run. */
  function CodeAt(i: nat): int
    requires i < 64
  {
    if i < 26 then 'A' as int + i
    else if i < 52 then 'a' as int + (i - 26)
    else if i < 62 then '0' as int + (i - 52)
    else if i == 62 then '+' as int
    else '/' as int
  }

  lemma UpperCaseCode(i: nat)
    requires i < 26
    ensures UpperCase[i] as int == 'A' as int + i
  {
  }

  lemma LowerCaseCode(i: nat)
    requires i < 26
    ensures LowerCase[i] as int == 'a' as int + i
  {
  }

  lemma DecimalDigitCode(i: nat)
    requires i < 10
    ensures DecimalDigits[i] as int == '0' as int + i
  {
  }

  lemma AlphabetCode(i: nat)
    requires i < 64
    ensures Alphabet[i] as int == CodeAt(i)
  {
    var runs := UpperCase + LowerCase + DecimalDigits;
    assert Alphabet[i] == if i < 62 then runs[i] else "+/"[i - 62];
    if i < 26 {
      UpperCaseCode(i);
      assert runs[i] == UpperCase[i];
    } else if i < 52 {
      LowerCaseCode(i - 26);
      assert runs[i] == LowerCase[i - 26];
    } else if i < 62 {
      DecimalDigitCode(i - 52);
      assert runs[i] == DecimalDigits[i - 52];
    }
  }

  /** No character occurs twice in the alphabet. */
  lemma AlphabetDistinct(i: nat, j: nat)
    requires i < 64 && j < 64 && i != j
    ensures Alphabet[i] != Alphabet[j]
  {
    AlphabetCode(i);
    AlphabetCode(j);
  }

  /**
   * `t.index(c)`: the position of the first occurrence of `c` in `t`; `None`
   * when `c` does not occur (Python raises `ValueError`).
   */
  function IndexIn(t: string, c: char): (r: Option<nat>)
    ensures r.None? <==> c !in t
    ensures r.Some? ==> r.value < |t| && t[r.value] == c
    ensures r.Some? ==> forall j :: 0 <= j < r.value ==> t[j] != c
  {
    if |t| == 0 then None
    else if t[0] == c then Some(0)
    else
      match IndexIn(t[1..], c)
      case None =>
        assert t == [t[0]] + t[1..];
        None
      case Some(j) => Some(j + 1)
  }

  /** `decimal_to_base64_char`: `None` past the end of the alphabet (`IndexError`). */
  function DecimalToBase64Char(index: nat): (r: Option<char>)
    ensures r.Some? <==> index < 64
    ensures r.Some? ==> r.value in Alphabet
  {
    if index < |Alphabet| then Some(Alphabet[index]) else None
  }

  /** The index of one alphabet character. */
  function CharIndex(c: char): (r: Option<nat>)
    ensures r.Some? <==> c in Alphabet
    ensures r.Some? ==> r.value < 64 && DecimalToBase64Char(r.value) == Some(c)
  {
    IndexIn(Alphabet, c)
  }

  /** Looking up the character of an index and then its index gives the index back. */
  lemma IndexOfChar(index: nat)
    requires index < 64
    ensures DecimalToBase64Char(index).Some?
    ensures CharIndex(DecimalToBase64Char(index).value) == Some(index)
  {
    var c := Alphabet[index];
    var r := CharIndex(c);
    if r.value != index {
      AlphabetDistinct(r.value, index);
    }
  }

  /**
   * `base64_to_decimal`: the index of every character; `None` as soon as one
   * character is outside the alphabet.
   */
  function Base64ToDecimal(text: string): (r: Option<seq<nat>>)
    ensures r.Some? <==> forall i :: 0 <= i < |text| ==> text[i] in Alphabet
    ensures r.Some? ==> |r.value| == |text|
    ensures r.Some? ==> forall i :: 0 <= i < |text| ==>
              r.value[i] < 64 && DecimalToBase64Char(r.value[i]) == Some(text[i])
  {
    if |text| == 0 then Some([])
    else
      match CharIndex(text[0])
      case None => None
      case Some(first) =>
        match Base64ToDecimal(text[1..])
        case None => None
        case Some(rest) => Some([first] + rest)
  }

  /**
   * `''.join([decimal_to_base64_char(d) for d in indices])`: `None` when some
   * index is past the end of the alphabet.
   */
  function IndicesToBase64(indices: seq<nat>): (r: Option<string>)
    ensures r.Some? <==> forall i :: 0 <= i < |indices| ==> indices[i] < 64
    ensures r.Some? ==> |r.value| == |indices|
    ensures r.Some? ==> forall i :: 0 <= i < |indices| ==>
              DecimalToBase64Char(indices[i]) == Some(r.value[i])
  {
    if |indices| == 0 then Some("")
    else
      match DecimalToBase64Char(indices[0])
      case None => None
      case Some(c) =>
        match IndicesToBase64(indices[1..])
        case None => None
        case Some(rest) => Some([c] + rest)
  }

  /** Decoding the characters of an encoded index list gives the list back. */
  lemma {:induction false} DecodeIndices(indices: seq<nat>)
    requires forall i :: 0 <= i < |indices| ==> indices[i] < 64
    ensures IndicesToBase64(indices).Some?
    ensures Base64ToDecimal(IndicesToBase64(indices).value) == Some(indices)
  {
    var text := IndicesToBase64(indices).value;
    forall i | 0 <= i < |text|
      ensures text[i] in Alphabet
    {
      assert DecimalToBase64Char(indices[i]) == Some(text[i]);
    }
    var r := Base64ToDecimal(text).value;
    forall i | 0 <= i < |indices|
      ensures r[i] == indices[i]
    {
      if r[i] != indices[i] {
        AlphabetDistinct(r[i], indices[i]);
      }
    }
    assert r == indices;
  }
}
