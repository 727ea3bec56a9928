/**
 * Characters and their code points: `string_to_ascii` (`ord`) and
 * `decimal_a_ascii` (`chr`) of asciibin.py. The rest of the model works on
 * code points directly.
 */
module CodePoints {

  import opened Outcomes

  /** A Unicode scalar value: what a Dafny `char` can hold. */
  predicate IsScalar(n: nat) {
    n < 0xD800 || (0xE000 <= n < 0x11_0000)
  }

  /** `string_to_ascii`, as a pure map instead of appending to a global list. */
  function StringToAscii(s: string): (r: seq<nat>)
    ensures |r| == |s|
    ensures forall i :: 0 <= i < |r| ==> IsScalar(r[i])
  {
    seq(|s|, i requires 0 <= i < |s| => s[i] as nat)
  }

  /** `decimal_a_ascii`: `None` when some code has no character (`chr` raises `ValueError`). */
  function DecimalToAscii(codes: seq<nat>): (r: Option<string>)
    ensures r.Some? <==> forall i :: 0 <= i < |codes| ==> IsScalar(codes[i])
    ensures r.Some? ==> |r.value| == |codes|
  {
    if |codes| == 0 then Some("")
    else if !IsScalar(codes[0]) then None
    else
      match DecimalToAscii(codes[1..])
      case None => None
      case Some(rest) => Some([codes[0] as char] + rest)
  }

  /** `chr` undoes `ord`. */
  lemma {:induction false} AsciiOfCodes(s: string)
    ensures DecimalToAscii(StringToAscii(s)) == Some(s)
  {
    if |s| > 0 {
      AsciiOfCodes(s[1..]);
      assert StringToAscii(s)[1..] == StringToAscii(s[1..]);
      assert s == [s[0]] + s[1..];
    }
  }

  /** `ord` undoes `chr`. */
  lemma {:induction false} CodesOfAscii(codes: seq<nat>)
    requires forall i :: 0 <= i < |codes| ==> IsScalar(codes[i])
    ensures DecimalToAscii(codes).Some?
    ensures StringToAscii(DecimalToAscii(codes).value) == codes
  {
    if |codes| > 0 {
      CodesOfAscii(codes[1..]);
      var rest := DecimalToAscii(codes[1..]).value;
      assert DecimalToAscii(codes).value == [codes[0] as char] + rest;
      assert codes == [codes[0]] + codes[1..];
    }
  }
}
