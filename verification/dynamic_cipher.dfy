/**
 * The position-dependent shift cipher of keys/cypher_llave_dinamica.py.
 *
 * The key at position `i` is `k0 + i`; encryption adds it to the code point
 * and decryption subtracts it, both modulo 128. Characters are their code
 * points, so `ord` and `chr` are the identity here. Python's `%` with the
 * positive divisor 128 is a floor modulo, which is Dafny's `%` on `int`.
 */
module DynamicKeyCipher {

  const Modulus: nat := 128

  /**
   * The 4-tuple both functions return: the resulting text, the codes read,
   * the codes written and the key stream. With characters as code points the
   * text and the written codes coincide.
   */
  datatype Transcript = Transcript(text: seq<nat>, inputCodes: seq<nat>, outputCodes: seq<nat>, key: seq<int>)

  /** `generar_llave_dinamica`: one key per position, starting at the seed and rising by one. */
  function KeyStream(k0: int, length: nat): (r: seq<int>)
    ensures |r| == length
    ensures length > 0 ==> r[0] == k0
    ensures forall i :: 0 < i < |r| ==> r[i] == r[i - 1] + 1
  {
    seq(length, i => k0 + i)
  }

  /** `(code + key) % 128`. */
  function EncryptCode(code: int, key: int): (c: nat)
    ensures c < Modulus
  {
    (code + key) % Modulus
  }

  /** `(code - key) % 128`, never negative even for a negative key. */
  function DecryptCode(code: int, key: int): (m: nat)
    ensures m < Modulus
  {
    (code - key) % Modulus
  }

  /** `cifrar_dinamico`. */
  function Encrypt(message: seq<nat>, k0: int): (r: Transcript)
    ensures r.inputCodes == message
    ensures r.key == KeyStream(k0, |message|)
    ensures |r.outputCodes| == |message| && r.text == r.outputCodes
    ensures forall i :: 0 <= i < |message| ==>
              r.outputCodes[i] < Modulus && r.outputCodes[i] == (message[i] + (k0 + i)) % Modulus
  {
    var key := KeyStream(k0, |message|);
    var codes := seq(|message|, i requires 0 <= i < |message| => EncryptCode(message[i], key[i]));
    Transcript(codes, message, codes, key)
  }

  /** `descifrar_dinamico`. */
  function Decrypt(cipherText: seq<nat>, k0: int): (r: Transcript)
    ensures r.inputCodes == cipherText
    ensures r.key == KeyStream(k0, |cipherText|)
    ensures |r.outputCodes| == |cipherText| && r.text == r.outputCodes
    ensures forall i :: 0 <= i < |cipherText| ==>
              r.outputCodes[i] < Modulus && r.outputCodes[i] == (cipherText[i] - (k0 + i)) % Modulus
  {
    var key := KeyStream(k0, |cipherText|);
    var codes := seq(|cipherText|, i requires 0 <= i < |cipherText| => DecryptCode(cipherText[i], key[i]));
    Transcript(codes, cipherText, codes, key)
  }

  /** Adding a multiple of 128 does not change a residue. */
  lemma ModMultiple(x: int, q: int)
    ensures (x + Modulus * q) % Modulus == x % Modulus
  {
    var r := x % Modulus;
    assert x == Modulus * (x / Modulus) + r;
    assert x + Modulus * q == Modulus * (x / Modulus + q) + r;
  }

  /** Subtracting the key undoes adding it, up to the bits above the seventh. */
  lemma DecryptEncryptCode(code: int, key: int)
    ensures DecryptCode(EncryptCode(code, key), key) == code % Modulus
  {
    var q := (code + key) / Modulus;
    assert EncryptCode(code, key) == code + key - Modulus * q;
    ModMultiple(code, -q);
  }

  /** Adding the key undoes subtracting it, up to the bits above the seventh. */
  lemma EncryptDecryptCode(code: int, key: int)
    ensures EncryptCode(DecryptCode(code, key), key) == code % Modulus
  {
    var q := (code - key) / Modulus;
    assert DecryptCode(code, key) == code - key - Modulus * q;
    ModMultiple(code, -q);
  }

  /** Decrypting with the same seed recovers every code modulo 128. */
  lemma DecryptEncrypt(message: seq<nat>, k0: int)
    ensures |Decrypt(Encrypt(message, k0).text, k0).text| == |message|
    ensures forall i :: 0 <= i < |message| ==>
              Decrypt(Encrypt(message, k0).text, k0).text[i] == message[i] % Modulus
  {
    forall i | 0 <= i < |message|
      ensures Decrypt(Encrypt(message, k0).text, k0).text[i] == message[i] % Modulus
    {
      DecryptEncryptCode(message[i], k0 + i);
    }
  }

  /** The round trip of the interactive loop: a 7-bit message comes back unchanged. */
  lemma RoundTrip(message: seq<nat>, k0: int)
    requires forall i :: 0 <= i < |message| ==> message[i] < Modulus
    ensures Decrypt(Encrypt(message, k0).text, k0).text == message
  {
    DecryptEncrypt(message, k0);
  }

  /** Encryption undoes decryption on 7-bit texts as well. */
  lemma EncryptDecrypt(cipherText: seq<nat>, k0: int)
    requires forall i :: 0 <= i < |cipherText| ==> cipherText[i] < Modulus
    ensures Encrypt(Decrypt(cipherText, k0).text, k0).text == cipherText
  {
    var plain := Decrypt(cipherText, k0).text;
    forall i | 0 <= i < |cipherText|
      ensures Encrypt(plain, k0).text[i] == cipherText[i]
    {
      EncryptDecryptCode(cipherText[i], k0 + i);
    }
  }

  /** Two 7-bit messages with the same encryption under one seed are equal. */
  lemma EncryptInjective(m1: seq<nat>, m2: seq<nat>, k0: int)
    requires forall i :: 0 <= i < |m1| ==> m1[i] < Modulus
    requires forall i :: 0 <= i < |m2| ==> m2[i] < Modulus
    requires Encrypt(m1, k0).text == Encrypt(m2, k0).text
    ensures m1 == m2
  {
    RoundTrip(m1, k0);
    RoundTrip(m2, k0);
  }

  /** The code at position `i` depends only on the code there, the seed and `i`. */
  lemma EncryptLocal(m1: seq<nat>, m2: seq<nat>, k0: int, i: nat)
    requires i < |m1| && i < |m2| && m1[i] == m2[i]
    ensures Encrypt(m1, k0).text[i] == Encrypt(m2, k0).text[i]
  {
  }

  /** The key stream of a longer message continues the shorter one's from `k0 + n`. */
  lemma KeyStreamSplit(k0: int, n: nat, m: nat)
    ensures KeyStream(k0, n + m) == KeyStream(k0, n) + KeyStream(k0 + n, m)
  {
  }

  /** Encrypting a concatenation encrypts the second part with the seed moved on by the first part's length. */
  lemma EncryptConcat(a: seq<nat>, b: seq<nat>, k0: int)
    ensures Encrypt(a + b, k0).text == Encrypt(a, k0).text + Encrypt(b, k0 + |a|).text
  {
    var whole := Encrypt(a + b, k0).text;
    var parts := Encrypt(a, k0).text + Encrypt(b, k0 + |a|).text;
    forall i | 0 <= i < |a + b|
      ensures whole[i] == parts[i]
    {
      if i >= |a| {
        assert (a + b)[i] == b[i - |a|];
        assert k0 + i == (k0 + |a|) + (i - |a|);
      }
    }
  }

  /** Only the seed modulo 128 matters. */
  lemma SeedPeriod(message: seq<nat>, k0: int)
    ensures Encrypt(message, k0 + Modulus).text == Encrypt(message, k0).text
    ensures Decrypt(message, k0 + Modulus).text == Decrypt(message, k0).text
  {
    forall i | 0 <= i < |message|
      ensures Encrypt(message, k0 + Modulus).text[i] == Encrypt(message, k0).text[i]
      ensures Decrypt(message, k0 + Modulus).text[i] == Decrypt(message, k0).text[i]
    {
      ModMultiple(message[i] + (k0 + i), 1);
      ModMultiple(message[i] - (k0 + i), -1);
    }
  }
}
