# Binary, Base64 and dynamic-key cipher helpers in Dafny

This project models two small pure cores of a Python cryptography
coursework repository and proves properties about them.

- `asciibin.py` turns text into 8-digit binary strings and back. It joins
  and splits the digit strings into 6- and 8-digit blocks, maps 6-digit
  blocks onto the 64-character alphabet of Table 1 in section 4 of RFC 4648,
  and XORs binary strings digit by digit. Lines 132-144 chain these helpers
  into a Base64 encoder and decoder.
- `keys/cypher_llave_dinamica.py` is a shift cipher. The key at position `i`
  is `k0 + i`. Encryption adds the key modulo 128 and decryption subtracts
  it modulo 128.

Characters are modelled as their code points (`seq<nat>`), so `ord` and
`chr` become the identity; only `CodePoints` models the conversion itself.
Binary strings are `string` values over '0' and '1', most significant digit
first. A Python exception becomes `None` of `Outcomes.Option`.

Each module follows one part of the source:

- `Binary`: per-number conversions.
- `Blocks`: joining and splitting.
- `Base64Alphabet`: the alphabet and its lookups.
- `BitXor`: `XOR_to_BIN`.
- `Base64Pipeline`: the script.
- `DynamicKeyCipher`: the cipher.

The Base64 script does not follow RFC 4648 when the number of input codes
is not a multiple of 3. It writes no '=' padding. The encoder reads the
short last 6-digit group as a short number instead of filling it with zeros
on the right: 'M' (code 77) encodes to "TB", where RFC 4648 gives "TQ==".
The decoder in turn reads the short last 8-digit block as a short number
instead of dropping it, so "TB" decodes to the codes 76 and 1. The model
reproduces this behaviour. `Base64Pipeline.RoundTripExactly` shows that the
round trip holds for byte codes exactly when their number is a multiple of 3.

## Model

| member | source | states |
|---|---|---|
| CodePoints.StringToAscii | asciibin.py:6-8 | one code per character, each a Unicode scalar value |
| CodePoints.DecimalToAscii | asciibin.py:100-104 | fails exactly when some code has no character; otherwise one character per code |
| CodePoints.AsciiOfCodes | asciibin.py:6-8 | `chr` of the codes of a string gives the string back |
| CodePoints.CodesOfAscii | asciibin.py:100-104 | the codes of the characters of valid codes give the codes back |
| Binary.Digits | asciibin.py:20-26 | the collected and reversed remainders denote `n`, have no leading zero, and are empty only for zero |
| Binary.PadLeft | asciibin.py:29-30 | the result is the input behind just enough zeros to reach the width, and a longer input is unchanged |
| Binary.ToBinary | asciibin.py:12-32 | the padded digits denote `n`, are at least `width` long, and are exactly `width` long iff `n < 2^width` |
| Binary.NumberToBinary | asciibin.py:12-32 | the remainder, reverse and insert loops compute the padded binary form, whose value is `n` |
| Binary.AsciiToBin | asciibin.py:10-34 | one binary string per code, denoting that code, at least 8 digits long, exactly 8 iff the code is below 256 |
| Binary.DecimalToBin6 | asciibin.py:74-86 | a binary string denoting `n`, at least 6 digits long, exactly 6 iff `n < 64` |
| Binary.BinaryToDecimal | asciibin.py:64-72 | the right-to-left weighted sum equals the left-to-right value and is below `2^len` |
| Binary.ValueBound | asciibin.py:64-72 | a binary string of length `n` denotes a number below `2^n` |
| Binary.ValueConcat | asciibin.py:49-50 | joining shifts the left value by the width of the right part |
| Binary.ValueLeadingZeros | asciibin.py:28-30 | leading-zero padding does not change the value |
| Binary.ValueInjective | asciibin.py:64-72 | equal-length binary strings with equal values are equal |
| Binary.ToBinaryOfValue | asciibin.py:64-86 | a full-width binary string is the padded form of its own value |
| Blocks.Concat | asciibin.py:49-50 | the join is as long as all the parts together, and binary when every part is |
| Blocks.ConcatUniformLength | asciibin.py:49-50 | joining `n` strings of width `k` gives `k * n` digits |
| Blocks.ConcatAppend | asciibin.py:49-50 | joining distributes over list concatenation |
| Blocks.Chunks | asciibin.py:52-62 | blocks are non-empty and at most `k` long, all but the last exactly `k`, binary when the input is |
| Blocks.ConcatOfChunks | asciibin.py:52-62 | joining the blocks gives the split string back |
| Blocks.ChunksCount | asciibin.py:52-62 | there are `ceil(len / k)` blocks |
| Blocks.ChunkAt | asciibin.py:54-55 | block `i` is the Python slice `s[i*k : i*k+k]` |
| Blocks.ChunksExact | asciibin.py:52-62 | when `k` divides the length, there are `len / k` blocks, all of width `k` |
| Blocks.ChunksOfConcat | asciibin.py:49-62 | splitting a join of width-`k` strings into width-`k` blocks gives them back |
| Blocks.Blocks6 | asciibin.py:52-56 | the 6-digit blocks join back to the input; there are `ceil(len / 6)` of them, all full but the last |
| Blocks.Blocks8 | asciibin.py:58-62 | the 8-digit blocks join back to the input; there are `ceil(len / 8)` of them, all full but the last |
| Base64Alphabet.AlphabetLiteral | asciibin.py:88 | the alphabet is the 64-character literal of the source |
| Base64Alphabet.AlphabetDistinct | asciibin.py:88 | no character occurs twice in the alphabet |
| Base64Alphabet.IndexIn | asciibin.py:96 | `str.index` fails iff the character is absent, and otherwise gives its first position |
| Base64Alphabet.DecimalToBase64Char | asciibin.py:90-91 | the lookup succeeds iff the index is below 64, and yields an alphabet character |
| Base64Alphabet.CharIndex | asciibin.py:93-98 | the index of a character exists iff it is in the alphabet; it is below 64, and the character lookup maps it back to the character |
| Base64Alphabet.IndexOfChar | asciibin.py:88-98 | index, then character, then index gives the index back |
| Base64Alphabet.Base64ToDecimal | asciibin.py:93-98 | succeeds iff every character is in the alphabet, and then gives one index below 64 per character, mapping back to it |
| Base64Alphabet.IndicesToBase64 | asciibin.py:138 | succeeds iff every index is below 64, with one character per index |
| Base64Alphabet.DecodeIndices | asciibin.py:88-98 | decoding the characters of valid indices gives the indices back |
| BitXor.Zfill | asciibin.py:118-119 | `str.zfill` gives length `max(len, width)` |
| BitXor.ZfillIsPadLeft | asciibin.py:118-119 | on an unsigned string, `zfill` is the zero padding of `ascii_to_bin` |
| BitXor.Xor | asciibin.py:106-128 | the result is `max(len)` long and binary, with a '1' exactly where the zero-filled inputs differ |
| BitXor.XorTruthTable | asciibin.py:111-115 | on equal-length binary strings, each digit is the sum of the input digits modulo 2 |
| BitXor.XorCommutative | asciibin.py:106-128 | the operand order does not matter |
| BitXor.XorSelf | asciibin.py:106-128 | a string XOR itself is all zeros |
| BitXor.XorSameLength | asciibin.py:122-126 | on equal lengths, digits are compared in place |
| BitXor.XorOfPadded | asciibin.py:117-119 | zero-filling the operands first changes nothing |
| BitXor.XorTwiceSameLength | asciibin.py:106-128 | on equal-length binary strings, XOR with `b` twice gives `a` back |
| BitXor.XorInvolution | asciibin.py:106-128 | on binary strings, XOR with `b` twice gives `a` zero-padded to the common length |
| Base64Pipeline.GroupValues | asciibin.py:137 | one value per block, each below `2^len` of its block |
| Base64Pipeline.SixBitGroups | asciibin.py:134-136 | binary blocks of 1 to 6 digits; `ceil(8n / 6)` of them for byte codes |
| Base64Pipeline.Encode | asciibin.py:132-138 | encoding never fails and writes only alphabet characters, `ceil(8n / 6)` of them for byte codes |
| Base64Pipeline.SixBitForms | asciibin.py:141 | one binary form per index, denoting it, exactly 6 digits iff the index is below 64 |
| Base64Pipeline.CodesOfIndices | asciibin.py:141-144 | every code is below 256; indices below 64 give `ceil(6m / 8)` codes |
| Base64Pipeline.Decode | asciibin.py:140-144 | decoding fails iff some character is outside the alphabet, and otherwise gives `ceil(6m / 8)` codes below 256 |
| Base64Pipeline.RoundTrip | asciibin.py:132-144 | decoding the encoding of a multiple of 3 byte codes gives them back |
| Base64Pipeline.RoundTripExactly | asciibin.py:132-144 | for byte codes, the round trip holds iff their number is a multiple of 3 |
| Base64Pipeline.DecodedLength | asciibin.py:132-144 | when 3 does not divide the number of byte codes, decoding their encoding succeeds and gives one code more than were encoded |
| DynamicKeyCipher.KeyStream | keys/cypher_llave_dinamica.py:13-26 | one key per position, starting at the seed and rising by one |
| DynamicKeyCipher.KeyStreamSplit | keys/cypher_llave_dinamica.py:13-26 | the key stream of a longer message continues from `k0 + n` |
| DynamicKeyCipher.EncryptCode | keys/cypher_llave_dinamica.py:48 | an encrypted code is below 128 |
| DynamicKeyCipher.DecryptCode | keys/cypher_llave_dinamica.py:75 | a decrypted code is below 128, even for a negative key |
| DynamicKeyCipher.Encrypt | keys/cypher_llave_dinamica.py:29-53 | returns the original codes and the key stream, and one code `(m_i + k0 + i) mod 128` per input |
| DynamicKeyCipher.Decrypt | keys/cypher_llave_dinamica.py:56-80 | returns the cipher codes and the key stream, and one code `(c_i - (k0 + i)) mod 128` per input |
| DynamicKeyCipher.DecryptEncryptCode | keys/cypher_llave_dinamica.py:6-9 | subtracting the key after adding it gives the code modulo 128 |
| DynamicKeyCipher.EncryptDecryptCode | keys/cypher_llave_dinamica.py:6-9 | adding the key after subtracting it gives the code modulo 128 |
| DynamicKeyCipher.DecryptEncrypt | keys/cypher_llave_dinamica.py:48-75 | decrypt after encrypt gives each code modulo 128, so only the bits above the seventh are lost |
| DynamicKeyCipher.RoundTrip | keys/cypher_llave_dinamica.py:106-109 | a 7-bit message decrypts to itself under the same seed |
| DynamicKeyCipher.EncryptDecrypt | keys/cypher_llave_dinamica.py:6-9 | encrypt after decrypt gives back a 7-bit cipher text |
| DynamicKeyCipher.EncryptInjective | keys/cypher_llave_dinamica.py:29-53 | distinct 7-bit messages encrypt differently under one seed |
| DynamicKeyCipher.EncryptLocal | keys/cypher_llave_dinamica.py:47-49 | position `i` of the cipher text depends only on `m_i`, the seed and `i` |
| DynamicKeyCipher.EncryptConcat | keys/cypher_llave_dinamica.py:29-53 | encrypting `a + b` encrypts `b` with the seed moved on by `len(a)` |
| DynamicKeyCipher.SeedPeriod | keys/cypher_llave_dinamica.py:29-80 | seeds that differ by 128 give the same result |

## Left out

- `decimal_to_binary` (asciibin.py:36-47) is not modelled. It is never called, and it appends to the module-level `bits` list, so repeated calls mix stale digits into the result.
- `CodePoints.StringToAscii` returns the codes instead of appending them to the module-level `lista`. The script calls it only once.
- `CodePoints.DecimalToAscii` also fails on surrogate code points, which Python's `chr` accepts. A Dafny `char` cannot hold them.
- The Base64 script and the cipher work on code points rather than on strings, since `ord` and `chr` are the identity on that representation.
- `binario_a_decimal` is modelled on strings of '0' and '1' only (`Binary.Value` requires it). Python's `int` would also read any other decimal digit character (2 to 9 and the non-ASCII Unicode digits) and fail on the rest.
- `decimal_to_base64_char` takes a natural index. Python's negative indexing cannot occur, because every index the script computes is a natural number.
- The printing in asciibin.py (lines 146 onward) and the interactive loop of keys/cypher_llave_dinamica.py (lines 87-119) are console I/O. Only the encrypt-then-decrypt check of that loop is modelled, by `DynamicKeyCipher.RoundTrip`.
- `BitXor.Zfill` states only the length of its result. Its sign handling matters only for non-binary operands. On binary operands `BitXor.ZfillIsPadLeft` relates it to the padding loop.
