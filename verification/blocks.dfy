/**
 * Joining and splitting digit strings: `concatenar_lista`, `bloques_de_6`
 * and `bloques_de_8` of asciibin.py.
 */
module Blocks {

  import opened Binary

  /** The number of characters in all the parts together. */
  function TotalLength(parts: seq<string>): nat {
    if |parts| == 0 then 0 else |parts[0]| + TotalLength(parts[1..])
  }

  /**
   * `concatenar_lista`: `''.join(map(str, parts))` on a list of strings. The
   * join is as long as the parts together, and binary when they all are.
   */
  function Concat(parts: seq<string>): (r: string)
    ensures |r| == TotalLength(parts)
    ensures (forall i :: 0 <= i < |parts| ==> IsBinary(parts[i])) ==> IsBinary(r)
  {
    if |parts| == 0 then ""
    else
      var rest := Concat(parts[1..]);
      if forall i :: 0 <= i < |parts| ==> IsBinary(parts[i]) then
        assert forall i :: 0 <= i < |parts[1..]| ==> IsBinary(parts[1..][i]) by {
          forall i | 0 <= i < |parts[1..]|
            ensures IsBinary(parts[1..][i])
          {
            assert parts[1..][i] == parts[i + 1];
          }
        }
        BinaryConcat(parts[0], rest);
        parts[0] + rest
      else
        parts[0] + rest
  }

  /** Joining two lists joins their joined strings. */
  lemma {:induction false} ConcatAppend(xs: seq<string>, ys: seq<string>)
    ensures Concat(xs + ys) == Concat(xs) + Concat(ys)
  {
    if |xs| > 0 {
      assert (xs + ys)[1..] == xs[1..] + ys;
      ConcatAppend(xs[1..], ys);
    } else {
      assert xs + ys == ys;
    }
  }

  /** Joining `n` strings of width `k` gives a string of length `k * n`. */
  lemma {:induction false} ConcatUniformLength(parts: seq<string>, k: nat)
    requires forall i :: 0 <= i < |parts| ==> |parts[i]| == k
    ensures |Concat(parts)| == k * |parts|
  {
    if |parts| > 0 {
      ConcatUniformLength(parts[1..], k);
    }
  }

  /**
   * `for i in range(0, len(s), k): blocks.append(s[i:i+k])`: consecutive
   * slices of width `k`, the last one possibly shorter.
   */
  function Chunks(s: string, k: nat): (r: seq<string>)
    requires k > 0
    ensures forall i :: 0 <= i < |r| ==> 0 < |r[i]| <= k
    ensures forall i :: 0 <= i < |r| - 1 ==> |r[i]| == k
    ensures IsBinary(s) ==> forall i :: 0 <= i < |r| ==> IsBinary(r[i])
    decreases |s|
  {
    if |s| == 0 then []
    else if |s| <= k then
      [s]
    else
      var rest := Chunks(s[k..], k);
      [s[..k]] + rest
  }

  /** Joining the blocks gives back the string that was split. */
  lemma {:induction false} ConcatOfChunks(s: string, k: nat)
    requires k > 0
    ensures Concat(Chunks(s, k)) == s
    decreases |s|
  {
    var r := Chunks(s, k);
    if 0 < |s| <= k {
      assert r[1..] == [];
    } else if |s| > k {
      ConcatOfChunks(s[k..], k);
      assert r[1..] == Chunks(s[k..], k);
      assert s[..k] + s[k..] == s;
    }
  }

  /** There are `ceil(|s| / k)` blocks. */
  lemma {:induction false} ChunksCount(s: string, k: nat)
    requires k > 0
    ensures |Chunks(s, k)| == (|s| + k - 1) / k
    decreases |s|
  {
    if |s| > 0 {
      CeilCount(|s|, k);
      if |s| > k {
        ChunksCount(s[k..], k);
      }
    }
  }

  /** The block count `ceil(n / k)`: one block for up to `k`, one more per `k`. */
  lemma CeilCount(n: nat, k: nat)
    requires k > 0 && n > 0
    ensures n <= k ==> (n + k - 1) / k == 1
    ensures n > k ==> (n - k + k - 1) / k + 1 == (n + k - 1) / k
  {
    if n <= k {
      DivModUnique(n + k - 1, k, 1, n - 1);
    } else {
      DivShift(n + k - 1, k);
    }
  }

  /** Quotient and remainder are the unique ones with a remainder below `k`. */
  lemma DivModUnique(x: int, k: int, q: int, r: int)
    requires k > 0 && 0 <= r < k && x == k * q + r
    ensures x / k == q && x % k == r
  {
    var q0, r0 := x / k, x % k;
    assert x == k * q0 + r0;
    if q0 > q {
      MulAtLeast(k, q0 - q);
    } else if q0 < q {
      MulAtLeast(k, q - q0);
    }
  }

  lemma MulAtLeast(k: int, d: int)
    requires k > 0 && d >= 1
    ensures k * d >= k
  {
  }

  lemma DivShift(x: nat, k: nat)
    requires k > 0 && x >= k
    ensures (x - k) / k + 1 == x / k
    ensures (x - k) % k == x % k
  {
    var q, r := x / k, x % k;
    assert x - k == k * (q - 1) + r;
    DivModUnique(x - k, k, q - 1, r);
  }

  /** `bloques_de_6`. */
  function Blocks6(s: string): (r: seq<string>)
    ensures Concat(r) == s
    ensures |r| == (|s| + 5) / 6
    ensures forall i :: 0 <= i < |r| ==> 0 < |r[i]| <= 6
    ensures forall i :: 0 <= i < |r| - 1 ==> |r[i]| == 6
    ensures IsBinary(s) ==> forall i :: 0 <= i < |r| ==> IsBinary(r[i])
  {
    ChunksCount(s, 6);
    ConcatOfChunks(s, 6);
    Chunks(s, 6)
  }

  /** `bloques_de_8`. */
  function Blocks8(s: string): (r: seq<string>)
    ensures Concat(r) == s
    ensures |r| == (|s| + 7) / 8
    ensures forall i :: 0 <= i < |r| ==> 0 < |r[i]| <= 8
    ensures forall i :: 0 <= i < |r| - 1 ==> |r[i]| == 8
    ensures IsBinary(s) ==> forall i :: 0 <= i < |r| ==> IsBinary(r[i])
  {
    ChunksCount(s, 8);
    ConcatOfChunks(s, 8);
    Chunks(s, 8)
  }

  /** Block `i` is the Python slice `s[i*k : i*k + k]`. */
  lemma ChunkAt(s: string, k: nat, i: nat)
    requires k > 0 && i < |Chunks(s, k)|
    ensures i * k < |s|
    ensures Chunks(s, k)[i] == s[i * k .. Min(i * k + k, |s|)]
  {
    ChunkAtStart(s, k, i);
    StartIsProduct(i, k);
  }

  /** The offset of block `i`, counted in steps of `k`. */
  function Start(i: nat, k: nat): nat {
    if i == 0 then 0 else Start(i - 1, k) + k
  }

  lemma {:induction false} StartIsProduct(i: nat, k: nat)
    ensures Start(i, k) == i * k
  {
    if i > 0 {
      StartIsProduct(i - 1, k);
      assert (i - 1) * k + k == i * k;
    }
  }

  lemma {:induction false} ChunkAtStart(s: string, k: nat, i: nat)
    requires k > 0 && i < |Chunks(s, k)|
    ensures Start(i, k) < |s|
    ensures Chunks(s, k)[i] == s[Start(i, k) .. Min(Start(i, k) + k, |s|)]
    decreases |s|
  {
    if |s| <= k {
      assert Chunks(s, k) == [s];
    } else if i == 0 {
      assert Chunks(s, k)[0] == s[..k];
    } else {
      var rest := s[k..];
      assert Chunks(s, k) == [s[..k]] + Chunks(rest, k);
      assert Chunks(s, k)[i] == Chunks(rest, k)[i - 1];
      ChunkAtStart(rest, k, i - 1);
      var lo := Start(i - 1, k);
      var hi := Min(lo + k, |rest|);
      assert Start(i, k) == lo + k;
      assert hi + k == Min(Start(i, k) + k, |s|);
      SliceOfSuffix(s, k, lo, hi);
    }
  }

  lemma SliceOfSuffix(s: string, k: nat, lo: nat, hi: nat)
    requires k <= |s| && lo <= hi <= |s| - k
    ensures s[k..][lo..hi] == s[lo + k..hi + k]
  {
  }

  function Min(a: int, b: int): int {
    if a < b then a else b
  }

  /** When `k` divides the length, every block has width exactly `k`. */
  lemma {:induction false} ChunksExact(s: string, k: nat)
    requires k > 0 && |s| % k == 0
    ensures |Chunks(s, k)| == |s| / k
    ensures forall i :: 0 <= i < |Chunks(s, k)| ==> |Chunks(s, k)[i]| == k
    decreases |s|
  {
    if |s| > k {
      assert (|s| - k) % k == 0 by {
        DivShift(|s|, k);
      }
      ChunksExact(s[k..], k);
      assert Chunks(s, k) == [s[..k]] + Chunks(s[k..], k);
    }
    if |s| > 0 {
      assert |s| >= k;
      DivShift(|s| + k - 1, k);
      DivShift(|s|, k);
    }
  }

  /** Splitting a join of width-`k` strings into width-`k` blocks gives them back. */
  lemma {:induction false} ChunksOfConcat(parts: seq<string>, k: nat)
    requires k > 0
    requires forall i :: 0 <= i < |parts| ==> |parts[i]| == k
    ensures Chunks(Concat(parts), k) == parts
  {
    if |parts| > 0 {
      var s := Concat(parts);
      assert s == parts[0] + Concat(parts[1..]);
      ChunksOfConcat(parts[1..], k);
      if |parts| == 1 {
        assert s == parts[0];
      } else {
        ConcatUniformLength(parts[1..], k);
        assert s[..k] == parts[0];
        assert s[k..] == Concat(parts[1..]);
        assert parts == [parts[0]] + parts[1..];
      }
    }
  }
}
