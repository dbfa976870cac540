/** Types shared by every module: bytes, results, and little-endian decoding. */
module Prelude {

  type Byte = b: int | 0 <= b < 256

  const TWO32 := 0x1_0000_0000

  datatype Option<+T> = None | Some(value: T)

  /** Why a call did not succeed.
      `AssertFailed` is the assertion in the cache lookup; `OutOfBounds` marks the place where the
      C code would step outside a buffer, where this model stops instead. */
  datatype Error = IoError | AssertFailed | OutOfBounds | Invalid

  datatype Result<+T> = Ok(value: T) | Err(error: Error)

  function U16(s: seq<Byte>, at: nat): (v: nat)
    requires at + 2 <= |s|
    ensures v < 0x1_0000
  {
    s[at] as int + 0x100 * (s[at + 1] as int)
  }

  function U32(s: seq<Byte>, at: nat): (v: nat)
    requires at + 4 <= |s|
    ensures v < 0x1_0000_0000
  {
    U16(s, at) + 0x1_0000 * U16(s, at + 2)
  }

  function U64(s: seq<Byte>, at: nat): (v: nat)
    requires at + 8 <= |s|
    ensures v < 0x1_0000_0000_0000_0000
  {
    U32(s, at) + 0x1_0000_0000 * U32(s, at + 4)
  }

  function Min(a: int, b: int): int {
    if a < b then a else b
  }

  function Zeros(n: nat): (s: seq<Byte>)
    ensures |s| == n && forall i | 0 <= i < n :: s[i] == 0
  {
    seq(n, _ => 0)
  }

  /** The remainder is what is left over a multiple. */
  lemma Remainder(k: nat, d: nat, q: nat, r: nat)
    requires 0 < d && r < d && k == q * d + r
    ensures k % d == r
  {
    var e := k / d - q;
    assert e * d == r - k % d;
    if e > 0 {
      AtLeast(e, d);
    } else if e < 0 {
      assert e * d == -((-e) * d);
      AtLeast(-e, d);
    }
  }

  lemma AtLeast(n: int, d: nat)
    requires 0 < n
    ensures n * d >= d
  {
    assert (n - 1) * d >= 0;
  }

  /** A slice of a slice. */
  lemma SubSlice<T>(s: seq<T>, p: nat, n: nat, from: nat, to: nat)
    requires p + n <= |s| && from <= to <= n
    ensures s[p..p + n][from..to] == s[p + from..p + to]
  {
    assert |s[p..p + n][from..to]| == |s[p + from..p + to]|;
    assert forall k {:trigger s[p + from..p + to][k]} | 0 <= k < to - from ::
             s[p..p + n][from..to][k] == s[p + from..p + to][k];
  }

  /** A slice inside a prefix. */
  lemma SliceOfPrefix<T>(s: seq<T>, u: seq<T>, p: nat, q: nat)
    requires |u| <= |s| && s[..|u|] == u && p <= q <= |u|
    ensures s[p..q] == u[p..q]
  {
    SubSlice(s, 0, |u|, p, q);
    assert s[0..|u|] == s[..|u|];
  }

  /** A prefix does not see what is appended. */
  lemma PrefixOfSum<T>(a: seq<T>, b: seq<T>, n: nat)
    requires n <= |a|
    ensures (a + b)[..n] == a[..n]
  {
  }

  /** Two adjacent slices. */
  lemma Adjacent<T>(s: seq<T>, a: nat, b: nat, c: nat)
    requires a <= b <= c <= |s|
    ensures s[a..b] + s[b..c] == s[a..c]
  {
  }
}
