/** Byte strings and the little-endian integer fields that `struct.pack`
    with the `<B`, `<H`, `<I` and `<Q` formats writes. */
module Bytes {
  import opened Errors

  /** One byte, as an integer in 0..255. */
  newtype byte = x: int | 0 <= x < 256

  type Bytes = seq<byte>

  /** 256^n: one more than the largest value an n-byte field holds. */
  function Pow256(n: nat): (p: nat)
    ensures p >= 1
  {
    if n == 0 then 1 else 256 * Pow256(n - 1)
  }

  const U16_LIMIT: nat := 0x1_0000
  const U32_LIMIT: nat := 0x1_0000_0000
  const U64_LIMIT: nat := 0x1_0000_0000_0000_0000

  lemma LimitsArePowers()
    ensures Pow256(2) == U16_LIMIT && Pow256(4) == U32_LIMIT && Pow256(8) == U64_LIMIT
  {
  }

  /** `n` zero bytes, as `b'\x00' * n`. */
  function Zeros(n: nat): (z: Bytes)
    ensures |z| == n
    ensures forall i :: 0 <= i < n ==> z[i] == 0
  {
    seq(n, _ => 0)
  }

  /** The little-endian encoding of `v` in `width` bytes. */
  function LE(v: nat, width: nat): (s: Bytes)
    requires v < Pow256(width)
    ensures |s| == width
  {
    if width == 0 then [] else [(v % 256) as byte] + LE(v / 256, width - 1)
  }

  /** The unsigned value of a little-endian byte string (`struct.unpack`). */
  function FromLE(s: Bytes): (v: nat)
    ensures v < Pow256(|s|)
  {
    if s == [] then 0 else s[0] as nat + 256 * FromLE(s[1..])
  }

  /** Decoding an encoded field gives back the value. */
  lemma {:induction false} FromLEOfLE(v: nat, width: nat)
    requires v < Pow256(width)
    ensures FromLE(LE(v, width)) == v
  {
    if width > 0 {
      var q, r := v / 256, v % 256;
      QuotientFits(v, width);
      var s := LE(v, width);
      assert s[0] == r as byte;
      assert s[1..] == LE(q, width - 1);
      FromLEOfLE(q, width - 1);
      assert FromLE(s) == r + 256 * q;
    }
  }

  lemma QuotientFits(v: nat, width: nat)
    requires width > 0 && v < Pow256(width)
    ensures v / 256 < Pow256(width - 1)
  {
    assert Pow256(width) == 256 * Pow256(width - 1);
  }

  /** Encoding a decoded field gives back the bytes. */
  lemma {:induction false} LEOfFromLE(s: Bytes)
    ensures LE(FromLE(s), |s|) == s
  {
    if s != [] {
      LEOfFromLE(s[1..]);
      assert FromLE(s) % 256 == s[0] as nat;
      assert FromLE(s) / 256 == FromLE(s[1..]);
    }
  }

  /** The encoding of 0 is all zero bytes. */
  lemma {:induction false} LEZero(width: nat)
    ensures LE(0, width) == Zeros(width)
  {
    if width > 0 {
      LEZero(width - 1);
    }
  }

  /** Python's `s[:n]`. */
  function Take(s: Bytes, n: nat): (t: Bytes)
    ensures |t| == if |s| < n then |s| else n
    ensures t == s[..|t|]
  {
    if |s| <= n then s else s[..n]
  }

  /** Python's `s[n:]`. */
  function Drop(s: Bytes, n: nat): (t: Bytes)
    ensures |t| == if |s| < n then 0 else |s| - n
    ensures |s| >= n ==> t == s[n..]
  {
    if |s| <= n then [] else s[n..]
  }

  /** `s.ljust(n, b'\x00')`: `s` followed by zeros up to length `n`. */
  function PadTo(s: Bytes, n: nat): (p: Bytes)
    ensures |p| == if |s| < n then n else |s|
    ensures p[..|s|] == s
    ensures forall i :: |s| <= i < |p| ==> p[i] == 0
  {
    if |s| < n then s + Zeros(n - |s|) else s
  }

  /** `s.rstrip(b'\x00')`. */
  function RStripNul(s: Bytes): (t: Bytes)
    ensures |t| <= |s| && t == s[..|t|]
    ensures t == [] || t[|t| - 1] != 0
    ensures forall i :: |t| <= i < |s| ==> s[i] == 0
  {
    if s == [] then []
    else if s[|s| - 1] == 0 then RStripNul(s[..|s| - 1])
    else s
  }

  /** Padding and then stripping recovers a string with no trailing NUL. */
  lemma RStripPad(s: Bytes, n: nat)
    requires s == [] || s[|s| - 1] != 0
    ensures RStripNul(PadTo(s, n)) == s
  {
    if |s| < n {
      RStripZeros(s, n - |s|);
    }
  }

  lemma {:induction false} RStripZeros(s: Bytes, k: nat)
    requires s == [] || s[|s| - 1] != 0
    ensures RStripNul(s + Zeros(k)) == s
  {
    if k == 0 {
      assert s + Zeros(0) == s;
    } else {
      var p := s + Zeros(k);
      assert p[..|p| - 1] == s + Zeros(k - 1);
      RStripZeros(s, k - 1);
    }
  }

  /** `struct.pack_into` of an unsigned little-endian field of `width`
      bytes at `at`: `struct.error` when the value does not fit or the buffer
      is too short, otherwise the buffer with those bytes replaced. */
  function PackInto(buf: Bytes, at: nat, v: int, width: nat): (r: Result<Bytes>)
    ensures r.Success? <==> 0 <= v < Pow256(width) && at + width <= |buf|
    ensures r.Success? ==> |r.value| == |buf|
    ensures r.Success? ==> r.value[at..at + width] == LE(v, width)
    ensures r.Success? ==> forall i :: 0 <= i < |buf| && !(at <= i < at + width) ==> r.value[i] == buf[i]
  {
    if 0 <= v < Pow256(width) && at + width <= |buf| then
      Success(Splice(buf, at, LE(v, width)))
    else
      Failure(StructError)
  }

  /** `buf` with the bytes from `at` replaced by `v`. */
  function Splice(buf: Bytes, at: nat, v: Bytes): (r: Bytes)
    requires at + |v| <= |buf|
    ensures |r| == |buf|
    ensures r[at..at + |v|] == v
    ensures forall i :: 0 <= i < |buf| ==> r[i] == if at <= i < at + |v| then v[i - at] else buf[i]
  {
    buf[..at] + v + buf[at + |v|..]
  }

  /** `bytearray(n)`: a fresh buffer of `n` zero bytes. */
  method NewZeros(n: nat) returns (a: array<byte>)
    ensures fresh(a) && a[..] == Zeros(n)
  {
    a := new byte[n](_ => 0);
    assert forall k :: 0 <= k < n ==> a[k] == 0;
  }

  /** `bytearray(s)`: a fresh buffer holding a copy of `s`. */
  method FromSeq(s: Bytes) returns (a: array<byte>)
    ensures fresh(a) && a[..] == s
  {
    a := new byte[|s|](i requires 0 <= i < |s| => s[i]);
  }

  /** `struct.pack_into` on a `bytearray`: the same decision as `PackInto`,
      with the field's bytes stored one by one. */
  method StoreLE(buf: array<byte>, at: nat, v: int, width: nat) returns (o: Outcome)
    modifies buf
    ensures o.Pass? <==> PackInto(old(buf[..]), at, v, width).Success?
    ensures o.Pass? ==> buf[..] == PackInto(old(buf[..]), at, v, width).value
    ensures o.Fail? ==> o.error == StructError && buf[..] == old(buf[..])
  {
    if !(0 <= v < Pow256(width) && at + width <= buf.Length) {
      return Fail(StructError);
    }
    var field := LE(v, width);
    ghost var before := buf[..];
    for j := 0 to width
      invariant forall k :: 0 <= k < buf.Length ==> buf[k] == if at <= k < at + j then field[k - at] else before[k]
    {
      buf[at + j] := field[j];
    }
    assert buf[..] == Splice(before, at, field);
    o := Pass;
  }

  /** `struct.pack_into('<{n}s', buf, at, v)` for a value of exactly `n`
      bytes that fits the buffer. */
  method StoreBytes(buf: array<byte>, at: nat, v: Bytes)
    requires at + |v| <= buf.Length
    modifies buf
    ensures buf[..] == Splice(old(buf[..]), at, v)
  {
    ghost var before := buf[..];
    for j := 0 to |v|
      invariant forall k :: 0 <= k < buf.Length ==> buf[k] == if at <= k < at + j then v[k - at] else before[k]
    {
      buf[at + j] := v[j];
    }
    assert buf[..] == Splice(before, at, v);
  }
}
