/** Bytes on the wire and the fixed-width integer fields the protocols put there. Casts such as `as u16` are
    written out with `%`. */
module Bytes {

  type byte = b: int | 0 <= b < 256
  type Bytes = seq<byte>
  type Unit16 = u: int | 0 <= u < 0x1_0000

  const U16 := 0x1_0000
  const U24 := 0x100_0000
  const U32 := 0x1_0000_0000
  const U64 := 0x1_0000_0000_0000_0000

  // ---------- integer fields ----------

  function U16Le(b: Bytes): (n: nat)
    requires |b| == 2
    ensures n < U16
  {
    b[0] as int + 256 * b[1] as int
  }

  function PutU16Le(n: nat): (b: Bytes)
    requires n < U16
    ensures |b| == 2 && U16Le(b) == n
  {
    [n % 256, n / 256]
  }

  function U16Be(b: Bytes): (n: nat)
    requires |b| == 2
    ensures n < U16
  {
    256 * b[0] as int + b[1] as int
  }

  function PutU16Be(n: nat): (b: Bytes)
    requires n < U16
    ensures |b| == 2 && U16Be(b) == n
  {
    [n / 256, n % 256]
  }

  function U24Le(b: Bytes): (n: nat)
    requires |b| == 3
    ensures n < U24
  {
    b[0] as int + 256 * b[1] as int + 0x1_0000 * b[2] as int
  }

  /** Only the low 24 bits are kept, as the shifts and masks of the source do. */
  function PutU24Le(n: nat): (b: Bytes)
    ensures |b| == 3 && U24Le(b) == n % 0x100_0000
  {
    Low24(n);
    [n % 256, n / 256 % 256, n / 0x1_0000 % 256]
  }

  lemma Low24(n: nat)
    ensures n % 256 + 256 * (n / 256 % 256) + 0x1_0000 * (n / 0x1_0000 % 256) == n % 0x100_0000
  {
    var q, r := n / 256, n / 0x1_0000;
    assert r == q / 256 && r / 256 == n / 0x100_0000;
    assert n == 256 * q + n % 256 && q == 256 * r + q % 256 && r == 256 * (r / 256) + r % 256;
  }

  function U32Le(b: Bytes): (n: nat)
    requires |b| == 4
    ensures n < U32
  {
    U16Le(b[..2]) + 0x1_0000 * U16Le(b[2..])
  }

  function PutU32Le(n: nat): (b: Bytes)
    requires n < U32
    ensures |b| == 4 && U32Le(b) == n
  {
    var b := PutU16Le(n % 0x1_0000) + PutU16Le(n / 0x1_0000);
    assert b[..2] == PutU16Le(n % 0x1_0000) && b[2..] == PutU16Le(n / 0x1_0000);
    b
  }

  function U32Be(b: Bytes): (n: nat)
    requires |b| == 4
    ensures n < U32
  {
    0x1_0000 * U16Be(b[..2]) + U16Be(b[2..])
  }

  function PutU32Be(n: nat): (b: Bytes)
    requires n < U32
    ensures |b| == 4 && U32Be(b) == n
  {
    var b := PutU16Be(n / 0x1_0000) + PutU16Be(n % 0x1_0000);
    assert b[..2] == PutU16Be(n / 0x1_0000) && b[2..] == PutU16Be(n % 0x1_0000);
    b
  }

  /** Byte order, byte by byte. */
  lemma LittleEndian(b: Bytes)
    ensures |b| == 2 ==> U16Le(b) == b[0] as int + 0x100 * b[1] as int
    ensures |b| == 3 ==> U24Le(b) == b[0] as int + 0x100 * b[1] as int + 0x1_0000 * b[2] as int
    ensures |b| == 4 ==> U32Le(b) == b[0] as int + 0x100 * b[1] as int + 0x1_0000 * b[2] as int + 0x100_0000 * b[3] as int
  {
  }

  lemma BigEndian(b: Bytes)
    ensures |b| == 2 ==> U16Be(b) == 0x100 * b[0] as int + b[1] as int
    ensures |b| == 4 ==> U32Be(b) == 0x100_0000 * b[0] as int + 0x1_0000 * b[1] as int + 0x100 * b[2] as int + b[3] as int
  {
  }

  /** Two's complement: the signed reading of a 32-bit pattern. */
  function AsI32(n: nat): (i: int)
    requires n < U32
    ensures -0x8000_0000 <= i < 0x8000_0000
  {
    if n < 0x8000_0000 then n else n - U32
  }

  function I32Le(b: Bytes): (i: int)
    requires |b| == 4
    ensures -0x8000_0000 <= i < 0x8000_0000
  {
    AsI32(U32Le(b))
  }

  /** `put_i32_le(x as i32)`: the value is cut to 32 bits first. */
  function PutI32Le(x: int): (b: Bytes)
    ensures |b| == 4 && U32Le(b) == x % 0x1_0000_0000
    ensures -0x8000_0000 <= x < 0x8000_0000 ==> I32Le(b) == x
  {
    PutU32Le(x % 0x1_0000_0000)
  }

  lemma PutU16LeOfU16Le(b: Bytes)
    requires |b| == 2
    ensures PutU16Le(U16Le(b)) == b
  {
  }

  lemma PutU32LeOfU32Le(b: Bytes)
    requires |b| == 4
    ensures PutU32Le(U32Le(b)) == b
  {
    hide U16Le, PutU16Le;
    var lo, hi := U16Le(b[..2]), U16Le(b[2..]);
    assert U32Le(b) % 0x1_0000 == lo && U32Le(b) / 0x1_0000 == hi;
    PutU16LeOfU16Le(b[..2]);
    PutU16LeOfU16Le(b[2..]);
  }

  /** A 32-bit field determines its four bytes. */
  lemma PutI32LeOfI32Le(b: Bytes)
    requires |b| == 4
    ensures PutI32Le(I32Le(b)) == b
  {
    hide U32Le, PutU32Le;
    assert I32Le(b) % 0x1_0000_0000 == U32Le(b);
    PutU32LeOfU32Le(b);
  }

  // ---------- ASCII literals ----------

  function Ascii(s: string): (b: Bytes)
    requires forall i :: 0 <= i < |s| ==> s[i] as int < 128
    ensures |b| == |s| && forall i :: 0 <= i < |s| ==> b[i] == s[i] as int
  {
    seq(|s|, i requires 0 <= i < |s| => s[i] as int)
  }

  function Zeros(n: nat): (b: Bytes)
    ensures |b| == n && forall i :: 0 <= i < n ==> b[i] == 0
  {
    seq(n, i => 0)
  }

  // ---------- concatenation ----------

  function Flatten<T>(parts: seq<seq<T>>): seq<T> {
    if parts == [] then [] else parts[0] + Flatten(parts[1..])
  }

  lemma {:induction false} FlattenAppend<T>(a: seq<seq<T>>, b: seq<seq<T>>)
    ensures Flatten(a + b) == Flatten(a) + Flatten(b)
  {
    if a == [] {
      assert a + b == b;
    } else {
      assert (a + b)[1..] == a[1..] + b;
      FlattenAppend(a[1..], b);
    }
  }

  lemma FlattenSnoc<T>(a: seq<seq<T>>, x: seq<T>)
    ensures Flatten(a + [x]) == Flatten(a) + x
  {
    FlattenAppend(a, [x]);
    assert Flatten([x]) == x + Flatten<T>([]);
  }

  lemma FlattenOne<T>(x: seq<T>)
    ensures Flatten([x]) == x
  {
    FlattenSnoc([], x);
    assert [] + [x] == [x];
  }

  /** Cutting a concatenation at its seam gives the two halves back. */
  lemma Seam<T>(a: seq<T>, b: seq<T>)
    ensures (a + b)[..|a|] == a && (a + b)[|a|..] == b
  {
  }

  lemma Assoc<T>(a: seq<T>, b: seq<T>, c: seq<T>)
    ensures (a + b) + c == a + (b + c)
  {
  }

  /** Writing a few more bytes of b after what is already out. */
  lemma WriteMore<T>(base: seq<T>, b: seq<T>, i: nat, n: nat)
    requires i + n <= |b|
    ensures (base + b[..i]) + b[i..i + n] == base + b[..i + n]
  {
  }

  // ---------- NUL-terminated strings ----------

  /** `position(|b| b == 0)`: the index of the first NUL. Equal to the length when there is none. */
  function FirstNul(s: Bytes): (n: nat)
    ensures n <= |s|
    ensures 0 !in s[..n]
    ensures n < |s| ==> s[n] == 0
  {
    if s == [] || s[0] == 0 then 0
    else
      var n := FirstNul(s[1..]);
      assert s[..n + 1] == [s[0]] + s[1..][..n];
      n + 1
  }

  lemma {:induction false} FirstNulIs(s: Bytes, n: nat)
    requires n <= |s| && 0 !in s[..n]
    requires n < |s| ==> s[n] == 0
    ensures FirstNul(s) == n
  {
    if n > 0 {
      assert s[0] in s[..n];
      assert s[1..][..n - 1] == s[1..n] && s[..n] == [s[0]] + s[1..n];
      FirstNulIs(s[1..], n - 1);
    }
  }

  lemma FirstNulOfCString(key: Bytes, more: Bytes)
    requires 0 !in key
    ensures FirstNul(key + [0] + more) == |key|
    ensures FirstNul(key) == |key|
  {
    var s := key + [0] + more;
    assert s[..|key|] == key;
    FirstNulIs(s, |key|);
    assert key[..|key|] == key;
    FirstNulIs(key, |key|);
  }
}
