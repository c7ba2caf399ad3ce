/** Bytes as Python's `struct` module packs them with the `<` (little-endian,
    no padding) prefix, and strings as `str.encode("utf-8")` turns them into
    bytes. */
module Bytes {
  import opened Wrappers

  type byte = b: int | 0 <= b < 256

  function Pow256(k: nat): (p: nat)
    ensures p >= 1
  {
    if k == 0 then 1 else 256 * Pow256(k - 1)
  }

  const Two32: nat := 0x1_0000_0000
  const Two64: nat := 0x1_0000_0000_0000_0000

  lemma Pow256Values()
    ensures Pow256(4) == Two32 && Pow256(8) == Two64
  {
  }

  /** The `k`-byte little-endian unsigned encoding of `n`. */
  function LE(n: nat, k: nat): (r: seq<byte>)
    requires n < Pow256(k)
    ensures |r| == k
  {
    if k == 0 then [] else [n % 256] + LE(n / 256, k - 1)
  }

  /** The unsigned value of little-endian bytes. */
  function FromLE(bs: seq<byte>): nat
  {
    if bs == [] then 0 else bs[0] + 256 * FromLE(bs[1..])
  }

  /** Decoding an encoding gives the number back. */
  lemma {:induction false} FromLEOfLE(n: nat, k: nat)
    requires n < Pow256(k)
    ensures FromLE(LE(n, k)) == n
  {
    if k > 0 {
      FromLEOfLE(n / 256, k - 1);
      assert LE(n, k)[1..] == LE(n / 256, k - 1);
    }
  }

  /** Encoding a decoded value gives the bytes back. */
  lemma {:induction false} LEOfFromLE(bs: seq<byte>)
    ensures FromLE(bs) < Pow256(|bs|)
    ensures LE(FromLE(bs), |bs|) == bs
  {
    if bs != [] {
      LEOfFromLE(bs[1..]);
      var n := FromLE(bs);
      assert n % 256 == bs[0];
      assert n / 256 == FromLE(bs[1..]);
      assert bs == [bs[0]] + bs[1..];
    }
  }

  /** struct format `B`. */
  function U8(n: int): (r: seq<byte>)
    requires 0 <= n < 256
    ensures |r| == 1 && r[0] == n
  {
    [n]
  }

  /** struct format `I`. */
  function U32(n: int): (r: seq<byte>)
    requires 0 <= n < Two32
    ensures |r| == 4
  {
    Pow256Values();
    LE(n, 4)
  }

  /** struct format `Q`. */
  function U64(n: int): (r: seq<byte>)
    requires 0 <= n < Two64
    ensures |r| == 8
  {
    Pow256Values();
    LE(n, 8)
  }

  predicate InI32(n: int) {
    -0x8000_0000 <= n < 0x8000_0000
  }

  /** struct format `i`: 32-bit two's complement. */
  function I32(n: int): (r: seq<byte>)
    requires InI32(n)
    ensures |r| == 4
  {
    Pow256Values();
    LE(if n < 0 then n + Two32 else n, 4)
  }

  /** Reading four bytes back as a signed 32-bit integer. */
  function FromI32(bs: seq<byte>): int
    requires |bs| == 4
  {
    var u := FromLE(bs);
    if u >= 0x8000_0000 then u - Two32 else u
  }

  lemma U32RoundTrip(n: int)
    requires 0 <= n < Two32
    ensures FromLE(U32(n)) == n
  {
    Pow256Values();
    FromLEOfLE(n, 4);
  }

  lemma U64RoundTrip(n: int)
    requires 0 <= n < Two64
    ensures FromLE(U64(n)) == n
  {
    Pow256Values();
    FromLEOfLE(n, 8);
  }

  lemma I32RoundTrip(n: int)
    requires InI32(n)
    ensures FromI32(I32(n)) == n
  {
    Pow256Values();
    FromLEOfLE(if n < 0 then n + Two32 else n, 4);
  }

  /** An 8-byte `d` field; the IEEE-754 bit layout is not modelled. */
  type Blob8 = s: seq<byte> | |s| == 8 witness [0, 0, 0, 0, 0, 0, 0, 0]

  /** `struct.pack("<d", 0.0)`: positive zero is all zero bits. */
  const ZeroDouble: Blob8 := [0, 0, 0, 0, 0, 0, 0, 0]

  /** The UTF-8 encoding of one Unicode scalar value. */
  function Utf8Char(c: char): (r: seq<byte>)
    ensures 1 <= |r| <= 4
    ensures c as int < 0x80 ==> r == [c as int]
    ensures c as int >= 0x80 ==> forall i :: 0 <= i < |r| ==> r[i] >= 0x80
  {
    var n := c as int;
    if n < 0x80 then [n]
    else if n < 0x800 then [0xC0 + n / 64, 0x80 + n % 64]
    else if n < 0x1_0000 then [0xE0 + n / 4096, 0x80 + (n / 64) % 64, 0x80 + n % 64]
    else [0xF0 + n / 262144, 0x80 + (n / 4096) % 64, 0x80 + (n / 64) % 64, 0x80 + n % 64]
  }

  /** `s.encode("utf-8")`. */
  function Utf8(s: string): (r: seq<byte>)
    ensures |r| >= |s|
  {
    if s == [] then [] else Utf8Char(s[0]) + Utf8(s[1..])
  }

  /** The encoding holds a zero byte exactly when the string holds NUL. */
  lemma {:induction false} Utf8ZeroFree(s: string)
    ensures 0 in Utf8(s) <==> '\0' in s
  {
    if s != [] {
      Utf8ZeroFree(s[1..]);
      assert s == [s[0]] + s[1..];
      var head := Utf8Char(s[0]);
      assert 0 in head <==> s[0] == '\0';
    }
  }

  /** The length of a UTF-8 sequence, read from its lead byte. */
  function LeadLength(b: byte): (k: nat)
    ensures 1 <= k <= 4
  {
    if b < 0x80 then 1 else if b < 0xE0 then 2 else if b < 0xF0 then 3 else 4
  }

  predicate IsScalar(v: int) {
    (0 <= v < 0xD800) || (0xE000 <= v < 0x11_0000)
  }

  /** The scalar value carried by one UTF-8 sequence, if it is one. */
  function DecodeChar(bs: seq<byte>): Option<char>
    requires 1 <= |bs| <= 4
  {
    var b := seq(|bs|, i requires 0 <= i < |bs| => bs[i] as int);
    var v :=
      if |b| == 1 then b[0]
      else if |b| == 2 then (b[0] - 0xC0) * 64 + (b[1] - 0x80)
      else if |b| == 3 then (b[0] - 0xE0) * 4096 + (b[1] - 0x80) * 64 + (b[2] - 0x80)
      else (b[0] - 0xF0) * 262144 + (b[1] - 0x80) * 4096 + (b[2] - 0x80) * 64 + (b[3] - 0x80);
    if IsScalar(v) then Some(v as char) else None
  }

  /** `bytes.decode("utf-8")` on the byte strings `Utf8` produces. */
  function Utf8Decode(bs: seq<byte>): Option<string>
    decreases |bs|
  {
    if bs == [] then Some([])
    else
      var k := LeadLength(bs[0]);
      if |bs| < k then None
      else match DecodeChar(bs[..k])
        case None => None
        case Some(c) =>
          match Utf8Decode(bs[k..])
          case None => None
          case Some(rest) => Some([c] + rest)
  }

  lemma Utf8CharDecodes(c: char)
    ensures LeadLength(Utf8Char(c)[0]) == |Utf8Char(c)|
    ensures DecodeChar(Utf8Char(c)) == Some(c)
  {
    var n := c as int;
    if n < 0x80 {
    } else if n < 0x800 {
      Decode2(n);
    } else if n < 0x1_0000 {
      Decode3(n);
    } else {
      Decode4(n);
    }
  }

  lemma Decode2(n: int)
    requires 0x80 <= n < 0x800
    ensures ((0xC0 + n / 64) - 0xC0) * 64 + ((0x80 + n % 64) - 0x80) == n
  {
  }

  lemma Decode3(n: int)
    requires 0x800 <= n < 0x1_0000
    ensures ((0xE0 + n / 4096) - 0xE0) * 4096 + ((0x80 + (n / 64) % 64) - 0x80) * 64
      + ((0x80 + n % 64) - 0x80) == n
  {
    var a := n / 4096;
    var m := n % 4096;
    assert n == a * 4096 + m;
    assert (n / 64) % 64 == m / 64;
    assert n % 64 == m % 64;
  }

  lemma Decode4(n: int)
    requires 0x1_0000 <= n < 0x11_0000
    ensures ((0xF0 + n / 262144) - 0xF0) * 262144 + ((0x80 + (n / 4096) % 64) - 0x80) * 4096
      + ((0x80 + (n / 64) % 64) - 0x80) * 64 + ((0x80 + n % 64) - 0x80) == n
  {
    var a := n / 262144;
    var m := n % 262144;
    var b := m / 4096;
    var r := m % 4096;
    var c := r / 64;
    var d := r % 64;
    assert n == a * 262144 + b * 4096 + c * 64 + d;
    DivMod4096(n, a * 64 + b, c * 64 + d);
    DivMod64(a * 64 + b, a, b);
    DivMod64(n, a * 4096 + b * 64 + c, d);
    DivMod64(a * 4096 + b * 64 + c, a * 64 + b, c);
  }

  /** Division by 64 is determined by its quotient and remainder. */
  lemma DivMod64(x: int, q: int, r: int)
    requires 0 <= r < 64 && x == q * 64 + r
    ensures x / 64 == q && x % 64 == r
  {
  }

  /** Division by 4096 is determined by its quotient and remainder. */
  lemma DivMod4096(x: int, q: int, r: int)
    requires 0 <= r < 4096 && x == q * 4096 + r
    ensures x / 4096 == q && x % 4096 == r
  {
  }

  /** Decoding the UTF-8 encoding of a string gives the string back. */
  lemma {:induction false} Utf8RoundTrip(s: string)
    ensures Utf8Decode(Utf8(s)) == Some(s)
  {
    if s != [] {
      var head := Utf8Char(s[0]);
      var bs := Utf8(s);
      Utf8CharDecodes(s[0]);
      assert bs == head + Utf8(s[1..]);
      assert bs[..|head|] == head;
      assert bs[|head|..] == Utf8(s[1..]);
      Utf8RoundTrip(s[1..]);
      assert s == [s[0]] + s[1..];
    }
  }
}
