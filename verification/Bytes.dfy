/** Bytes and the fixed-width integers the C sources store in memory. */
module Bytes {

  type byte = b: int | 0 <= b < 0x100

  type u16 = n: int | 0 <= n < 0x1_0000

  type u32 = n: int | 0 <= n < 0x1_0000_0000

  /** Conversion of any integer to `uint8_t`. */
  function ToU8(n: int): byte { n % 0x100 }

  /** Conversion of any integer to `uint16_t`. */
  function ToU16(n: int): u16 { n % 0x1_0000 }

  /** A `uint16_t` stored on a little-endian host, as the mesh packets hold it. */
  function PutLe16(n: u16): seq<byte> { [n % 0x100, n / 0x100] }

  function GetLe16(s: seq<byte>): u16
    requires |s| >= 2
  {
    s[0] as int + 0x100 * (s[1] as int)
  }

  /** A `uint32_t` stored on a little-endian host. */
  function PutLe32(n: u32): seq<byte> {
    [n % 0x100, n / 0x100 % 0x100, n / 0x1_0000 % 0x100, n / 0x100_0000]
  }

  function GetLe32(s: seq<byte>): u32
    requires |s| >= 4
  {
    s[0] as int + 0x100 * (s[1] as int) + 0x1_0000 * (s[2] as int) + 0x100_0000 * (s[3] as int)
  }

  /** A `uint16_t` in network byte order. */
  function PutBe16(n: u16): seq<byte> { [n / 0x100, n % 0x100] }

  function GetBe16(s: seq<byte>): u16
    requires |s| >= 2
  {
    0x100 * (s[0] as int) + s[1] as int
  }

  /** A `uint32_t` in network byte order. */
  function PutBe32(n: u32): seq<byte> { PutBe16(n / 0x1_0000) + PutBe16(n % 0x1_0000) }

  function GetBe32(s: seq<byte>): u32
    requires |s| >= 4
  {
    0x1_0000 * (GetBe16(s) as int) + GetBe16(s[2..]) as int
  }

  lemma Be16RoundTrip(n: u16)
    ensures |PutBe16(n)| == 2 && forall rest :: GetBe16(PutBe16(n) + rest) == n
  {
  }

  lemma Be32RoundTrip(n: u32)
    ensures |PutBe32(n)| == 4 && forall rest :: GetBe32(PutBe32(n) + rest) == n
  {
    hide PutBe16, GetBe16;
    var hi, lo := n / 0x1_0000, n % 0x1_0000;
    Be16RoundTrip(hi);
    Be16RoundTrip(lo);
    forall rest: seq<byte>
      ensures GetBe32(PutBe32(n) + rest) == n
    {
      assert PutBe32(n) + rest == PutBe16(hi) + (PutBe16(lo) + rest);
      assert (PutBe32(n) + rest)[2..] == PutBe16(lo) + rest;
    }
  }

  /** A name as `strlen` sees it: the bytes before the terminating NUL. */
  ghost predicate IsCString(s: seq<byte>) { 0 !in s }

  /** `strlen`: the number of bytes before the first NUL (all of them when there is none). */
  function StrLen(s: seq<byte>): (n: nat)
    ensures n <= |s| && 0 !in s[..n] && (n < |s| ==> s[n] == 0)
  {
    if s == [] || s[0] == 0 then 0
    else
      assert forall k :: 0 <= k < StrLen(s[1..]) ==> s[k + 1] == s[1..][k];
      1 + StrLen(s[1..])
  }

  lemma Le16RoundTrip(n: u16)
    ensures GetLe16(PutLe16(n)) == n
  {
  }

  lemma Le16Length(n: u16)
    ensures |PutLe16(n)| == 2
  {
  }

  lemma Le16Prefix(s: seq<byte>, rest: seq<byte>)
    requires |s| == 2
    ensures GetLe16(s + rest) == GetLe16(s)
  {
  }

  /** `memcpy` into a buffer at offset `at`. */
  method CopyInto(dst: array<byte>, at: nat, src: seq<byte>)
    requires at + |src| <= dst.Length
    modifies dst
    ensures dst[..] == old(dst[..at]) + src + old(dst[at + |src|..])
  {
    forall k | 0 <= k < |src| {
      dst[at + k] := src[k];
    }
  }

  /** The concatenation of the members of `parts`. */
  function Join<T>(parts: seq<seq<T>>): seq<T> {
    if parts == [] then [] else parts[0] + Join(parts[1..])
  }

  lemma {:induction false} JoinAppend<T>(parts: seq<seq<T>>, last: seq<T>)
    ensures Join(parts + [last]) == Join(parts) + last
  {
    if parts == [] {
      assert Join([last]) == last + Join<T>([]);
    } else {
      assert (parts + [last])[1..] == parts[1..] + [last];
      JoinAppend(parts[1..], last);
    }
  }
}
