/** Bytes, fixed-width arithmetic and the few sequence helpers that the other modules share. */
module Bytes {
  type byte = b: int | 0 <= b < 256

  const TWO_32: int := 0x1_0000_0000
  const TWO_16: int := 0x1_0000

  function Min(a: nat, b: nat): nat {
    if a <= b then a else b
  }

  /** Subtraction as a `uint32_t` performs it: it wraps below zero. */
  function Sub32(a: int, b: int): (r: nat) {
    (a - b) % TWO_32
  }

  type u16 = n: nat | n < TWO_16
  type u32 = n: nat | n < TWO_32

  /** A 32-bit number in little-endian order, and back. */
  function Le32(n: u32): seq<byte> { [n % 256, n / 256 % 256, n / 65536 % 256, n / 16777216] }

  function FromLe32(a: byte, b: byte, c: byte, d: byte): u32 { 16777216 * d + 65536 * c + 256 * b + a }

  lemma Le32Back(n: u32)
    ensures var s := Le32(n); FromLe32(s[0], s[1], s[2], s[3]) == n
  {
    assert n / 65536 == n / 256 / 256 && n / 16777216 == n / 65536 / 256;
  }

  lemma Le32Again(a: byte, b: byte, c: byte, d: byte)
    ensures Le32(FromLe32(a, b, c, d)) == [a, b, c, d]
  {
    var n := FromLe32(a, b, c, d);
    assert n / 256 == 65536 * d + 256 * c + b;
    assert n / 65536 == 256 * d + c;
  }

  datatype Option<T> = None | Some(value: T)

  /** The `n` positions from `at` on. */
  function Positions(at: int, n: nat): (p: seq<int>)
    ensures |p| == n && forall i | 0 <= i < n :: p[i] == at + i
  {
    seq(n, i => at + i)
  }

  /** `v` is the part of `t` that starts at `c`. */
  ghost predicate PartOf<T>(v: seq<T>, t: seq<T>, c: nat) {
    c + |v| <= |t| && forall k | 0 <= k < |v| :: v[k] == t[c + k]
  }

  lemma PartOfPart<T>(a: seq<T>, b: seq<T>, t: seq<T>, c: nat)
    requires PartOf(a + b, t, c)
    ensures PartOf(a, t, c) && PartOf(b, t, c + |a|)
  {
    forall i | 0 <= i < |a| ensures a[i] == t[c + i] { assert (a + b)[i] == a[i]; }
    forall i | 0 <= i < |b| ensures b[i] == t[c + |a| + i] { assert t[c + (|a| + i)] == (a + b)[|a| + i] == b[i]; }
  }

  lemma HeadOfRest<T>(s: seq<T>, n: nat, x: T, rest: seq<T>)
    requires n <= |s| && s[n..] == [x] + rest
    ensures n < |s| && s[n] == x && s[n + 1..] == rest && s[..n + 1] == s[..n] + [x]
  {
    assert s[n..][0] == x && s[n..][1..] == rest;
  }

  lemma StoreOne<T>(s: seq<T>, at: nat, x: T)
    requires at < |s|
    ensures var t := s[at := x]; t[..at + 1] == s[..at] + [x] && t[at + 1..] == s[at..][1..]
    ensures s[at := x] == s[..at] + [x] + s[at..][1..]
  {
  }

  lemma DropDrop<T>(s: seq<T>, p: nat, k: nat)
    requires p + k <= |s|
    ensures s[p..][k..] == s[p + k..]
  {
  }

  lemma Regroup<T>(a: seq<T>, b: seq<T>, c: seq<T>)
    ensures a + b + c == a + (b + c)
  {
  }

  lemma RegroupInner<T>(a: seq<T>, b: seq<T>, c: seq<T>, d: seq<T>)
    ensures a + (b + c) + d == a + (b + (c + d))
  {
  }
}
