/**
Addresses, prefixes and the hash of an address (fw_types.h).

An IPv4 address is the host-order value of its 32-bit word, an IPv6 address its
16 octets. Clearing the low k bits, `x & (~0 << k)`, is `(x >> k) << k`.
*/
module Prefix {

  type U8 = n: int | 0 <= n < 0x100
  type U32 = n: int | 0 <= n < 0x1_0000_0000
  type Octets = s: seq<U8> | |s| == 16 witness seq(16, _ => 0)

  datatype Family = Inet | Inet6

  datatype Addr = V4(word: U32) | V6(octets: Octets) {
    function Af(): Family { if V4? then Inet else Inet6 }
  }

  function MaxPrefix(af: Family): nat { if af.Inet6? then 128 else 32 }

  /** Prefix lengths an address may be paired with. */
  predicate ValidPrefix(a: Addr, prefix: nat) { prefix <= MaxPrefix(a.Af()) }

  function Shr(x: nat, k: nat): (r: nat)
    ensures r <= x
  {
    if k == 0 then x else Shr(x, k - 1) / 2
  }

  function Shl(x: nat, k: nat): nat {
    if k == 0 then x else 2 * Shl(x, k - 1)
  }

  /** `x & (~0 << (width - keep))` for an unsigned `x` of `width` bits. */
  function KeepHigh(x: nat, width: nat, keep: nat): (r: nat)
    requires keep <= width
    ensures r <= x
  {
    ShiftDown(x, width - keep);
    Shl(Shr(x, width - keep), width - keep)
  }

  /** Bit `i` of a `width`-bit word, counted from the most significant bit. */
  function WordBit(x: nat, width: nat, i: nat): nat
    requires i < width
  {
    Shr(x, width - 1 - i) % 2
  }

  /** Bit `i` of an address in network order (section 3.1 of RFC 4632, section 2.3 of RFC 4291). */
  function Bit(a: Addr, i: nat): nat
    requires i < MaxPrefix(a.Af())
  {
    match a
    case V4(w) => WordBit(w, 32, i)
    case V6(b) => WordBit(b[i / 8], 8, i % 8)
  }

  /** The meaning of "ip lies in network/prefix": the first `prefix` bits agree. */
  ghost predicate SameLeadingBits(a: Addr, b: Addr, prefix: nat)
    requires a.Af() == b.Af() && ValidPrefix(a, prefix)
  {
    forall i: nat | i < prefix :: Bit(a, i) == Bit(b, i)
  }

  /** fw_prefix_match: a masked word compare for IPv4; whole octets, then one masked octet for IPv6. */
  predicate PrefixMatch(ip: Addr, network: Addr, prefix: nat)
    requires ip.Af() == network.Af() && ValidPrefix(network, prefix)
  {
    match ip
    case V4(w) => KeepHigh(w, 32, prefix) == KeepHigh(network.word, 32, prefix)
    case V6(b) =>
      var full, rem := prefix / 8, prefix % 8;
      && b[..full] == network.octets[..full]
      && (rem != 0 ==> KeepHigh(b[full], 8, rem) == KeepHigh(network.octets[full], 8, rem))
  }

  function NormalizedOctet(b: Octets, prefix: nat, j: nat): U8
    requires prefix <= 128 && j < 16
  {
    if j < prefix / 8 then b[j]
    else if j == prefix / 8 && prefix % 8 != 0 then KeepHigh(b[j], 8, prefix % 8)
    else 0
  }

  /** fw_addr_normalize as a value: the network address of `a` under `prefix`. */
  function Normalize(a: Addr, prefix: nat): (r: Addr)
    requires ValidPrefix(a, prefix)
    ensures r.Af() == a.Af()
  {
    match a
    case V4(w) => V4(KeepHigh(w, 32, prefix))
    case V6(b) => V6(seq(16, j requires 0 <= j < 16 => NormalizedOctet(b, prefix, j)))
  }

  /** fw_addr_normalize on IPv6 as it runs: mask one octet, then clear the rest in a loop. */
  method NormalizeOctetsInPlace(b: array<U8>, prefix: nat)
    requires b.Length == 16 && prefix <= 128
    modifies b
    ensures V6(b[..]) == Normalize(V6(old(b[..])), prefix)
  {
    var full, rem := prefix / 8, prefix % 8;
    var start := full;
    if rem != 0 {
      b[full] := KeepHigh(b[full], 8, rem);
      start := start + 1;
    }
    ghost var masked := b[..];
    for i := start to 16
      invariant forall j | 0 <= j < 16 :: b[j] == if start <= j < i then 0 else masked[j]
    {
      b[i] := 0;
    }
  }

  // ---------------------------------------------------------------- shifts

  lemma {:induction false} ShiftDown(x: nat, k: nat)
    ensures Shl(Shr(x, k), k) <= x
  {
    if k > 0 {
      ShlMono(2 * Shr(x, k), Shr(x, k - 1), k - 1);
      ShlDouble(Shr(x, k), k - 1);
      ShiftDown(x, k - 1);
    }
  }

  lemma {:induction false} ShlDouble(x: nat, k: nat)
    ensures Shl(2 * x, k) == 2 * Shl(x, k)
  {
    if k > 0 { ShlDouble(x, k - 1); }
  }

  lemma {:induction false} ShlMono(x: nat, y: nat, k: nat)
    ensures x <= y <==> Shl(x, k) <= Shl(y, k)
  {
    if k > 0 { ShlMono(x, y, k - 1); }
  }

  /** Equal high parts and equal leading bits are the same thing, for words that fit `width` bits. */
  lemma {:induction false} ShrBits(x: nat, y: nat, width: nat, keep: nat)
    requires keep <= width && Shr(x, width) == Shr(y, width) == 0
    ensures Shr(x, width - keep) == Shr(y, width - keep)
       <==> forall i: nat | i < keep :: WordBit(x, width, i) == WordBit(y, width, i)
  {
    if keep > 0 {
      ShrBits(x, y, width, keep - 1);
      assert WordBit(x, width, keep - 1) == Shr(x, width - keep) % 2;
      assert WordBit(y, width, keep - 1) == Shr(y, width - keep) % 2;
    }
  }

  /** Shifting back down by less recovers the smaller shift. */
  lemma {:induction false} ShlShr(y: nat, k: nat, j: nat)
    requires j <= k
    ensures Shr(Shl(y, k), j) == Shl(y, k - j)
  {
    if j > 0 { ShlShr(y, k, j - 1); }
  }

  lemma {:induction false} ShrBelow(x: nat, k: nat, j: nat)
    requires j <= k && x < Shl(1, k)
    ensures Shr(x, j) < Shl(1, k - j)
  {
    if j > 0 { ShrBelow(x, k, j - 1); }
  }

  lemma {:induction false} ShlSum(x: nat, a: nat, b: nat)
    ensures Shl(x, a + b) == Shl(Shl(x, a), b)
  {
    if b > 0 { ShlSum(x, a, b - 1); }
  }

  lemma Fits8(x: U8)
    ensures Shr(x, 8) == 0
  {
    ShrBelow(x, 8, 8);
  }

  lemma Fits32(x: U32)
    ensures Shr(x, 32) == 0
  {
    ShlSum(1, 8, 8); ShlSum(1, 16, 8); ShlSum(1, 24, 8);
    ShrBelow(x, 32, 32);
  }

  lemma KeepHighTwice(x: nat, width: nat, keep: nat)
    requires keep <= width
    ensures KeepHigh(KeepHigh(x, width, keep), width, keep) == KeepHigh(x, width, keep)
    ensures forall i: nat | keep <= i < width :: WordBit(KeepHigh(x, width, keep), width, i) == 0
  {
    ShlShr(Shr(x, width - keep), width - keep, width - keep);
    forall i: nat | keep <= i < width ensures WordBit(KeepHigh(x, width, keep), width, i) == 0 {
      LowBitClear(x, width, keep, i);
    }
  }

  lemma LowBitClear(x: nat, width: nat, keep: nat, i: nat)
    requires keep <= i < width
    ensures WordBit(KeepHigh(x, width, keep), width, i) == 0
  {
    ShlShr(Shr(x, width - keep), width - keep, width - 1 - i);
  }

  /** Masked words are equal exactly when their leading `keep` bits are. */
  lemma MaskedEqual(x: nat, y: nat, width: nat, keep: nat)
    requires keep <= width && Shr(x, width) == Shr(y, width) == 0
    ensures KeepHigh(x, width, keep) == KeepHigh(y, width, keep)
       <==> forall i: nat | i < keep :: WordBit(x, width, i) == WordBit(y, width, i)
  {
    ShrBits(x, y, width, keep);
    var k := width - keep;
    ShlMono(Shr(x, k), Shr(y, k), k);
    ShlMono(Shr(y, k), Shr(x, k), k);
  }

  lemma OctetEqual(x: U8, y: U8)
    ensures x == y <==> forall i: nat | i < 8 :: WordBit(x, 8, i) == WordBit(y, 8, i)
  {
    Fits8(x); Fits8(y);
    ShrBits(x, y, 8, 8);
  }

  // ---------------------------------------------------------------- what a prefix means

  /** Whole octets, then one masked octet: the byte-wise compare sees exactly the leading bits. */
  lemma OctetsMatchBits(a: Addr, b: Addr, prefix: nat)
    requires a.V6? && b.V6? && prefix <= 128
    ensures PrefixMatch(a, b, prefix) <==> SameLeadingBits(a, b, prefix)
  {
    var full, rem := prefix / 8, prefix % 8;
    var x, y := a.octets, b.octets;
    if rem != 0 {
      Fits8(x[full]); Fits8(y[full]);
      MaskedEqual(x[full], y[full], 8, rem);
    }
    if PrefixMatch(a, b, prefix) {
      forall i: nat | i < prefix ensures Bit(a, i) == Bit(b, i) {
        if i / 8 < full { assert x[..full][i / 8] == y[..full][i / 8]; }
      }
    }
    if SameLeadingBits(a, b, prefix) {
      forall j: nat | j < full ensures x[j] == y[j] {
        forall i: nat | i < 8 ensures WordBit(x[j], 8, i) == WordBit(y[j], 8, i) {
          assert Bit(a, 8 * j + i) == Bit(b, 8 * j + i);
        }
        OctetEqual(x[j], y[j]);
      }
      forall i: nat | i < rem ensures WordBit(x[full], 8, i) == WordBit(y[full], 8, i) {
        assert Bit(a, 8 * full + i) == Bit(b, 8 * full + i);
      }
    }
  }

  /** Prefix match, equality of normalised addresses and equality of the leading bits coincide. */
  lemma PrefixMeaning(ip: Addr, network: Addr, prefix: nat)
    requires ip.Af() == network.Af() && ValidPrefix(network, prefix)
    ensures PrefixMatch(ip, network, prefix) <==> SameLeadingBits(ip, network, prefix)
    ensures PrefixMatch(ip, network, prefix) <==> Normalize(ip, prefix) == Normalize(network, prefix)
  {
    match ip
    case V4(w) =>
      Fits32(w); Fits32(network.word);
      MaskedEqual(w, network.word, 32, prefix);
      forall i: nat | i < prefix
        ensures Bit(ip, i) == WordBit(w, 32, i) && Bit(network, i) == WordBit(network.word, 32, i)
      {}
    case V6(b) =>
      OctetsMatchBits(ip, network, prefix);
      var full, rem := prefix / 8, prefix % 8;
      var x, y := Normalize(ip, prefix).octets, Normalize(network, prefix).octets;
      if x == y {
        forall j: nat | j < full ensures b[j] == network.octets[j] {
          assert x[j] == y[j];
        }
        if rem != 0 { assert x[full] == y[full]; }
      }
      if PrefixMatch(ip, network, prefix) {
        forall j: nat | j < 16 ensures x[j] == y[j] {
          if j < full { assert b[..full][j] == network.octets[..full][j]; }
        }
      }
  }

  /** At full length a prefix match is equality, so a /32 or /128 entry is one host. */
  lemma FullMatchIsEquality(a: Addr, b: Addr)
    requires a.Af() == b.Af()
    ensures PrefixMatch(a, b, MaxPrefix(a.Af())) <==> a == b
    ensures Normalize(a, MaxPrefix(a.Af())) == a
  {
    match a
    case V4(w) =>
    case V6(o) =>
      assert o[..16] == o && b.octets[..16] == b.octets;
      assert Normalize(a, 128).octets == o;
  }

  /** Normalising keeps the leading bits, clears the rest, and is idempotent. */
  lemma NormalizeBits(a: Addr, prefix: nat)
    requires ValidPrefix(a, prefix)
    ensures Normalize(Normalize(a, prefix), prefix) == Normalize(a, prefix)
    ensures SameLeadingBits(Normalize(a, prefix), a, prefix)
    ensures forall i: nat | prefix <= i < MaxPrefix(a.Af()) :: Bit(Normalize(a, prefix), i) == 0
  {
    var n := Normalize(a, prefix);
    match a {
      case V4(w) => KeepHighTwice(w, 32, prefix);
      case V6(b) =>
        var full, rem := prefix / 8, prefix % 8;
        if rem != 0 { KeepHighTwice(b[full], 8, rem); }
        assert Normalize(n, prefix).octets == n.octets;
        forall i: nat | prefix <= i < 128 ensures Bit(n, i) == 0 {
          if i / 8 == full && rem != 0 {
          } else {
            assert n.octets[i / 8] == 0;
            ShrZero(7 - i % 8);
          }
        }
    }
    PrefixMeaning(n, a, prefix);
  }

  lemma ShrZero(k: nat)
    ensures Shr(0, k) == 0
  {}

  /** fw_addr_is_valid: what may be banned at all. */
  predicate ValidSource(a: Addr) {
    match a
    case V4(h) =>
      var top := h / 0x100_0000;
      top != 0 && top != 127 && top != 255 && top / 16 != 0xE
    case V6(o) =>
      && o != seq(16, _ => 0)
      && o != seq(16, i => if i == 15 then 1 else 0)
      && o[0] != 0xFF
      && !(o[0] == 0xFE && o[1] / 64 == 2)
  }

  // ---------------------------------------------------------------- hashing

  /** The keyed hash, an arbitrary fixed function, cut down to `bits` bits (fw_hash_addr). */
  function HashAddr(jhash: Addr -> nat, a: Addr, bits: nat): (h: nat)
    ensures h < Shl(1, bits)
  {
    ShlPositive(bits);
    jhash(a) % Shl(1, bits)
  }

  lemma {:induction false} ShlPositive(k: nat)
    ensures Shl(1, k) > 0
  {
    if k > 0 { ShlPositive(k - 1); }
  }
}
