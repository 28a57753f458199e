/**
 * The address arithmetic of the routing puzzle: an IPv4 destination is the source
 * plus a key, octet by octet with wrap-around, and the key is recovered by
 * subtracting; for IPv6 both directions are the octet-wise exclusive or.
 */
module AddressKeys {

  /** A `u8`. */
  type Octet = x: int | 0 <= x < 256

  /** The four octets of an IPv4 address, most significant first (`Ipv4Addr::octets`). */
  type Ipv4 = a: seq<Octet> | |a| == 4 witness [0, 0, 0, 0]

  /** The sixteen octets of an IPv6 address, most significant first (`Ipv6Addr::octets`). */
  type Ipv6 = a: seq<Octet> | |a| == 16 witness [0, 0, 0, 0, 0, 0, 0, 0, 0, 0, 0, 0, 0, 0, 0, 0]

  /** `u8::wrapping_add`: the sum, less 256 when it does not fit in an octet. */
  function WrappingAdd(a: Octet, b: Octet): (r: Octet)
    ensures r == if a + b < 256 then a + b else a + b - 256
  {
    (a + b) % 256
  }

  /** `u8::wrapping_sub`: the difference, plus 256 when it would be negative. */
  function WrappingSub(a: Octet, b: Octet): (r: Octet)
    ensures r == if a >= b then a - b else a - b + 256
  {
    (a - b) % 256
  }

  /** `dest`: each octet of the destination is the wrapping sum of the source's and the key's. */
  function Dest(from: Ipv4, key: Ipv4): (to: Ipv4)
  {
    [WrappingAdd(from[0], key[0]), WrappingAdd(from[1], key[1]),
     WrappingAdd(from[2], key[2]), WrappingAdd(from[3], key[3])]
  }

  /** `key`: each octet of the key is the wrapping difference of the destination's and the source's. */
  function Key(from: Ipv4, to: Ipv4): (key: Ipv4)
  {
    [WrappingSub(to[0], from[0]), WrappingSub(to[1], from[1]),
     WrappingSub(to[2], from[2]), WrappingSub(to[3], from[3])]
  }

  /**
   * Octet `i` of the destination depends on octet `i` of the source and the key and
   * on nothing else, and it is their sum modulo 256.
   */
  lemma DestOctet(from: Ipv4, key: Ipv4, i: nat)
    requires i < 4
    ensures Dest(from, key)[i] == (from[i] as int + key[i] as int) % 256
  {
  }

  /** Likewise for the key: octet `i` is the difference of octet `i` of the two addresses, modulo 256. */
  lemma KeyOctet(from: Ipv4, to: Ipv4, i: nat)
    requires i < 4
    ensures Key(from, to)[i] == (to[i] as int - from[i] as int) % 256
  {
  }

  /** The key that leads from `from` to `Dest(from, key)` is `key` itself. */
  lemma KeyOfDest(from: Ipv4, key: Ipv4)
    ensures Key(from, Dest(from, key)) == key
  {
  }

  /** Going from `from` with the key computed for `to` arrives at `to`. */
  lemma DestOfKey(from: Ipv4, to: Ipv4)
    ensures Dest(from, Key(from, to)) == to
  {
  }

  /** The key `0.0.0.0` leads every address to itself. */
  lemma ZeroKey(from: Ipv4)
    ensures Dest(from, [0, 0, 0, 0]) == from
  {
  }

  /** Bitwise exclusive or of two naturals, the `^` operator, one binary digit at a time. */
  function Xor(a: nat, b: nat): nat
    decreases a + b
  {
    if a == 0 && b == 0 then 0
    else 2 * Xor(a / 2, b / 2) + (if a % 2 == b % 2 then 0 else 1)
  }

  function Pow2(k: nat): (p: nat)
    ensures p >= 1
  {
    if k == 0 then 1 else 2 * Pow2(k - 1)
  }

  /** The exclusive or of two `k`-bit numbers is a `k`-bit number. */
  lemma {:induction false} XorBelow(a: nat, b: nat, k: nat)
    requires a < Pow2(k) && b < Pow2(k)
    ensures Xor(a, b) < Pow2(k)
    decreases a + b
  {
    if a != 0 || b != 0 {
      assert k != 0;
      XorBelow(a / 2, b / 2, k - 1);
    }
  }

  lemma {:induction false} XorZeroRight(a: nat)
    ensures Xor(a, 0) == a
    decreases a
  {
    if a != 0 {
      XorZeroRight(a / 2);
    }
  }

  lemma {:induction false} XorComm(a: nat, b: nat)
    ensures Xor(a, b) == Xor(b, a)
    decreases a + b
  {
    if a != 0 || b != 0 {
      XorComm(a / 2, b / 2);
    }
  }

  /** Exclusive or with `b` twice gives back what it started from. */
  lemma {:induction false} XorXor(a: nat, b: nat)
    ensures Xor(Xor(a, b), b) == a
    decreases a + b
  {
    var x := Xor(a, b);
    if a == 0 && b == 0 {
    } else {
      assert x / 2 == Xor(a / 2, b / 2) && x % 2 == (if a % 2 == b % 2 then 0 else 1);
      if x == 0 && b == 0 {
        XorZeroRight(a);
      } else {
        XorXor(a / 2, b / 2);
      }
    }
  }

  /** `u8 ^ u8`: the exclusive or of two octets is again an octet. */
  function OctetXor(a: Octet, b: Octet): Octet
  {
    assert Pow2(8) == 256;
    XorBelow(a, b, 8);
    Xor(a, b)
  }

  /** The octet-wise exclusive or of two octet sequences, as far as the shorter one goes (`zip` then `map`). */
  function ZipXor(first: seq<Octet>, second: seq<Octet>): (r: seq<Octet>)
    ensures |r| == if |first| <= |second| then |first| else |second|
    ensures forall i :: 0 <= i < |r| ==> r[i] == Xor(first[i], second[i])
  {
    if first == [] || second == [] then []
    else [OctetXor(first[0], second[0])] + ZipXor(first[1..], second[1..])
  }

  /**
   * `ipv6_xor`. The zipped sequence of two 16-octet addresses has 16 octets, so the
   * conversion back to a 16-octet array (the `expect`) always succeeds: the result
   * type says so.
   */
  function Ipv6Xor(first: Ipv6, second: Ipv6): (r: Ipv6)
  {
    ZipXor(first, second)
  }

  /** `dest_v6`: the destination is the source exclusive-or the key. */
  function DestV6(from: Ipv6, key: Ipv6): Ipv6
  {
    Ipv6Xor(from, key)
  }

  /** `key_v6`: the key is the source exclusive-or the destination. */
  function KeyV6(from: Ipv6, to: Ipv6): Ipv6
  {
    Ipv6Xor(from, to)
  }

  /** Exclusive or with the same address twice gives back the first address. */
  lemma Ipv6XorSelfInverse(a: Ipv6, b: Ipv6)
    ensures Ipv6Xor(Ipv6Xor(a, b), b) == a
  {
    var r := Ipv6Xor(Ipv6Xor(a, b), b);
    forall i | 0 <= i < 16
      ensures r[i] == a[i]
    {
      XorXor(a[i], b[i]);
    }
  }

  lemma Ipv6XorCommutative(a: Ipv6, b: Ipv6)
    ensures Ipv6Xor(a, b) == Ipv6Xor(b, a)
  {
    forall i | 0 <= i < 16
      ensures Ipv6Xor(a, b)[i] == Ipv6Xor(b, a)[i]
    {
      XorComm(a[i], b[i]);
    }
  }

  /** The all-zero address `::` is the identity of the exclusive or. */
  lemma Ipv6XorZero(a: Ipv6)
    ensures Ipv6Xor(a, [0, 0, 0, 0, 0, 0, 0, 0, 0, 0, 0, 0, 0, 0, 0, 0]) == a
  {
    forall i | 0 <= i < 16
      ensures Ipv6Xor(a, [0, 0, 0, 0, 0, 0, 0, 0, 0, 0, 0, 0, 0, 0, 0, 0])[i] == a[i]
    {
      XorZeroRight(a[i]);
    }
  }

  /** The IPv6 key that leads from `from` to `DestV6(from, key)` is `key`. */
  lemma KeyV6OfDestV6(from: Ipv6, key: Ipv6)
    ensures KeyV6(from, DestV6(from, key)) == key
  {
    Ipv6XorCommutative(from, key);
    Ipv6XorSelfInverse(key, from);
    Ipv6XorCommutative(from, Ipv6Xor(key, from));
  }

  /** Going from `from` with the IPv6 key computed for `to` arrives at `to`. */
  lemma DestV6OfKeyV6(from: Ipv6, to: Ipv6)
    ensures DestV6(from, KeyV6(from, to)) == to
  {
    Ipv6XorCommutative(from, to);
    Ipv6XorSelfInverse(to, from);
    Ipv6XorCommutative(from, Ipv6Xor(to, from));
  }
}
