/** src/common/utils/private-address.util.ts: the IPv4 part of `isPrivateAddress`, with the
    32-bit operators of the language it is written in. */
module PrivateAddress {

  const TWO_32: int := 0x1_0000_0000

  function Pow2(n: nat): nat
    ensures Pow2(n) >= 1
  {
    if n == 0 then 1 else 2 * Pow2(n - 1)
  }

  // ------------------------------------------------- the operators

  /** The signed 32-bit integer a bitwise operator makes of a number. */
  function ToInt32(x: int): int {
    var m := x % TWO_32;
    if m >= 0x8000_0000 then m - TWO_32 else m
  }

  /** It is the only one that differs from the number by a multiple of 2^32. */
  lemma Int32Is(x: int, r: int)
    ensures ToInt32(x) == r <==> -0x8000_0000 <= r < 0x8000_0000 && (x - r) % 0x1_0000_0000 == 0
  {
  }

  /** The result of `x >>> 0`. */
  function ToUint32(x: int): int { x % TWO_32 }

  /** `x << n`; only the last five bits of `n` count. */
  function ShiftLeft(x: int, n: nat): int {
    ToInt32(ToInt32(x) * Pow2(n % 32))
  }

  /** Bit by bit, the smaller of two bits. */
  function BitAnd(a: nat, b: nat): nat {
    if a == 0 || b == 0 then 0
    else (if a % 2 == 1 && b % 2 == 1 then 1 else 0) + 2 * BitAnd(a / 2, b / 2)
  }

  /** `x & y` */
  function And(x: int, y: int): int {
    ToInt32(BitAnd(ToUint32(x), ToUint32(y)))
  }

  // ------------------------------------------------- the address as a number

  /** One step of the reduction in `v4ToInt`: the shift wraps, the addition does not. */
  function Fold(parts: seq<nat>, acc: int): int {
    if parts == [] then acc else Fold(parts[1..], ShiftLeft(acc, 8) + parts[0])
  }

  /** `v4ToInt` of an address split at its dots. */
  function V4ToInt(parts: seq<nat>): int {
    ToUint32(Fold(parts, 0))
  }

  predicate Octets(parts: seq<nat>) {
    |parts| == 4 && forall i :: 0 <= i < 4 ==> parts[i] <= 255
  }

  /** A wrapped number is the number less a multiple of 2^32. */
  lemma Wrapped(x: int) returns (j: int)
    ensures ToInt32(x) == x + j * TWO_32
  {
    j := if x % TWO_32 >= 0x8000_0000 then -(x / TWO_32) - 1 else -(x / TWO_32);
  }

  lemma Multiple(x: int, j: int)
    ensures (x + j * TWO_32) % TWO_32 == x % TWO_32
  {
  }

  /** A step keeps the value up to multiples of 2^32, whatever sign the shift gives it. */
  lemma ShiftStep(acc: int, n: int, j: int, part: nat) returns (k: int)
    requires acc == n + j * TWO_32
    ensures ShiftLeft(acc, 8) + part == n * 256 + part + k * TWO_32
  {
    assert Pow2(8) == 256;
    var a := Wrapped(acc);
    var b := Wrapped(ToInt32(acc) * 256);
    k := 256 * (j + a) + b;
  }

  /** The parts read in base 256, after `n`. */
  function Number(parts: seq<nat>, n: nat): nat {
    if parts == [] then n else Number(parts[1..], n * 256 + parts[0])
  }

  lemma {:induction false} FoldIsNumber(parts: seq<nat>, acc: int, n: nat, j: int) returns (k: int)
    requires acc == n + j * TWO_32
    ensures Fold(parts, acc) == Number(parts, n) + k * TWO_32
  {
    if parts == [] {
      k := j;
    } else {
      k := ShiftStep(acc, n, j, parts[0]);
      k := FoldIsNumber(parts[1..], ShiftLeft(acc, 8) + parts[0], n * 256 + parts[0], k);
    }
  }

  lemma FourParts(a: nat, b: nat, c: nat, d: nat)
    ensures Number([a, b, c, d], 0) == a * 0x100_0000 + b * 0x1_0000 + c * 0x100 + d
  {
    assert [a, b, c, d][1..] == [b, c, d] && [b, c, d][1..] == [c, d] && [c, d][1..] == [d] && [d][1..] == [];
    assert Number([d], (a * 256 + b) * 256 + c) == ((a * 256 + b) * 256 + c) * 256 + d;
    assert Number([c, d], a * 256 + b) == Number([d], (a * 256 + b) * 256 + c);
    assert Number([b, c, d], a) == Number([c, d], a * 256 + b);
  }

  /** The number is the address read in base 256, although every shift past 2^31 comes
      out negative. */
  lemma V4ToIntIsPositional(parts: seq<nat>)
    requires Octets(parts)
    ensures V4ToInt(parts) == parts[0] * 0x100_0000 + parts[1] * 0x1_0000 + parts[2] * 0x100 + parts[3]
    ensures 0 <= V4ToInt(parts) < TWO_32
  {
    var k := FoldIsNumber(parts, 0, 0, 0);
    assert parts == [parts[0], parts[1], parts[2], parts[3]];
    FourParts(parts[0], parts[1], parts[2], parts[3]);
    Multiple(Number(parts, 0), k);
  }

  // ------------------------------------------------- the mask test

  function Mask(bits: nat): int
    requires bits <= 32
  {
    if bits == 0 then 0 else ToUint32(ShiftLeft(-1, 32 - bits))
  }

  predicate InPrefix(n: int, base: int, bits: nat)
    requires bits <= 32
  {
    ToUint32(And(n, Mask(bits))) == base
  }

  lemma {:induction false} Pow2Grows(m: nat, n: nat)
    requires m <= n
    ensures Pow2(m) <= Pow2(n)
  {
    if m < n {
      Pow2Grows(m, n - 1);
    }
  }

  lemma Pow2Values()
    ensures Pow2(8) == 0x100 && Pow2(16) == 0x1_0000 && Pow2(17) == 0x2_0000 && Pow2(20) == 0x10_0000
    ensures Pow2(22) == 0x40_0000 && Pow2(24) == 0x100_0000 && Pow2(29) == 0x2000_0000
    ensures Pow2(31) == 0x8000_0000 && Pow2(32) == TWO_32
  {
    assert Pow2(8) == 0x100;
    assert Pow2(16) == 0x100 * Pow2(8);
    assert Pow2(24) == 0x100 * Pow2(16);
    assert Pow2(32) == 0x100 * Pow2(24);
  }

  lemma MaskIs(bits: nat)
    requires bits <= 32
    ensures Mask(bits) == Pow2(32) - Pow2(32 - bits)
  {
    Pow2Values();
    if bits > 0 {
      var k := 32 - bits;
      Pow2Grows(k, 31);
      assert k % 32 == k && ToInt32(-1) == -1;
      var shifted: int := -1 * Pow2(k);
      assert ToInt32(shifted) == shifted && ToUint32(shifted) == TWO_32 + shifted;
    }
  }

  /** The number the last k bits make. */
  function LastBits(n: nat, k: nat): (r: nat)
    ensures r <= n && r < Pow2(k)
  {
    if k == 0 then 0 else n % 2 + 2 * LastBits(n / 2, k - 1)
  }

  lemma {:induction false} AllOnes(n: nat, w: nat)
    requires n < Pow2(w)
    ensures BitAnd(n, Pow2(w) - 1) == n
  {
    if w > 0 && n > 0 {
      AllOnes(n / 2, w - 1);
      assert (Pow2(w) - 1) / 2 == Pow2(w - 1) - 1;
    }
  }

  /** Masking keeps what the last k bits do not make. */
  lemma {:induction false} HighBits(n: nat, w: nat, k: nat)
    requires n < Pow2(w) && k <= w
    ensures Pow2(k) <= Pow2(w) && BitAnd(n, Pow2(w) - Pow2(k)) == n - LastBits(n, k)
  {
    Pow2Grows(k, w);
    if k == 0 {
      AllOnes(n, w);
    } else {
      HighBits(n / 2, w - 1, k - 1);
      var m := Pow2(w) - Pow2(k);
      assert m / 2 == Pow2(w - 1) - Pow2(k - 1) && m % 2 == 0;
    }
  }

  /** What is kept is the base of the block of 2^k numbers `n` lies in. */
  lemma {:induction false} BlockIff(n: nat, base: int, k: nat)
    ensures n - LastBits(n, k) == base <==>
              0 <= base <= n < base + Pow2(k) && LastBits(base, k) == 0
  {
    if k > 0 && base >= 0 {
      BlockIff(n / 2, base / 2, k - 1);
    }
  }

  /** The test holds of exactly the addresses of the prefix, for every prefix length; a
      base with bits beyond the prefix has none. */
  lemma InPrefixIff(n: nat, base: nat, bits: nat)
    requires n < TWO_32 && bits <= 32
    ensures InPrefix(n, base, bits) <==> LastBits(base, 32 - bits) == 0 && base <= n < base + Pow2(32 - bits)
  {
    hide Mask, BitAnd, LastBits, And, Pow2;
    Pow2Values();
    MaskIs(bits);
    HighBits(n, 32, 32 - bits);
    Unsigned(n, Mask(bits), n - LastBits(n, 32 - bits));
    BlockIff(n, base, 32 - bits);
  }

  /** On numbers below 2^32 the signs the operators give cancel out. */
  lemma Unsigned(x: nat, y: nat, and: nat)
    requires x < TWO_32 && y < TWO_32 && and < TWO_32 && and == BitAnd(x, y)
    ensures ToUint32(And(x, y)) == and
  {
    assert ToUint32(x) == x && ToUint32(y) == y;
  }

  // ------------------------------------------------- the verdict

  const PRIVATE_V4: seq<(int, nat)> := [
    (0x0000_0000, 8), (0x0a00_0000, 8), (0x6440_0000, 10), (0x7f00_0000, 8), (0xa9fe_0000, 16),
    (0xac10_0000, 12), (0xc0a8_0000, 16), (0xc612_0000, 15), (0xe000_0000, 3)]

  predicate IsPrivateV4(parts: seq<nat>) {
    exists i :: 0 <= i < |PRIVATE_V4| && PRIVATE_V4[i].1 <= 32 && InPrefix(V4ToInt(parts), PRIVATE_V4[i].0, PRIVATE_V4[i].1)
  }

  /** The ranges, as they are written in the comments beside them. */
  predicate InListedRange(a: nat, b: nat) {
    a == 0 || a == 10 || (a == 100 && 64 <= b <= 127) || a == 127 || (a == 169 && b == 254) ||
    (a == 172 && 16 <= b <= 31) || (a == 192 && b == 168) || (a == 198 && 18 <= b <= 19) || a >= 224
  }

  /** The addresses whose first octet is in a range. */
  lemma FirstOctet(a: nat, rest: nat, from: nat, to: nat)
    requires rest < 0x100_0000 && from < to
    ensures from * 0x100_0000 <= a * 0x100_0000 + rest < to * 0x100_0000 <==> from <= a < to
  {
  }

  /** The addresses with one first octet and a second one in a range. */
  lemma SecondOctet(a: nat, b: nat, rest: nat, first: nat, from: nat, to: nat)
    requires b < 256 && rest < 0x1_0000 && from < to <= 256
    ensures first * 0x100_0000 + from * 0x1_0000 <= a * 0x100_0000 + b * 0x1_0000 + rest < first * 0x100_0000 + to * 0x1_0000 <==>
              a == first && from <= b < to
  {
  }

  lemma TwiceOver(q: nat, p: nat)
    ensures q * (2 * p) == 2 * (q * p)
    ensures q * (2 * p) % 2 == 0 && q * (2 * p) / 2 == q * p
  {
    assert q * (2 * p) == 2 * (q * p);
  }

  lemma {:induction false} ZeroBits(q: nat, k: nat)
    ensures LastBits(q * Pow2(k), k) == 0
  {
    if k > 0 {
      ZeroBits(q, k - 1);
      TwiceOver(q, Pow2(k - 1));
    }
  }

  lemma TestIff(n: nat, base: nat, bits: nat, q: nat)
    requires n < TWO_32 && bits <= 32 && base == q * Pow2(32 - bits)
    ensures InPrefix(n, base, bits) <==> base <= n < base + Pow2(32 - bits)
  {
    ZeroBits(q, 32 - bits);
    InPrefixIff(n, base, bits);
  }

  /** The nine tests one by one. */
  lemma NineTests(n: nat)
    requires n < TWO_32
    ensures InPrefix(n, 0x0000_0000, 8) <==> n < 0x0100_0000
    ensures InPrefix(n, 0x0a00_0000, 8) <==> 0x0a00_0000 <= n < 0x0b00_0000
    ensures InPrefix(n, 0x6440_0000, 10) <==> 0x6440_0000 <= n < 0x6480_0000
    ensures InPrefix(n, 0x7f00_0000, 8) <==> 0x7f00_0000 <= n < 0x8000_0000
    ensures InPrefix(n, 0xa9fe_0000, 16) <==> 0xa9fe_0000 <= n < 0xa9ff_0000
    ensures InPrefix(n, 0xac10_0000, 12) <==> 0xac10_0000 <= n < 0xac20_0000
    ensures InPrefix(n, 0xc0a8_0000, 16) <==> 0xc0a8_0000 <= n < 0xc0a9_0000
    ensures InPrefix(n, 0xc612_0000, 15) <==> 0xc612_0000 <= n < 0xc614_0000
    ensures InPrefix(n, 0xe000_0000, 3) <==> 0xe000_0000 <= n
  {
    Pow2Values();
    TestIff(n, 0x0000_0000, 8, 0);
    TestIff(n, 0x0a00_0000, 8, 0x0a);
    TestIff(n, 0x6440_0000, 10, 0x191);
    TestIff(n, 0x7f00_0000, 8, 0x7f);
    TestIff(n, 0xa9fe_0000, 16, 0xa9fe);
    TestIff(n, 0xac10_0000, 12, 0xac1);
    TestIff(n, 0xc0a8_0000, 16, 0xc0a8);
    TestIff(n, 0xc612_0000, 15, 0x6309);
    TestIff(n, 0xe000_0000, 3, 7);
  }

  /** For all 2^32 addresses, the verdict is membership in the nine ranges. */
  lemma VerdictIff(parts: seq<nat>)
    requires Octets(parts)
    ensures IsPrivateV4(parts) <==> InListedRange(parts[0], parts[1])
  {
    V4ToIntIsPositional(parts);
    Pow2Values();
    var n, a, b := V4ToInt(parts), parts[0], parts[1];
    var low := parts[2] * 0x100 + parts[3];
    var rest := b * 0x1_0000 + low;
    FirstOctet(a, rest, 0, 1);
    FirstOctet(a, rest, 10, 11);
    SecondOctet(a, b, low, 100, 64, 128);
    FirstOctet(a, rest, 127, 128);
    SecondOctet(a, b, low, 169, 254, 255);
    SecondOctet(a, b, low, 172, 16, 32);
    SecondOctet(a, b, low, 192, 168, 169);
    SecondOctet(a, b, low, 198, 18, 20);
    FirstOctet(a, rest, 224, 256);
    NineTests(n);
    TableUnrolled(n);
  }

  lemma TableUnrolled(n: int)
    ensures (exists i :: 0 <= i < |PRIVATE_V4| && PRIVATE_V4[i].1 <= 32 && InPrefix(n, PRIVATE_V4[i].0, PRIVATE_V4[i].1)) <==>
              InPrefix(n, 0x0000_0000, 8) || InPrefix(n, 0x0a00_0000, 8) || InPrefix(n, 0x6440_0000, 10) ||
              InPrefix(n, 0x7f00_0000, 8) || InPrefix(n, 0xa9fe_0000, 16) || InPrefix(n, 0xac10_0000, 12) ||
              InPrefix(n, 0xc0a8_0000, 16) || InPrefix(n, 0xc612_0000, 15) || InPrefix(n, 0xe000_0000, 3)
  {
    assert PRIVATE_V4[0] == (0x0000_0000, 8) && PRIVATE_V4[1] == (0x0a00_0000, 8) && PRIVATE_V4[2] == (0x6440_0000, 10);
    assert PRIVATE_V4[3] == (0x7f00_0000, 8) && PRIVATE_V4[4] == (0xa9fe_0000, 16) && PRIVATE_V4[5] == (0xac10_0000, 12);
    assert PRIVATE_V4[6] == (0xc0a8_0000, 16) && PRIVATE_V4[7] == (0xc612_0000, 15) && PRIVATE_V4[8] == (0xe000_0000, 3);
  }
}
