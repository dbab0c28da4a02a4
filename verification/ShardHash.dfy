/**
 The routing hash of the cluster client, in JavaScript's arithmetic: bit operations wrap to
 signed 32-bit integers, additions are exact, and `>>> 0` takes the result modulo 2^32.
 */
module ShardHash {
  const TWO32 := 0x1_0000_0000
  const TWO53 := 0x20_0000_0000_0000
  const OFFSET := 0x811c9dc5
  const PRIME := 16777619  // 2^24 + 2^8 + 2^7 + 2^4 + 2 + 1

  type CodeUnit = c: int | 0 <= c < 0x1_0000
  type UInt32 = h: int | 0 <= h < TWO32

  // ----- JavaScript's operators -----

  function Pow2(n: nat): (p: nat)
    ensures p > 0
  {
    if n == 0 then 1 else 2 * Pow2(n - 1)
  }

  lemma Pow2Of32()
    ensures Pow2(32) == TWO32
  {
    assert Pow2(4) == 16 && Pow2(8) == 16 * Pow2(4) && Pow2(12) == 16 * Pow2(8) && Pow2(16) == 16 * Pow2(12);
    assert Pow2(20) == 16 * Pow2(16) && Pow2(24) == 16 * Pow2(20) && Pow2(28) == 16 * Pow2(24);
    assert Pow2(32) == 16 * Pow2(28);
  }

  /** Exclusive or of the low `width` bits, bit by bit. */
  function XorBits(a: nat, b: nat, width: nat): (r: nat)
    ensures r < Pow2(width)
  {
    if width == 0 then 0
    else (if a % 2 == b % 2 then 0 else 1) + 2 * XorBits(a / 2, b / 2, width - 1)
  }

  function Xor(a: UInt32, b: UInt32): UInt32 {
    Pow2Of32();
    XorBits(a, b, 32)
  }

  /** Bit `k` of a number. */
  predicate Bit(x: nat, k: nat) { (x / Pow2(k)) % 2 == 1 }

  lemma {:induction false} BitShifted(x: nat, k: nat)
    ensures Bit(x, k + 1) <==> Bit(x / 2, k)
  {
    var q, r := x / 2, x % 2;
    var p := Pow2(k);
    assert x == 2 * q + r;
    var d, m := q / p, q % p;
    assert q == d * p + m;
    assert x == d * (2 * p) + (2 * m + r) && 2 * m + r < 2 * p;
    Quotient(x, 2 * p, d, 2 * m + r);
  }

  lemma Quotient(x: nat, n: nat, d: nat, r: nat)
    requires n > 0 && x == d * n + r && r < n
    ensures x / n == d
  {
    var e := x / n;
    assert (e - d) * n == r - x % n;
    NoMultipleBetween(e - d, n);
  }

  /** No multiple of `n` but 0 lies strictly between -n and n. */
  lemma NoMultipleBetween(z: int, n: int)
    requires n > 0 && -n < z * n < n
    ensures z == 0
  {
    if z > 0 {
      Multiple(z, n);
    } else if z < 0 {
      assert (-z) * n == -(z * n);
      Multiple(-z, n);
    }
  }

  lemma {:induction false} Multiple(z: nat, n: nat)
    requires z > 0
    ensures z * n >= n
  {
    if z > 1 {
      Multiple(z - 1, n);
      assert z * n == (z - 1) * n + n;
    }
  }

  /** A bit of the exclusive or is set exactly where the two numbers differ. */
  lemma {:induction false} XorDiffers(a: nat, b: nat, width: nat, k: nat)
    requires k < width
    ensures Bit(XorBits(a, b, width), k) <==> (Bit(a, k) <==> !Bit(b, k))
  {
    var x := XorBits(a, b, width);
    assert x / 2 == XorBits(a / 2, b / 2, width - 1);
    if k > 0 {
      XorDiffers(a / 2, b / 2, width - 1, k - 1);
      BitShifted(x, k - 1);
      BitShifted(a, k - 1);
      BitShifted(b, k - 1);
    }
  }

  function ToInt32(x: int): (r: int)
    ensures -0x8000_0000 <= r < 0x8000_0000
    ensures r == x - Wraps(x) * TWO32
  {
    var m := x % TWO32;
    if m < 0x8000_0000 then m else m - TWO32
  }

  /** How often `x` wrapped on its way to a signed 32-bit value. */
  function Wraps(x: int): int {
    if x % TWO32 < 0x8000_0000 then x / TWO32 else x / TWO32 + 1
  }

  function ShiftSum(x: int): int {
    x + (ToInt32(x * 2) + ToInt32(x * 16) + ToInt32(x * 128) + ToInt32(x * 256) + ToInt32(x * 0x100_0000))
  }

  function Step(h: UInt32, c: CodeUnit): UInt32 {
    ShiftSum(ToInt32(Xor(h, c))) % TWO32
  }

  function Fold(s: seq<CodeUnit>): UInt32 {
    if s == [] then OFFSET else Step(Fold(s[..|s| - 1]), s[|s| - 1])
  }

  method Fnv1a(s: seq<CodeUnit>) returns (h: UInt32)
    ensures h == Fold(s)
  {
    h := OFFSET;
    for i := 0 to |s|
      invariant h == Fold(s[..i])
    {
      assert s[..i + 1][..i] == s[..i];
      var x := ToInt32(Xor(h, s[i]));
      var sum := ToInt32(x * 2) + ToInt32(x * 16) + ToInt32(x * 128) + ToInt32(x * 256) + ToInt32(x * 0x100_0000);
      h := (x + sum) % TWO32;
    }
    assert s[..|s|] == s;
  }

  /** The hashes of the empty text and of "a" that the FNV draft's test vectors give. */
  lemma KnownHashes()
    ensures Fold([]) == 0x811c9dc5 && Fold([0x61]) == 0xe40c292c
  {
    hide XorBits, Step, Fold;
    XorWithA();
    StepMultiplies(0x811c9dc5, 0x61);
    OneUnit(0x61);
  }

  lemma XorStep(a: nat, b: nat, width: nat)
    requires width > 0
    ensures XorBits(a, b, width) == (if a % 2 == b % 2 then 0 else 1) + 2 * XorBits(a / 2, b / 2, width - 1)
  {
  }

  lemma XorWithA()
    ensures XorBits(0x811c9dc5, 0x61, 32) == 0x811c9da4
  {
    hide XorBits;
    Pow2Of25();
    XorNothing(0x102393b, 25);
    XorStep(0x2047277, 0x1, 26);
    XorStep(0x408e4ee, 0x3, 27);
    XorStep(0x811c9dc, 0x6, 28);
    XorStep(0x102393b8, 0xc, 29);
    XorStep(0x20472771, 0x18, 30);
    XorStep(0x408e4ee2, 0x30, 31);
    XorStep(0x811c9dc5, 0x61, 32);
  }

  lemma OneUnit(c: CodeUnit)
    ensures Fold([]) == OFFSET && Fold([c]) == Step(OFFSET, c)
  {
    assert [c][..0] == [];
  }

  lemma Pow2Of25()
    ensures Pow2(25) == 0x200_0000
  {
    assert Pow2(5) == 32 && Pow2(10) == 32 * Pow2(5) && Pow2(15) == 32 * Pow2(10) && Pow2(20) == 32 * Pow2(15);
    assert Pow2(25) == 32 * Pow2(20);
  }

  lemma {:induction false} XorNothing(a: nat, width: nat)
    requires a < Pow2(width)
    ensures XorBits(a, 0, width) == a
  {
    if width > 0 {
      XorNothing(a / 2, width - 1);
    }
  }

  /** The default shard of a key; with no nodes left there is none (the remainder is not a number). */
  method ShardIndex(key: seq<CodeUnit>, nodes: nat) returns (found: bool, idx: nat)
    ensures found <==> nodes > 0
    ensures found ==> idx < nodes && idx == Fold(key) % nodes
  {
    var h := Fnv1a(key);
    if nodes == 0 {
      return false, 0;
    }
    return true, h % nodes;
  }

  // ----- The shifts are a multiplication by the FNV prime -----

  lemma SameResidue(a: int, k: int)
    ensures (a - k * TWO32) % TWO32 == a % TWO32
  {
    var q, r := a / TWO32, a % TWO32;
    assert a - k * TWO32 == (q - k) * TWO32 + r;
  }

  lemma StepMultiplies(h: UInt32, c: CodeUnit)
    ensures Step(h, c) == (Xor(h, c) * PRIME) % TWO32
    ensures -TWO53 < ShiftSum(ToInt32(Xor(h, c))) < TWO53
  {
    var u := Xor(h, c);
    var x := ToInt32(u);
    var k := Wraps(u) * PRIME + Wraps(x * 2) + Wraps(x * 16) + Wraps(x * 128) + Wraps(x * 256) + Wraps(x * 0x100_0000);
    assert ShiftSum(x) == u * PRIME - k * TWO32;
    SameResidue(u * PRIME, k);
  }

  // ----- FNV-1a, 32 bit: section 2 of draft-eastlake-fnv -----

  type Octet = b: int | 0 <= b < 256

  function FnvReference(bytes: seq<Octet>, hash: UInt32 := OFFSET): UInt32
    decreases bytes
  {
    if bytes == [] then hash else FnvReference(bytes[1..], (Xor(hash, bytes[0]) * PRIME) % TWO32)
  }

  function AsUnits(bytes: seq<Octet>): seq<CodeUnit> {
    seq(|bytes|, (i: int) requires 0 <= i < |bytes| => bytes[i] as CodeUnit)
  }

  lemma {:induction false} FnvSnoc(bytes: seq<Octet>, b: Octet, hash: UInt32)
    ensures FnvReference(bytes + [b], hash) == (Xor(FnvReference(bytes, hash), b) * PRIME) % TWO32
    decreases bytes
  {
    if bytes == [] {
      assert bytes + [b] == [b] && [b][1..] == [];
    } else {
      assert (bytes + [b])[1..] == bytes[1..] + [b];
      FnvSnoc(bytes[1..], b, (Xor(hash, bytes[0]) * PRIME) % TWO32);
    }
  }

  /** On text whose code units are bytes the loop computes FNV-1a. */
  lemma {:induction false} FoldIsFnv1a(bytes: seq<Octet>)
    ensures Fold(AsUnits(bytes)) == FnvReference(bytes)
  {
    if bytes != [] {
      var n := |bytes| - 1;
      assert AsUnits(bytes)[..n] == AsUnits(bytes[..n]);
      assert bytes == bytes[..n] + [bytes[n]];
      FoldIsFnv1a(bytes[..n]);
      FnvSnoc(bytes[..n], bytes[n], OFFSET);
      StepMultiplies(Fold(AsUnits(bytes[..n])), bytes[n]);
    }
  }
}
