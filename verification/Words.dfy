/** Fixed-width integers and their byte encodings. */
module Words {

  type byte = x: int | 0 <= x < 0x100
  type u32 = x: int | 0 <= x < 0x1_0000_0000
  type u64 = x: int | 0 <= x < 0x1_0000_0000_0000_0000
  type Bytes = seq<byte>

  const U64_MAX: u64 := 0xFFFF_FFFF_FFFF_FFFF

  function Max(a: nat, b: nat): nat {
    if a < b then b else a
  }

  function Pow256(n: nat): (p: nat)
    ensures p > 0
  {
    if n == 0 then 1 else 256 * Pow256(n - 1)
  }

  lemma Pow256Values()
    ensures Pow256(4) == 0x1_0000_0000
    ensures Pow256(8) == 0x1_0000_0000_0000_0000
  {
    assert Pow256(4) == 256 * (256 * (256 * (256 * Pow256(0))));
    assert Pow256(8) == 256 * (256 * (256 * (256 * Pow256(4))));
  }

  lemma SplitDigit(high: nat, low: byte)
    ensures (256 * high + low) % 256 == low && (256 * high + low) / 256 == high
  {
  }

  // ── Little endian ─────────────────────────────────────────────────────────

  /** The low `n` bytes of `x`, least significant first (`to_le_bytes` after an `as` cast). */
  function Le(n: nat, x: nat): (b: Bytes)
    ensures |b| == n
  {
    if n == 0 then [] else [x % 256] + Le(n - 1, x / 256)
  }

  function FromLe(b: Bytes): (x: nat)
  {
    if b == [] then 0 else b[0] + 256 * FromLe(b[1..])
  }

  lemma {:induction false} FromLeOfLe(n: nat, x: nat)
    requires x < Pow256(n)
    ensures FromLe(Le(n, x)) == x
  {
    if n > 0 {
      FromLeOfLe(n - 1, x / 256);
      assert Le(n, x)[1..] == Le(n - 1, x / 256);
    }
  }

  lemma {:induction false} LeOfFromLe(b: Bytes)
    ensures FromLe(b) < Pow256(|b|)
    ensures Le(|b|, FromLe(b)) == b
  {
    if b != [] {
      LeOfFromLe(b[1..]);
      SplitDigit(FromLe(b[1..]), b[0]);
      calc {
        Le(|b|, FromLe(b));
        [b[0]] + Le(|b| - 1, FromLe(b[1..]));
        [b[0]] + b[1..];
        b;
      }
    }
  }

  ghost predicate AllZero(b: Bytes)
  {
    forall i :: 0 <= i < |b| ==> b[i] == 0
  }

  /** A little-endian word is zero exactly when all its bytes are. */
  lemma {:induction false} FromLeZero(b: Bytes)
    ensures FromLe(b) == 0 <==> AllZero(b)
  {
    if b != [] {
      FromLeZero(b[1..]);
      assert b == [b[0]] + b[1..];
      if AllZero(b[1..]) && b[0] == 0 {
        forall i | 0 <= i < |b| ensures b[i] == 0 {
          if i > 0 { assert b[i] == b[1..][i - 1]; }
        }
      }
      if AllZero(b) {
        forall i | 0 <= i < |b[1..]| ensures b[1..][i] == 0 { assert b[1..][i] == b[i + 1]; }
      }
    }
  }

  // ── Big endian ────────────────────────────────────────────────────────────

  function Be(n: nat, x: nat): (b: Bytes)
    ensures |b| == n
  {
    if n == 0 then [] else Be(n - 1, x / 256) + [x % 256]
  }

  function FromBe(b: Bytes): (x: nat)
  {
    if b == [] then 0 else 256 * FromBe(b[..|b| - 1]) + b[|b| - 1]
  }

  lemma {:induction false} FromBeOfBe(n: nat, x: nat)
    requires x < Pow256(n)
    ensures FromBe(Be(n, x)) == x
  {
    if n > 0 {
      FromBeOfBe(n - 1, x / 256);
      assert Be(n, x)[..n - 1] == Be(n - 1, x / 256);
    }
  }

  lemma {:induction false} BeOfFromBe(b: Bytes)
    ensures FromBe(b) < Pow256(|b|)
    ensures Be(|b|, FromBe(b)) == b
  {
    if b != [] {
      var init, last := b[..|b| - 1], b[|b| - 1];
      BeOfFromBe(init);
      SplitDigit(FromBe(init), last);
      assert b == init + [last];
    }
  }

  function U64FromBe(b: Bytes): (x: u64)
    requires |b| == 8
    ensures Be(8, x) == b
  {
    BeOfFromBe(b);
    Pow256Values();
    FromBe(b)
  }
}
