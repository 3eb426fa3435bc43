/** Fixed-width machine words. A C `uint8_t` or `uint32_t` is the sequence of its bits,
    least significant first, so that masks and shifts are statements about positions;
    `Nat` gives the unsigned value when arithmetic is needed. */
module Words {

  type Byte = b: seq<bool> | |b| == 8 witness [false, false, false, false, false, false, false, false]

  const ZERO_BYTE: Byte := [false, false, false, false, false, false, false, false]

  type Word = w: seq<bool> | |w| == 32 witness seq(32, _ => false)

  // ----- the C operators on uint32_t -----

  function And(x: Word, y: Word): Word {
    seq(32, i requires 0 <= i < 32 => x[i] && y[i])
  }

  function Or(x: Word, y: Word): Word {
    seq(32, i requires 0 <= i < 32 => x[i] || y[i])
  }

  function Not(x: Word): Word {
    seq(32, i requires 0 <= i < 32 => !x[i])
  }

  /** x << n; bits leaving at the top are lost. */
  function Shl(x: Word, n: nat): Word {
    seq(32, i requires 0 <= i < 32 => i >= n && x[i - n])
  }

  /** x >> n on an unsigned operand. */
  function Shr(x: Word, n: nat): Word {
    seq(32, i requires 0 <= i < 32 => i + n < 32 && x[i + n])
  }

  /** The constant with ones exactly at positions lo .. hi-1, such as 0xff00 for (8, 16). */
  function Ones(lo: nat, hi: nat): Word {
    seq(32, i requires 0 <= i < 32 => lo <= i < hi)
  }

  /** A position counted in network order (byte by byte, most significant bit first) and the
      position of the same bit in a little-endian load; the map is its own inverse. */
  function Flip(q: nat): (i: nat)
    ensures i / 8 == q / 8 && i % 8 == 7 - q % 8
  {
    8 * (q / 8) + 7 - q % 8
  }

  lemma FlipTwice(q: nat)
    ensures Flip(Flip(q)) == q
  {
  }

  lemma FlipStaysInByte(q: nat, n: nat)
    ensures q < 8 * n <==> Flip(q) < 8 * n
  {
    hide Flip;
    var i := Flip(q);
    assert q < 8 * n <==> q / 8 < n;
    assert i < 8 * n <==> i / 8 < n;
  }

  /** odp_cpu_to_be_16 and odp_be_to_cpu_16 on a little-endian host: the argument is narrowed
      to 16 bits and its two bytes trade places. */
  function Swap16(x: Word): Word {
    seq(32, i requires 0 <= i < 32 => i < 16 && x[8 - 8 * (i / 8) + i % 8])
  }

  /** odp_cpu_to_be_32 and odp_be_to_cpu_32 on a little-endian host. */
  function Swap32(x: Word): Word {
    seq(32, i requires 0 <= i < 32 => x[24 - 8 * (i / 8) + i % 8])
  }

  /** Counted in network order, a byte swap only reverses the count. */
  lemma Swap16At(x: Word, t: nat)
    requires t < 16
    ensures Swap16(x)[t] == x[Flip(15 - t)]
  {
  }

  lemma Swap32At(x: Word, t: nat)
    requires t < 32
    ensures Swap32(x)[t] == x[Flip(31 - t)]
  {
  }

  /** The w low bits of x, the rest cleared. */
  function Low(x: Word, w: nat): Word {
    And(x, Ones(0, w))
  }

  lemma LowAt(x: Word, w: nat, k: nat)
    requires k < 32
    ensures Low(x, w)[k] == (k < w && x[k])
  {
  }

  lemma LowTwice(x: Word, w: nat)
    ensures Low(Low(x, w), w) == Low(x, w)
  {
  }

  const ZERO: Word := Ones(0, 0)

  lemma LowOfZero(w: nat)
    ensures Low(ZERO, w) == ZERO
  {
  }

  // ----- unsigned values -----

  function Pow2(n: nat): (p: nat)
    ensures p >= 1
  {
    if n == 0 then 1 else 2 * Pow2(n - 1)
  }

  function Nat(s: seq<bool>): (n: nat)
    ensures n < Pow2(|s|)
  {
    if |s| == 0 then 0 else (if s[0] then 1 else 0) + 2 * Nat(s[1..])
  }

  function Bits(n: nat, len: nat): (s: seq<bool>)
    ensures |s| == len
  {
    if len == 0 then [] else [n % 2 == 1] + Bits(n / 2, len - 1)
  }

  /** Conversion of a value to uint32_t. */
  function ToWord(n: nat): Word {
    Bits(n, 32)
  }

  lemma {:induction false} Pow2Add(m: nat, n: nat)
    ensures Pow2(m + n) == Pow2(m) * Pow2(n)
  {
    if m == 0 {
    } else {
      Pow2Add(m - 1, n);
      calc {
        Pow2(m + n);
        2 * Pow2(m - 1 + n);
        2 * (Pow2(m - 1) * Pow2(n));
        (2 * Pow2(m - 1)) * Pow2(n);
        Pow2(m) * Pow2(n);
      }
    }
  }

  lemma PowersOfTwo()
    ensures Pow2(8) == 0x100 && Pow2(16) == 0x10000 && Pow2(32) == 0x1_0000_0000
  {
    assert Pow2(4) == 16;
    Pow2Add(4, 4);
    Pow2Add(8, 8);
    Pow2Add(16, 16);
  }

  /** n mod 2m in terms of n/2 mod m, the step of every positional argument below. */
  lemma ModDouble(n: nat, m: nat)
    requires m >= 1
    ensures n % (2 * m) == n % 2 + 2 * ((n / 2) % m)
  {
    var q, r := (n / 2) / m, (n / 2) % m;
    assert n == 2 * (q * m + r) + n % 2;
    assert n == q * (2 * m) + (2 * r + n % 2);
    ModUnique(n, 2 * m, q, 2 * r + n % 2);
  }

  /** A nonzero multiple of m lies at distance at least m from zero. */
  lemma MultipleMagnitude(k: int, m: nat)
    ensures k >= 1 ==> k * m >= m
    ensures k <= -1 ==> k * m + m <= 0
  {
    if k >= 1 {
      NonNegativeProduct(k - 1, m);
      assert k * m == (k - 1) * m + m;
    } else if k <= -1 {
      NonNegativeProduct(-k - 1, m);
      assert k * m == -((-k - 1) * m) - m;
    }
  }

  lemma NonNegativeProduct(a: nat, b: nat)
    ensures a * b >= 0
  {
  }

  /** The remainder is the only number in range that differs by a multiple. */
  lemma ModUnique(n: int, m: nat, q: int, r: int)
    requires m >= 1 && n == q * m + r && 0 <= r < m
    ensures n % m == r && n / m == q
  {
    var q', r' := n / m, n % m;
    assert (q - q') * m == r' - r by {
      assert n == q' * m + r';
    }
    MultipleMagnitude(q - q', m);
  }

  /** Converting to `len` bits reduces modulo 2^len. */
  lemma {:induction false} NatOfBits(n: nat, len: nat)
    ensures Nat(Bits(n, len)) == n % Pow2(len)
  {
    if len == 0 {
    } else {
      NatOfBits(n / 2, len - 1);
      assert Bits(n, len)[1..] == Bits(n / 2, len - 1);
      ModDouble(n, Pow2(len - 1));
    }
  }

  /** Keeping the w low bits of a bit string reduces its value modulo 2^w. */
  lemma {:induction false} NatOfPrefix(s: seq<bool>, w: nat)
    requires w <= |s|
    ensures Nat(s[..w]) == Nat(s) % Pow2(w)
  {
    if w == 0 {
    } else {
      NatOfPrefix(s[1..], w - 1);
      assert s[..w][1..] == s[1..][..w - 1];
      var n := Nat(s[1..]);
      var b := if s[0] then 1 else 0;
      assert Nat(s) / 2 == n && Nat(s) % 2 == b;
      ModDouble(Nat(s), Pow2(w - 1));
      assert Nat(s[..w]) == b + 2 * (n % Pow2(w - 1));
    }
  }

  lemma {:induction false} NatInjective(s: seq<bool>, t: seq<bool>)
    requires |s| == |t| && Nat(s) == Nat(t)
    ensures s == t
  {
    if |s| == 0 {
    } else {
      assert Nat(s) % 2 == (if s[0] then 1 else 0) && Nat(t) % 2 == (if t[0] then 1 else 0);
      NatInjective(s[1..], t[1..]);
      assert s == [s[0]] + s[1..] && t == [t[0]] + t[1..];
    }
  }

  lemma {:induction false} NatOfZeros(s: seq<bool>)
    requires forall i :: 0 <= i < |s| ==> !s[i]
    ensures Nat(s) == 0
  {
    if |s| > 0 {
      NatOfZeros(s[1..]);
    }
  }

  lemma {:induction false} NatOfPadded(s: seq<bool>, t: seq<bool>)
    requires forall i :: 0 <= i < |t| ==> !t[i]
    ensures Nat(s + t) == Nat(s)
  {
    if |s| == 0 {
      assert s + t == t;
      NatOfZeros(t);
    } else {
      NatOfPadded(s[1..], t);
      assert (s + t)[1..] == s[1..] + t;
    }
  }

  lemma {:induction false} NatOfConcat(s: seq<bool>, t: seq<bool>)
    ensures Nat(s + t) == Nat(s) + Pow2(|s|) * Nat(t)
  {
    if |s| == 0 {
      assert s + t == t;
    } else {
      NatOfConcat(s[1..], t);
      assert (s + t)[1..] == s[1..] + t && (s + t)[0] == s[0];
      DoubledSum(if s[0] then 1 else 0, Nat(s[1..]), Pow2(|s| - 1), Nat(t));
    }
  }

  lemma DoubledSum(b: nat, n: nat, p: nat, t: nat)
    ensures b + 2 * (n + p * t) == (b + 2 * n) + (2 * p) * t
  {
  }

  /** Masking with the w low ones reduces a word modulo 2^w. */
  lemma NatOfLow(x: Word, w: nat)
    requires w <= 32
    ensures Nat(Low(x, w)) == Nat(x) % Pow2(w)
  {
    var pad := seq(32 - w, _ => false);
    assert Low(x, w) == x[..w] + pad;
    NatOfPadded(x[..w], pad);
    NatOfPrefix(x, w);
  }

  lemma NatOfZero()
    ensures Nat(ZERO) == 0 && ToWord(0) == ZERO
  {
    NatOfZeros(ZERO);
    WordOfNat(ZERO);
  }

  lemma WordOfNat(x: Word)
    ensures ToWord(Nat(x)) == x
  {
    NatOfBits(Nat(x), 32);
    ModUnique(Nat(x), Pow2(32), 0, Nat(x));
    NatInjective(ToWord(Nat(x)), x);
  }
}
