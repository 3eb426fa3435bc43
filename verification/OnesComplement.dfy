/** Ones' complement sums: the two checksum functions of tools/ipsend.c and csum16_add of the
    generated data plane. */
module OnesComplement {
  import opened Basics
  import opened Words

  const MAX16: nat := 0xffff

  /** The 16-bit ones' complement sum of numbers that add up to n: zero only for nothing. */
  function OnesSum(n: nat): (r: nat)
    ensures r <= MAX16 && (r == 0 <==> n == 0)
  {
    if n == 0 then 0 else 1 + (n - 1) % MAX16
  }

  /** It is the one value in 1 .. 0xffff that differs from n by a multiple of 0xffff. */
  lemma OnesSumUnique(n: nat, r: nat, k: int)
    requires n > 0 && 1 <= r <= MAX16 && n == r + k * MAX16
    ensures OnesSum(n) == r
  {
    ModUnique(n - 1, MAX16, k, r - 1);
  }

  lemma OnesSumMultiple(n: nat) returns (k: nat)
    ensures n == OnesSum(n) + k * MAX16
  {
    k := if n == 0 then 0 else (n - 1) / MAX16;
  }

  /** Folding the upper half into the lower one keeps the sum and shrinks the number. */
  lemma Fold(n: nat)
    requires n > MAX16
    ensures 0 < n % 0x10000 + n / 0x10000 < n
    ensures OnesSum(n % 0x10000 + n / 0x10000) == OnesSum(n)
  {
    var m := n % 0x10000 + n / 0x10000;
    var k := OnesSumMultiple(m);
    assert n == m + (n / 0x10000) * MAX16;
    assert n == OnesSum(m) + (k + n / 0x10000) * MAX16;
    OnesSumUnique(n, OnesSum(m), k + n / 0x10000);
  }

  lemma SmallSum(n: nat)
    requires n <= MAX16
    ensures OnesSum(n) == n
  {
  }

  /** A partial sum stands for all it was made of. */
  lemma PartialSum(a: nat, b: nat)
    ensures OnesSum(OnesSum(a) + b) == OnesSum(a + b)
  {
    var k := OnesSumMultiple(a);
    var j := OnesSumMultiple(OnesSum(a) + b);
    if a + b > 0 {
      assert a + b == OnesSum(OnesSum(a) + b) + (k + j) * MAX16;
      OnesSumUnique(a + b, OnesSum(OnesSum(a) + b), k + j);
    }
  }

  // ----- csum16_add -----

  method Csum16Add(num1: nat, num2: nat) returns (r: nat)
    requires num1 <= MAX16 && num2 <= MAX16
    ensures r == OnesSum(num1 + num2)
  {
    if num1 == 0 {
      SmallSum(num2);
      return num2;
    }
    var tmp_num: nat := num1 + num2;
    while tmp_num > MAX16
      invariant OnesSum(tmp_num) == OnesSum(num1 + num2)
    {
      Fold(tmp_num);
      tmp_num := tmp_num / 0x10000 + tmp_num % 0x10000;
    }
    SmallSum(tmp_num);
    r := tmp_num;
  }

  /** csum16_add as a function of its arguments: a commutative monoid. */
  function Add(a: nat, b: nat): nat {
    OnesSum(a + b)
  }

  lemma AddIsAMonoid(a: nat, b: nat, c: nat)
    requires a <= MAX16 && b <= MAX16 && c <= MAX16
    ensures Add(Add(a, b), c) == Add(a, Add(b, c)) && Add(a, b) == Add(b, a)
    ensures Add(0, a) == a == Add(a, 0)
  {
    PartialSum(a + b, c);
    PartialSum(b + c, a);
    SmallSum(a);
  }

  // ----- tools/ipsend.c -----

  function Swap(x: nat): (r: nat)
    requires x <= MAX16
    ensures r <= MAX16
  {
    256 * (x % 256) + x / 256
  }

  /** The sums of the 16-bit words in memory as a little-endian host loads them, and in network
      order; an odd last byte counts as the first byte of a word. */
  function HostSum(d: seq<byte>): nat {
    if d == [] then 0
    else if |d| == 1 then d[0] as nat
    else d[0] as nat + 256 * (d[1] as nat) + HostSum(d[2..])
  }

  function NetSum(d: seq<byte>): nat {
    if d == [] then 0
    else if |d| == 1 then 256 * (d[0] as nat)
    else 256 * (d[0] as nat) + d[1] as nat + NetSum(d[2..])
  }

  /** uint32_t addition. */
  function Add32(a: nat, b: nat): nat {
    (a + b) % 0x1_0000_0000
  }

  /** checksum: carries are kept until bit 31 is set, then folded. No addition wraps. */
  method Checksum(d: seq<byte>) returns (answer: nat)
    ensures answer == MAX16 - OnesSum(HostSum(d))
  {
    hide OnesSum, HostSum, Add32;
    var count, sum: nat, addr := |d|, 0, 0;
    while count > 1
      invariant 0 <= count && addr + count == |d| && sum < 0x8000_0000
      invariant OnesSum(sum + HostSum(d[addr..])) == OnesSum(HostSum(d))
    {
      var word := d[addr] as nat + 256 * (d[addr + 1] as nat);
      HostSumStep(d, addr, sum);
      NoWrap(sum, word);
      sum := Add32(sum, word);
      addr := addr + 2;
      if sum >= 0x8000_0000 {
        FoldPartial(sum, HostSum(d[addr..]));
        sum := sum % 0x10000 + sum / 0x10000;
      }
      count := count - 2;
    }
    if count > 0 {
      ShortSums(d, addr);
      NoWrap(sum, d[addr] as nat);
      sum := Add32(sum, d[addr] as nat);
    } else {
      ShortSums(d, addr);
    }
    while sum >= 0x10000
      invariant 0 <= sum < 0x1_0000_0000 && OnesSum(sum) == OnesSum(HostSum(d))
    {
      Fold(sum);
      sum := sum % 0x10000 + sum / 0x10000;
    }
    SmallSum(sum);
    answer := MAX16 - sum;
  }

  lemma NoWrap(a: nat, b: nat)
    requires a + b < 0x1_0000_0000
    ensures Add32(a, b) == a + b
  {
  }

  lemma ShortSums(d: seq<byte>, addr: nat)
    requires addr <= |d| <= addr + 1
    ensures HostSum(d[addr..]) == if addr < |d| then d[addr] as nat else 0
    ensures NetSum(d[addr..]) == if addr < |d| then 256 * (d[addr] as nat) else 0
  {
  }

  lemma HostSumStep(d: seq<byte>, addr: nat, sum: nat)
    requires addr + 2 <= |d|
    ensures sum + HostSum(d[addr..]) == (sum + (d[addr] as nat + 256 * (d[addr + 1] as nat))) + HostSum(d[addr + 2..])
  {
    assert d[addr..][2..] == d[addr + 2..];
  }

  lemma FoldPartial(sum: nat, rest: nat)
    requires sum > MAX16
    ensures OnesSum((sum % 0x10000 + sum / 0x10000) + rest) == OnesSum(sum + rest)
  {
    Fold(sum);
    PartialSum(sum, rest);
    PartialSum(sum % 0x10000 + sum / 0x10000, rest);
  }

  /** ip_checksum: every carry is folded at once, words are in network order. */
  method IpChecksum(d: seq<byte>) returns (answer: nat)
    ensures answer == Swap(MAX16 - OnesSum(MAX16 + NetSum(d)))
  {
    hide OnesSum, NetSum, Add32, Swap;
    var acc: nat, i: nat := MAX16, 0;
    while i + 1 < |d|
      invariant i <= |d| && 0 < acc <= MAX16 && i % 2 == 0
      invariant OnesSum(acc + NetSum(d[i..])) == OnesSum(MAX16 + NetSum(d))
    {
      var word := 256 * (d[i] as nat) + d[i + 1] as nat;
      NetSumStep(d, i, acc);
      NoWrap(acc, word);
      acc := Add32(acc, word);
      if acc > MAX16 {
        Carry(acc, NetSum(d[i + 2..]));
        acc := acc - MAX16;
      }
      i := i + 2;
    }
    ShortSums(d, i);
    if |d| % 2 == 1 {
      NoWrap(acc, 256 * (d[|d| - 1] as nat));
      acc := Add32(acc, 256 * (d[|d| - 1] as nat));
      if acc > MAX16 {
        Carry(acc, 0);
        acc := acc - MAX16;
      }
    }
    SmallSum(acc);
    answer := Swap(MAX16 - acc);
  }

  lemma NetSumStep(d: seq<byte>, i: nat, acc: nat)
    requires i + 2 <= |d|
    ensures acc + NetSum(d[i..]) == acc + (256 * (d[i] as nat) + d[i + 1] as nat) + NetSum(d[i + 2..])
  {
    assert d[i..][2..] == d[i + 2..];
  }

  lemma Carry(acc: nat, rest: nat)
    requires acc > MAX16
    ensures OnesSum(acc - MAX16 + rest) == OnesSum(acc + rest)
  {
    var k := OnesSumMultiple(acc - MAX16 + rest);
    OnesSumUnique(acc + rest, OnesSum(acc - MAX16 + rest), k + 1);
  }

  // ----- the sum is a remainder -----

  /** The data as one little-endian number. */
  function NumberOf(d: seq<byte>): nat {
    if d == [] then 0 else d[0] as nat + 256 * NumberOf(d[1..])
  }

  /** 65536 is 1 modulo 0xffff, so each word counts the same wherever it stands. */
  lemma {:induction false} NumberIsSum(d: seq<byte>) returns (k: nat)
    ensures NumberOf(d) == HostSum(d) + k * MAX16
  {
    if |d| <= 1 {
      assert |d| == 1 ==> NumberOf(d[1..]) == 0;
      k := 0;
    } else {
      var j := NumberIsSum(d[2..]);
      assert d[1..][1..] == d[2..];
      k := j + NumberOf(d[2..]);
    }
  }

  /** The checksum depends on the whole of the data: its sum is the data as a number, reduced to the one
      value in 1 .. 0xffff that differs by a multiple of 0xffff (or zero for data that is all zero). */
  lemma SumIsRemainder(d: seq<byte>)
    ensures OnesSum(HostSum(d)) == OnesSum(NumberOf(d))
    ensures OnesSum(HostSum(d)) % MAX16 == NumberOf(d) % MAX16
  {
    var k := NumberIsSum(d);
    SumIsZero(d);
    NumberIsZero(d);
    var j := OnesSumMultiple(HostSum(d));
    if HostSum(d) > 0 {
      OnesSumUnique(NumberOf(d), OnesSum(HostSum(d)), j + k);
    }
    Remainder(NumberOf(d), OnesSum(HostSum(d)), j + k);
  }

  lemma Remainder(n: nat, r: nat, k: int)
    requires n == r + k * MAX16
    ensures r % MAX16 == n % MAX16
  {
  }

  lemma {:induction false} NumberIsZero(d: seq<byte>)
    ensures NumberOf(d) == 0 <==> forall b :: b in d ==> b == 0
  {
    if d != [] {
      NumberIsZero(d[1..]);
      assert d == [d[0]] + d[1..] && d[0] in d;
      assert forall b :: b in d <==> b == d[0] || b in d[1..];
    }
  }

  // ----- the two functions agree -----

  /** A byte swap multiplies by 256 modulo 0xffff. */
  lemma {:induction false} SumsAreSwapped(d: seq<byte>) returns (k: int)
    ensures 256 * NetSum(d) == HostSum(d) + k * MAX16
  {
    if |d| == 0 {
      k := 0;
    } else if |d| == 1 {
      k := d[0] as int;
    } else {
      var j := SumsAreSwapped(d[2..]);
      k := d[0] as int + j;
    }
  }

  lemma SwapMultiplies(x: nat)
    requires x <= MAX16
    ensures 256 * x == Swap(x) + (x / 256) * MAX16
    ensures Swap(MAX16 - x) == MAX16 - Swap(x)
  {
  }

  lemma {:induction false} SumIsZero(d: seq<byte>)
    ensures HostSum(d) == 0 <==> forall b :: b in d ==> b == 0
  {
    if |d| >= 2 {
      SumIsZero(d[2..]);
      assert d == [d[0], d[1]] + d[2..] && d[0] in d && d[1] in d;
      assert forall b :: b in d <==> b == d[0] || b == d[1] || b in d[2..];
    } else if |d| == 1 {
      assert d == [d[0]] && d[0] in d;
    }
  }

  /** checksum and ip_checksum return the same value for exactly the data that is not all zero. */
  lemma ChecksumsAgreeIff(d: seq<byte>)
    ensures MAX16 - OnesSum(HostSum(d)) == Swap(MAX16 - OnesSum(MAX16 + NetSum(d))) <==> exists b :: b in d && b != 0
  {
    SumIsZero(d);
    var acc := OnesSum(MAX16 + NetSum(d));
    SwapMultiplies(acc);
    var k := OnesSumMultiple(MAX16 + NetSum(d));
    var j := SumsAreSwapped(d);
    if HostSum(d) > 0 {
      assert HostSum(d) == Swap(acc) + (acc / 256 + 256 * k - 256 - j) * MAX16;
      OnesSumUnique(HostSum(d), Swap(acc), acc / 256 + 256 * k - 256 - j);
    } else {
      assert Swap(acc) > 0;
    }
  }

  /** Data followed by its own checksum checks to zero, which is how a receiver tests it. */
  lemma ChecksumVerifies(d: seq<byte>, c: seq<byte>)
    requires |d| % 2 == 0 && |c| == 2 && c[0] as nat + 256 * (c[1] as nat) == MAX16 - OnesSum(HostSum(d))
    ensures OnesSum(HostSum(d + c)) == MAX16
  {
    HostSumAppend(d, c);
    var k := OnesSumMultiple(HostSum(d));
    OnesSumUnique(HostSum(d + c), MAX16, k);
  }

  lemma {:induction false} HostSumAppend(d: seq<byte>, c: seq<byte>)
    requires |d| % 2 == 0
    ensures HostSum(d + c) == HostSum(d) + HostSum(c)
  {
    if d == [] {
      assert d + c == c;
    } else {
      assert (d + c)[2..] == d[2..] + c;
      HostSumAppend(d[2..], c);
    }
  }
}
