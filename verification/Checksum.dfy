// inet_chksum.c: the Internet checksum of RFC 1071, section 2.
module Checksum {
  import opened Wrappers

  type u16 = x: int | 0 <= x < 0x10000
  type u32 = x: int | 0 <= x < 0x1_0000_0000

  // ---------------------------------------------------------------- reference definition

  // Sum of the 16-bit little-endian words of d, a last single byte counting as the low half of a word.
  function WordSum(d: seq<byte>): nat {
    if |d| == 0 then 0
    else if |d| == 1 then d[0]
    else d[0] + 256 * d[1] + WordSum(d[2..])
  }

  lemma WordNext(d: seq<byte>, i: nat)
    requires i + 2 <= |d|
    ensures WordSum(d[i..]) == d[i] as int + 256 * d[i + 1] as int + WordSum(d[i + 2..])
  {
    assert d[i..][2..] == d[i + 2..];
  }

  lemma WordLast(d: seq<byte>, i: nat)
    requires i <= |d| <= i + 1
    ensures WordSum(d[i..]) == if i == |d| then 0 else d[i]
  {
  }

  // The ones'-complement representative of n: 0 for 0, otherwise in 1..0xffff and congruent modulo 0xffff.
  function Canon(n: nat): (r: u16)
    ensures r == 0 <==> n == 0
    ensures n <= 0xffff ==> r == n
  {
    if n <= 0xffff then n else Canon(n - 0xffff)
  }

  lemma {:induction false} CanonIsModulo(n: nat)
    ensures Canon(n) == if n == 0 then 0 else (n - 1) % 0xffff + 1
  {
    if n > 0xffff {
      CanonIsModulo(n - 0xffff);
    }
  }

  function InternetSum(d: seq<byte>): u16 {
    Canon(WordSum(d))
  }

  // ---------------------------------------------------------------- macros

  // FOLD_U32T
  function Fold(u: nat): nat {
    u / 0x10000 + u % 0x10000
  }

  // SWAP_BYTES_IN_WORD, which drops the bits above 16, and lwip_htons on a little-endian host.
  function Swap(w: nat): u16 {
    w % 256 * 256 + w / 256 % 256
  }

  // Assignment to a u32_t.
  function Truncate32(x: nat): (r: u32)
    ensures x < 0x1_0000_0000 ==> r == x
  {
    x % 0x1_0000_0000
  }

  // ---------------------------------------------------------------- arithmetic modulo 0xffff

  lemma {:induction false} CanonAdd(a: nat, b: nat)
    ensures Canon(Canon(a) + b) == Canon(a + b)
  {
    if a > 0xffff {
      CanonAdd(a - 0xffff, b);
    }
  }

  lemma {:induction false} CanonTimes256(a: nat)
    ensures Canon(256 * Canon(a)) == Canon(256 * a)
  {
    if a > 0xffff {
      CanonTimes256(a - 0xffff);
      CanonPlusMultiple(256 * (a - 0xffff), 256);
    }
  }

  lemma {:induction false} CanonPlusMultiple(a: nat, k: nat)
    requires 0 < a
    ensures Canon(a + 0xffff * k) == Canon(a)
  {
    if k > 0 {
      CanonPlusMultiple(a, k - 1);
    }
  }

  // A carry out of the top 16 bits comes back in at the bottom.
  lemma CanonCarry(a: nat, b: nat)
    ensures Canon(a + 0x10000 * b) == Canon(a + b)
  {
    if a + b > 0 {
      CanonPlusMultiple(a + b, b);
    }
  }

  lemma FoldCanon(u: nat)
    ensures Canon(Fold(u)) == Canon(u)
  {
    CanonCarry(u % 0x10000, u / 0x10000);
  }

  lemma SwapCanon(w: u16)
    ensures Swap(w) == Canon(256 * w)
  {
    CanonCarry(256 * (w % 256), w / 256);
  }

  // ---------------------------------------------------------------- sums of concatenations

  // The value of a sum of words that start at the given offset: bytes swapped at an odd offset.
  function At(offset: nat, sum: nat): nat {
    if offset % 2 == 0 then sum else 256 * sum
  }

  lemma {:induction false} WordSumConcat(a: seq<byte>, b: seq<byte>)
    ensures Canon(WordSum(a + b)) == Canon(WordSum(a) + At(|a|, WordSum(b)))
  {
    hide Canon;
    if |a| == 0 {
      assert a + b == b;
    } else if |a| == 1 {
      WordSumOdd(a[0], b);
      assert a + b == [a[0]] + b;
    } else {
      assert (a + b)[2..] == a[2..] + b && |a[2..]| % 2 == |a| % 2;
      WordSumConcat(a[2..], b);
      var w: nat, rest := a[0] as int + 256 * a[1] as int, At(|a|, WordSum(b));
      assert WordSum(a + b) == w + WordSum(a[2..] + b) && WordSum(a) == w + WordSum(a[2..]);
      assert At(|a[2..]|, WordSum(b)) == rest;
      hide WordSum, At;
      CanonAdd(WordSum(a[2..] + b), w);
      CanonAdd(WordSum(a[2..]) + rest, w);
    }
  }

  lemma {:induction false} WordSumOdd(x: byte, b: seq<byte>)
    ensures Canon(WordSum([x] + b)) == Canon(x + 256 * WordSum(b))
    decreases |b|
  {
    hide Canon;
    if |b| == 1 {
      assert WordSum([x] + b) == x as int + 256 * b[0] as int;
    } else if |b| >= 2 {
      assert ([x] + b)[2..] == [b[1]] + b[2..];
      WordSumOdd(b[1], b[2..]);
      var w: nat, rest := x as int + 256 * b[0] as int, WordSum(b[2..]);
      CanonAdd(WordSum([b[1]] + b[2..]), w);
      CanonAdd(b[1] + 256 * rest, w);
      CanonCarry(w + 256 * rest, b[1]);
      assert WordSum([x] + b) == w + WordSum([b[1]] + b[2..]);
      assert x + 256 * WordSum(b) == w + 256 * rest + 0x10000 * b[1] as int;
    }
  }

  lemma {:induction false} WordSumEven(a: seq<byte>, b: seq<byte>)
    requires |a| % 2 == 0
    ensures WordSum(a + b) == WordSum(a) + WordSum(b)
  {
    if a == [] {
      assert a + b == b;
    } else {
      assert (a + b)[2..] == a[2..] + b;
      WordSumEven(a[2..], b);
    }
  }

  lemma {:induction false} WordSumBound(d: seq<byte>)
    ensures 2 * WordSum(d) <= 0xffff * (|d| + 1)
  {
    if |d| >= 2 {
      WordSumBound(d[2..]);
    }
  }

  // ---------------------------------------------------------------- version 1

  // Sum of the 16-bit big-endian words of d.
  function BigEndianSum(d: seq<byte>): nat {
    if |d| == 0 then 0
    else if |d| == 1 then 256 * d[0] as int
    else 256 * d[0] as int + d[1] as int + BigEndianSum(d[2..])
  }

  lemma {:induction false} BigEndianSwaps(d: seq<byte>)
    ensures Canon(BigEndianSum(d)) == Canon(256 * WordSum(d))
  {
    hide Canon;
    if |d| >= 2 {
      BigEndianSwaps(d[2..]);
      var big, little := BigEndianSum(d[2..]), WordSum(d[2..]);
      var w: nat := 256 * d[0] as int + d[1] as int;
      assert BigEndianSum(d) == w + big;
      assert WordSum(d) == d[0] as int + 256 * d[1] as int + little;
      hide BigEndianSum, WordSum;
      CanonAdd(big, w);
      CanonAdd(256 * little, w);
      CanonCarry(256 * d[0] as int + 256 * little, d[1]);
    }
  }

  lemma {:induction false} BigEndianBound(d: seq<byte>)
    ensures 2 * BigEndianSum(d) <= 0xffff * (|d| + 1)
  {
    if |d| >= 2 {
      BigEndianBound(d[2..]);
    }
  }

  lemma BigEndianNext(d: seq<byte>, i: nat)
    requires i + 2 <= |d|
    ensures BigEndianSum(d[i..]) == d[i] as int * 256 + d[i + 1] as int + BigEndianSum(d[i + 2..])
  {
    assert d[i..][2..] == d[i + 2..];
  }

  lemma BigEndianLast(d: seq<byte>, i: nat)
    requires i <= |d| <= i + 1
    ensures BigEndianSum(d[i..]) == if i == |d| then 0 else d[i] as int * 256
  {
  }

  // lwip_standard_chksum, version 1.  The accumulator is 32 bits wide.
  method StandardChksum1(data: seq<byte>) returns (r: u16)
    ensures |data| <= 0x20000 ==> r == InternetSum(data)
  {
    hide BigEndianSum, WordSum, Canon, Swap, Truncate32;
    var acc: u32, octet: nat, len := 0, 0, |data|;
    BigEndianBound(data);
    while len > 1
      invariant 0 <= len && octet + len == |data|
      invariant |data| <= 0x20000 ==> acc as int + BigEndianSum(data[octet..]) == BigEndianSum(data)
    {
      BigEndianNext(data, octet);
      acc := Truncate32(acc as int + (data[octet] as int * 256 + data[octet + 1] as int));
      octet, len := octet + 2, len - 2;
    }
    BigEndianLast(data, octet);
    if len > 0 {
      acc := Truncate32(acc as int + data[octet] as int * 256);
    }
    SwappedBigEndian(data);
    var folded := FoldTo16(acc);
    r := Swap(folded);
  }

  // Folding and swapping the big-endian sum gives the little-endian one.
  lemma SwappedBigEndian(d: seq<byte>)
    ensures Swap(Canon(BigEndianSum(d))) == InternetSum(d)
  {
    hide Canon, BigEndianSum, WordSum;
    BigEndianSwaps(d);
    SwapCanon(Canon(BigEndianSum(d)));
    CanonTimes256(256 * WordSum(d));
    CanonCarry(0, WordSum(d));
  }

  // A second fold only when the first one carries.
  method FoldTo16(u: nat) returns (acc: nat)
    requires u < 0x1_0000_0000
    ensures acc == Canon(u)
  {
    FoldCanon(u);
    FoldCanon(Fold(u));
    acc := Fold(u);
    if acc / 0x10000 != 0 {
      acc := Fold(acc);
    }
  }

  // ---------------------------------------------------------------- versions 2 and 3

  // Both versions collect a leading byte at an odd address and a trailing single byte in a 16-bit t,
  // add t last, fold twice and swap if the address was odd.
  lemma OddStart(d: seq<byte>, sum: nat)
    requires 0 < |d| && Canon(sum) == Canon(256 * d[0] as int + WordSum(d[1..]))
    ensures Swap(Canon(sum)) == InternetSum(d)
  {
    hide Canon, Swap;
    var x, rest: nat := d[0] as int, WordSum(d[1..]);
    SwapCanon(Canon(sum));
    CanonTimes256(256 * x + rest);
    CanonTimes256(sum);
    CanonCarry(256 * rest, x);
    assert [d[0]] + d[1..] == d;
    WordSumOdd(d[0], d[1..]);
  }

  // FOLD_U32T twice brings a 32-bit sum down to 16 bits.
  lemma FoldsTo16(sum: u32)
    ensures Fold(Fold(sum)) <= 0xffff && Fold(Fold(sum)) == Canon(sum)
  {
    FoldCanon(sum);
    FoldCanon(Fold(sum));
  }

  predicate IsEven(address: nat) {
    address % 2 == 0
  }

  predicate DivisibleBy4(address: nat) {
    address % 4 == 0
  }

  lemma TwoOn(a: nat)
    ensures IsEven(a + 2) == IsEven(a)
  {
  }

  lemma FourOn(a: nat)
    ensures DivisibleBy4(a + 4) == DivisibleBy4(a)
  {
  }

  lemma {:induction false} FourIsEven(a: nat)
    requires DivisibleBy4(a)
    ensures IsEven(a)
  {
    if 4 <= a {
      hide IsEven, DivisibleBy4;
      FourBack(a);
      FourIsEven(a - 4);
    }
  }

  // An even address, or the next one, is divisible by 4.
  lemma {:induction false} EvenOrNext(a: nat)
    requires IsEven(a) && !DivisibleBy4(a)
    ensures DivisibleBy4(a + 2)
  {
    if 4 <= a {
      FourBack(a);
      FourOn(a - 2);
      EvenOrNext(a - 4);
    }
  }

  lemma FourBack(a: nat)
    requires 4 <= a
    ensures DivisibleBy4(a - 4) == DivisibleBy4(a) && IsEven(a - 4) == IsEven(a)
  {
    FourOn(a - 4);
    TwoOn(a - 4);
    TwoOn(a - 2);
    hide IsEven, DivisibleBy4;
  }

  lemma OneIsEven(a: nat)
    ensures IsEven(a) || IsEven(a + 1)
  {
  }

  // The 16-bit little-endian word at p, which is read at an even address.
  function Word16(addr: nat, data: seq<byte>, p: nat): (w: u16)
    requires p + 2 <= |data| && IsEven(addr + p)
  {
    data[p] as int + 256 * data[p + 1] as int
  }

  // lwip_standard_chksum, version 2, for data at address addr.
  method StandardChksum2(addr: nat, data: seq<byte>) returns (r: u16)
    ensures |data| <= 0x20000 ==> r == InternetSum(data)
  {
    hide Canon, Fold, Swap, WordSum, Truncate32, IsEven, DivisibleBy4;
    OneIsEven(addr);
    var pb: nat, len, odd := 0, |data|, !IsEven(addr);
    var tLow: nat, tHigh: nat, sum: u32 := 0, 0, 0;
    if odd && len > 0 {
      tHigh := data[pb];
      pb, len := pb + 1, len - 1;
    }
    ghost var body := data[pb..];
    WordSumBound(body);
    while len > 1
      invariant 0 <= len && pb + len == |data| && tHigh < 256 && (1 < len ==> IsEven(addr + pb))
      invariant |data| <= 0x20000 ==> sum as int + WordSum(data[pb..]) == WordSum(body)
    {
      WordNext(data, pb);
      TwoOn(addr + pb);
      sum := Truncate32(sum as int + Word16(addr, data, pb) as int);
      pb, len := pb + 2, len - 2;
    }
    WordLast(data, pb);
    if len > 0 {
      tLow := data[pb];
    }
    sum := Truncate32(sum as int + (tLow + 256 * tHigh));
    FoldsTo16(sum);
    r := Fold(Fold(sum));
    if odd {
      r := Swap(r);
    }
    if |data| <= 0x20000 {
      assert sum as int == WordSum(body) + 256 * tHigh;
      if odd && 0 < |data| {
        OddStart(data, sum);
      } else {
        assert body == data;
        SwapZero();
      }
    }
  }

  // 32-bit addition with the carry added back in.
  function AddCarry(a: u32, b: u32): (r: u32) {
    var tmp := (a + b) % 0x1_0000_0000;
    if tmp < a then tmp + 1 else tmp
  }

  lemma AddCarryCanon(a: u32, b: u32)
    ensures Canon(AddCarry(a, b)) == Canon(a as int + b as int)
  {
    var s: nat := a as int + b as int;
    if s >= 0x1_0000_0000 {
      assert s == AddCarry(a, b) + 0xffff * 0x10001;
      CanonPlusMultiple(AddCarry(a, b), 0x10001);
    }
  }

  // The 32-bit little-endian word at p, which is read at an address divisible by 4.
  function Word32At(addr: nat, data: seq<byte>, p: nat): u32
    requires p + 4 <= |data| && DivisibleBy4(addr + p)
  {
    Word32(data[p..])
  }

  // The 32-bit little-endian word at the head of d.
  function Word32(d: seq<byte>): u32
    requires 4 <= |d|
  {
    d[0] as int + 256 * d[1] as int + 0x10000 * (d[2] as int + 256 * d[3] as int)
  }

  lemma Word32Canon(d: seq<byte>, sum: u32)
    requires 4 <= |d|
    ensures Canon(AddCarry(sum, Word32(d)) + WordSum(d[4..])) == Canon(sum as int + WordSum(d))
  {
    hide AddCarry, Canon;
    var low: nat, high: nat := d[0] as int + 256 * d[1] as int, d[2] as int + 256 * d[3] as int;
    assert d[2..][2..] == d[4..];
    assert WordSum(d) == low + high + WordSum(d[4..]);
    AddCarryCanon(sum, Word32(d));
    CanonAdd(AddCarry(sum, Word32(d)), WordSum(d[4..]));
    CanonAdd(sum as int + Word32(d) as int, WordSum(d[4..]));
    CanonCarry(sum as int + low + WordSum(d[4..]), high);
  }

  // The unrolled inner loop of version 3: 8 bytes at a time from p on, while more than 7 are left.
  method AddLongs(addr: nat, data: seq<byte>, p: nat, sum: u32) returns (p': nat, sum': u32)
    requires p <= |data| && (p + 1 < |data| ==> DivisibleBy4(addr + p))
    ensures p <= p' <= |data| && |data| - p' <= 7 && (p' + 1 < |data| ==> IsEven(addr + p'))
    ensures Canon(sum' as int + WordSum(data[p'..])) == Canon(sum as int + WordSum(data[p..]))
  {
    hide Canon, AddCarry, Word32, WordSum, IsEven, DivisibleBy4;
    p', sum' := p, sum;
    if p + 1 < |data| {
      FourIsEven(addr + p);
    }
    while |data| - p' > 7
      invariant p <= p' <= |data|
      invariant p' + 1 < |data| ==> DivisibleBy4(addr + p') && IsEven(addr + p')
      invariant Canon(sum' as int + WordSum(data[p'..])) == Canon(sum as int + WordSum(data[p..]))
    {
      FourOn(addr + p');
      FourOn(addr + p' + 4);
      FourIsEven(addr + p' + 8);
      Word32Canon(data[p'..], sum');
      assert data[p'..][4..] == data[p' + 4..];
      var tmp := AddCarry(sum', Word32At(addr, data, p'));
      Word32Canon(data[p' + 4..], tmp);
      assert data[p' + 4..][4..] == data[p' + 8..];
      sum' := AddCarry(tmp, Word32At(addr, data, p' + 4));
      p' := p' + 8;
    }
  }

  // The at most 7 bytes behind that loop: 16-bit words, then a single byte.
  method AddTail(addr: nat, data: seq<byte>, p: nat, sum: u32) returns (sum': u32, tLow: nat)
    requires p <= |data| <= p + 7 && sum <= 0x1fffe && (p + 1 < |data| ==> IsEven(addr + p))
    ensures tLow < 256 && sum' <= 0x1fffe + 3 * 0xffff
    ensures sum' as int + tLow == sum as int + WordSum(data[p..])
  {
    hide WordSum, IsEven, DivisibleBy4;
    sum', tLow := sum, 0;
    var i, len, n := p, |data| - p, 0;
    while len > 1
      invariant 0 <= len && p <= i && i + len == |data| && len + 2 * n <= 7 && (1 < len ==> IsEven(addr + i))
      invariant sum' <= 0x1fffe + 0xffff * n
      invariant sum' as int + WordSum(data[i..]) == sum as int + WordSum(data[p..])
    {
      WordNext(data, i);
      TwoOn(addr + i);
      sum' := sum' + Word16(addr, data, i);
      i, len, n := i + 2, len - 2, n + 1;
    }
    WordLast(data, i);
    if len > 0 {
      tLow := data[i];
    }
  }

  // lwip_standard_chksum, version 3: right for every length, since carries out of 32 bits are kept.
  method StandardChksum3(addr: nat, data: seq<byte>) returns (r: u16)
    ensures r == InternetSum(data)
  {
    hide Canon, Fold, Swap, WordSum, IsEven, DivisibleBy4;
    OneIsEven(addr);
    var p: nat, len, odd := 0, |data|, !IsEven(addr);
    var tHigh: nat, sum: u32 := 0, 0;
    if odd && len > 0 {
      tHigh := data[p];
      p, len := p + 1, len - 1;
    }
    ghost var body := data[p..];
    if !DivisibleBy4(addr + p) && len > 1 {
      WordNext(data, p);
      EvenOrNext(addr + p);
      sum := Word16(addr, data, p);
      p, len := p + 2, len - 2;
    }
    assert sum as int + WordSum(data[p..]) == WordSum(body);
    sum := SumRest(addr, data, p, sum, tHigh);
    FoldsTo16(sum);
    r := Fold(Fold(sum));
    if odd {
      r := Swap(r);
    }
    if odd && 0 < |data| {
      OddStart(data, sum);
    } else {
      assert body == data;
      WordLast([], 0);
      SwapZero();
    }
  }

  // The unrolled loop, the tail behind it, and the two bytes that were kept apart.
  method SumRest(addr: nat, data: seq<byte>, p: nat, sum: u32, tHigh: nat) returns (sum': u32)
    requires p <= |data| && tHigh < 256 && (p + 1 < |data| ==> DivisibleBy4(addr + p))
    ensures Canon(sum') == Canon(sum as int + WordSum(data[p..]) + 256 * tHigh)
  {
    hide Canon, Fold, WordSum, IsEven, DivisibleBy4;
    var p', folded, tLow;
    p', sum' := AddLongs(addr, data, p, sum);
    FoldKeepsSum(sum', WordSum(data[p'..]));
    folded, tLow := AddTail(addr, data, p', Fold(sum'));
    CanonAdd(folded as int + tLow, 256 * tHigh);
    CanonAdd(sum as int + WordSum(data[p..]), 256 * tHigh);
    sum' := folded + (tLow + 256 * tHigh);
  }

  lemma SwapZero()
    ensures Swap(0) == 0
  {
  }

  lemma FoldKeepsSum(sum: u32, rest: nat)
    ensures Fold(sum) <= 0x1fffe && Canon(Fold(sum) + rest) == Canon(sum as int + rest)
  {
    FoldCanon(sum);
    CanonAdd(sum, rest);
    CanonAdd(Fold(sum), rest);
  }
}
