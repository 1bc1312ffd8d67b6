// inet_chksum.c: checksums over pbuf chains and pseudo headers.
module ChecksumPbuf {
  import opened Checksum
  import opened Wrappers

  // A pbuf: where its payload starts and the payload; len is u16_t.
  datatype Pbuf = Pbuf(addr: nat, payload: seq<byte>) {
    ghost predicate Valid() {
      |payload| <= 0xffff
    }
  }

  ghost predicate ValidChain(p: seq<Pbuf>) {
    forall q :: q in p ==> q.Valid()
  }

  function Payloads(p: seq<Pbuf>): (r: seq<seq<byte>>)
    ensures |r| == |p|
  {
    seq(|p|, i requires 0 <= i < |p| => p[i].payload)
  }

  // The data of a chain as one byte sequence.
  function Data(p: seq<Pbuf>): seq<byte> {
    Flat(Payloads(p))
  }

  lemma DataNext(p: seq<Pbuf>, i: nat)
    requires i < |p|
    ensures Data(p[..i + 1]) == Data(p[..i]) + p[i].payload
  {
    FlatStep(Payloads(p), i);
    assert Payloads(p[..i + 1]) == Payloads(p)[..i + 1] && Payloads(p[..i]) == Payloads(p)[..i];
  }

  lemma DataPrefix(p: seq<Pbuf>, q: nat)
    requires q <= |p|
    ensures Data(p[..q]) <= Data(p)
  {
    FlatPrefix(Payloads(p), q);
    assert Payloads(p[..q]) == Payloads(p)[..q];
  }

  // ~acc on 16 bits
  function Invert(acc: u16): u16 {
    0xffff - acc
  }

  // The accumulator holds a sum x with its bytes swapped while an odd number of bytes was summed.
  function Weigh(swapped: bool, x: nat): nat {
    if swapped then 256 * x else x
  }

  lemma SwapWeighed(swapped: bool, x: nat)
    ensures Swap(Canon(Weigh(swapped, x))) == Canon(Weigh(!swapped, x))
  {
    hide Canon, Swap;
    SwapCanon(Canon(Weigh(swapped, x)));
    CanonTimes256(Weigh(swapped, x));
    CanonCarry(0, x);
  }

  // Adding the sum of more to that of done, when done ends at an even or odd offset.
  lemma SumOfBoth(base: nat, done: seq<byte>, more: seq<byte>)
    ensures Canon(base + WordSum(done + more)) == Canon(base + WordSum(done) + At(|done|, WordSum(more)))
  {
    hide Canon, WordSum, At;
    WordSumConcat(done, more);
    CanonAdd(WordSum(done + more), base);
    CanonAdd(WordSum(done) + At(|done|, WordSum(more)), base);
  }

  lemma AddWeighed(swapped: bool, s: nat, m: nat)
    ensures Canon(Canon(Weigh(swapped, s)) as int + Canon(m) as int)
         == Canon(Weigh(swapped, s + (if swapped then 256 * m else m)))
  {
    hide Canon;
    CanonAdd(Weigh(swapped, s), Canon(m));
    CanonAdd(m, Weigh(swapped, s));
    CanonCarry(256 * s, m);
  }

  // FOLD_U32T once is enough for the sum of two 16-bit numbers.
  lemma FoldOnce(u: nat)
    requires u <= 0x1fffe
    ensures Fold(u) == Canon(u)
  {
    FoldCanon(u);
  }

  // One round of the summing loops: done was summed before, this pbuf adds more.
  lemma ChainStep(swapped: bool, base: nat, done: seq<byte>, more: seq<byte>)
    requires swapped == (|done| % 2 != 0)
    ensures Fold(Canon(Weigh(swapped, base + WordSum(done))) as int + InternetSum(more) as int)
         == Canon(Weigh(swapped, base + WordSum(done + more)))
  {
    hide Canon, WordSum, Fold;
    var s, m := base + WordSum(done), WordSum(more);
    FoldOnce(Canon(Weigh(swapped, s)) as int + InternetSum(more) as int);
    AddWeighed(swapped, s, m);
    SumOfBoth(base, done, more);
    CanonTimes256(base + WordSum(done + more));
    CanonTimes256(s + At(|done|, m));
  }

  // One round of the loops over a chain: the first len bytes of a pbuf are added to those summed before.
  method AddPbuf(q: Pbuf, len: nat, swapped: bool, acc: u16, ghost base: nat, ghost done: seq<byte>)
    returns (swapped': bool, acc': u16)
    requires q.Valid() && len <= |q.payload| && swapped == (|done| % 2 != 0)
    requires acc == Canon(Weigh(swapped, base + WordSum(done)))
    ensures swapped' == (swapped != (|q.payload| % 2 != 0))
    ensures acc' == Canon(Weigh(swapped', base + WordSum(done + q.payload[..len])))
  {
    hide Canon, Fold, Swap, Weigh, WordSum;
    var chksum := StandardChksum2(q.addr, q.payload[..len]);
    ChainStep(swapped, base, done, q.payload[..len]);
    swapped', acc' := swapped, Fold(acc as int + chksum as int);
    if |q.payload| % 2 != 0 {
      SwapWeighed(swapped, base + WordSum(done + q.payload[..len]));
      swapped', acc' := !swapped, Swap(acc');
    }
  }

  // The loop of inet_chksum_pbuf and of inet_cksum_pseudo_base, from acc on.
  method SumChain(p: seq<Pbuf>, acc: u16) returns (sum: u16)
    requires ValidChain(p)
    ensures sum == Canon(acc as int + WordSum(Data(p)))
  {
    hide Canon, Swap, Weigh, WordSum, Data;
    var swapped := false;
    sum := acc;
    NothingSummed(acc);
    for i := 0 to |p|
      invariant swapped == (|Data(p[..i])| % 2 != 0)
      invariant sum == Canon(Weigh(swapped, acc as int + WordSum(Data(p[..i]))))
    {
      DataNext(p, i);
      assert p[i] in p && p[i].payload[..|p[i].payload|] == p[i].payload;
      swapped, sum := AddPbuf(p[i], |p[i].payload|, swapped, sum, acc, Data(p[..i]));
    }
    assert p[..|p|] == p;
    if swapped {
      SwapWeighed(swapped, acc as int + WordSum(Data(p)));
      sum := Swap(sum);
    }
    Unweighed(acc as int + WordSum(Data(p)));
  }

  lemma NothingSummed(acc: u16)
    ensures acc == Canon(Weigh(false, acc as int + WordSum([]))) && Data([]) == []
  {
  }

  lemma Unweighed(x: nat)
    ensures Weigh(false, x) == x
  {
  }

  // inet_chksum
  method InetChksum(addr: nat, data: seq<byte>) returns (r: u16)
    requires |data| <= 0xffff
    ensures r == Invert(InternetSum(data))
  {
    var sum := StandardChksum2(addr, data);
    r := Invert(sum);
  }

  // inet_chksum_pbuf: the checksum of the chain is that of its data in one piece.
  method InetChksumPbuf(p: seq<Pbuf>) returns (r: u16)
    requires ValidChain(p)
    ensures r == Invert(InternetSum(Data(p)))
  {
    var sum := SumChain(p, 0);
    r := Invert(sum);
  }

  // ---------------------------------------------------------------- pseudo headers

  type Ip4 = a: seq<byte> | |a| == 4 witness [0, 0, 0, 0]

  // The pseudo header of RFC 768 and of RFC 793, section 3.1: addresses, zero, protocol, length.
  function PseudoHeader(src: Ip4, dest: Ip4, proto: byte, protoLen: u16): seq<byte> {
    src + dest + [0, proto, protoLen / 256, protoLen % 256]
  }

  function Word(low: byte, high: byte): u16 {
    low as int + 256 * high as int
  }

  lemma WordSumFour(d: seq<byte>)
    requires |d| == 4
    ensures WordSum(d) == Word(d[0], d[1]) as int + Word(d[2], d[3]) as int
  {
    var e := d[2..];
    assert WordSum(e) == Word(e[0], e[1]) as int + WordSum(e[2..]) && e[2..] == [];
  }

  // An address as the u32 that ip4_addr_get_u32 reads from memory.
  function AddrU32(a: Ip4): u32 {
    Word(a[0], a[1]) as int + 0x10000 * Word(a[2], a[3]) as int
  }

  lemma AddrHalves(a: Ip4)
    ensures AddrU32(a) % 0x10000 + AddrU32(a) / 0x10000 % 0x10000 == WordSum(a)
  {
    hide Word;
    Halves(Word(a[0], a[1]), Word(a[2], a[3]));
    WordSumFour(a);
  }

  lemma Halves(low: u16, high: u16)
    ensures var u := low as int + 0x10000 * high as int; u % 0x10000 == low && u / 0x10000 == high
  {
  }

  // The head of inet_chksum_pseudo and inet_chksum_pseudo_partial.
  function AddrSum(src: Ip4, dest: Ip4): nat {
    var s, d := AddrU32(src), AddrU32(dest);
    Fold(Fold(s % 0x10000 + s / 0x10000 % 0x10000 + (d % 0x10000 + d / 0x10000 % 0x10000)))
  }

  lemma AddrSumCanon(src: Ip4, dest: Ip4)
    ensures AddrSum(src, dest) == Canon(WordSum(src + dest))
  {
    hide Canon, Fold, AddrU32, WordSum;
    AddrHalves(src);
    AddrHalves(dest);
    WordSumEven(src, dest);
    FoldsTo16(WordSum(src + dest));
  }

  // The tail of inet_cksum_pseudo_base and its partial version.
  function ProtoSum(acc: u16, proto: byte, protoLen: u16): nat {
    0xffff - Fold(Fold(acc as int + Swap(proto) as int + Swap(protoLen) as int)) % 0x10000
  }

  lemma ProtoSumIsChecksum(src: Ip4, dest: Ip4, proto: byte, protoLen: u16, payload: seq<byte>)
    ensures ProtoSum(Canon(AddrSum(src, dest) + WordSum(payload)), proto, protoLen)
         == Invert(InternetSum(PseudoHeader(src, dest, proto, protoLen) + payload))
  {
    hide Canon, Fold, WordSum, AddrSum, AddrU32;
    var last := [0, proto, protoLen / 256, protoLen % 256];
    var p: nat := Swap(proto) as int + Swap(protoLen) as int;
    SwappedWords(proto, protoLen);
    hide Swap, Word;
    WordSumEven(src + dest + last, payload);
    WordSumEven(src + dest, last);
    AddrSumCanon(src, dest);
    CanonAdd(WordSum(src + dest), WordSum(payload));
    CanonAdd(WordSum(src + dest) + WordSum(payload), p);
    FoldsTo16(Canon(AddrSum(src, dest) + WordSum(payload)) as int + p);
  }

  lemma SwappedWords(proto: byte, protoLen: u16)
    ensures WordSum([0, proto, protoLen / 256, protoLen % 256]) == Swap(proto) as int + Swap(protoLen) as int
  {
    WordSumFour([0, proto, protoLen / 256, protoLen % 256]);
  }

  // inet_chksum_pseudo: the checksum of pseudo header and payload in one piece.
  method InetChksumPseudo(p: seq<Pbuf>, proto: byte, protoLen: u16, src: Ip4, dest: Ip4) returns (r: u16)
    requires ValidChain(p)
    ensures r == Invert(InternetSum(PseudoHeader(src, dest, proto, protoLen) + Data(p)))
  {
    hide Canon, ProtoSum, WordSum, AddrSum, PseudoHeader;
    AddrSumCanon(src, dest);
    var acc := SumChain(p, AddrSum(src, dest));
    ProtoSumIsChecksum(src, dest, proto, protoLen, Data(p));
    r := ProtoSum(acc, proto, protoLen);
  }

  // The "delete me" assertion of inet_cksum_pseudo_partial_base, which is tested after every pbuf,
  // holds exactly if the first pbuf leaves less than 0x7fff bytes to sum.
  ghost predicate PartialAsserts(p: seq<Pbuf>, chksumLen: u16) {
    chksumLen == 0 || p == [] || chksumLen - Min(|p[0].payload|, chksumLen) < 0x7fff
  }

  // The loop of inet_cksum_pseudo_partial_base, from base on.
  method SumPrefix(p: seq<Pbuf>, base: u16, chksumLen: u16) returns (acc: u16, asserted: bool)
    requires ValidChain(p)
    ensures acc == Canon(base as int + WordSum(Data(p)[..Min(chksumLen, |Data(p)|)]))
    ensures asserted <==> PartialAsserts(p, chksumLen)
  {
    hide Canon, WordSum, Swap, Weigh, Data;
    var swapped, left, q := false, chksumLen as int, 0;
    acc, asserted := base, true;
    ghost var done: seq<byte> := [];
    NothingSummed(base);
    while q < |p| && left > 0
      invariant q <= |p| && 0 <= left && |done| + left == chksumLen
      invariant done <= Data(p[..q]) && (left > 0 ==> done == Data(p[..q]) && swapped == (|done| % 2 != 0))
      invariant acc == Canon(Weigh(swapped, base as int + WordSum(done)))
      invariant 0 < q ==> left <= chksumLen - Min(|p[0].payload|, chksumLen)
      invariant asserted <==> (q == 0 || PartialAsserts(p, chksumLen))
    {
      DataNext(p, q);
      assert p[q] in p;
      var chklen := Min(|p[q].payload|, left);
      swapped, acc := AddPbuf(p[q], chklen, swapped, acc, base, done);
      left := left - chklen;
      asserted := asserted && left < 0x7fff;
      done := done + p[q].payload[..chklen];
      q := q + 1;
    }
    if swapped {
      SwapWeighed(swapped, base as int + WordSum(done));
      acc := Swap(acc);
    }
    Unweighed(base as int + WordSum(done));
    DataPrefix(p, q);
    assert p[..|p|] == p;
    assert done == Data(p)[..Min(chksumLen, |Data(p)|)];
  }

  // A first pbuf of one byte in front of 0x7fff more: the assertion fails.
  method PartialAssertFails(src: Ip4, dest: Ip4) returns (r: u16, asserted: bool)
    ensures !asserted
  {
    var p := [Pbuf(0, [0]), Pbuf(0, seq(0x7fff, i => 0))];
    r, asserted := InetChksumPseudoPartial(p, 6, 0x8000, 0x8000, src, dest);
  }

  // inet_chksum_pseudo_partial: the same over the first chksumLen bytes of the chain only.
  method InetChksumPseudoPartial(p: seq<Pbuf>, proto: byte, protoLen: u16, chksumLen: u16, src: Ip4, dest: Ip4)
    returns (r: u16, asserted: bool)
    requires ValidChain(p)
    ensures r == Invert(InternetSum(PseudoHeader(src, dest, proto, protoLen) + Data(p)[..Min(chksumLen, |Data(p)|)]))
    ensures asserted <==> PartialAsserts(p, chksumLen)
  {
    hide Canon, ProtoSum, WordSum, AddrSum, PseudoHeader, PartialAsserts;
    AddrSumCanon(src, dest);
    var acc, ok := SumPrefix(p, AddrSum(src, dest), chksumLen);
    ProtoSumIsChecksum(src, dest, proto, protoLen, Data(p)[..Min(chksumLen, |Data(p)|)]);
    r, asserted := ProtoSum(acc, proto, protoLen), ok;
  }

  // ---------------------------------------------------------------- checking what was stored

  lemma WordSumOfField(d: seq<byte>, o: nat, low: byte, high: byte)
    requires o % 2 == 0 && o + 2 <= |d| && d[o] == 0 && d[o + 1] == 0
    ensures WordSum(d[o := low][o + 1 := high]) == WordSum(d) + Word(low, high) as int
  {
    var rest := d[o + 2..];
    assert d == d[..o] + ([0, 0] + rest);
    assert d[o := low][o + 1 := high] == d[..o] + ([low, high] + rest);
    WordSumEven(d[..o], [0, 0] + rest);
    WordSumEven(d[..o], [low, high] + rest);
    assert ([0, 0] + rest)[2..] == rest && ([low, high] + rest)[2..] == rest;
  }

  // Storing the checksum into a zeroed field at an even offset makes the data check as 0, which is how
  // a receiver tests it.
  lemma StoredChecksumVerifies(d: seq<byte>, o: nat)
    requires o % 2 == 0 && o + 2 <= |d| && d[o] == 0 && d[o + 1] == 0
    ensures var c := Invert(InternetSum(d));
            Invert(InternetSum(d[o := c % 256][o + 1 := c / 256])) == 0
  {
    hide WordSum;
    var c := Invert(InternetSum(d));
    WordSumOfField(d, o, c % 256, c / 256);
    CanonAdd(WordSum(d), c);
  }
}
