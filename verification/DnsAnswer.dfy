// dns.c: what dns_recv makes of a packet for the entry whose transaction id it carries (IPv4 only).
module DnsAnswer {
  import opened Wrappers
  import opened DnsName

  const SIZEOF_DNS_ANSWER: nat := 10
  const RRTYPE_A: nat := 1
  const RRCLASS_IN: nat := 1

  // The payload of a datagram; tot_len is u16_t.
  type Packet = p: seq<byte> | |p| <= 0xFFFF

  datatype Verdict =
    | Ignore                          // not a response to the question, or malformed
    | Failure                         // an error code in the flags
    | Address(ipaddr: nat, ttl: nat)  // an answer with an address
    | NoAddress                       // no answer with an address

  // A 16-bit and a 32-bit field in network order.
  function Short(p: seq<byte>, i: nat): nat
    requires i + 2 <= |p|
  {
    p[i] as int * 256 + p[i + 1] as int
  }

  function Long(p: seq<byte>, i: nat): nat
    requires i + 4 <= |p|
  {
    Short(p, i) * 0x10000 + Short(p, i + 2)
  }

  // The ip4_addr_t whose bytes stand at i, in the byte order of the host.
  function IpAt(p: seq<byte>, i: nat): nat
    requires i + 4 <= |p|
  {
    p[i] as int + 0x100 * p[i + 1] as int + 0x10000 * p[i + 2] as int + 0x100_0000 * p[i + 3] as int
  }

  // Two addresses are the same exactly if the same bytes stand there.
  lemma SameAddress(p: seq<byte>, i: nat, q: seq<byte>, j: nat)
    requires i + 4 <= |p| && j + 4 <= |q|
    ensures IpAt(p, i) == IpAt(q, j) <==>
              p[i] == q[j] && p[i + 1] == q[j + 1] && p[i + 2] == q[j + 2] && p[i + 3] == q[j + 3]
  {
    if IpAt(p, i) == IpAt(q, j) {
      var a, b := p[i] as int - q[j] as int, p[i + 1] as int - q[j + 1] as int;
      var c, d := p[i + 2] as int - q[j + 2] as int, p[i + 3] as int - q[j + 3] as int;
      assert a == -0x100 * (b + 0x100 * c + 0x10000 * d) && -0x100 < a < 0x100;
      assert b == -0x100 * (c + 0x100 * d) && -0x100 < b < 0x100;
      assert c == -0x100 * d && -0x100 < c < 0x100;
    }
  }

  // ---------------------------------------------------------------- the checks of dns_recv

  ghost function Answers(p: Packet, at: nat, n: nat): Verdict
    decreases n
  {
    if n == 0 || at >= |p| then NoAddress
    else
      var e := Skipped(p, at);
      if e == 0xFFFF || e + SIZEOF_DNS_ANSWER > |p| then Ignore
      else
        var data, len := e + SIZEOF_DNS_ANSWER, Short(p, e + 8);
        if Short(p, e) == RRTYPE_A && Short(p, e + 2) == RRCLASS_IN && len == 4 then
          if data + 4 > |p| then Ignore else Address(IpAt(p, data), Long(p, e + 4))
        else if data + len > 0xFFFF then Ignore
        else Answers(p, data + len, n - 1)
  }

  // The loop over the answers.
  method FindAddress(p: Packet, start: nat, nanswers: nat) returns (v: Verdict)
    requires start <= 0xFFFF
    ensures v == Answers(p, start, nanswers)
  {
    hide Skipped;
    var resIdx: nat, n: nat := start, nanswers;
    while n > 0 && resIdx < |p|
      invariant resIdx <= 0xFFFF && Answers(p, resIdx, n) == Answers(p, start, nanswers)
      decreases n
    {
      resIdx := SkipName(p, resIdx);
      if resIdx == 0xFFFF || resIdx + SIZEOF_DNS_ANSWER > |p| {
        return Ignore;
      }
      var rtype, cls, ttl, len := Short(p, resIdx), Short(p, resIdx + 2), Long(p, resIdx + 4), Short(p, resIdx + 8);
      resIdx := resIdx + SIZEOF_DNS_ANSWER;
      if cls == RRCLASS_IN {
        if rtype == RRTYPE_A && len == 4 {
          if resIdx + 4 > |p| {
            return Ignore;
          }
          return Address(IpAt(p, resIdx), ttl);
        }
      }
      if resIdx + len > 0xFFFF {
        return Ignore;
      }
      resIdx, n := resIdx + len, n - 1;
    }
    v := NoAddress;
  }

  ghost function Examined(p: Packet, query: nat -> byte, fromServer: bool): Verdict
    requires SIZEOF_DNS_HDR <= |p|
  {
    var q := Compared(query, 0, p, SIZEOF_DNS_HDR);
    if p[2] < 128 || Short(p, 4) != 1 || !fromServer then Ignore
    else if q == 0xFFFF || q + SIZEOF_DNS_QUERY > |p| || p[q..q + SIZEOF_DNS_QUERY] != TYPE_A_CLASS_IN then Ignore
    else if p[3] % 16 != 0 then Failure
    else Answers(p, q + SIZEOF_DNS_QUERY, Short(p, 6))
  }

  // The bytes from the start of an entry's name on: the name, a zero, and whatever lies behind.
  function NameInTable(name: Name, behind: nat -> byte): nat -> byte {
    (k: nat) => if k < |name| then name[k] else if k == |name| then 0 else behind(k)
  }

  // The checks for one entry: query(k) is byte k of its name and what lies behind it, fromServer says
  // that the packet comes from the server that was asked.
  method Examine(p: Packet, query: nat -> byte, fromServer: bool) returns (v: Verdict)
    requires SIZEOF_DNS_HDR <= |p|
    ensures v == Examined(p, query, fromServer)
  {
    hide Compared, Answers;
    var nquestions, nanswers := Short(p, 4), Short(p, 6);
    if p[2] < 128 {
      return Ignore;
    }
    if nquestions != 1 {
      return Ignore;
    }
    if !fromServer {
      return Ignore;
    }
    var resIdx := CompareName(query, p, SIZEOF_DNS_HDR);
    if resIdx == 0xFFFF {
      return Ignore;
    }
    if resIdx + SIZEOF_DNS_QUERY > |p| {
      return Ignore;
    }
    if p[resIdx..resIdx + SIZEOF_DNS_QUERY] != TYPE_A_CLASS_IN {
      return Ignore;
    }
    resIdx := resIdx + SIZEOF_DNS_QUERY;
    if p[3] % 16 != 0 {
      return Failure;
    }
    v := FindAddress(p, resIdx, nanswers);
  }

  // ---------------------------------------------------------------- an address is never made up

  // At e, behind its owner name, an answer starts that carries the address.
  ghost predicate Carries(p: Packet, e: nat, ip: nat, ttl: nat) {
    && e + SIZEOF_DNS_ANSWER + 4 <= |p|
    && Short(p, e) == RRTYPE_A && Short(p, e + 2) == RRCLASS_IN && Short(p, e + 8) == 4
    && ip == IpAt(p, e + SIZEOF_DNS_ANSWER) && ttl == Long(p, e + 4)
  }

  lemma {:induction false} AddressIsCarried(p: Packet, at: nat, n: nat) returns (e: nat)
    requires Answers(p, at, n).Address?
    ensures at <= e && Carries(p, e, Answers(p, at, n).ipaddr, Answers(p, at, n).ttl)
    decreases n
  {
    SkippedIsBehind(p, at);
    hide Skipped, Long, IpAt;
    e := Skipped(p, at);
    if !(Short(p, e) == RRTYPE_A && Short(p, e + 2) == RRCLASS_IN && Short(p, e + 8) == 4) {
      e := AddressIsCarried(p, e + SIZEOF_DNS_ANSWER + Short(p, e + 8), n - 1);
    }
  }

  lemma {:induction false} SkippedIsBehind(p: Packet, at: nat)
    ensures Skipped(p, at) == 0xFFFF || at < Skipped(p, at)
    decreases |p| - at
  {
    if at < |p| && p[at] < 192 && at + 1 + p[at] < |p| && p[at + 1 + p[at]] != 0 {
      SkippedIsBehind(p, at + 1 + p[at]);
    }
  }

  // Whatever packet comes in: unless it is ignored it is a response of the server that was asked, to one
  // question, which is the one that was asked; and then it is a failure exactly if it carries an error code.
  lemma NotIgnored(p: Packet, query: nat -> byte, fromServer: bool) returns (labels: seq<Label>, q: nat)
    requires SIZEOF_DNS_HDR <= |p| && Examined(p, query, fromServer) != Ignore
    ensures fromServer && 128 <= p[2] && Short(p, 4) == 1
    ensures Stands(p, SIZEOF_DNS_HDR, q, labels) && Agrees(query, 0, labels)
    ensures q + SIZEOF_DNS_QUERY <= |p| && p[q..q + SIZEOF_DNS_QUERY] == TYPE_A_CLASS_IN
    ensures Examined(p, query, fromServer) == Failure <==> p[3] % 16 != 0
  {
    hide Compared, Answers, Stands, Agrees;
    q := Compared(query, 0, p, SIZEOF_DNS_HDR);
    labels := AcceptedIsPlain(query, 0, p, SIZEOF_DNS_HDR);
    NeverFailure(p, q + SIZEOF_DNS_QUERY, Short(p, 6));
  }

  lemma {:induction false} NeverFailure(p: Packet, at: nat, n: nat)
    ensures Answers(p, at, n) != Failure
    decreases n
  {
    hide Skipped, Long, IpAt;
    if n > 0 && at < |p| && Skipped(p, at) != 0xFFFF && Skipped(p, at) + SIZEOF_DNS_ANSWER <= |p| {
      NeverFailure(p, Skipped(p, at) + SIZEOF_DNS_ANSWER + Short(p, Skipped(p, at) + 8), n - 1);
    }
  }

  // Whatever packet comes in: an address is only taken from a response of the server that was asked,
  // without an error code, to one question, which is the one that was asked, and out of an answer that
  // stands behind that question.
  lemma AddressIsAnswer(p: Packet, query: nat -> byte, fromServer: bool)
    returns (labels: seq<Label>, q: nat, e: nat)
    requires SIZEOF_DNS_HDR <= |p| && Examined(p, query, fromServer).Address?
    ensures fromServer && 128 <= p[2] && p[3] % 16 == 0 && Short(p, 4) == 1
    ensures Stands(p, SIZEOF_DNS_HDR, q, labels) && Agrees(query, 0, labels)
    ensures q + SIZEOF_DNS_QUERY <= |p| && p[q..q + SIZEOF_DNS_QUERY] == TYPE_A_CLASS_IN
    ensures q + SIZEOF_DNS_QUERY <= e && var v := Examined(p, query, fromServer); Carries(p, e, v.ipaddr, v.ttl)
  {
    hide Compared, Answers, Carries, Stands, Agrees;
    q := Compared(query, 0, p, SIZEOF_DNS_HDR);
    labels := AcceptedIsPlain(query, 0, p, SIZEOF_DNS_HDR);
    e := AddressIsCarried(p, q + SIZEOF_DNS_QUERY, Short(p, 6));
  }

  // ---------------------------------------------------------------- replies are understood

  // s stands in p at offset i.
  ghost predicate Holds(p: seq<byte>, i: nat, s: seq<byte>) {
    i + |s| <= |p| && p[i..i + |s|] == s
  }

  lemma HoldsBoth(p: seq<byte>, i: nat, a: seq<byte>, b: seq<byte>)
    requires Holds(p, i, a + b)
    ensures Holds(p, i, a) && Holds(p, i + |a|, b) && i + |a| + |b| <= |p|
  {
    Slice(p, i, i + |a| + |b|, 0, |a|);
    Slice(p, i, i + |a| + |b|, |a|, |a| + |b|);
    assert (a + b)[0..|a|] == a && (a + b)[|a|..|a| + |b|] == b;
  }

  lemma HoldsFour(p: seq<byte>, i: nat, a: seq<byte>, b: seq<byte>, c: seq<byte>, d: seq<byte>)
    requires Holds(p, i, a + (b + (c + d)))
    ensures Holds(p, i, a) && Holds(p, i + |a|, b) && Holds(p, i + |a| + |b|, c)
    ensures Holds(p, i + |a| + |b| + |c|, d) && i + |a| + |b| + |c| + |d| <= |p|
  {
    hide Holds;
    HoldsBoth(p, i, a, b + (c + d));
    HoldsBoth(p, i + |a|, b, c + d);
    HoldsBoth(p, i + |a| + |b|, c, d);
  }

  lemma HoldsShort(p: seq<byte>, i: nat, s: seq<byte>, k: nat)
    requires Holds(p, i, s) && k + 2 <= |s|
    ensures i + |s| <= |p| && Short(p, i + k) == Short(s, k)
  {
    assert p[i..i + |s|][k] == p[i + k] && p[i..i + |s|][k + 1] == p[i + k + 1];
  }

  lemma HoldsLong(p: seq<byte>, i: nat, s: seq<byte>, k: nat)
    requires Holds(p, i, s) && k + 4 <= |s|
    ensures i + |s| <= |p| && Long(p, i + k) == Long(s, k) && IpAt(p, i + k) == IpAt(s, k)
  {
    HoldsShort(p, i, s, k);
    HoldsShort(p, i, s, k + 2);
    assert p[i..i + |s|][k] == p[i + k] && p[i..i + |s|][k + 1] == p[i + k + 1];
    assert p[i..i + |s|][k + 2] == p[i + k + 2] && p[i..i + |s|][k + 3] == p[i + k + 3];
  }

  // A domain name as section 4.1.4 of RFC 1035 allows it: labels, and then a zero or a pointer.
  predicate IsName(n: seq<byte>) {
    || n == [0]
    || (|n| == 2 && n[0] >= 192)
    || (1 < |n| && 0 < n[0] < 192 && 1 + n[0] < |n| && IsName(n[1 + n[0]..]))
  }

  lemma HoldsRest(p: seq<byte>, i: nat, s: seq<byte>, k: nat)
    requires Holds(p, i, s) && k < |s|
    ensures Holds(p, i + k, s[k..]) && p[i + k] == s[k]
  {
    Slice(p, i, i + |s|, k, |s|);
    assert p[i..i + |s|][k] == p[i + k];
  }

  // dns_skip_name skips every name but the root, of which it takes the next byte for the rest.
  lemma {:induction false} SkipsExactly(p: Packet, at: nat, n: seq<byte>)
    requires IsName(n) && at + |n| < |p| && Holds(p, at, n)
    ensures Skipped(p, at) == at + |n| <==> n != [0]
    decreases |n|
  {
    assert p[at] == p[at..at + |n|][0] == n[0];
    if n == [0] {
      SkippedIsBehind(p, at + 1);
    } else if n[0] < 192 {
      HoldsRest(p, at, n, 1 + n[0]);
      SkipsExactly(p, at + 1 + n[0], n[1 + n[0]..]);
    }
  }

  // A resource record of section 4.1.3 of RFC 1035, whose owner is not the root.
  datatype AnyRecord = Record(owner: seq<byte>, rtype: nat, cls: nat, ttl: nat, data: seq<byte>)

  predicate GoodRecord(r: AnyRecord) {
    && IsName(r.owner) && r.owner != [0]
    && r.rtype <= 0xFFFF && r.cls <= 0xFFFF && r.ttl <= 0xFFFF_FFFF && |r.data| <= 0xFFFF
  }

  type Record = r: AnyRecord | GoodRecord(r) witness Record([192, 12], 1, 1, 0, [])

  function Put16(x: nat): (r: seq<byte>)
    requires x <= 0xFFFF
    ensures |r| == 2 && Short(r, 0) == x
  {
    [x / 256, x % 256]
  }

  function Put32(x: nat): (r: seq<byte>)
    requires x <= 0xFFFF_FFFF
    ensures |r| == 4 && Long(r, 0) == x
  {
    Put16(x / 0x10000) + Put16(x % 0x10000)
  }

  ghost function Fields(r: Record): (s: seq<byte>)
    ensures |s| == SIZEOF_DNS_ANSWER
    ensures Short(s, 0) == r.rtype && Short(s, 2) == r.cls && Long(s, 4) == r.ttl && Short(s, 8) == |r.data|
  {
    var s := Put16(r.rtype) + Put16(r.cls) + Put32(r.ttl) + Put16(|r.data|);
    assert s[..2] == Put16(r.rtype) && s[2..4] == Put16(r.cls) && s[4..8] == Put32(r.ttl)
           && s[8..] == Put16(|r.data|);
    s
  }

  ghost function Encoded(rs: seq<Record>): seq<byte>
  {
    if rs == [] then [] else rs[0].owner + (Fields(rs[0]) + (rs[0].data + Encoded(rs[1..])))
  }

  // The first address in the answers decides.
  ghost function Decision(rs: seq<Record>): Verdict {
    if rs == [] then NoAddress
    else if rs[0].rtype == RRTYPE_A && rs[0].cls == RRCLASS_IN && |rs[0].data| == 4 then
      Address(IpAt(rs[0].data, 0), rs[0].ttl)
    else Decision(rs[1..])
  }

  // Where the parts of the first record stand, and the next record.
  lemma FirstRecord(p: Packet, at: nat, rs: seq<Record>)
    requires rs != [] && Holds(p, at, Encoded(rs))
    ensures var r, e := rs[0], at + |rs[0].owner|; var data := e + SIZEOF_DNS_ANSWER;
      && Holds(p, at, r.owner) && Holds(p, e, Fields(r)) && Holds(p, data, r.data)
      && data + |r.data| <= |p| && Holds(p, data + |r.data|, Encoded(rs[1..]))
  {
    hide Holds, Fields, IsName, GoodRecord, Short, Long;
    HoldsFour(p, at, rs[0].owner, Fields(rs[0]), rs[0].data, Encoded(rs[1..]));
  }

  // What dns_recv reads of a record.
  lemma RecordRead(p: Packet, at: nat, r: Record)
    requires Holds(p, at, r.owner)
    requires var e := at + |r.owner|; Holds(p, e, Fields(r)) && Holds(p, e + SIZEOF_DNS_ANSWER, r.data)
    ensures var e := at + |r.owner|; var data := e + SIZEOF_DNS_ANSWER;
      && data + |r.data| <= |p| && Skipped(p, at) == e
      && Short(p, e) == r.rtype && Short(p, e + 2) == r.cls && Long(p, e + 4) == r.ttl && Short(p, e + 8) == |r.data|
      && (|r.data| == 4 ==> IpAt(p, data) == IpAt(r.data, 0))
  {
    var f, e := Fields(r), at + |r.owner|;
    assert e + SIZEOF_DNS_ANSWER + |r.data| <= |p|;
    hide Holds, Fields, Skipped, IsName, Short, Long, IpAt;
    SkipsExactly(p, at, r.owner);
    HoldsShort(p, e, f, 0);
    HoldsShort(p, e, f, 2);
    HoldsShort(p, e, f, 8);
    HoldsLong(p, e, f, 4);
    if |r.data| == 4 {
      HoldsLong(p, e + SIZEOF_DNS_ANSWER, r.data, 0);
    }
  }

  lemma {:induction false} AnswersDecide(p: Packet, at: nat, rs: seq<Record>)
    requires Holds(p, at, Encoded(rs))
    ensures Answers(p, at, |rs|) == Decision(rs)
    decreases |rs|
  {
    hide Skipped, Fields, Short, Long, IpAt, Holds, IsName, GoodRecord;
    if rs != [] {
      FirstRecord(p, at, rs);
      RecordRead(p, at, rs[0]);
      hide Encoded;
      var r := rs[0];
      if !(r.rtype == RRTYPE_A && r.cls == RRCLASS_IN && |r.data| == 4) {
        AnswersDecide(p, at + |r.owner| + SIZEOF_DNS_ANSWER + |r.data|, rs[1..]);
      }
    }
  }

  // A reply: flags and the number of answers in the header, the question, the answers, and whatever else.
  ghost function Reply(id: nat, flags1: byte, flags2: byte, counts: seq<byte>, labels: seq<Label>, rs: seq<Record>,
                       rest: seq<byte>): seq<byte>
    requires id <= 0xFFFF && |rs| <= 0xFFFF
  {
    ReplyHeader(id, flags1, flags2, |rs|, counts) + (Wire(labels) + (TYPE_A_CLASS_IN + (Encoded(rs) + rest)))
  }

  function ReplyHeader(id: nat, flags1: byte, flags2: byte, answers: nat, counts: seq<byte>): seq<byte>
    requires id <= 0xFFFF && answers <= 0xFFFF
  {
    Put16(id) + [flags1, flags2, 0, 1] + Put16(answers) + counts
  }

  lemma ReplyParts(p: Packet, id: nat, flags1: byte, flags2: byte, counts: seq<byte>, labels: seq<Label>,
                   rs: seq<Record>, rest: seq<byte>)
    requires id <= 0xFFFF && |rs| <= 0xFFFF && |counts| == 4
    requires p == Reply(id, flags1, flags2, counts, labels, rs, rest)
    ensures var q := SIZEOF_DNS_HDR + |Wire(labels)|; var a := q + SIZEOF_DNS_QUERY;
      && a <= |p|
      && Short(p, 0) == id && p[2] == flags1 && p[3] == flags2 && Short(p, 4) == 1 && Short(p, 6) == |rs|
      && Holds(p, SIZEOF_DNS_HDR, Wire(labels)) && Holds(p, q, TYPE_A_CLASS_IN) && Holds(p, a, Encoded(rs))
  {
    hide Wire, Encoded, Fields, Holds, ReplyHeader, Short, IsName, GoodRecord;
    HeaderParts(id, flags1, flags2, |rs|, counts);
    Behind(p, ReplyHeader(id, flags1, flags2, |rs|, counts), Wire(labels), Encoded(rs), rest);
  }

  // Where the parts behind a header stand.
  lemma Behind(p: seq<byte>, h: seq<byte>, w: seq<byte>, e: seq<byte>, rest: seq<byte>)
    requires |h| == SIZEOF_DNS_HDR && p == h + (w + (TYPE_A_CLASS_IN + (e + rest)))
    ensures var q := SIZEOF_DNS_HDR + |w|; var a := q + SIZEOF_DNS_QUERY;
      && a <= |p| && Holds(p, SIZEOF_DNS_HDR, w) && Holds(p, q, TYPE_A_CLASS_IN) && Holds(p, a, e)
    ensures p[2] == h[2] && p[3] == h[3]
    ensures Short(p, 0) == Short(h, 0) && Short(p, 4) == Short(h, 4) && Short(p, 6) == Short(h, 6)
  {
    assert Holds(p, 0, p) && p[2] == h[2] && p[3] == h[3];
    hide Holds, Short;
    HoldsFour(p, 0, h, w, TYPE_A_CLASS_IN, e + rest);
    HoldsBoth(p, SIZEOF_DNS_HDR + |w| + SIZEOF_DNS_QUERY, e, rest);
    HoldsShort(p, 0, h, 0);
    HoldsShort(p, 0, h, 4);
    HoldsShort(p, 0, h, 6);
  }

  lemma HeaderParts(id: nat, flags1: byte, flags2: byte, answers: nat, counts: seq<byte>)
    requires id <= 0xFFFF && answers <= 0xFFFF && |counts| == 4
    ensures var h := ReplyHeader(id, flags1, flags2, answers, counts);
      && |h| == SIZEOF_DNS_HDR
      && Short(h, 0) == id && h[2] == flags1 && h[3] == flags2 && Short(h, 4) == 1 && Short(h, 6) == answers
  {
  }

  // A well-formed reply of the server to the question is understood: an error code is noticed, and
  // otherwise the first address among the answers decides, whatever other records there are.
  lemma ReplyIsUnderstood(p: Packet, query: nat -> byte, id: nat, flags1: byte, flags2: byte, counts: seq<byte>,
                          labels: seq<Label>, rs: seq<Record>, rest: seq<byte>)
    requires id <= 0xFFFF && |rs| <= 0xFFFF && |counts| == 4
    requires p == Reply(id, flags1, flags2, counts, labels, rs, rest)
    requires 128 <= flags1 && Plain(labels) && Agrees(query, 0, labels)
    ensures SIZEOF_DNS_HDR + SIZEOF_DNS_QUERY <= |p| && Short(p, 0) == id
    ensures Examined(p, query, true) == if flags2 % 16 != 0 then Failure else Decision(rs)
  {
    hide Reply, Encoded, Decision, Short;
    ReplyParts(p, id, flags1, flags2, counts, labels, rs, rest);
    var q := SIZEOF_DNS_HDR + |Wire(labels)|;
    assert Stands(p, SIZEOF_DNS_HDR, q, labels) && p[q..q + SIZEOF_DNS_QUERY] == TYPE_A_CLASS_IN;
    hide Holds, Wire, Stands, Agrees, Answers;
    AcceptsPlain(query, 0, p, SIZEOF_DNS_HDR, q, labels);
    AnswersDecide(p, q + SIZEOF_DNS_QUERY, rs);
  }
}
