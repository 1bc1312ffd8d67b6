// dns.c: how dns_send encodes a hostname, and how answers are compared with it and skipped.
module DnsName {
  import opened Wrappers

  type Label = l: seq<byte> | |l| < 256

  const DOT: byte := 46
  const SIZEOF_DNS_HDR: nat := 12
  const SIZEOF_DNS_QUERY: nat := 4
  const DNS_MAX_NAME_LENGTH: nat := 256

  // What fits in the name of an entry, without the zero that ends it.
  type Name = s: seq<byte> | |s| < DNS_MAX_NAME_LENGTH

  // ---------------------------------------------------------------- names and their wire form

  // Section 3.1 of RFC 1035: every label behind its length, and a zero at the end.
  function Wire(labels: seq<Label>): (r: seq<byte>)
    ensures r != []
  {
    if labels == [] then [0] else [|labels[0]|] + labels[0] + Wire(labels[1..])
  }

  function LabelEnd(name: seq<byte>, i: nat): (r: nat)
    requires i <= |name|
    ensures i <= r <= |name| && (r == |name| || name[r] == DOT)
    decreases |name| - i
  {
    if i == |name| || name[i] == DOT then i else LabelEnd(name, i + 1)
  }

  lemma {:induction false} LabelHasNoDot(name: seq<byte>, i: nat)
    requires i <= |name|
    ensures DOT !in name[i..LabelEnd(name, i)]
    decreases |name| - i
  {
    var e := LabelEnd(name, i);
    if i < e {
      LabelHasNoDot(name, i + 1);
      assert name[i..e] == [name[i]] + name[i + 1..e];
    }
  }

  // The labels of name from position i on.
  function Split(name: seq<byte>, i: nat): (r: seq<Label>)
    requires i <= |name| < DNS_MAX_NAME_LENGTH
    ensures r != []
    decreases |name| - i
  {
    var e := LabelEnd(name, i);
    if e == |name| then [name[i..]] else [name[i..e]] + Split(name, e + 1)
  }

  function Join(labels: seq<Label>): seq<byte>
    requires labels != []
  {
    if |labels| == 1 then labels[0] else labels[0] + ([DOT] + Join(labels[1..]))
  }

  // Split finds the labels between the dots.
  lemma {:induction false} JoinSplit(name: seq<byte>, i: nat)
    requires i <= |name| < DNS_MAX_NAME_LENGTH
    ensures Join(Split(name, i)) == name[i..]
    decreases |name| - i
  {
    hide LabelEnd, Join;
    var e := LabelEnd(name, i);
    if e < |name| {
      JoinSplit(name, e + 1);
      JoinCons(name[i..e], Split(name, e + 1));
      assert name[i..] == name[i..e] + ([DOT] + name[e + 1..]);
    } else {
      JoinOne(name[i..]);
    }
  }

  ghost predicate NoDots(labels: seq<Label>) {
    forall n :: 0 <= n < |labels| ==> DOT !in labels[n]
  }

  lemma NoDotsCons(l: Label, rest: seq<Label>)
    requires DOT !in l && NoDots(rest)
    ensures NoDots([l] + rest)
  {
  }

  lemma {:induction false} SplitAtDots(name: seq<byte>, i: nat)
    requires i <= |name| < DNS_MAX_NAME_LENGTH
    ensures NoDots(Split(name, i))
    decreases |name| - i
  {
    LabelHasNoDot(name, i);
    hide LabelEnd, NoDots;
    var e := LabelEnd(name, i);
    if e < |name| {
      SplitAtDots(name, e + 1);
      NoDotsCons(name[i..e], Split(name, e + 1));
    } else {
      assert name[i..e] == name[i..];
      OneLabel(name[i..]);
    }
  }

  lemma OneLabel(l: Label)
    requires DOT !in l
    ensures NoDots([l])
  {
  }

  lemma JoinOne(l: Label)
    ensures Join([l]) == l
  {
  }

  lemma JoinCons(l: Label, rest: seq<Label>)
    requires rest != []
    ensures Join([l] + rest) == l + ([DOT] + Join(rest))
  {
    assert ([l] + rest)[1..] == rest;
  }

  lemma {:induction false} WireLength(name: seq<byte>, i: nat)
    requires i <= |name| < DNS_MAX_NAME_LENGTH
    ensures |Wire(Split(name, i))| == |name| - i + 2
    decreases |name| - i
  {
    hide LabelEnd, Wire;
    var e := LabelEnd(name, i);
    if e < |name| {
      WireLength(name, e + 1);
      WireCons(name[i..e], Split(name, e + 1));
    } else {
      WireCons(name[i..], []);
      WireEmpty();
      assert [name[i..]] + [] == [name[i..]];
    }
  }

  // Section 2.3.4 of RFC 1035, for names without empty labels.
  ghost predicate IsHostname(name: seq<byte>) {
    |name| < DNS_MAX_NAME_LENGTH && forall l :: l in Split(name, 0) ==> 0 < |l| <= 63
  }

  lemma NameIsShort(name: seq<byte>)
    requires IsHostname(name)
    ensures |name| < DNS_MAX_NAME_LENGTH
  {
  }

  function Lower(c: byte): byte {
    if 65 <= c <= 90 then c + 32 else c
  }

  // Two characters are compared as one exactly if they are the same, or the same letter in both cases.
  lemma LowerMeans(a: byte, b: byte)
    ensures Lower(a) == Lower(b) <==>
              a == b || (65 <= a <= 90 && b as int == a as int + 32) || (65 <= b <= 90 && a as int == b as int + 32)
  {
  }

  // ---------------------------------------------------------------- dns_send

  // pbuf_take_at
  method TakeAt(p: array<byte>, data: seq<byte>, offset: nat)
    requires offset + |data| <= p.Length
    modifies p
    ensures p[..] == old(p[..offset]) + data + old(p[offset + |data|..])
  {
    forall k | 0 <= k < |data| {
      p[offset + k] := data[k];
    }
  }

  lemma Associative(a: seq<byte>, b: seq<byte>, c: seq<byte>)
    ensures a + (b + c) == (a + b) + c
  {
  }

  lemma Slice(s: seq<byte>, a: nat, b: nat, i: nat, j: nat)
    requires a <= b <= |s| && i <= j <= b - a
    ensures s[a..b][i..j] == s[a + i..a + j]
  {
    assert forall k :: 0 <= k < j - i ==> s[a..b][i..j][k] == s[a + i..a + j][k];
  }

  // One label of the conversion loop of dns_send; hostname and part are positions in name.
  method EncodeLabel(p: array<byte>, name: seq<byte>, part: nat, queryIdx: nat) returns (hostname: nat, n: nat)
    requires part <= |name| < DNS_MAX_NAME_LENGTH && queryIdx + |name| - part + 1 <= p.Length
    modifies p
    ensures hostname == LabelEnd(name, part) && n == hostname - part
    ensures p[..queryIdx + n + 1] == old(p[..queryIdx]) + ([n] + name[part..hostname])
  {
    hostname, n := part, 0;
    while hostname < |name| && name[hostname] != DOT
      invariant part <= hostname <= |name| && n == hostname - part
      invariant LabelEnd(name, hostname) == LabelEnd(name, part)
    {
      hostname := hostname + 1;
      n := (n + 1) % 256;
    }
    hide LabelEnd;
    ghost var was := p[..];
    TakeAt(p, [n], queryIdx);
    ghost var between := p[..];
    TakeAt(p, name[part..hostname], queryIdx + 1);
    TakenTwice(was, between, p[..], queryIdx, n, name[part..hostname]);
    assert was[..queryIdx] == old(p[..queryIdx]) && p[..][..queryIdx + n + 1] == p[..queryIdx + n + 1];
  }

  lemma TakenTwice(was: seq<byte>, between: seq<byte>, now: seq<byte>, i: nat, n: byte, l: seq<byte>)
    requires i + 1 + |l| <= |was|
    requires between == was[..i] + [n] + was[i + 1..]
    requires now == between[..i + 1] + l + between[i + 1 + |l|..]
    ensures now[..i + 1 + |l|] == was[..i] + ([n] + l)
  {
    assert between[..i + 1] == was[..i] + [n];
  }

  // The conversion loop of dns_send, and the zero behind it.
  method EncodeName(p: array<byte>, name: seq<byte>) returns (queryIdx: nat)
    requires |name| < DNS_MAX_NAME_LENGTH && SIZEOF_DNS_HDR + |name| + 2 <= p.Length
    modifies p
    ensures queryIdx == SIZEOF_DNS_HDR + |name| + 2
    ensures p[..queryIdx] == old(p[..SIZEOF_DNS_HDR]) + Wire(Split(name, 0))
  {
    hide Wire, Split;
    WireLength(name, 0);
    ghost var goal := p[..SIZEOF_DNS_HDR] + Wire(Split(name, 0));
    var hostname := 0;
    queryIdx := SIZEOF_DNS_HDR;
    var more := true;
    while more
      invariant if more then hostname <= |name| && queryIdx == SIZEOF_DNS_HDR + hostname
                else queryIdx == SIZEOF_DNS_HDR + |name| + 1
      invariant goal == p[..queryIdx] + if more then Wire(Split(name, hostname)) else [0]
      decreases more, |name| - hostname
    {
      hostname, queryIdx, more := EncodePart(p, name, hostname, queryIdx, goal);
    }
    ghost var was := p[..queryIdx];
    TakeAt(p, [0], queryIdx);
    queryIdx := queryIdx + 1;
    assert p[..queryIdx] == was + [0];
  }

  // One round of the loop: goal is what the packet will be up to the end of the name.
  method EncodePart(p: array<byte>, name: seq<byte>, part: nat, index: nat, ghost goal: seq<byte>)
    returns (hostname: nat, queryIdx: nat, more: bool)
    requires part <= |name| < DNS_MAX_NAME_LENGTH && index + |name| - part + 1 <= p.Length
    requires goal == p[..index] + Wire(Split(name, part))
    modifies p
    ensures more ==> part < hostname <= |name| && queryIdx == index + hostname - part
    ensures !more ==> hostname == |name| && queryIdx == index + |name| - part + 1
    ensures goal == p[..queryIdx] + if more then Wire(Split(name, hostname)) else [0]
  {
    hide LabelEnd, Wire, Split;
    WireSplit(name, part);
    ghost var was := p[..index];
    var n;
    hostname, n := EncodeLabel(p, name, part, index);
    Associative(was, [n] + name[part..hostname], if hostname == |name| then [0] else Wire(Split(name, hostname + 1)));
    queryIdx, more := index + n + 1, hostname < |name|;
    if more {
      hostname := hostname + 1;
    }
  }

  lemma WireCons(l: Label, rest: seq<Label>)
    ensures Wire([l] + rest) == ([|l|] + l) + Wire(rest)
  {
    assert ([l] + rest)[1..] == rest;
  }

  lemma WireSplit(name: seq<byte>, i: nat)
    requires i <= |name| < DNS_MAX_NAME_LENGTH
    ensures var e := LabelEnd(name, i);
      Wire(Split(name, i)) == ([e - i] + name[i..e]) + if e == |name| then [0] else Wire(Split(name, e + 1))
  {
    hide Wire, LabelEnd;
    var e := LabelEnd(name, i);
    if e == |name| {
      WireCons(name[i..], []);
      WireEmpty();
      assert [name[i..]] + [] == [name[i..]] && name[i..e] == name[i..];
    } else {
      WireCons(name[i..e], Split(name, e + 1));
    }
  }

  lemma WireEmpty()
    ensures Wire([]) == [0]
  {
  }

  function Header(txid: nat): (r: seq<byte>)
    requires txid <= 0xFFFF
    ensures |r| == SIZEOF_DNS_HDR && r[0] as int * 256 + r[1] as int == txid
  {
    [txid / 256, txid % 256, 1, 0, 0, 1, 0, 0, 0, 0, 0, 0]
  }

  const TYPE_A_CLASS_IN: seq<byte> := [0, 1, 0, 1]

  // The packet dns_send hands to udp_sendto: the fields behind the name end the packet.
  method BuildQuery(txid: nat, name: seq<byte>) returns (p: array<byte>)
    requires txid <= 0xFFFF && |name| < DNS_MAX_NAME_LENGTH
    ensures fresh(p)
    ensures p[..] == Header(txid) + Wire(Split(name, 0)) + TYPE_A_CLASS_IN
    // a query with the id, recursion desired, one question, for an IPv4 address of the Internet class
    ensures p.Length == SIZEOF_DNS_HDR + |name| + 2 + SIZEOF_DNS_QUERY
    ensures p[..SIZEOF_DNS_HDR] == [txid / 256, txid % 256, 1, 0, 0, 1, 0, 0, 0, 0, 0, 0]
    ensures p[SIZEOF_DNS_HDR + |name| + 2..] == [0, 1, 0, 1]
  {
    p := new byte[SIZEOF_DNS_HDR + |name| + 2 + SIZEOF_DNS_QUERY];
    TakeAt(p, Header(txid), 0);
    assert p[..SIZEOF_DNS_HDR] == Header(txid);
    var queryIdx := EncodeName(p, name);
    TakeAt(p, TYPE_A_CLASS_IN, queryIdx);
  }

  // ---------------------------------------------------------------- dns_compare_name

  // pbuf_try_get_at
  function Get(p: seq<byte>, offset: nat): int {
    if offset < |p| then p[offset] else -1
  }

  // The bytes of a label agree, up to case, with what query points at.
  ghost predicate SameLabel(query: nat -> byte, q: nat, l: seq<byte>) {
    forall k :: 0 <= k < |l| ==> Lower(query(q + k)) == Lower(l[k])
  }

  ghost function Compared(query: nat -> byte, q: nat, p: seq<byte>, offset: nat): nat
    decreases |p| - offset
  {
    if offset >= |p| || p[offset] >= 192 then 0xFFFF
    else
      var next := offset + 1 + p[offset];
      if next >= |p| || !SameLabel(query, q, p[offset + 1..next]) then 0xFFFF
      else if p[next] == 0 then next + 1
      else Compared(query, q + p[offset] + 1, p, next)
  }

  // The inner loop of dns_compare_name: one label of n bytes.
  method CompareLabel(query: nat -> byte, q0: nat, p: seq<byte>, at: nat, length: nat)
    returns (same: bool, q: nat, offset: nat)
    requires |p| <= 0xFFFF && at <= |p|
    ensures same <==> at + length <= |p| && SameLabel(query, q0, p[at..at + length])
    ensures same ==> q == q0 + length && offset == at + length
  {
    var n := length;
    same, q, offset := false, q0, at;
    while n > 0
      invariant 0 <= n <= length && offset <= |p| && offset + n == at + length && q - q0 == offset - at
      invariant SameLabel(query, q0, p[at..offset])
    {
      var c := Get(p, offset);
      if c < 0 {
        return;
      }
      if Lower(query(q)) != Lower(c) {
        assert at + length <= |p| ==> p[at..at + length][q - q0] == c;
        return;
      }
      if offset == 0xFFFF {
        return;
      }
      assert p[at..offset + 1] == p[at..offset] + [c];
      offset, q, n := offset + 1, q + 1, n - 1;
    }
    same := true;
  }

  // dns_compare_name; query(k) is the byte k behind the start of the name in the table, whatever
  // follows its terminating zero.
  method CompareName(query: nat -> byte, p: seq<byte>, startOffset: nat) returns (r: nat)
    requires |p| <= 0xFFFF && startOffset <= 0xFFFF
    ensures r == Compared(query, 0, p, startOffset)
  {
    hide SameLabel;
    r := 0xFFFF;
    var q, offset := 0, startOffset;
    while true
      invariant offset <= 0xFFFF && r == 0xFFFF
      invariant Compared(query, q, p, offset) == Compared(query, 0, p, startOffset)
      decreases |p| - offset
    {
      var n := Get(p, offset);
      if n < 0 || offset == 0xFFFF {
        return;
      }
      if n >= 192 {
        return;
      }
      var same;
      same, q, offset := CompareLabel(query, q, p, offset + 1, n);
      if !same {
        return;
      }
      q := q + 1;
      n := Get(p, offset);
      if n < 0 {
        return;
      }
      if n == 0 {
        break;
      }
    }
    if offset == 0xFFFF {
      return;
    }
    r := offset + 1;
  }

  // ---------------------------------------------------------------- dns_skip_name

  function Skipped(p: seq<byte>, offset: nat): nat
    decreases |p| - offset
  {
    if offset >= |p| then 0xFFFF
    else if p[offset] >= 192 then (if offset + 1 == 0xFFFF then 0xFFFF else offset + 2)
    else
      var next := offset + 1 + p[offset];
      if next >= |p| then 0xFFFF
      else if p[next] == 0 then next + 1
      else Skipped(p, next)
  }

  // Addition in a u16_t.
  function Add16(a: nat, b: nat): (r: nat)
    ensures r <= 0xFFFF && (a + b <= 0xFFFF ==> r == a + b) && (a + b == 0x10000 ==> r == 0)
  {
    (a + b) % 0x10000
  }

  method SkipName(p: seq<byte>, queryIdx: nat) returns (r: nat)
    requires |p| <= 0xFFFF && queryIdx <= 0xFFFF
    ensures r == Skipped(p, queryIdx)
  {
    hide Add16;
    r := 0xFFFF;
    var offset := queryIdx;
    while true
      invariant offset <= 0xFFFF && Skipped(p, offset) == Skipped(p, queryIdx)
      decreases |p| - offset
    {
      var n := Get(p, offset);
      offset := Add16(offset, 1);
      if n < 0 || offset == 0 {
        return;
      }
      if n >= 192 {
        break;
      }
      if offset + n >= |p| {
        return;
      }
      offset := Add16(offset, n);
      n := Get(p, offset);
      if n < 0 {
        return;
      }
      if n == 0 {
        break;
      }
    }
    if offset == 0xFFFF {
      return;
    }
    r := offset + 1;
  }

  // ---------------------------------------------------------------- what the two decide

  // The names dns_compare_name can walk over: only the first label may be empty.
  ghost predicate Plain(labels: seq<Label>) {
    labels != [] && forall i :: 0 <= i < |labels| ==> |labels[i]| < 192 && (0 < i ==> labels[i] != [])
  }

  ghost predicate Agrees(query: nat -> byte, q: nat, labels: seq<Label>)
    decreases |labels|
  {
    labels == [] || (SameLabel(query, q, labels[0]) && Agrees(query, q + |labels[0]| + 1, labels[1..]))
  }

  // The name labels stands in p from offset to r.
  ghost predicate Stands(p: seq<byte>, offset: nat, r: nat, labels: seq<Label>) {
    Plain(labels) && offset <= r <= |p| && p[offset..r] == Wire(labels)
  }

  // The first label of a name in the packet, and the rest of the name.
  lemma FirstLabel(p: seq<byte>, offset: nat, r: nat, labels: seq<Label>)
    requires Stands(p, offset, r, labels)
    ensures offset < |p| && p[offset] == |labels[0]|
    ensures var next := offset + 1 + p[offset];
      && next < r && p[offset + 1..next] == labels[0]
      && p[next..r] == Wire(labels[1..])
      && (|labels| == 1 ==> next + 1 == r && p[next] == 0)
      && (|labels| > 1 ==> Stands(p, next, r, labels[1..]) && p[next] != 0)
  {
    var w, n := Wire(labels), |labels[0]|;
    var next := offset + 1 + n;
    assert w[0] == n && w[1..1 + n] == labels[0] && w[1 + n..] == Wire(labels[1..]) by {
      assert w == [n] + labels[0] + Wire(labels[1..]);
    }
    assert p[offset..r][0] == p[offset] == n;
    Slice(p, offset, r, 1, 1 + n);
    Slice(p, offset, r, 1 + n, r - offset);
    assert p[next..r] == w[1 + n..];
    assert p[next] == p[next..r][0] == Wire(labels[1..])[0];
  }

  lemma {:induction false} AcceptsPlain(query: nat -> byte, q: nat, p: seq<byte>, offset: nat, r: nat,
                                        labels: seq<Label>)
    requires Stands(p, offset, r, labels) && Agrees(query, q, labels)
    ensures Compared(query, q, p, offset) == r == Skipped(p, offset)
    decreases |labels|
  {
    FirstLabel(p, offset, r, labels);
    if |labels| > 1 {
      AcceptsPlain(query, q + |labels[0]| + 1, p, offset + 1 + p[offset], r, labels[1..]);
    }
  }

  lemma Prepend(p: seq<byte>, offset: nat, r: nat, rest: seq<Label>)
    requires offset < |p| && p[offset] < 192
    requires var next := offset + 1 + p[offset];
      next < r <= |p| && if rest == [] then p[next] == 0 && r == next + 1 else p[next] != 0 && Stands(p, next, r, rest)
    ensures Stands(p, offset, r, [p[offset + 1..offset + 1 + p[offset]]] + rest)
  {
    var next := offset + 1 + p[offset];
    var l: Label := p[offset + 1..next];
    var labels := [l] + rest;
    assert labels[1..] == rest;
    assert p[next..r] == Wire(rest) by {
      if rest == [] {
        assert p[next..r] == [0];
      }
    }
    if rest != [] {
      FirstLabel(p, next, r, rest);
    }
    assert p[offset..r] == [p[offset]] + l + p[next..r];
  }

  lemma {:induction false} AcceptedIsPlain(query: nat -> byte, q: nat, p: seq<byte>, offset: nat)
    returns (labels: seq<Label>)
    requires Compared(query, q, p, offset) < 0xFFFF
    ensures Stands(p, offset, Compared(query, q, p, offset), labels) && Agrees(query, q, labels)
    decreases |p| - offset
  {
    hide Stands;
    var next := offset + 1 + p[offset];
    var l: Label := p[offset + 1..next];
    var rest: seq<Label> := [];
    if p[next] != 0 {
      rest := AcceptedIsPlain(query, q + p[offset] + 1, p, next);
      StandsInside(p, next, Compared(query, q, p, offset), rest);
    }
    Prepend(p, offset, Compared(query, q, p, offset), rest);
    labels := [l] + rest;
    assert labels[1..] == rest;
  }

  lemma StandsInside(p: seq<byte>, offset: nat, r: nat, labels: seq<Label>)
    requires Stands(p, offset, r, labels)
    ensures labels != [] && offset < r <= |p|
  {
  }

  // What dns_compare_name decides, exactly: there is an uncompressed name at the offset whose letters
  // agree, up to case and not looking at dots or the end, with the query.
  lemma CompareDecides(query: nat -> byte, p: seq<byte>, offset: nat, r: nat)
    requires r < 0xFFFF
    ensures Compared(query, 0, p, offset) == r
       <==> exists labels :: Stands(p, offset, r, labels) && Agrees(query, 0, labels)
  {
    if Compared(query, 0, p, offset) == r {
      var labels := AcceptedIsPlain(query, 0, p, offset);
    }
    forall labels | Stands(p, offset, r, labels) && Agrees(query, 0, labels)
      ensures Compared(query, 0, p, offset) == r
    {
      AcceptsPlain(query, 0, p, offset, r, labels);
    }
  }

  // Whatever packet comes in, dns_skip_name follows dns_compare_name.
  lemma {:induction false} SkipFollowsCompare(query: nat -> byte, p: seq<byte>, offset: nat)
    requires Compared(query, 0, p, offset) < 0xFFFF
    ensures Skipped(p, offset) == Compared(query, 0, p, offset)
  {
    var labels := AcceptedIsPlain(query, 0, p, offset);
    AcceptsPlain(query, 0, p, offset, Compared(query, 0, p, offset), labels);
  }

  lemma {:induction false} SameNameAgrees(query: nat -> byte, name: seq<byte>, i: nat)
    requires i <= |name| < DNS_MAX_NAME_LENGTH && SameLabel(query, 0, name)
    ensures Agrees(query, i, Split(name, i))
    decreases |name| - i
  {
    hide LabelEnd, SameLabel;
    var e, labels := LabelEnd(name, i), Split(name, i);
    SameInside(query, name, i, e);
    if e < |name| {
      SameNameAgrees(query, name, e + 1);
      assert labels == [name[i..e]] + Split(name, e + 1);
      hide Split;
      assert labels[0] == name[i..e] && labels[1..] == Split(name, e + 1);
    } else {
      assert name[i..e] == name[i..] && labels == [name[i..]];
      NoLabels(query, i + |labels[0]| + 1, labels[1..]);
    }
  }

  lemma SameInside(query: nat -> byte, name: seq<byte>, i: nat, e: nat)
    requires i <= e <= |name| && SameLabel(query, 0, name)
    ensures SameLabel(query, i, name[i..e])
  {
    forall k | 0 <= k < e - i ensures Lower(query(i + k)) == Lower(name[i..e][k]) {
      assert Lower(query(0 + (i + k))) == Lower(name[i + k]);
    }
  }

  lemma NoLabels(query: nat -> byte, q: nat, labels: seq<Label>)
    requires labels == []
    ensures Agrees(query, q, labels)
  {
  }

  // The round trip: what dns_send encoded for a hostname, compared with the same name in any letter
  // case, is accepted and skipped alike, and both end behind the name.
  lemma {:induction false} NameRoundTrip(name: seq<byte>, query: nat -> byte, p: seq<byte>, start: nat)
    requires IsHostname(name) && SameLabel(query, 0, name)
    requires |p| <= 0xFFFF && start + |name| + 2 + SIZEOF_DNS_QUERY <= |p|
    requires p[start..start + |name| + 2] == Wire(Split(name, 0))
    ensures Compared(query, 0, p, start) == Skipped(p, start) == start + |name| + 2 != 0xFFFF
  {
    SameNameAgrees(query, name, 0);
    AcceptsPlain(query, 0, p, start, start + |name| + 2, Split(name, 0));
  }

  // The same for the packet dns_send builds, whose query fields directly follow the name.
  lemma QueryRoundTrip(txid: nat, name: seq<byte>, query: nat -> byte)
    requires txid <= 0xFFFF && IsHostname(name) && SameLabel(query, 0, name)
    ensures var p := Header(txid) + Wire(Split(name, 0)) + TYPE_A_CLASS_IN;
      var end := Compared(query, 0, p, SIZEOF_DNS_HDR);
      && end == Skipped(p, SIZEOF_DNS_HDR) == SIZEOF_DNS_HDR + |name| + 2
      && end + SIZEOF_DNS_QUERY == |p| && p[end..] == TYPE_A_CLASS_IN
  {
    hide Wire, Split, Compared, Skipped, SameLabel, IsHostname;
    NameIsShort(name);
    WireLength(name, 0);
    var w := Wire(Split(name, 0));
    var p := Header(txid) + w + TYPE_A_CLASS_IN;
    assert p[SIZEOF_DNS_HDR..SIZEOF_DNS_HDR + |name| + 2] == w;
    NameRoundTrip(name, query, p, SIZEOF_DNS_HDR);
  }
}
