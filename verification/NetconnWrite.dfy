// api_msg.c and api_lib.c: the cursor of a vectored write and the loop that moves it.
module NetconnWrite {
  import opened Wrappers

  datatype Err = ERR_OK | ERR_MEM | ERR_WOULDBLOCK | ERR_RTE | ERR_CLSD | ERR_CONN | ERR_INPROGRESS
               | ERR_ALREADY | ERR_ISCONN | ERR_VAL | ERR_RST

  const SIZE_MAX: nat := 0xFFFF_FFFF
  const SSIZE_MAX: nat := 0x7FFF_FFFF

  // msg.w, and the bytes that tcp_write accepted for it so far
  datatype Cursor = Cursor(vectors: seq<seq<byte>>, vector: nat, cnt: nat, off: nat, len: nat, offset: nat,
                           accepted: seq<byte>)

  // What TCP answers in one round of the loop: tcp_sndbuf, and the result of tcp_write.
  datatype Round = Round(sndbuf: nat, result: Err)

  predicate GoodRound(r: Round) {
    r.sndbuf <= 0xFFFF && r.result in {ERR_OK, ERR_MEM, ERR_CONN, ERR_VAL}
  }

  predicate NonEmpty(vectors: seq<seq<byte>>) {
    vectors != [] && forall i :: 0 <= i < |vectors| ==> vectors[i] != []
  }

  // The bytes accepted are the finished vectors and the start of the current one.
  ghost predicate GoodCursor(c: Cursor) {
    && NonEmpty(c.vectors) && c.len == |Flat(c.vectors)|
    && c.vector + c.cnt == |c.vectors| - (if c.cnt == 0 then 1 else 0)
    && c.off <= |c.vectors[c.vector]| && (c.off == |c.vectors[c.vector]| <==> c.cnt == 0)
    && c.accepted == Flat(c.vectors[..c.vector]) + c.vectors[c.vector][..c.off]
    && c.offset == |Flat(c.vectors[..c.vector])| + c.off
  }

  // What a good cursor means: the ranges accepted so far are a prefix of the concatenated vectors, of
  // length offset, which is the length of the finished vectors plus vector_off; and all of it was
  // accepted exactly if no vector is left.
  lemma CursorMeans(c: Cursor)
    requires GoodCursor(c)
    ensures c.accepted <= Flat(c.vectors) && c.offset == |c.accepted| <= c.len
    ensures c.offset == |Flat(c.vectors[..c.vector])| + c.off
    ensures c.offset == c.len <==> c.cnt == 0
    ensures c.cnt == 0 ==> c.accepted == Flat(c.vectors)
  {
    FlatStep(c.vectors, c.vector);
    FlatPrefix(c.vectors, c.vector + 1);
    assert c.vectors[c.vector] == c.vectors[c.vector][..c.off] + c.vectors[c.vector][c.off..];
    if c.cnt == 0 {
      assert c.vectors[..c.vector + 1] == c.vectors;
    }
  }

  lemma Accepted(before: seq<byte>, v: seq<byte>, off: nat, n: nat)
    requires off + n <= |v|
    ensures before + v[..off] + v[off..off + n] == before + v[..off + n]
  {
  }

  // The cursor once n more bytes were accepted.
  method Advance(c: Cursor, n: nat) returns (d: Cursor)
    requires GoodCursor(c) && 0 < c.cnt && c.off + n <= |c.vectors[c.vector]|
    ensures GoodCursor(d) && d.vectors == c.vectors && d.offset == c.offset + n
    ensures d.cnt == if c.off + n == |c.vectors[c.vector]| then c.cnt - 1 else c.cnt
    ensures n == 0 ==> d == c
    ensures d.accepted == c.accepted + c.vectors[c.vector][c.off..c.off + n]
  {
    hide Flat;
    d := c.(offset := c.offset + n, off := c.off + n,
            accepted := c.accepted + c.vectors[c.vector][c.off..c.off + n]);
    Accepted(Flat(c.vectors[..c.vector]), c.vectors[c.vector], c.off, n);
    if d.off == |d.vectors[d.vector]| {
      FlatStep(c.vectors, c.vector);
      assert c.vectors[c.vector][..d.off] == c.vectors[c.vector];
      d := d.(cnt := d.cnt - 1);
      if d.cnt > 0 {
        d := d.(vector := d.vector + 1, off := 0);
      }
    }
  }

  // A positive multiple of 0x10000 bytes is left in a vector that is not the last one.
  predicate Spins(c: Cursor)
    requires c.vector < |c.vectors|
  {
    1 < c.cnt && (|c.vectors[c.vector]| - c.off) % 0x10000 == 0
  }

  // What is left of the vector that is being written, as far as one call of tcp_write can take it.
  function Piece(c: Cursor): nat
    requires c.vector < |c.vectors| && c.off <= |c.vectors[c.vector]|
  {
    Min(0xFFFF, |c.vectors[c.vector]| - c.off)
  }

  // One round of the loop of lwip_netconn_do_writemore.  noRoom stands for the jump to err_mem.
  method WriteRound(c: Cursor, dontblock: bool, r: Round) returns (d: Cursor, err: Err, more: bool, noRoom: bool)
    requires GoodCursor(c) && 0 < c.cnt && GoodRound(r)
    ensures GoodCursor(d) && d.vectors == c.vectors && c.accepted <= d.accepted && c.offset <= d.offset
    ensures noRoom <==> dontblock && r.sndbuf == 0
    ensures noRoom ==> d == c && !more && err == if c.offset == 0 then ERR_WOULDBLOCK else ERR_OK
    ensures !noRoom ==> err == r.result && (err != ERR_OK ==> d == c && !more)
    // as much as there is room for is written, and if room is left it goes on until nothing is left to write
    ensures !noRoom && err == ERR_OK ==> d.offset == c.offset + Min(r.sndbuf, Piece(c))
    ensures err == ERR_OK && Piece(c) <= r.sndbuf ==> (more <==> 0 < d.cnt)
    ensures r.sndbuf < Piece(c) ==>
              (more <==> !noRoom && err == ERR_OK && 1 < c.cnt && (|c.vectors[c.vector]| - c.off) % 0x10000 == r.sndbuf)
    ensures more ==> 0 < d.cnt
    ensures r.sndbuf == 0 ==> d == c
    // a blocking write goes round again without having written anything
    ensures more && d.offset == c.offset <==> !dontblock && r.sndbuf == 0 && err == ERR_OK && Spins(c)
  {
    d, more, noRoom := c, false, false;
    var diff := |c.vectors[c.vector]| - c.off;
    var len := if diff > 0xFFFF then 0xFFFF else diff;
    var available := r.sndbuf;
    if available < len {
      len := available;
      if dontblock {
        if len == 0 {
          err, noRoom := if c.offset == 0 then ERR_WOULDBLOCK else ERR_OK, true;
          return;
        }
      }
    }
    more := (len == 0xFFFF && diff > 0xFFFF) || (len == diff % 0x10000 && c.cnt > 1);
    err := r.result;
    if err == ERR_OK {
      d := Advance(c, len);
    }
    more := more && err == ERR_OK;
  }

  // What the first answer of TCP leads to.
  ghost predicate FirstRound(c: Cursor, dontblock: bool, r: Round, outRte: bool, d: Cursor, o: Outcome) {
    && (r.sndbuf == 0 && dontblock ==> d == c && o.finished)
    && (r.sndbuf == 0 && dontblock && c.offset == 0 ==> o.err == ERR_WOULDBLOCK)
    && (0 < r.sndbuf && r.result == ERR_OK ==> c.offset < d.offset)
    && (r.result != ERR_OK && !(r.sndbuf == 0 && dontblock) ==>
          && d == c && !o.looping
          && if r.result == ERR_MEM then o.finished <==> outRte || dontblock else o.finished && o.err == r.result)
  }

  // What comes of the last round of the loop; offset is what is written by then.
  function LastAnswer(dontblock: bool, r: Round, offset: nat): Err {
    if dontblock && r.sndbuf == 0 then (if offset == 0 then ERR_WOULDBLOCK else ERR_OK) else r.result
  }

  // Every one of the first n rounds could go on.
  predicate WentWell(dontblock: bool, rounds: seq<Round>, n: nat)
    requires n <= |rounds|
  {
    forall k :: 0 <= k < n ==> rounds[k].result == ERR_OK && (dontblock ==> 0 < rounds[k].sndbuf)
  }

  // The call uses n rounds, all of which go well but the last, which decides.  Without a route the answer is
  // ERR_RTE; a write that must not block is answered in any case, with ERR_WOULDBLOCK if nothing was written;
  // and one that may waits as long as something is left to write, unless TCP reports something else than
  // that memory is short.
  ghost predicate Ends(dontblock: bool, rounds: seq<Round>, outRte: bool, n: nat, d: Cursor, o: Outcome)
    requires n <= |rounds|
  {
    if o.looping then n == |rounds| && WentWell(dontblock, rounds, n) && !o.finished
    else
      && 0 < n && WentWell(dontblock, rounds, n - 1)
      && match LastAnswer(dontblock, rounds[n - 1], d.offset)
         case ERR_OK => (o.finished <==> outRte || dontblock || d.offset == d.len)
                        && (o.finished ==> o.err == if outRte then ERR_RTE else ERR_OK)
         case ERR_MEM => (o.finished <==> outRte || dontblock)
                         && (o.finished ==> o.err == if outRte then ERR_RTE
                                                     else if d.offset == 0 then ERR_WOULDBLOCK else ERR_OK)
         case e => o.finished && o.err == e
  }

  // How the call ends: with an answer to the application, or waiting for TCP, or looping if the rounds
  // did not suffice to leave the loop.
  datatype Outcome = Outcome(finished: bool, err: Err, looping: bool)

  // What a call of lwip_netconn_do_writemore does, rounds being what TCP answers and outRte whether
  // tcp_output finds no route.
  ghost predicate Wrote(c: Cursor, dontblock: bool, rounds: seq<Round>, outRte: bool, d: Cursor, o: Outcome)
    requires GoodCursor(c)
  {
    && GoodCursor(d) && d.vectors == c.vectors && c.accepted <= d.accepted
    && (if rounds == [] then d == c && o.looping else FirstRound(c, dontblock, rounds[0], outRte, d, o))
    && (o.looping ==> !o.finished && d.offset < d.len)
    // the loop ends if there is always room
    && (o.looping && AlwaysRoom(rounds, 1) ==> |rounds| < c.len - c.offset)
    // and writes everything if there is enough
    && (!o.looping && AlwaysRoom(rounds, Enough(c)) && AllOk(rounds) ==> o.finished && d.offset == d.len)
    // and never more than there is room for
    && d.offset <= c.offset + Room(rounds)
    && (exists n: nat :: n <= |rounds| && Ends(dontblock, rounds, outRte, n, d, o))
    // a write that ends with ERR_OK has written everything, or something if it must not block
    && (o.finished && o.err == ERR_OK ==> if dontblock then 0 < d.offset else d.offset == d.len)
    && (o.finished && o.err == ERR_WOULDBLOCK ==> dontblock && d.offset == 0)
    && (o.finished ==> o.err != ERR_MEM)
    // a write that goes on waiting may block and has something left to write
    && (!o.finished && !o.looping ==> !dontblock && d.offset < d.len)
    // with the send buffer full it leaves the loop unless it makes no progress
    && (rounds != [] && Full(rounds) ==> d == c && (o.looping <==> !dontblock && Spins(c)))
  }

  // Room for all that is left to write, as far as one call of tcp_write can take it.
  function Enough(c: Cursor): int {
    if c.len - c.offset < 0xFFFF then c.len - c.offset else 0xFFFF
  }

  predicate AlwaysRoom(rounds: seq<Round>, room: int) {
    forall k :: 0 <= k < |rounds| ==> room <= rounds[k].sndbuf
  }

  function Room(rounds: seq<Round>): nat {
    if rounds == [] then 0 else Room(rounds[..|rounds| - 1]) + rounds[|rounds| - 1].sndbuf
  }

  predicate AllOk(rounds: seq<Round>) {
    forall k :: 0 <= k < |rounds| ==> rounds[k].result == ERR_OK
  }

  predicate Full(rounds: seq<Round>) {
    forall k :: 0 <= k < |rounds| ==> rounds[k] == Round(0, ERR_OK)
  }

  // The first round leaves the loop if nothing can be written, and otherwise writes something.
  ghost predicate LeftAtOnce(c: Cursor, dontblock: bool, r: Round, d: Cursor, err: Err, looping: bool) {
    if r.sndbuf == 0 && dontblock then
      d == c && !looping && err == if c.offset == 0 then ERR_WOULDBLOCK else ERR_OK
    else if r.result != ERR_OK then d == c && !looping && err == r.result
    else 0 < r.sndbuf ==> c.offset < d.offset
  }

  lemma PieceLeft(c: Cursor, d: Cursor)
    requires GoodCursor(c) && GoodCursor(d) && d.vectors == c.vectors && c.offset <= d.offset && 0 < d.cnt
    ensures 0 < Piece(d) <= Enough(c)
  {
    FlatStep(d.vectors, d.vector);
    FlatPrefix(d.vectors, d.vector + 1);
  }

  lemma RoomStep(rounds: seq<Round>, k: nat)
    requires k < |rounds|
    ensures Room(rounds[..k + 1]) == Room(rounds[..k]) + rounds[k].sndbuf
  {
    assert rounds[..k + 1][..k] == rounds[..k];
  }

  lemma NoRounds(dontblock: bool, rounds: seq<Round>, d: Cursor)
    ensures Room(rounds[..0]) == 0 && SoManyRounds(dontblock, rounds, 0, d, ERR_OK, true)
  {
  }

  lemma {:induction false} OnlyRounds(rounds: seq<Round>, k: nat)
    requires k <= |rounds|
    ensures Room(rounds[..k]) <= Room(rounds)
    decreases |rounds|
  {
    if k < |rounds| {
      assert rounds[..|rounds| - 1][..k] == rounds[..k];
      OnlyRounds(rounds[..|rounds| - 1], k);
    } else {
      assert rounds[..k] == rounds;
    }
  }

  ghost predicate SoManyRounds(dontblock: bool, rounds: seq<Round>, k: nat, d: Cursor, err: Err, looping: bool)
    requires k <= |rounds|
  {
    if looping then WentWell(dontblock, rounds, k)
    else 0 < k && WentWell(dontblock, rounds, k - 1) && err == LastAnswer(dontblock, rounds[k - 1], d.offset)
  }

  lemma OneMoreRound(dontblock: bool, rounds: seq<Round>, k: nat, was: Cursor, before: Err, d: Cursor,
                     err: Err, looping: bool)
    requires k < |rounds| && SoManyRounds(dontblock, rounds, k, was, before, true)
    requires err == LastAnswer(dontblock, rounds[k], d.offset)
    requires looping ==> rounds[k].result == ERR_OK && !(dontblock && rounds[k].sndbuf == 0)
    ensures SoManyRounds(dontblock, rounds, k + 1, d, err, looping)
  {
  }

  ghost predicate NoneWritten(c: Cursor, dontblock: bool, rounds: seq<Round>, k: nat, d: Cursor, looping: bool)
    requires GoodCursor(c)
  {
    Full(rounds) ==> d == c && (0 < k ==> (looping <==> !dontblock && Spins(c)))
  }

  // The loop of lwip_netconn_do_writemore.
  method WriteRounds(c: Cursor, dontblock: bool, rounds: seq<Round>)
    returns (d: Cursor, err: Err, looping: bool, ghost k: nat)
    requires GoodCursor(c) && 0 < c.cnt && forall k :: 0 <= k < |rounds| ==> GoodRound(rounds[k])
    ensures GoodCursor(d) && d.vectors == c.vectors && c.accepted <= d.accepted && c.offset <= d.offset
    ensures looping ==> 0 < d.cnt
    ensures rounds == [] ==> d == c && looping
    ensures rounds != [] ==> LeftAtOnce(c, dontblock, rounds[0], d, err, looping)
    ensures looping && AlwaysRoom(rounds, 1) ==> |rounds| <= d.offset - c.offset
    ensures !looping && AlwaysRoom(rounds, Enough(c)) && AllOk(rounds) ==> d.cnt == 0
    ensures d.offset <= c.offset + Room(rounds)
    ensures k <= |rounds| && (looping ==> k == |rounds|) && SoManyRounds(dontblock, rounds, k, d, err, looping)
    ensures !looping && err == ERR_OK && dontblock ==> 0 < d.offset
    ensures !looping ==> err in {ERR_OK, ERR_MEM, ERR_WOULDBLOCK, ERR_CONN, ERR_VAL}
    ensures !looping && err == ERR_WOULDBLOCK ==> dontblock && d.offset == 0
    ensures !looping && err == ERR_MEM ==> 0 < d.cnt
    ensures !looping && AlwaysRoom(rounds, Enough(c)) && AllOk(rounds) ==> err == ERR_OK
    ensures rounds != [] && Full(rounds) ==> d == c && (looping <==> !dontblock && Spins(c))
  {
    hide SoManyRounds, Room, GoodCursor;
    d, err, looping := c, ERR_OK, true;
    var i, noRoom := 0, false;
    k := 0;
    NoRounds(dontblock, rounds, d);
    while looping && i < |rounds|
      invariant 0 <= i == k <= |rounds| && (k == 0 ==> looping && d == c && err == ERR_OK)
      invariant SoManyRounds(dontblock, rounds, k, d, err, looping)
      invariant GoodCursor(d) && d.vectors == c.vectors && c.accepted <= d.accepted && c.offset <= d.offset
      invariant looping ==> 0 < d.cnt
      invariant 0 < k ==> LeftAtOnce(c, dontblock, rounds[0], d, err, looping)
      invariant AlwaysRoom(rounds, 1) && looping ==> k <= d.offset - c.offset
      invariant AlwaysRoom(rounds, Enough(c)) && AllOk(rounds) ==> err == ERR_OK && (looping || d.cnt == 0)
      invariant d.offset <= c.offset + Room(rounds[..k])
      invariant !looping && err == ERR_OK && dontblock ==> 0 < d.offset
      invariant err in {ERR_OK, ERR_MEM, ERR_WOULDBLOCK, ERR_CONN, ERR_VAL}
      invariant err == ERR_WOULDBLOCK ==> dontblock && d.offset == 0
      invariant err == ERR_MEM ==> 0 < d.cnt
      invariant NoneWritten(c, dontblock, rounds, k, d, looping)
      decreases |rounds| - i
    {
      ghost var was, before := d, err;
      PieceLeft(c, was);
      RoomStep(rounds, k);
      d, err, looping, noRoom := WriteRound(d, dontblock, rounds[i]);
      OneMoreRound(dontblock, rounds, k, was, before, d, err, looping);
      i, k := i + 1, k + 1;
    }
    OnlyRounds(rounds, k);
  }

  // What the last part of lwip_netconn_do_writemore makes of it.
  ghost function LastPart(dontblock: bool, outRte: bool, d: Cursor, err: Err, looping: bool): Outcome {
    if looping then Outcome(false, err, true)
    else
      match err
      case ERR_OK => Outcome(outRte || dontblock || d.offset == d.len, if outRte then ERR_RTE else ERR_OK, false)
      case ERR_MEM => Outcome(outRte || dontblock, if outRte then ERR_RTE else if !dontblock then ERR_MEM
                                                   else if d.offset == 0 then ERR_WOULDBLOCK else ERR_OK, false)
      case _ => Outcome(true, err, false)
  }

  lemma Enders(dontblock: bool, rounds: seq<Round>, outRte: bool, k: nat, d: Cursor, err: Err, looping: bool)
    requires k <= |rounds| && (looping ==> k == |rounds|) && SoManyRounds(dontblock, rounds, k, d, err, looping)
    ensures Ends(dontblock, rounds, outRte, k, d, LastPart(dontblock, outRte, d, err, looping))
  {
  }

  lemma SameLen(c: Cursor, d: Cursor)
    requires GoodCursor(c) && GoodCursor(d) && d.vectors == c.vectors
    ensures d.len == c.len
  {
  }

  // lwip_netconn_do_writemore without its last part
  method WriteMore(c: Cursor, dontblock: bool, rounds: seq<Round>, outRte: bool)
    returns (d: Cursor, finished: bool, err: Err, looping: bool)
    requires GoodCursor(c) && c.offset < c.len && forall k :: 0 <= k < |rounds| ==> GoodRound(rounds[k])
    ensures Wrote(c, dontblock, rounds, outRte, d, Outcome(finished, err, looping))
  {
    hide GoodCursor, SoManyRounds, AlwaysRoom, AllOk, Full, Spins, Ends, Room;
    CursorMeans(c);
    ghost var k;
    d, err, looping, k := WriteRounds(c, dontblock, rounds);
    CursorMeans(d);
    SameLen(c, d);
    Enders(dontblock, rounds, outRte, k, d, err, looping);
    finished := false;
    if looping {
      return;
    }
    if err == ERR_OK {
      if d.offset == d.len || dontblock {
        finished := true;
      }
      if outRte {
        err, finished := ERR_RTE, true;
      }
    } else if err == ERR_MEM {
      if outRte {
        err, finished := ERR_RTE, true;
      } else if dontblock {
        err, finished := if d.offset == 0 then ERR_WOULDBLOCK else ERR_OK, true;
      }
    } else {
      finished := true;
    }
  }

  // The cursor of a new request.
  function Beginning(vectors: seq<seq<byte>>): Cursor {
    Cursor(vectors, 0, |vectors|, 0, |Flat(vectors)|, 0, [])
  }

  method Start(vectors: seq<seq<byte>>) returns (w: Cursor)
    requires NonEmpty(vectors)
    ensures GoodCursor(w) && w == Beginning(vectors) && 0 < w.len
  {
    w := Cursor(vectors, 0, |vectors|, 0, |Flat(vectors)|, 0, []);
    FlatStep(vectors, 0);
    FlatPrefix(vectors, 1);
  }

  // A blocking write of 0x10000 bytes and one byte while the send buffer is full: however often TCP
  // answers, the call is still in its loop and has written nothing.
  method NeverLeaves(rounds: nat, outRte: bool) returns (c: Cursor, d: Cursor, looping: bool)
    ensures |c.vectors| == 2 && |c.vectors[0]| == 0x10000 && |c.vectors[1]| == 1
    ensures looping && d == c && d.accepted == []
  {
    c := Start([seq(0x10000, i => 0), [1]]);
    var finished, err;
    var full := seq(rounds, i => Round(0, ERR_OK));
    d, finished, err, looping := WriteMore(c, false, full, outRte);
  }

  // ---------------------------------------------------------------- netconn_write_vectors_partly

  // What the application asks for becomes a request, or an answer at once: the lengths may overflow a
  // size_t, or sum up to nothing, or exceed what the socket layer can report.
  method SetUp(vectors: seq<seq<byte>>, dontblock: bool, reports: bool) returns (answer: Err, asks: bool, len: nat)
    requires forall i :: 0 <= i < |vectors| ==> |vectors[i]| <= SIZE_MAX
    ensures asks ==> 0 < len <= SSIZE_MAX && len == if |Flat(vectors)| > SSIZE_MAX then SSIZE_MAX else |Flat(vectors)|
    ensures !asks ==> answer == if (dontblock && !reports) || |Flat(vectors)| != 0 then ERR_VAL else ERR_OK
    ensures asks <==> !(dontblock && !reports) && 0 < |Flat(vectors)| <= SIZE_MAX
                      && (|Flat(vectors)| <= SSIZE_MAX || reports)
  {
    answer, asks, len := ERR_VAL, false, 0;
    if dontblock && !reports {
      return;
    }
    for i := 0 to |vectors|
      invariant len == |Flat(vectors[..i])| <= SIZE_MAX
    {
      FlatStep(vectors, i);
      FlatPrefix(vectors, i + 1);
      var size := (len + |vectors[i]|) % (SIZE_MAX + 1);
      if size < |vectors[i]| {
        return;
      }
      len := size;
    }
    assert vectors[..|vectors|] == vectors;
    if len == 0 {
      return ERR_OK, false, 0;
    }
    if len > SSIZE_MAX {
      if !reports {
        return;
      }
      len := SSIZE_MAX;
    }
    asks := true;
  }
}
