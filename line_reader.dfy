/** input and mmap_realloc (part2/shell2.c): the mmap variant reads a line
    into a buffer of its own that starts at 4096 bytes and grows by 4096
    bytes at a time. The descriptor is a list of the replies read() will
    give, and each mmap call is answered by an allocator oracle. */
module LineReader {
  import opened Wrappers
  import opened CStrings

  /** dl: the first capacity of the buffer and the size of every growth. */
  const Increment: nat := 4096

  /** One answer of read(): some bytes (none at end of file) or an error. A
      reply longer than the span asked for is delivered over several reads. */
  datatype ReadReply = Bytes(data: seq<byte>) | ReadError

  /** What one read call returns (None for -1) and the replies left. */
  datatype ReadResult = ReadResult(got: Option<seq<byte>>, rest: seq<ReadReply>)

  /** read(fildes, buf, rl): the next reply, cut to rl bytes; with no reply
      left the descriptor is at end of file and 0 bytes are read. */
  function Read(replies: seq<ReadReply>, rl: nat): (r: ReadResult)
    ensures r.got.Some? ==> |r.got.value| <= rl
  {
    if replies == [] then ReadResult(Some([]), [])
    else match replies[0]
      case ReadError => ReadResult(None, replies[1..])
      case Bytes(d) =>
        if |d| <= rl then ReadResult(Some(d), replies[1..])
        else ReadResult(Some(d[..rl]), [Bytes(d[rl..])] + replies[1..])
  }

  /** The bytes still to be read, plus one per reply. */
  function Weight(replies: seq<ReadReply>): nat {
    if replies == [] then 0
    else (match replies[0] case ReadError => 1 case Bytes(d) => |d| + 1) + Weight(replies[1..])
  }

  /** A read consumes at least the bytes it delivers. */
  lemma ReadWeight(replies: seq<ReadReply>, rl: nat)
    ensures var r := Read(replies, rl);
      Weight(r.rest) + (if r.got.Some? then |r.got.value| else 0) <= Weight(replies)
  {
    if replies != [] && replies[0].Bytes? && |replies[0].data| > rl {
      var t := [Bytes(replies[0].data[rl..])] + replies[1..];
      assert t[1..] == replies[1..];
    }
  }

  /** The answer of an mmap call for the next 4096 bytes: a block right
      after the buffer, a block elsewhere (mmap_realloc then moves the buffer
      into a fresh region), or MAP_FAILED. */
  datatype Grant = Adjacent | Elsewhere | MapFailed

  /** Why the read loop stopped: the line is complete, a read failed, or an
      mmap failed (the process then exits with status 1). */
  datatype Stop = Complete | ReadFailed | OutOfMemory

  /** The state the read loop leaves: the buffer's bytes, the replies left,
      the number of mmap calls made, and the bytes read, in order. */
  datatype LoopEnd = LoopEnd(content: seq<byte>, rest: seq<ReadReply>, allocs: nat,
                             delivered: seq<byte>, stop: Stop)

  /** content with d written over it at off. */
  function Overwrite(content: seq<byte>, off: nat, d: seq<byte>): (r: seq<byte>)
    requires off + |d| <= |content|
    ensures |r| == |content|
  {
    content[..off] + d + content[off + |d|..]
  }

  lemma OverwriteAt(content: seq<byte>, off: nat, d: seq<byte>)
    requires off + |d| <= |content|
    ensures forall j :: 0 <= j < |content| ==>
      Overwrite(content, off, d)[j] == if off <= j < off + |d| then d[j - off] else content[j]
  {
  }

  /** Whether the read loop goes on after reading d into a span of rl bytes:
      the read filled the span and its last byte is neither NUL nor newline. */
  predicate Continues(d: seq<byte>, rl: nat) {
    0 < rl == |d| && d[rl - 1] != NulByte && d[rl - 1] != NewlineByte
  }

  /** The buffer after a successful growth by 4096 zero bytes: extended in
      place, or moved with strncpy by mmap_realloc. */
  function Grown(filled: seq<byte>, g: Grant): (r: seq<byte>)
    requires !g.MapFailed?
    ensures |r| == |filled| + Increment
  {
    if g.Adjacent? then filled + Zeros(Increment) else Strncpy(filled) + Zeros(Increment)
  }

  function Prepend(d: seq<byte>, e: LoopEnd): LoopEnd {
    e.(delivered := d + e.delivered)
  }

  /** The read loop of input, from the point where the next read targets
      content[off..]: it stops after a failed read, after a read that does
      not continue the line (the line is complete), or when an mmap fails;
      otherwise the buffer grows and the next read targets the new block. */
  function Fill(content: seq<byte>, off: nat, replies: seq<ReadReply>, alloc: nat -> Grant, allocs: nat): LoopEnd
    requires off < |content|
    decreases Weight(replies)
  {
    var r := Read(replies, |content| - off);
    if r.got.None? then LoopEnd(content, r.rest, allocs, [], ReadFailed)
    else if !Continues(r.got.value, |content| - off) then
      LoopEnd(Overwrite(content, off, r.got.value), r.rest, allocs, r.got.value, Complete)
    else if alloc(allocs).MapFailed? then
      LoopEnd(Overwrite(content, off, r.got.value), r.rest, allocs + 1, r.got.value, OutOfMemory)
    else
      ReadWeight(replies, |content| - off);
      Prepend(r.got.value,
        Fill(Grown(Overwrite(content, off, r.got.value), alloc(allocs)), |content|, r.rest, alloc, allocs + 1))
  }

  /** Whether the read at off continues the line and the next mmap succeeds,
      so that the loop goes round once more. */
  predicate Grows(content: seq<byte>, off: nat, replies: seq<ReadReply>, alloc: nat -> Grant, allocs: nat)
    requires off < |content|
  {
    var r := Read(replies, |content| - off);
    r.got.Some? && Continues(r.got.value, |content| - off) && !alloc(allocs).MapFailed?
  }

  /** The three ways the read loop ends, unfolded. */
  lemma FillEnds(content: seq<byte>, off: nat, replies: seq<ReadReply>, alloc: nat -> Grant, allocs: nat)
    requires off < |content| && !Grows(content, off, replies, alloc, allocs)
    ensures var r := Read(replies, |content| - off);
      var e := Fill(content, off, replies, alloc, allocs);
      && (r.got.None? ==> e == LoopEnd(content, r.rest, allocs, [], ReadFailed))
      && (r.got.Some? && !Continues(r.got.value, |content| - off) ==>
            e == LoopEnd(Overwrite(content, off, r.got.value), r.rest, allocs, r.got.value, Complete))
      && (r.got.Some? && Continues(r.got.value, |content| - off) ==>
            e == LoopEnd(Overwrite(content, off, r.got.value), r.rest, allocs + 1, r.got.value, OutOfMemory))
  {
  }

  /** One growth step of the read loop, unfolded: the bytes d read fill the
      span, and the loop goes on in next from the old end of the buffer. */
  lemma FillGrows(content: seq<byte>, off: nat, replies: seq<ReadReply>, alloc: nat -> Grant, allocs: nat)
    returns (d: seq<byte>, next: seq<byte>, rest: seq<ReadReply>)
    requires off < |content| && Grows(content, off, replies, alloc, allocs)
    ensures Read(replies, |content| - off) == ReadResult(Some(d), rest) && Continues(d, |content| - off)
    ensures !alloc(allocs).MapFailed? && next == Grown(Overwrite(content, off, d), alloc(allocs))
    ensures Overwrite(content, off, d) == content[..off] + d && |next| == |content| + Increment
    ensures Weight(rest) < Weight(replies)
    ensures Fill(content, off, replies, alloc, allocs) == Prepend(d, Fill(next, |content|, rest, alloc, allocs + 1))
  {
    var r := Read(replies, |content| - off);
    ReadWeight(replies, |content| - off);
    d, rest := r.got.value, r.rest;
    next := Grown(Overwrite(content, off, d), alloc(allocs));
  }

  /** The block added by a growth is all NUL bytes. */
  lemma GrownTail(filled: seq<byte>, g: Grant)
    requires !g.MapFailed?
    ensures forall j :: |filled| <= j < |filled| + Increment ==> Grown(filled, g)[j] == NulByte
  {
  }

  /** input(&input_line, &len, fd) on a buffer of capacity cap (0 while
      nothing is mapped): the first call maps 4096 bytes, then the whole
      buffer is zeroed and the loop reads into it from its start. */
  function InputSpec(cap: nat, replies: seq<ReadReply>, alloc: nat -> Grant, allocs: nat): LoopEnd {
    if cap == 0 then
      if alloc(allocs).MapFailed? then LoopEnd([], replies, allocs + 1, [], OutOfMemory)
      else Fill(Zeros(Increment), 0, replies, alloc, allocs + 1)
    else Fill(Zeros(cap), 0, replies, alloc, allocs)
  }

  /** The value input returns, with the string length bounded by the buffer
      (strnlen): -1 after a failed read, else the length of the string at
      the start of the buffer, never more than the capacity. */
  function Returned(e: LoopEnd): (n: int)
    ensures e.stop == ReadFailed <==> n == -1
    ensures n >= 0 ==> n <= |e.content| && NulByte !in e.content[..n]
    ensures 0 <= n < |e.content| ==> e.content[n] == NulByte
  {
    if e.stop == ReadFailed then -1 else |UntilNul(e.content)|
  }

  /** strlen(*s) as input is written: the length when the buffer holds a
      NUL, None when the scan would run past the end of the mapping. */
  function StrlenAsWritten(buf: seq<byte>): (r: Option<nat>)
    ensures r.Some? <==> NulByte in buf
    ensures r.Some? ==> r.value < |buf| && buf[r.value] == NulByte && NulByte !in buf[..r.value]
  {
    if NulByte in buf then Some(|UntilNul(buf)|) else None
  }

  /** The capacity stays a multiple of 4096 and grows by exactly 4096 per
      successful mmap. */
  lemma {:induction false} FillCapacity(content: seq<byte>, off: nat, replies: seq<ReadReply>,
                                        alloc: nat -> Grant, allocs: nat)
    requires off < |content| && |content| % Increment == 0
    ensures var e := Fill(content, off, replies, alloc, allocs);
      && e.allocs >= allocs + (if e.stop == OutOfMemory then 1 else 0)
      && |e.content| >= |content|
      && |e.content| % Increment == 0
      && |e.content| == |content| + Increment * (e.allocs - allocs - if e.stop == OutOfMemory then 1 else 0)
    decreases Weight(replies)
  {
    if Grows(content, off, replies, alloc, allocs) {
      var d, next, rest := FillGrows(content, off, replies, alloc, allocs);
      FillCapacity(next, |content|, rest, alloc, allocs + 1);
    } else {
      FillEnds(content, off, replies, alloc, allocs);
    }
  }

  /** What is read follows only from the capacity and the offset, not from
      the bytes already in the buffer, and only from which mmap calls fail,
      not from where they place the block. */
  lemma {:induction false} FillShape(c1: seq<byte>, c2: seq<byte>, off: nat, replies: seq<ReadReply>,
                                     alloc1: nat -> Grant, alloc2: nat -> Grant, allocs: nat)
    requires off < |c1| == |c2|
    requires forall j :: alloc1(j).MapFailed? == alloc2(j).MapFailed?
    ensures var e1 := Fill(c1, off, replies, alloc1, allocs);
      var e2 := Fill(c2, off, replies, alloc2, allocs);
      && e1.rest == e2.rest && e1.allocs == e2.allocs && e1.delivered == e2.delivered
      && e1.stop == e2.stop && |e1.content| == |e2.content|
    decreases Weight(replies)
  {
    var r := Read(replies, |c1| - off);
    assert Read(replies, |c2| - off) == r;
    assert alloc1(allocs).MapFailed? == alloc2(allocs).MapFailed?;
    if Grows(c1, off, replies, alloc1, allocs) {
      var d1, n1, rest1 := FillGrows(c1, off, replies, alloc1, allocs);
      var d2, n2, rest2 := FillGrows(c2, off, replies, alloc2, allocs);
      FillShape(n1, n2, |c1|, rest1, alloc1, alloc2, allocs + 1);
    } else {
      FillEnds(c1, off, replies, alloc1, allocs);
      FillEnds(c2, off, replies, alloc2, allocs);
    }
  }

  /** The string after a growth is read the same as the string before it,
      followed by whatever comes next. */
  lemma GrownString(filled: seq<byte>, g: Grant, tail: seq<byte>)
    requires !g.MapFailed?
    ensures UntilNul(Grown(filled, g)[..|filled|] + tail) == UntilNul(filled + tail)
  {
    StrncpyKeepsString(filled, tail);
    assert Grown(filled, g)[..|filled|] == if g.Adjacent? then filled else Strncpy(filled);
  }

  /** The string in the buffer is the string of the bytes read: whatever
      precedes off, followed by what the loop delivers. */
  lemma {:induction false} FillString(content: seq<byte>, off: nat, replies: seq<ReadReply>,
                                      alloc: nat -> Grant, allocs: nat)
    requires off < |content|
    requires forall j :: off <= j < |content| ==> content[j] == NulByte
    ensures var e := Fill(content, off, replies, alloc, allocs);
      UntilNul(e.content) == UntilNul(content[..off] + e.delivered)
    decreases Weight(replies), 1
  {
    if Grows(content, off, replies, alloc, allocs) {
      FillStringGrows(content, off, replies, alloc, allocs);
    } else {
      FillStringEnds(content, off, replies, alloc, allocs);
    }
  }

  lemma FillStringEnds(content: seq<byte>, off: nat, replies: seq<ReadReply>,
                       alloc: nat -> Grant, allocs: nat)
    requires off < |content| && !Grows(content, off, replies, alloc, allocs)
    requires forall j :: off <= j < |content| ==> content[j] == NulByte
    ensures var e := Fill(content, off, replies, alloc, allocs);
      UntilNul(e.content) == UntilNul(content[..off] + e.delivered)
  {
    FillEnds(content, off, replies, alloc, allocs);
    var r := Read(replies, |content| - off);
    var head := content[..off];
    var rl := |content| - off;
    if r.got.None? {
      assert content == head + Zeros(rl);
      UntilNulZeros(head, rl);
      assert head + [] == head;
    } else {
      var d := r.got.value;
      assert Overwrite(content, off, d) == head + d + Zeros(rl - |d|);
      UntilNulZeros(head + d, rl - |d|);
    }
  }

  lemma {:induction false} FillStringGrows(content: seq<byte>, off: nat, replies: seq<ReadReply>,
                                           alloc: nat -> Grant, allocs: nat)
    requires off < |content| && Grows(content, off, replies, alloc, allocs)
    requires forall j :: off <= j < |content| ==> content[j] == NulByte
    ensures var e := Fill(content, off, replies, alloc, allocs);
      UntilNul(e.content) == UntilNul(content[..off] + e.delivered)
    decreases Weight(replies), 0
  {
    var d, next, rest := FillGrows(content, off, replies, alloc, allocs);
    var filled := content[..off] + d;
    GrownTail(filled, alloc(allocs));
    FillString(next, |content|, rest, alloc, allocs + 1);
    var e' := Fill(next, |content|, rest, alloc, allocs + 1);
    GrownString(filled, alloc(allocs), e'.delivered);
    SeqAssoc(content[..off], d, e'.delivered);
  }

  lemma SeqAssoc(a: seq<byte>, b: seq<byte>, c: seq<byte>)
    ensures a + b + c == a + (b + c)
  {
  }

  /** With no NUL in anything read, the buffer ends up byte for byte the
      same whether each growth is adjacent or moved. */
  lemma {:induction false} FillNulFree(content: seq<byte>, off: nat, replies: seq<ReadReply>,
                                       alloc1: nat -> Grant, alloc2: nat -> Grant, allocs: nat)
    requires off < |content| && NulByte !in content[..off]
    requires forall j :: alloc1(j).MapFailed? == alloc2(j).MapFailed?
    ensures var e1 := Fill(content, off, replies, alloc1, allocs);
      NulByte !in e1.delivered ==> e1 == Fill(content, off, replies, alloc2, allocs)
    decreases Weight(replies), 1
  {
    if Grows(content, off, replies, alloc1, allocs) {
      FillNulFreeGrows(content, off, replies, alloc1, alloc2, allocs);
    } else {
      assert !Grows(content, off, replies, alloc2, allocs);
      FillEnds(content, off, replies, alloc1, allocs);
      FillEnds(content, off, replies, alloc2, allocs);
    }
  }

  lemma {:induction false} FillNulFreeGrows(content: seq<byte>, off: nat, replies: seq<ReadReply>,
                                            alloc1: nat -> Grant, alloc2: nat -> Grant, allocs: nat)
    requires off < |content| && NulByte !in content[..off]
    requires forall j :: alloc1(j).MapFailed? == alloc2(j).MapFailed?
    requires Grows(content, off, replies, alloc1, allocs)
    ensures var e1 := Fill(content, off, replies, alloc1, allocs);
      NulByte !in e1.delivered ==> e1 == Fill(content, off, replies, alloc2, allocs)
    decreases Weight(replies), 0
  {
    assert Grows(content, off, replies, alloc2, allocs);
    var d, n1, rest := FillGrows(content, off, replies, alloc1, allocs);
    var d2, n2, rest2 := FillGrows(content, off, replies, alloc2, allocs);
    var t1 := Fill(n1, |content|, rest, alloc1, allocs + 1);
    if NulByte !in d + t1.delivered {
      NulFreeParts(d, t1.delivered);
      GrownNulFree(content[..off] + d, alloc1(allocs), alloc2(allocs));
      FillNulFree(n1, |content|, rest, alloc1, alloc2, allocs + 1);
    }
  }

  lemma NulFreeParts(a: seq<byte>, b: seq<byte>)
    requires NulByte !in a + b
    ensures NulByte !in a && NulByte !in b
  {
    assert forall i :: 0 <= i < |a| ==> a[i] == (a + b)[i];
    assert forall i :: 0 <= i < |b| ==> b[i] == (a + b)[|a| + i];
  }

  /** A NUL-free buffer leaves nothing for strncpy to cut, so both kinds of
      growth agree. */
  lemma GrownNulFree(filled: seq<byte>, g1: Grant, g2: Grant)
    requires !g1.MapFailed? && !g2.MapFailed?
    requires NulByte !in filled
    ensures Grown(filled, g1) == Grown(filled, g2)
    ensures NulByte !in Grown(filled, g1)[..|filled|]
  {
    StrncpyKeepsString(filled, []);
    assert (filled + Zeros(Increment))[..|filled|] == filled;
  }

  /** A complete line leaves a NUL or a newline in the last byte of the buffer. */
  lemma {:induction false} FillStopsAtEnd(content: seq<byte>, off: nat, replies: seq<ReadReply>,
                                          alloc: nat -> Grant, allocs: nat)
    requires off < |content| && content[|content| - 1] == NulByte
    ensures var e := Fill(content, off, replies, alloc, allocs);
      e.stop == Complete ==>
        |e.content| > 0 && (e.content[|e.content| - 1] == NulByte || e.content[|e.content| - 1] == NewlineByte)
    decreases Weight(replies), 1
  {
    if Grows(content, off, replies, alloc, allocs) {
      FillStopsAtEndGrows(content, off, replies, alloc, allocs);
    } else {
      FillStopsAtEndEnds(content, off, replies, alloc, allocs);
    }
  }

  lemma {:induction false} FillStopsAtEndGrows(content: seq<byte>, off: nat, replies: seq<ReadReply>,
                                               alloc: nat -> Grant, allocs: nat)
    requires off < |content| && content[|content| - 1] == NulByte
    requires Grows(content, off, replies, alloc, allocs)
    ensures var e := Fill(content, off, replies, alloc, allocs);
      e.stop == Complete ==>
        |e.content| > 0 && (e.content[|e.content| - 1] == NulByte || e.content[|e.content| - 1] == NewlineByte)
    decreases Weight(replies), 0
  {
    var d, next, rest := FillGrows(content, off, replies, alloc, allocs);
    GrownTail(content[..off] + d, alloc(allocs));
    FillStopsAtEnd(next, |content|, rest, alloc, allocs + 1);
  }

  lemma FillStopsAtEndEnds(content: seq<byte>, off: nat, replies: seq<ReadReply>,
                           alloc: nat -> Grant, allocs: nat)
    requires off < |content| && content[|content| - 1] == NulByte
    requires !Grows(content, off, replies, alloc, allocs)
    ensures var e := Fill(content, off, replies, alloc, allocs);
      e.stop == Complete ==>
        |e.content| > 0 && (e.content[|e.content| - 1] == NulByte || e.content[|e.content| - 1] == NewlineByte)
  {
    FillEnds(content, off, replies, alloc, allocs);
    var r := Read(replies, |content| - off);
    if r.got.Some? && !Continues(r.got.value, |content| - off) {
      CompleteLastByte(content, off, r.got.value);
    }
  }

  lemma CompleteLastByte(content: seq<byte>, off: nat, d: seq<byte>)
    requires off + |d| <= |content| && off < |content|
    requires content[|content| - 1] == NulByte
    requires !Continues(d, |content| - off)
    ensures var c := Overwrite(content, off, d);
      c[|c| - 1] == NulByte || c[|c| - 1] == NewlineByte
  {
    var last := |content| - 1;
    OverwriteAt(content, off, d);
    assert Overwrite(content, off, d)[last] == if off + |d| == |content| then d[|d| - 1] else content[last];
  }

  /** The loop consumes at least the bytes it delivers. */
  lemma {:induction false} FillWeight(content: seq<byte>, off: nat, replies: seq<ReadReply>,
                                      alloc: nat -> Grant, allocs: nat)
    requires off < |content|
    ensures var e := Fill(content, off, replies, alloc, allocs);
      Weight(e.rest) + |e.delivered| <= Weight(replies)
    decreases Weight(replies)
  {
    if Grows(content, off, replies, alloc, allocs) {
      var d, next, rest := FillGrows(content, off, replies, alloc, allocs);
      ReadWeight(replies, |content| - off);
      FillWeight(next, |content|, rest, alloc, allocs + 1);
    } else {
      FillEnds(content, off, replies, alloc, allocs);
      ReadWeight(replies, |content| - off);
    }
  }

  /** The last of the first n mmap calls failed. */
  predicate LastFailed(alloc: nat -> Grant, n: nat) {
    n > 0 && alloc(n - 1).MapFailed?
  }

  /** The loop runs out of memory only at a failed mmap, the last one it
      made. */
  lemma {:induction false} FillOutOfMemory(content: seq<byte>, off: nat, replies: seq<ReadReply>,
                                           alloc: nat -> Grant, allocs: nat)
    requires off < |content|
    ensures var e := Fill(content, off, replies, alloc, allocs);
      && allocs <= e.allocs
      && (e.stop == OutOfMemory ==> allocs < e.allocs && LastFailed(alloc, e.allocs))
    decreases Weight(replies), 1
  {
    if Grows(content, off, replies, alloc, allocs) {
      FillOutOfMemoryGrows(content, off, replies, alloc, allocs);
    } else {
      FillOutOfMemoryEnds(content, off, replies, alloc, allocs);
    }
  }

  lemma {:induction false} FillOutOfMemoryGrows(content: seq<byte>, off: nat, replies: seq<ReadReply>,
                                                alloc: nat -> Grant, allocs: nat)
    requires off < |content| && Grows(content, off, replies, alloc, allocs)
    ensures var e := Fill(content, off, replies, alloc, allocs);
      && allocs <= e.allocs
      && (e.stop == OutOfMemory ==> allocs < e.allocs && LastFailed(alloc, e.allocs))
    decreases Weight(replies), 0
  {
    var next, rest := FillGrowsCounts(content, off, replies, alloc, allocs);
    FillOutOfMemory(next, |content|, rest, alloc, allocs + 1);
  }

  /** The growth step as far as the counts and the stop go. */
  lemma FillGrowsCounts(content: seq<byte>, off: nat, replies: seq<ReadReply>, alloc: nat -> Grant, allocs: nat)
    returns (next: seq<byte>, rest: seq<ReadReply>)
    requires off < |content| && Grows(content, off, replies, alloc, allocs)
    ensures |next| == |content| + Increment && Weight(rest) < Weight(replies)
    ensures var e := Fill(content, off, replies, alloc, allocs);
      var e' := Fill(next, |content|, rest, alloc, allocs + 1);
      e.allocs == e'.allocs && e.stop == e'.stop
  {
    var d;
    d, next, rest := FillGrows(content, off, replies, alloc, allocs);
  }

  lemma FillOutOfMemoryEnds(content: seq<byte>, off: nat, replies: seq<ReadReply>,
                            alloc: nat -> Grant, allocs: nat)
    requires off < |content| && !Grows(content, off, replies, alloc, allocs)
    ensures var e := Fill(content, off, replies, alloc, allocs);
      && allocs <= e.allocs
      && (e.stop == OutOfMemory ==> allocs < e.allocs && LastFailed(alloc, e.allocs))
  {
    FillEnds(content, off, replies, alloc, allocs);
    var e := Fill(content, off, replies, alloc, allocs);
    if e.stop == OutOfMemory {
      assert e.allocs - 1 == allocs;
    }
  }

  /** input ends the process only after an mmap that failed, the last one
      it made. */
  lemma InputOutOfMemory(cap: nat, replies: seq<ReadReply>, alloc: nat -> Grant, allocs: nat)
    ensures var e := InputSpec(cap, replies, alloc, allocs);
      && allocs <= e.allocs
      && (e.stop == OutOfMemory ==> allocs < e.allocs && LastFailed(alloc, e.allocs))
  {
    var e := InputSpec(cap, replies, alloc, allocs);
    if cap == 0 && alloc(allocs).MapFailed? {
      assert e.allocs - 1 == allocs;
    } else {
      var c := if cap == 0 then Increment else cap;
      var k := if cap == 0 then allocs + 1 else allocs;
      assert e == Fill(Zeros(c), 0, replies, alloc, k);
      FillOutOfMemory(Zeros(c), 0, replies, alloc, k);
    }
  }

  /** The properties of the read loop started on a zeroed buffer. */
  lemma FillFromZeros(cap: nat, replies: seq<ReadReply>, alloc: nat -> Grant, allocs: nat)
    requires 0 < cap && cap % Increment == 0
    ensures var e := Fill(Zeros(cap), 0, replies, alloc, allocs);
      && 0 < cap <= |e.content| && |e.content| % Increment == 0
      && UntilNul(e.content) == UntilNul(e.delivered)
      && Weight(e.rest) + |e.delivered| <= Weight(replies)
  {
    var c := Zeros(cap);
    var e := Fill(c, 0, replies, alloc, allocs);
    assert c[..0] == [];
    FillCapacity(c, 0, replies, alloc, allocs);
    FillString(c, 0, replies, alloc, allocs);
    FillWeight(c, 0, replies, alloc, allocs);
    assert [] + e.delivered == e.delivered;
  }

  /** What input leaves and returns: the capacity is a positive multiple of
      4096 unless the first mmap failed, the string in the buffer is the
      string of the bytes read, and a positive result means bytes were
      consumed. */
  lemma InputProperties(cap: nat, replies: seq<ReadReply>, alloc: nat -> Grant, allocs: nat)
    requires cap % Increment == 0
    ensures var e := InputSpec(cap, replies, alloc, allocs);
      && (|e.content| == 0 <==> cap == 0 && alloc(allocs).MapFailed?)
      && |e.content| % Increment == 0
      && |e.content| >= cap
      && UntilNul(e.content) == UntilNul(e.delivered)
      && Weight(e.rest) + |e.delivered| <= Weight(replies)
      && (Returned(e) > 0 ==> Weight(e.rest) < Weight(replies))
  {
    var e := InputSpec(cap, replies, alloc, allocs);
    if cap == 0 && alloc(allocs).MapFailed? {
      assert e == LoopEnd([], replies, allocs + 1, [], OutOfMemory);
    } else {
      if cap == 0 {
        FillFromZeros(Increment, replies, alloc, allocs + 1);
      } else {
        FillFromZeros(cap, replies, alloc, allocs);
      }
      if Returned(e) > 0 {
        assert |UntilNul(e.delivered)| > 0;
      }
    }
  }

  /** Where each growth lands does not matter: two allocators that fail on
      the same calls give the same capacity, replies, status and bytes read,
      the same string in the buffer, and the very same buffer when nothing
      read was a NUL. */
  lemma ContiguityIrrelevant(cap: nat, replies: seq<ReadReply>, alloc1: nat -> Grant,
                             alloc2: nat -> Grant, allocs: nat)
    requires cap % Increment == 0
    requires forall j :: alloc1(j).MapFailed? == alloc2(j).MapFailed?
    ensures var e1 := InputSpec(cap, replies, alloc1, allocs);
      var e2 := InputSpec(cap, replies, alloc2, allocs);
      && e1.rest == e2.rest && e1.allocs == e2.allocs && e1.stop == e2.stop
      && e1.delivered == e2.delivered && |e1.content| == |e2.content|
      && UntilNul(e1.content) == UntilNul(e2.content)
      && Returned(e1) == Returned(e2)
      && (NulByte !in e1.delivered ==> e1 == e2)
  {
    InputProperties(cap, replies, alloc1, allocs);
    InputProperties(cap, replies, alloc2, allocs);
    if !(cap == 0 && alloc1(allocs).MapFailed?) {
      var c := if cap == 0 then Zeros(Increment) else Zeros(cap);
      var k := if cap == 0 then allocs + 1 else allocs;
      assert c[..0] == [];
      FillShape(c, c, 0, replies, alloc1, alloc2, k);
      FillNulFree(c, 0, replies, alloc1, alloc2, k);
    }
  }

  /** The overrun: a 4096-byte buffer filled by one read of 4095 'a' and a
      newline holds no NUL, so strlen runs past the mapping, while the
      bounded length is the full capacity. */
  lemma OverrunWitness()
    ensures var line := seq(Increment, i => if i < Increment - 1 then 97 as byte else NewlineByte);
      var e := InputSpec(Increment, [Bytes(line)], _ => Adjacent, 0);
      && e.stop == Complete
      && StrlenAsWritten(e.content) == None
      && Returned(e) == Increment
  {
    var line := seq(Increment, i => if i < Increment - 1 then 97 as byte else NewlineByte);
    var e := InputSpec(Increment, [Bytes(line)], _ => Adjacent, 0);
    assert Overwrite(Zeros(Increment), 0, line) == line;
    assert e.content == line;
    assert forall i :: 0 <= i < |line| ==> line[i] != NulByte;
    UntilNulOfNulFree(line);
  }

  /** What input hands back to its caller. */
  datatype InputResult = Got(n: int) | Exited(status: int)

  /** memset(a + from, 0, a.Length - from). */
  method Zero(a: array<byte>, from: nat)
    requires from <= a.Length
    modifies a
    ensures a[..] == old(a[..from]) + Zeros(a.Length - from)
  {
    var i := from;
    while i < a.Length
      invariant from <= i <= a.Length
      invariant forall j :: 0 <= j < a.Length ==> a[j] == if from <= j < i then NulByte else old(a[j])
    {
      a[i] := NulByte;
      i := i + 1;
    }
  }

  /** read(fd, a + off, a.Length - off): the bytes go to a from off on. */
  method ReadInto(fd: seq<ReadReply>, a: array<byte>, off: nat) returns (got: Option<nat>, rest: seq<ReadReply>)
    requires off < a.Length
    modifies a
    ensures var r := Read(fd, a.Length - off);
      && rest == r.rest
      && (r.got.None? ==> got.None? && a[..] == old(a[..]))
      && (r.got.Some? ==> got == Some(|r.got.value|) && a[..] == Overwrite(old(a[..]), off, r.got.value))
  {
    var r := Read(fd, a.Length - off);
    rest := r.rest;
    if r.got.None? {
      return None, rest;
    }
    var d := r.got.value;
    var i := 0;
    while i < |d|
      invariant 0 <= i <= |d|
      invariant forall j :: 0 <= j < a.Length ==> a[j] == if off <= j < off + i then d[j - off] else old(a[j])
    {
      a[off + i] := d[i];
      i := i + 1;
    }
    got := Some(|d|);
  }

  /** The buffer once an adjacent block of n zero bytes has been mapped
      after it. A Dafny array cannot grow, so the old bytes are carried over
      into a fresh one. */
  method Extend(a: array<byte>, n: nat) returns (b: array<byte>)
    ensures fresh(b) && b[..] == a[..] + Zeros(n)
  {
    b := new byte[a.Length + n](_ => NulByte);
    var i := 0;
    while i < a.Length
      invariant 0 <= i <= a.Length
      invariant forall j :: 0 <= j < b.Length ==> b[j] == if j < i then a[j] else NulByte
    {
      b[i] := a[i];
      i := i + 1;
    }
  }

  /** strncpy(dst, src, n): the bytes of src up to its first NUL, then NUL
      bytes up to n. */
  method StrncpyInto(dst: array<byte>, src: array<byte>, n: nat)
    requires n <= dst.Length && n <= src.Length && dst != src
    modifies dst
    ensures dst[..] == Strncpy(src[..n]) + old(dst[n..])
  {
    ghost var s := src[..n];
    assert forall j :: 0 <= j < n ==> s[j] == src[j];
    var i := 0;
    while i < n && src[i] != NulByte
      invariant 0 <= i <= n
      invariant forall j :: 0 <= j < i ==> src[j] != NulByte
      invariant forall j :: 0 <= j < dst.Length ==> dst[j] == if j < i then src[j] else old(dst[j])
    {
      dst[i] := src[i];
      i := i + 1;
    }
    UntilNulLength(s, i);
    ghost var k := i;
    while i < n
      invariant k <= i <= n
      invariant forall j :: 0 <= j < dst.Length ==>
        dst[j] == if j < k then src[j] else if j < i then NulByte else old(dst[j])
    {
      dst[i] := NulByte;
      i := i + 1;
    }
    StrncpyShape(dst[..], s, old(dst[..]), k);
  }

  /** A region holding the string of s, then NUL bytes up to |s|, then what
      was there before, is what strncpy leaves. */
  lemma StrncpyShape(d: seq<byte>, s: seq<byte>, before: seq<byte>, k: nat)
    requires |s| <= |d| == |before| && |UntilNul(s)| == k
    requires forall j :: 0 <= j < |d| ==>
      d[j] == if j < k then s[j] else if j < |s| then NulByte else before[j]
    ensures d == Strncpy(s) + before[|s|..]
  {
    var r := Strncpy(s) + before[|s|..];
    forall j | 0 <= j < |d|
      ensures d[j] == r[j]
    {
      if j < k {
        assert UntilNul(s)[j] == s[j];
      }
    }
  }

  /** mmap_realloc: the block that was not adjacent is given back, a region
      of the old size plus n is mapped, and the old buffer is copied into it
      with strncpy and unmapped. */
  method Relocate(a: array<byte>, n: nat) returns (b: array<byte>)
    ensures fresh(b) && b[..] == Strncpy(a[..]) + Zeros(n)
  {
    b := new byte[a.Length + n](_ => NulByte);
    assert a[..a.Length] == a[..];
    StrncpyInto(b, a, a.Length);
  }

  /** strnlen(s, a.Length): the length of the string at the start of a. */
  method StrnLen(a: array<byte>) returns (n: nat)
    ensures n == |UntilNul(a[..])|
  {
    n := 0;
    while n < a.Length && a[n] != NulByte
      invariant 0 <= n <= a.Length
      invariant forall j :: 0 <= j < n ==> a[j] != NulByte
    {
      n := n + 1;
    }
    UntilNulLength(a[..], n);
  }

  /** How the loop ends when it does not go round again after the read at
      off. */
  function EndStop(c: seq<byte>, off: nat, replies: seq<ReadReply>): Stop
    requires off < |c|
  {
    var r := Read(replies, |c| - off);
    if r.got.None? then ReadFailed else if !Continues(r.got.value, |c| - off) then Complete else OutOfMemory
  }

  /** The mmap calls made by a loop that stops with s after k calls: the
      call that failed, if any, counts. */
  function CallsAfter(k: nat, s: Stop): nat {
    if s == OutOfMemory then k + 1 else k
  }

  /** Two ends of the read loop that agree on everything but the bytes
      delivered. */
  predicate Agrees(e1: LoopEnd, e2: LoopEnd) {
    e1.content == e2.content && e1.rest == e2.rest && e1.allocs == e2.allocs && e1.stop == e2.stop
  }

  /** When the loop at (c, off) ends with goal and does not go round again,
      goal is read off the one read made. */
  lemma EndAgrees(c: seq<byte>, off: nat, replies: seq<ReadReply>, alloc: nat -> Grant, allocs: nat, goal: LoopEnd)
    requires off < |c| && !Grows(c, off, replies, alloc, allocs)
    requires Agrees(Fill(c, off, replies, alloc, allocs), goal)
    ensures var r := Read(replies, |c| - off);
      && goal.rest == r.rest
      && goal.stop == EndStop(c, off, replies)
      && goal.allocs == CallsAfter(allocs, goal.stop)
      && (goal.stop == ReadFailed ==> goal.content == c)
      && (goal.stop == Complete ==> goal.content == Overwrite(c, off, r.got.value))
  {
    FillEnds(c, off, replies, alloc, allocs);
  }

  /** When the loop at (c, off) ends with goal and goes round again, the
      next round, in the buffer next read from cap on, ends with goal as
      well. */
  lemma GrowthAgrees(c: seq<byte>, off: nat, replies: seq<ReadReply>, alloc: nat -> Grant, allocs: nat, goal: LoopEnd,
                     next: seq<byte>, cap: nat, rest: seq<ReadReply>, k: nat)
    requires off < |c| && Grows(c, off, replies, alloc, allocs)
    requires Agrees(Fill(c, off, replies, alloc, allocs), goal)
    requires var r := Read(replies, |c| - off);
      next == Grown(Overwrite(c, off, r.got.value), alloc(allocs)) && rest == r.rest
    requires cap == |c| && k == allocs + 1
    ensures |next| == cap + Increment && Weight(rest) < Weight(replies)
    ensures Agrees(Fill(next, cap, rest, alloc, k), goal)
  {
    var d, next', rest' := FillGrows(c, off, replies, alloc, allocs);
  }

  /** Where input's loop starts: the first mapping, if needed, and a
      zeroed buffer read from its start. */
  lemma InputStart(cap: nat, replies: seq<ReadReply>, alloc: nat -> Grant, allocs: nat)
    ensures var e := InputSpec(cap, replies, alloc, allocs);
      && (cap == 0 && alloc(allocs).MapFailed? ==> e.stop == OutOfMemory && e.allocs == allocs + 1 && e.rest == replies)
      && (cap == 0 && !alloc(allocs).MapFailed? ==> e == Fill(Zeros(Increment), 0, replies, alloc, allocs + 1))
      && (cap > 0 ==> e == Fill(Zeros(cap), 0, replies, alloc, allocs))
  {
  }

  /** The last byte of the buffer after a read that fills the span. */
  lemma OverwriteLast(c: seq<byte>, off: nat, d: seq<byte>)
    requires off + |d| <= |c|
    ensures 0 < |d| == |c| - off ==> Overwrite(c, off, d)[|c| - 1] == d[|d| - 1]
  {
    if 0 < |d| == |c| - off {
      OverwriteAt(c, off, d);
    }
  }

  /** The growth of input's loop: an adjacent block is mapped and zeroed,
      or mmap_realloc moves the buffer; either way the new block is
      zeroed. */
  method GrowBuffer(a: array<byte>, g: Grant) returns (b: array<byte>)
    requires !g.MapFailed?
    ensures fresh(b) && b[..] == Grown(a[..], g)
  {
    if g.Adjacent? {
      b := Extend(a, Increment);
    } else {
      b := Relocate(a, Increment);
    }
    ghost var x := if g.Adjacent? then a[..] else Strncpy(a[..]);
    Zero(b, a.Length);
    assert (x + Zeros(Increment))[..|x|] == x;
  }

  /** One round of input's read loop: read into a from off; the line is
      complete when the read falls short of the span or its last byte is
      NUL or a newline; otherwise the next mmap either fails or the buffer
      grows. stop is None when the loop goes on in b. */
  method Round(a: array<byte>, off: nat, fd: seq<ReadReply>, alloc: nat -> Grant, k: nat)
    returns (b: array<byte>, rest: seq<ReadReply>, k': nat, stop: Option<Stop>, n: int)
    requires off < a.Length
    modifies a
    ensures var c := old(a[..]); var r := Read(fd, |c| - off);
      && rest == r.rest
      && (stop.None? <==> Grows(c, off, fd, alloc, k))
      && (stop.None? ==> fresh(b) && b[..] == Grown(Overwrite(c, off, r.got.value), alloc(k)) && k' == k + 1)
      && (stop.Some? ==>
            b == a && stop.value == EndStop(c, off, fd) && k' == CallsAfter(k, stop.value))
      && (stop == Some(ReadFailed) ==> a[..] == c && n == -1)
      && (stop == Some(Complete) ==> a[..] == Overwrite(c, off, r.got.value) && n == |UntilNul(a[..])|)
  {
    ghost var c := a[..];
    ghost var r := Read(fd, a.Length - off);
    var got;
    got, rest := ReadInto(fd, a, off);
    if got.None? {
      return a, rest, k, Some(ReadFailed), -1;
    }
    OverwriteLast(c, off, r.got.value);
    if got.value != a.Length - off || a[a.Length - 1] == NulByte || a[a.Length - 1] == NewlineByte {
      n := StrnLen(a);
      return a, rest, k, Some(Complete), n;
    }
    var g := alloc(k);
    if g.MapFailed? {
      return a, rest, k + 1, Some(OutOfMemory), 0;
    }
    b := GrowBuffer(a, g);
    return b, rest, k + 1, None, 0;
  }

  /** One round of the read loop, following it along Fill: when the loop
      goes on, the next round ends as goal as well; when it stops, goal is
      where it stopped. */
  method Step(a: array<byte>, off: nat, fd: seq<ReadReply>, alloc: nat -> Grant, k: nat, ghost goal: LoopEnd)
    returns (b: array<byte>, rest: seq<ReadReply>, k': nat, stop: Option<Stop>, n: int)
    requires off < a.Length && Agrees(Fill(a[..], off, fd, alloc, k), goal)
    modifies a
    ensures stop.None? ==>
      && fresh(b) && b.Length == a.Length + Increment && Weight(rest) < Weight(fd)
      && Agrees(Fill(b[..], a.Length, rest, alloc, k'), goal)
    ensures stop.Some? ==> b == a && rest == goal.rest && k' == goal.allocs && stop.value == goal.stop
    ensures stop.Some? && goal.stop != OutOfMemory ==> a[..] == goal.content && n == Returned(goal)
  {
    ghost var c := a[..];
    b, rest, k', stop, n := Round(a, off, fd, alloc, k);
    if stop.None? {
      GrowthAgrees(c, off, fd, alloc, k, goal, b[..], a.Length, rest, k');
    } else {
      EndAgrees(c, off, fd, alloc, k, goal);
    }
  }

  lemma NextMultiple(n: nat, m: nat)
    requires n % Increment == 0 && m == n + Increment
    ensures m % Increment == 0
  {
  }

  /** The read loop of input on the zeroed buffer a0, round after round.
      It ends as Fill says; the buffer and the result are those of Fill
      unless an mmap failed. */
  method ReadLoop(a0: array<byte>, fd0: seq<ReadReply>, alloc: nat -> Grant, k0: nat)
    returns (a: array<byte>, fd: seq<ReadReply>, k: nat, stop: Stop, n: int)
    requires 0 < a0.Length && a0.Length % Increment == 0
    modifies a0
    ensures var e := Fill(old(a0[..]), 0, fd0, alloc, k0);
      && fd == e.rest && k == e.allocs && stop == e.stop
      && (stop != OutOfMemory ==> a[..] == e.content && n == Returned(e))
      && (a == a0 || fresh(a)) && a.Length % Increment == 0
  {
    ghost var goal := Fill(a0[..], 0, fd0, alloc, k0);
    a, fd, k := a0, fd0, k0;
    var off: nat := 0;
    while true
      invariant off < a.Length && a.Length % Increment == 0
      invariant a == a0 || fresh(a)
      invariant Agrees(Fill(a[..], off, fd, alloc, k), goal)
      decreases Weight(fd)
    {
      var b, k', round;
      b, fd, k', round, n := Step(a, off, fd, alloc, k, goal);
      if round.Some? {
        return b, fd, k', round.value, n;
      }
      NextMultiple(a.Length, b.Length);
      off, a, k := a.Length, b, k';
    }
  }

  /** The reader's state: the globals input_line and len, the descriptor
      and the allocator. */
  class Reader {
    /** The mapping input_line points to, of len bytes. */
    var buf: array<byte>
    /** len: 0 while nothing is mapped. */
    var len: nat
    /** What read will return on the descriptor from now on. */
    var replies: seq<ReadReply>
    /** The answers of the successive mmap calls, and how many were made. */
    const alloc: nat -> Grant
    var allocs: nat

    ghost predicate Valid()
      reads this
    {
      buf.Length == len && len % Increment == 0
    }

    /** The state before the first line: nothing mapped. */
    constructor (replies: seq<ReadReply>, alloc: nat -> Grant)
      ensures Valid() && len == 0 && this.replies == replies && this.alloc == alloc && allocs == 0
    {
      buf := new byte[0];
      len := 0;
      this.replies := replies;
      this.alloc := alloc;
      allocs := 0;
    }

    /** input(&input_line, &len, fd), returning strnlen instead of strlen:
        the new state and the result are those of InputSpec. */
    method Input() returns (r: InputResult)
      requires Valid()
      modifies this, buf
      ensures var e := InputSpec(old(len), old(replies), alloc, old(allocs));
        && replies == e.rest && allocs == e.allocs
        && (e.stop == OutOfMemory ==> r == Exited(1))
        && (e.stop != OutOfMemory ==> Valid() && buf[..] == e.content && r == Got(Returned(e)))
      ensures buf == old(buf) || fresh(buf)
    {
      ghost var goal := InputSpec(len, replies, alloc, allocs);
      InputStart(len, replies, alloc, allocs);
      if len == 0 {
        var g := alloc(allocs);
        allocs := allocs + 1;
        if g.MapFailed? {
          return Exited(1);
        }
        buf := new byte[Increment](_ => NulByte);
        len := Increment;
      }
      Zero(buf, 0);
      assert buf[..] == Zeros(len);
      var a, fd, k, stop, n := ReadLoop(buf, replies, alloc, allocs);
      buf, len, replies, allocs := a, a.Length, fd, k;
      if stop == OutOfMemory {
        return Exited(1);
      }
      return Got(n);
    }
  }
}
