/**
 Downloading selected byte ranges of a remote resource into a file: the range list given on the
 command line, the block handler that writes, skips and repositions the download, and the HTTP
 downloader that drives it.

 The network cuts the resource into blocks as it pleases. The file must come out the same.
 */
module BlockDownload {
  import opened Ids

  type Bytes = seq<bv8>

  const LONG_MAX: int := 0x7FFF_FFFF_FFFF_FFFF
  const SIZE_MAX: nat := 0xFFFF_FFFF_FFFF_FFFF

  // ----- What the user asked for -----

  /** Bytes from `start` up to, not including, `end`; an open range ends at LONG_MAX. */
  datatype Range = Range(start: nat, end: nat)

  function Clip(remote: Bytes, start: nat, end: nat): Bytes {
    if start >= |remote| || end <= start then []
    else if end <= |remote| then remote[start..end]
    else remote[start..]
  }

  /** The requested bytes that exist, in the order given. */
  ghost function Wanted(remote: Bytes, ranges: seq<Range>): Bytes {
    if ranges == [] then [] else
      Clip(remote, ranges[0].start, if ranges[0].end == LONG_MAX then SIZE_MAX else ranges[0].end)
      + Wanted(remote, ranges[1..])
  }

  /** What the number parser makes of one word: a first number and what follows it. */
  datatype Token = Token(start: int, tail: Tail)

  datatype Tail = Nothing | Dash | DashEnd(end: int, garbage: bool) | Garbage

  ghost predicate InLong(t: Token) {
    t.start <= LONG_MAX && (t.tail.DashEnd? ==> t.tail.end <= LONG_MAX)
  }

  function End(t: Token): int {
    if t.tail.DashEnd? then t.tail.end else LONG_MAX
  }

  ghost predicate Proper(t: Token) {
    0 <= t.start <= LONG_MAX &&
    match t.tail
    case Nothing => true
    case Dash => true
    case DashEnd(end, garbage) => !garbage && t.start < end <= LONG_MAX
    case Garbage => false
  }

  /** Every word parses, and every range starts after the one before it has ended. */
  ghost predicate Separated(tokens: seq<Token>) {
    && (forall i :: 0 <= i < |tokens| ==> Proper(tokens[i]))
    && forall i :: 0 < i < |tokens| ==> End(tokens[i - 1]) < tokens[i].start
  }

  ghost function Ranges(tokens: seq<Token>): (rs: seq<Range>)
    requires Separated(tokens)
    ensures |rs| == |tokens|
    ensures forall i :: 0 <= i < |rs| ==> rs[i] == Range(tokens[i].start, End(tokens[i]))
  {
    seq(|tokens|, i requires 0 <= i < |tokens| => Range(tokens[i].start, End(tokens[i])))
  }

  // ----- The skip list -----

  datatype Skip = Skip(at: nat, to: nat)

  /** Every closed range is followed by a skip to the next one, the last by a skip past the end. */
  ghost function Skips(ranges: seq<Range>): seq<Skip> {
    if ranges == [] || ranges[0].end == LONG_MAX then []
    else [Skip(ranges[0].end, if |ranges| > 1 then ranges[1].start else SIZE_MAX)] + Skips(ranges[1..])
  }

  method ParseRanges(tokens: seq<Token>) returns (ok: bool, start: nat, skips: seq<Skip>)
    requires forall i :: 0 <= i < |tokens| ==> InLong(tokens[i])
    ensures ok <==> Separated(tokens)
    ensures ok ==> start == if tokens == [] then 0 else tokens[0].start
    ensures ok ==> skips == Skips(Ranges(tokens))
  {
    start, skips := 0, [];
    var lastEnd := -1;
    for i := 0 to |tokens|
      invariant Separated(tokens[..i])
      invariant -1 <= lastEnd && lastEnd == if i == 0 then -1 else End(tokens[i - 1])
      invariant start == if i == 0 then 0 else tokens[0].start
      invariant skips == Skips(Ranges(tokens[..i]))
    {
      var token := tokens[i];
      if token.start <= lastEnd || token.tail.Garbage? {
        return false, start, skips;
      }
      var end := LONG_MAX;
      if token.tail.DashEnd? {
        end := token.tail.end;
        if end <= token.start || token.tail.garbage {
          assert !Proper(token);
          return false, start, skips;
        }
      }
      if skips != [] {
        skips := skips[|skips| - 1 := skips[|skips| - 1].(to := token.start)];
      } else {
        start := token.start;
      }
      if end < LONG_MAX {
        skips := skips + [Skip(end, SIZE_MAX)];
      }
      lastEnd := end;
      assert Proper(token);
      SkipsStep(tokens, i);
    }
    assert tokens[..|tokens|] == tokens;
    return true, start, skips;
  }

  /** The same in numbers: 64-bit starts, nonempty ranges, and only the last one open. */
  ghost predicate Acceptable(tokens: seq<Token>) {
    && (forall i :: 0 <= i < |tokens| ==> 0 <= tokens[i].start <= 0x7FFF_FFFF_FFFF_FFFF && !tokens[i].tail.Garbage?)
    && (forall i :: 0 <= i < |tokens| && tokens[i].tail.DashEnd? ==>
          !tokens[i].tail.garbage && tokens[i].start < tokens[i].tail.end <= 0x7FFF_FFFF_FFFF_FFFF)
    && (forall i :: 0 <= i < |tokens| - 1 ==> tokens[i].tail.DashEnd? && tokens[i].tail.end < tokens[i + 1].start)
  }

  lemma SeparatedMeans(tokens: seq<Token>)
    ensures Separated(tokens) <==> Acceptable(tokens)
  {
    if Acceptable(tokens) {
      forall i | 0 < i < |tokens|
        ensures End(tokens[i - 1]) < tokens[i].start
      {
        assert tokens[i - 1].tail.DashEnd?;
      }
    }
    if Separated(tokens) {
      forall i | 0 <= i < |tokens|
        ensures 0 <= tokens[i].start <= 0x7FFF_FFFF_FFFF_FFFF && !tokens[i].tail.Garbage?
        ensures tokens[i].tail.DashEnd? ==> !tokens[i].tail.garbage && tokens[i].start < tokens[i].tail.end <= 0x7FFF_FFFF_FFFF_FFFF
      {
        assert Proper(tokens[i]);
      }
      forall i | 0 <= i < |tokens| - 1
        ensures tokens[i].tail.DashEnd? && tokens[i].tail.end < tokens[i + 1].start
      {
        assert End(tokens[i]) < tokens[i + 1].start && Proper(tokens[i + 1]);
      }
    }
  }

  lemma SkipsStep(tokens: seq<Token>, i: nat)
    requires i < |tokens| && Separated(tokens[..i + 1])
    ensures var before := Skips(Ranges(tokens[..i]));
      && |before| == i
      && Skips(Ranges(tokens[..i + 1])) ==
          (if i == 0 then [] else before[i - 1 := before[i - 1].(to := tokens[i].start)])
          + (if End(tokens[i]) == LONG_MAX then [] else [Skip(End(tokens[i]), SIZE_MAX)])
  {
    var now := tokens[..i + 1];
    assert now[..i] == tokens[..i];
    forall j | 0 <= j < i
      ensures End(now[j]) < LONG_MAX
    {
      assert End(now[j]) < now[j + 1].start && Proper(now[j + 1]);
    }
    assert Ranges(now) == Ranges(now[..i]) + [Range(tokens[i].start, End(tokens[i]))];
    SkipsAppend(Ranges(now[..i]), Range(tokens[i].start, End(tokens[i])));
  }

  /** Appending a range patches the last skip and adds one of its own. */
  lemma {:induction false} SkipsAppend(ranges: seq<Range>, r: Range)
    requires forall i :: 0 <= i < |ranges| ==> ranges[i].end < LONG_MAX
    ensures var old_ := Skips(ranges);
      && |old_| == |ranges|
      && Skips(ranges + [r]) ==
          (if old_ == [] then [] else old_[|old_| - 1 := old_[|old_| - 1].(to := r.start)])
          + (if r.end == LONG_MAX then [] else [Skip(r.end, SIZE_MAX)])
  {
    if ranges == [] {
    } else {
      assert (ranges + [r])[1..] == ranges[1..] + [r];
      SkipsAppend(ranges[1..], r);
    }
  }

  // ----- The block handler and the downloader -----

  /** The skips lie ahead of the offset, in order, and each moves it forward. */
  ghost predicate Ahead(offset: nat, skips: seq<Skip>)
    decreases |skips|
  {
    skips == [] || (offset < skips[0].at < skips[0].to && Ahead(skips[0].to, skips[1..]))
  }

  /** What is still to be written when the download stands at `offset`. */
  ghost function Future(remote: Bytes, offset: nat, skips: seq<Skip>): Bytes
    decreases |skips|
  {
    if skips == [] then Clip(remote, offset, SIZE_MAX) else
      Clip(remote, offset, skips[0].at) + Future(remote, skips[0].to, skips[1..])
  }

  lemma ClipSplits(remote: Bytes, offset: nat, mid: nat, end: nat)
    requires offset <= mid <= |remote| && mid <= end
    ensures Clip(remote, offset, end) == remote[offset..mid] + Clip(remote, mid, end)
  {}

  /** Writing everything up to `to` and standing there leaves the same bytes in total. */
  lemma AdvanceConserves(file: Bytes, remote: Bytes, offset: nat, to: nat, skips: seq<Skip>, part: Bytes)
    requires offset <= to <= |remote| <= SIZE_MAX && part == remote[offset..to]
    requires skips != [] ==> to < skips[0].at
    ensures (file + part) + Future(remote, to, skips) == file + Future(remote, offset, skips)
  {
    var end := if skips == [] then SIZE_MAX else skips[0].at;
    var rest := if skips == [] then [] else Future(remote, skips[0].to, skips[1..]);
    ClipSplits(remote, offset, to, end);
    assert Future(remote, offset, skips) == Clip(remote, offset, end) + rest;
    assert Future(remote, to, skips) == Clip(remote, to, end) + rest;
    Regroup(file, part, Clip(remote, to, end), rest);
  }

  lemma Regroup(a: Bytes, b: Bytes, c: Bytes, d: Bytes)
    ensures (a + b) + (c + d) == a + ((b + c) + d)
  {}

  /** Likewise writing up to the first skip and jumping over it. */
  lemma SkipConserves(file: Bytes, remote: Bytes, offset: nat, skips: seq<Skip>, part: Bytes)
    requires skips != [] && offset < skips[0].at <= |remote| && part == remote[offset..skips[0].at]
    ensures (file + part) + Future(remote, skips[0].to, skips[1..]) == file + Future(remote, offset, skips)
  {}

  /** The next skip begins before or at the end of a block of `size` bytes. */
  predicate SkipBegins(offset: nat, skips: seq<Skip>, size: nat) {
    skips != [] && skips[0].at <= offset + size
  }

  /** How much of a block is wanted, and where the download stands after it, with which skips ahead. */
  ghost function Part(offset: nat, skips: seq<Skip>, size: nat): (n: nat)
    requires Ahead(offset, skips)
    ensures n <= size
  {
    if SkipBegins(offset, skips, size) then skips[0].at - offset else size
  }

  ghost function NextOffset(offset: nat, skips: seq<Skip>, size: nat): nat {
    if SkipBegins(offset, skips, size) then skips[0].to else offset + size
  }

  ghost function NextSkips(offset: nat, skips: seq<Skip>, size: nat): seq<Skip> {
    if SkipBegins(offset, skips, size) then skips[1..] else skips
  }

  lemma BlockConserves(file: Bytes, remote: Bytes, offset: nat, skips: seq<Skip>, size: nat, part: Bytes)
    requires Ahead(offset, skips) && offset + size <= |remote| <= SIZE_MAX
    requires part == remote[offset..offset + Part(offset, skips, size)]
    ensures (file + part) + Future(remote, NextOffset(offset, skips, size), NextSkips(offset, skips, size))
         == file + Future(remote, offset, skips)
    ensures Ahead(NextOffset(offset, skips, size), NextSkips(offset, skips, size))
  {
    if SkipBegins(offset, skips, size) {
      SkipConserves(file, remote, offset, skips, part);
    } else {
      AdvanceConserves(file, remote, offset, offset + size, skips, part);
    }
  }

  /** Of a part of a total, all is stored, or less. */
  lemma PartStored(file: Bytes, data: Bytes, n: nat, stored: nat, rest: Bytes, total: Bytes)
    requires n <= |data| && (file + data[..n]) + rest == total
    ensures file + data[..Least(stored, n)] <= total && |file| + n <= |total|
    ensures stored >= n ==> (file + data[..Least(stored, n)]) + rest == total
  {
    assert data[..n][..Least(stored, n)] == data[..Least(stored, n)];
  }

  /** What taking the next block does to the total of what is written and what is still to come. */
  lemma BlockTaken(remote: Bytes, data: Bytes, stored: nat, file: Bytes, offset: nat, skips: seq<Skip>,
                   file': Bytes, offset': nat, skips': seq<Skip>)
    requires Ahead(offset, skips) && offset + |data| <= |remote| <= SIZE_MAX && data == remote[offset..offset + |data|]
    requires file' == file + data[..Least(stored, Part(offset, skips, |data|))]
    requires offset' == NextOffset(offset, skips, |data|) && skips' == NextSkips(offset, skips, |data|)
    ensures Ahead(offset', skips') && file' <= file + Future(remote, offset, skips)
    ensures |file| + Part(offset, skips, |data|) <= |file + Future(remote, offset, skips)|
    ensures stored >= Part(offset, skips, |data|) ==>
      file' + Future(remote, offset', skips') == file + Future(remote, offset, skips)
  {
    BlockTotals(remote, data, file, offset, skips);
    PartStored(file, data, Part(offset, skips, |data|), stored, Future(remote, offset', skips'),
               file + Future(remote, offset, skips));
  }

  lemma BlockTotals(remote: Bytes, data: Bytes, file: Bytes, offset: nat, skips: seq<Skip>)
    requires Ahead(offset, skips) && offset + |data| <= |remote| <= SIZE_MAX && data == remote[offset..offset + |data|]
    ensures (file + data[..Part(offset, skips, |data|)])
              + Future(remote, NextOffset(offset, skips, |data|), NextSkips(offset, skips, |data|))
         == file + Future(remote, offset, skips)
    ensures Ahead(NextOffset(offset, skips, |data|), NextSkips(offset, skips, |data|))
  {
    FirstOfBlock(remote, data, offset, Part(offset, skips, |data|));
    BlockConserves(file, remote, offset, skips, |data|, data[..Part(offset, skips, |data|)]);
  }

  lemma FirstOfBlock(remote: Bytes, data: Bytes, offset: nat, n: nat)
    requires n <= |data| && offset + |data| <= |remote| && data == remote[offset..offset + |data|]
    ensures data[..n] == remote[offset..offset + n]
  {
  }

  /** The HTTP transfer: how much has arrived, and from where on the handler wants data. */
  class Transfer {
    var downloaded: nat
    var written: nat

    constructor (downloaded: nat, written: nat)
      ensures this.downloaded == downloaded && this.written == written
    {
      this.downloaded, this.written := downloaded, written;
    }

    method SetNextBlockOffset(next: nat) returns (result: int)
      modifies this`written
      ensures result == OK <==> next > old(written)
      ensures written == if result == OK then next else old(written)
    {
      if next <= written {
        return ERR;
      }
      written := next;
      return OK;
    }
  }

  /** The state the handler keeps: the file, the pending skips and its own idea of the offset. */
  class Writer {
    var file: Bytes
    var skips: seq<Skip>
    var offset: nat
    const transfer: Transfer

    constructor (transfer: Transfer, offset: nat, skips: seq<Skip>)
      ensures file == [] && this.offset == offset && this.skips == skips && this.transfer == transfer
    {
      file := [];
      this.offset, this.skips, this.transfer := offset, skips, transfer;
    }

    /**
     Takes the block that starts at the current offset. Whatever the block's size, the bytes
     written and the bytes still to come stay the same in total. `stored` is how many bytes the file
     can take: with fewer than are wanted it ends up with a part of them.
     */
    method OnNextBlock(data: Bytes, stored: nat, ghost remote: Bytes) returns (result: int)
      requires offset == transfer.written && Ahead(offset, skips)
      requires data != [] && offset + |data| <= |remote| <= SIZE_MAX
      requires data == remote[offset..offset + |data|]
      modifies this, transfer`written
      ensures var part := Part(old(offset), old(skips), |data|);
        && (result == OK <==> stored >= part)
        && file == old(file) + data[..Least(stored, part)]
      ensures result == OK ==> Ahead(offset, skips)
      ensures result == OK ==>
        file + Future(remote, offset, skips) == old(file) + Future(remote, old(offset), old(skips))
      ensures file <= old(file) + Future(remote, old(offset), old(skips))
      ensures |old(file)| + Part(old(offset), old(skips), |data|) <= |old(file) + Future(remote, old(offset), old(skips))|
      ensures offset == NextOffset(old(offset), old(skips), |data|)
      ensures skips == NextSkips(old(offset), old(skips), |data|)
      ensures transfer.written == if skips == old(skips) then old(offset) else offset
      ensures offset > old(offset)
    {
      var toWrite, error := Advance(|data|);
      if error != OK {
        return error;
      }
      result := Store(data, toWrite, stored);
      BlockTaken(remote, data, stored, old(file), old(offset), old(skips), file, offset, skips);
    }

    /** Appends to the file, which may not be able to take all of it. */
    method Store(data: Bytes, toWrite: nat, stored: nat) returns (result: int)
      requires toWrite <= |data|
      modifies this`file
      ensures result == OK <==> stored >= toWrite
      ensures file == old(file) + data[..Least(stored, toWrite)]
    {
      if stored < toWrite {
        file := file + data[..stored];
        return ERR;
      }
      file := file + data[..toWrite];
      return OK;
    }

    /** Moves past the block, and past a skip that begins in it, of which the transfer is told. */
    method Advance(size: nat) returns (toWrite: nat, error: int)
      requires offset == transfer.written && Ahead(offset, skips) && size > 0
      modifies this`offset, this`skips, transfer`written
      ensures error == OK && 0 < toWrite == Part(old(offset), old(skips), size)
      ensures offset == NextOffset(old(offset), old(skips), size) > old(offset)
      ensures skips == NextSkips(old(offset), old(skips), size)
      ensures transfer.written == if skips == old(skips) then old(offset) else offset
    {
      toWrite, error := size, OK;
      if skips != [] && skips[0].at <= offset + size {
        toWrite := skips[0].at - offset;
        offset := skips[0].to;
        skips := skips[1..];
        error := transfer.SetNextBlockOffset(offset);
      } else {
        offset := offset + toWrite;
      }
    }
  }

  datatype Status = Success | Failed

  /** The stream ends in an error before all has arrived. */
  predicate BreaksOff(remote: Bytes, failsAt: Option<nat>) {
    failsAt.Some? && failsAt.value < |remote|
  }

  /**
   The HTTP download. The stream delivers the resource from some point at or before the requested
   start, in pieces of any size; a piece may cover several ranges and gaps at once. The download
   succeeds exactly if the stream does not break off at `failsAt` and the file may hold all that is
   wanted, `room` bytes at most. It then leaves exactly the wanted bytes, and at no time does the
   file hold anything else.
   */
  method Download(remote: Bytes, transfer: Transfer, writer: Writer, failsAt: Option<nat>, room: nat)
    returns (status: Status)
    requires writer.transfer == transfer && |remote| <= SIZE_MAX && |writer.file| <= room
    requires transfer.downloaded <= transfer.written == writer.offset
    requires transfer.downloaded <= |remote|
    requires Ahead(writer.offset, writer.skips)
    modifies transfer, writer
    ensures status == Success <==>
      && !BreaksOff(remote, failsAt)
      && |old(writer.file) + Future(remote, old(writer.offset), old(writer.skips))| <= room
    ensures status == Success ==>
      writer.file == old(writer.file) + Future(remote, old(writer.offset), old(writer.skips))
    ensures writer.file <= old(writer.file) + Future(remote, old(writer.offset), old(writer.skips))
  {
    ghost var all := writer.file + Future(remote, writer.offset, writer.skips);
    var finished := false;
    while !finished
      invariant transfer.downloaded <= transfer.written == writer.offset
      invariant transfer.downloaded <= |remote|
      invariant Ahead(writer.offset, writer.skips)
      invariant writer.file + Future(remote, writer.offset, writer.skips) == all && |writer.file| <= room
      invariant finished ==> transfer.downloaded == |remote| && !BreaksOff(remote, failsAt)
      decreases |remote| - transfer.downloaded, !finished
    {
      if BreaksOff(remote, failsAt) && transfer.downloaded >= failsAt.value {
        return Failed;
      }
      var arriving := if BreaksOff(remote, failsAt) then failsAt.value else |remote|;
      var bytesRead: nat :| bytesRead <= arriving - transfer.downloaded
        && (transfer.downloaded < arriving ==> 0 < bytesRead);
      var buffer := remote[transfer.downloaded..transfer.downloaded + bytesRead];
      if bytesRead > 0 {
        assert transfer.written >= transfer.downloaded;
        transfer.downloaded := transfer.downloaded + bytesRead;
        ghost var arrived := transfer.downloaded;
        while transfer.downloaded > transfer.written
          invariant transfer.written == writer.offset
          invariant transfer.downloaded == arrived
          invariant transfer.written + bytesRead >= transfer.downloaded
          invariant Ahead(writer.offset, writer.skips)
          invariant writer.file + Future(remote, writer.offset, writer.skips) == all && |writer.file| <= room
          decreases transfer.downloaded - transfer.written
        {
          var bytesToWrite := transfer.downloaded - transfer.written;
          assert bytesRead >= bytesToWrite;
          var originalOffset := transfer.written;
          var error := writer.OnNextBlock(buffer[bytesRead - bytesToWrite..], room - |writer.file|, remote);
          if error != OK {
            return Failed;
          }
          if transfer.written == originalOffset {
            transfer.written := transfer.written + bytesToWrite;
          }
        }
      }
      finished :| (finished ==> transfer.downloaded == |remote|) && (bytesRead == 0 ==> finished);
    }
    NothingAfterTheEnd(remote, writer.offset, writer.skips);
    return Success;
  }

  lemma {:induction false} NothingAfterTheEnd(remote: Bytes, offset: nat, skips: seq<Skip>)
    requires |remote| <= offset && Ahead(offset, skips)
    ensures Future(remote, offset, skips) == []
    decreases |skips|
  {
    if skips == [] {
    } else {
      NothingAfterTheEnd(remote, skips[0].to, skips[1..]);
    }
  }

  /** The skip list of accepted ranges lies ahead of the first start and means the ranges. */
  lemma {:induction false} SkipsMeanRanges(remote: Bytes, tokens: seq<Token>)
    requires |remote| <= SIZE_MAX && tokens != [] && Separated(tokens)
    ensures Ahead(tokens[0].start, Skips(Ranges(tokens)))
    ensures Future(remote, tokens[0].start, Skips(Ranges(tokens))) == Wanted(remote, Ranges(tokens))
    decreases |tokens|
  {
    var rs := Ranges(tokens);
    if |tokens| == 1 {
      assert rs[1..] == [];
      assert Wanted(remote, rs[1..]) == [] && Skips(rs[1..]) == [];
    } else {
      assert Separated(tokens[1..]);
      assert rs[1..] == Ranges(tokens[1..]);
      SkipsMeanRanges(remote, tokens[1..]);
      assert Proper(tokens[1]);
      assert End(tokens[0]) < tokens[1].start;
    }
  }

  /** What the words ask for; no words at all mean everything. */
  ghost function Requested(remote: Bytes, tokens: seq<Token>): Bytes
    requires Acceptable(tokens)
  {
    SeparatedMeans(tokens);
    if tokens == [] then remote else Wanted(remote, Ranges(tokens))
  }

  lemma {:induction false} WantedAppend(remote: Bytes, a: seq<Range>, b: seq<Range>)
    ensures Wanted(remote, a + b) == Wanted(remote, a) + Wanted(remote, b)
  {
    if a == [] {
      assert a + b == b;
    } else {
      assert (a + b)[1..] == a[1..] + b && (a + b)[0] == a[0];
      WantedAppend(remote, a[1..], b);
      var end := if a[0].end == LONG_MAX then SIZE_MAX else a[0].end;
      Associates(Clip(remote, a[0].start, end), Wanted(remote, a[1..]), Wanted(remote, b));
    }
  }

  lemma Associates(x: Bytes, y: Bytes, z: Bytes)
    ensures x + (y + z) == (x + y) + z
  {
  }

  /** One range is what lies between its start and its end, or the end of the resource. */
  lemma RequestedMeans(remote: Bytes, start: nat, end: nat)
    requires start < end < 0x7FFF_FFFF_FFFF_FFFF && start <= |remote| <= SIZE_MAX
    ensures Requested(remote, []) == remote
    ensures Requested(remote, [Token(start, DashEnd(end, false))]) ==
      if end <= |remote| then remote[start..end] else remote[start..]
    ensures Requested(remote, [Token(start, Nothing)]) == Requested(remote, [Token(start, Dash)]) == remote[start..]
  {
    var closed, open, bare := [Token(start, DashEnd(end, false))], [Token(start, Dash)], [Token(start, Nothing)];
    assert Ranges(closed) == [Range(start, end)] && Ranges(open) == Ranges(bare) == [Range(start, LONG_MAX)];
    assert [Range(start, end)][1..] == [] && [Range(start, LONG_MAX)][1..] == [] && Wanted(remote, []) == [];
    assert remote[|remote|..] == [];
    assert Wanted(remote, [Range(start, end)]) == Clip(remote, start, end) + [] == Clip(remote, start, end);
  }

  /**
   The whole command: parse the ranges, then download. It works exactly if the ranges are accepted,
   the stream does not break off and there is room. What fails has got a first part of it.
   */
  method DownloadBlocks(tokens: seq<Token>, remote: Bytes, failsAt: Option<nat>, room: nat) returns (ok: bool, file: Bytes)
    requires |remote| <= SIZE_MAX
    requires forall i :: 0 <= i < |tokens| ==> InLong(tokens[i])
    ensures ok <==> Acceptable(tokens) && !BreaksOff(remote, failsAt) && |Requested(remote, tokens)| <= room
    ensures ok ==> file == Requested(remote, tokens)
    ensures Acceptable(tokens) ==> file <= Requested(remote, tokens)
    ensures !Acceptable(tokens) ==> file == []
  {
    SeparatedMeans(tokens);
    var accepted, start, skips := ParseRanges(tokens);
    if !accepted {
      return false, [];
    }
    if tokens != [] {
      SkipsMeanRanges(remote, tokens);
    }
    assert Future(remote, start, skips) == Requested(remote, tokens);
    var downloaded: nat :| downloaded <= start && downloaded <= |remote|;
    var transfer := new Transfer(downloaded, start);
    var writer := new Writer(transfer, start, skips);
    var status := Download(remote, transfer, writer, failsAt, room);
    return status == Success, writer.file;
  }
}
