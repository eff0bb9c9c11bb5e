/**
 * The VC0706 camera driver of camera.py: the fixed command bytes, the read-buffer command
 * builder, the decoder of the frame-buffer length reply, and the Camera class that talks to
 * the device over a serial Port and assembles the captured JPEG from chunked reads.
 */
module Camera {
  import opened Bytes
  import opened Serial

  // Protocol bytes (camera.py:11-36).
  const SendSign: Byte := 0x56
  const SerialNum: Byte := 0x00
  const DataLength: Byte := 0x00
  const CmdGetVersion: Byte := 0x11
  const CmdReset: Byte := 0x26
  const CmdTakePhoto: Byte := 0x36
  const CmdReadBuff: Byte := 0x32
  const CmdGetBuffLen: Byte := 0x34
  const CmdGetCompressRatio: Byte := 0x30
  const CmdSetCompressRatio: Byte := 0x31
  const FbufStopCurrentFrame: Byte := 0x00
  const FbufCurrentFrame: Byte := 0x00
  const FbufCtrl: Byte := 0x01
  /** camera.py's size code for 640x480; tools.py gives this label the code 0x11. */
  const Vc0706Size640x480: Byte := 0x00
  const Vc0706WriteData: Byte := 0x31
  const CompressionRatio: Byte := 0x36

  // The command catalogue (camera.py:38-45).
  const GetVersionCmd: seq<Byte> := [SendSign, SerialNum, CmdGetVersion, DataLength]
  const ResetCmd: seq<Byte> := [SendSign, SerialNum, CmdReset, DataLength]
  const TakePhotoCmd: seq<Byte> := [SendSign, SerialNum, CmdTakePhoto, FbufCtrl, FbufStopCurrentFrame]
  const GetBuffLenCmd: seq<Byte> := [SendSign, SerialNum, CmdGetBuffLen, FbufCtrl, FbufCurrentFrame]
  const GetCompressionRatioCmd: seq<Byte> :=
    [SendSign, SerialNum, CmdGetCompressRatio, 0x04, 0x01, 0x01, 0x12, 0x04]
  const SetCompressionRatioCmd: seq<Byte> :=
    [SendSign, SerialNum, CmdSetCompressRatio, 0x05, 0x01, 0x01, 0x12, 0x04, CompressionRatio]
  const SetPhotoSizeCmd: seq<Byte> :=
    [SendSign, SerialNum, Vc0706WriteData, 0x05, 0x04, 0x01, 0x00, 0x19, Vc0706Size640x480]
  /** The head of every read-buffer command; PrepareCommand appends the remaining ten bytes. */
  const ReadPhotoCmd: seq<Byte> := [SendSign, SerialNum, CmdReadBuff, 0x0c, FbufCurrentFrame, 0x0a]

  // Class attributes of Camera (camera.py:52-56).
  const DataLengthElem: nat := 4
  const BytesToRead: nat := 1024
  const NumStartJpgDigits: nat := 5
  const NumEndJpgDigits: nat := 5

  /** 2^32: one more than the largest value a 4-byte big-endian field holds. */
  const Word: nat := 0x1_0000_0000

  /** A complete command: send signature, serial number, opcode, and a parameter count equal
      to the number of parameter bytes that follow it. */
  predicate IsCommand(c: seq<Byte>)
  {
    |c| >= 4 && c[0] == SendSign && c[1] == SerialNum && c[3] == |c| - 4
  }

  /** The fixed commands, byte for byte. */
  lemma CatalogueBytes()
    ensures GetVersionCmd == [0x56, 0x00, 0x11, 0x00]
    ensures ResetCmd == [0x56, 0x00, 0x26, 0x00]
    ensures TakePhotoCmd == [0x56, 0x00, 0x36, 0x01, 0x00]
    ensures GetBuffLenCmd == [0x56, 0x00, 0x34, 0x01, 0x00]
  {
  }

  /** Every template but the read-buffer head is a complete command; the head announces
      12 parameter bytes of which it carries 2, leaving 4 + 4 + 2 for PrepareCommand. */
  lemma CatalogueCommands()
    ensures IsCommand(GetVersionCmd) && IsCommand(ResetCmd) && IsCommand(TakePhotoCmd)
    ensures IsCommand(GetBuffLenCmd) && IsCommand(GetCompressionRatioCmd)
    ensures IsCommand(SetCompressionRatioCmd) && IsCommand(SetPhotoSizeCmd)
    ensures ReadPhotoCmd[3] == (|ReadPhotoCmd| - 4) + 4 + 4 + 2
  {
  }

  /**
   * `__prepare_command(read_bytes, initial_adr)`: the read-buffer head, the start address
   * and the length as four shift-and-mask bytes each, most significant first, then [1, 0].
   */
  function PrepareCommand(readBytes: int, initialAdr: int): (c: seq<Byte>)
    ensures |c| == 16 && c[..6] == ReadPhotoCmd && c[14..] == [1, 0]
    ensures IsCommand(c)
  {
    ReadPhotoCmd
      + [ShiftMask(initialAdr, 3), ShiftMask(initialAdr, 2), ShiftMask(initialAdr, 1), ShiftMask(initialAdr, 0)]
      + [ShiftMask(readBytes, 3), ShiftMask(readBytes, 2), ShiftMask(readBytes, 1), ShiftMask(readBytes, 0)]
      + [1, 0]
  }

  /** The address and length fields are the 4-byte big-endian encodings of the arguments,
      so the device reads back each argument modulo 2^32. */
  lemma PrepareCommandFields(readBytes: int, initialAdr: int)
    ensures PrepareCommand(readBytes, initialAdr)[6..10] == BeEncode(initialAdr, 4)
    ensures PrepareCommand(readBytes, initialAdr)[10..14] == BeEncode(readBytes, 4)
    ensures BeDecode(PrepareCommand(readBytes, initialAdr)[6..10]) == initialAdr % Word
    ensures BeDecode(PrepareCommand(readBytes, initialAdr)[10..14]) == readBytes % Word
  {
    var c := PrepareCommand(readBytes, initialAdr);
    forall j | 0 <= j < 4
      ensures c[6..10][j] == BeEncode(initialAdr, 4)[j] && c[10..14][j] == BeEncode(readBytes, 4)[j]
    {
      BeEncodeAt(initialAdr, 4, j);
      BeEncodeAt(readBytes, 4, j);
    }
    BeDecodeEncode(initialAdr, 4);
    BeDecodeEncode(readBytes, 4);
  }

  /** For an address and a length that fit in 32 bits the command carries them exactly. */
  lemma PrepareCommandRoundTrip(readBytes: int, initialAdr: int)
    requires 0 <= readBytes < Word && 0 <= initialAdr < Word
    ensures BeDecode(PrepareCommand(readBytes, initialAdr)[6..10]) == initialAdr
    ensures BeDecode(PrepareCommand(readBytes, initialAdr)[10..14]) == readBytes
  {
    PrepareCommandFields(readBytes, initialAdr);
    BeRoundTrip(initialAdr, 4);
    BeRoundTrip(readBytes, 4);
  }

  /** The outcome of decoding a get-buffer-length reply. */
  datatype LengthReply =
    | Length(value: nat)
      /** The reply had fewer than four bytes, so indexing its last four failed. */
    | IndexError(available: nat)

  /** The frame-buffer length: the last four reply bytes read as a big-endian number. */
  function FbufLen(reply: seq<Byte>): LengthReply
  {
    if |reply| < DataLengthElem then IndexError(|reply|)
    else Length(BeDecode(reply[|reply| - DataLengthElem..]))
  }

  /**
   * The decoding loop of `get_fbuf_len` over the reply bytes: it takes the last four bytes
   * (all of them when there are fewer) and ORs byte i in at bit 8 * (3 - i). The shifted
   * bytes occupy disjoint bit ranges, so the OR is written as a sum.
   */
  method DecodeFbufLen(reply: seq<Byte>) returns (r: LengthReply)
    ensures r == FbufLen(reply)
    ensures r.IndexError? <==> |reply| < DataLengthElem
    ensures r.Length? ==> r.value < Word
  {
    var start := if |reply| >= DataLengthElem then |reply| - DataLengthElem else 0;
    var fbufLength := reply[start..];
    var length := 0;
    var i := 0;
    while i < DataLengthElem
      invariant 0 <= i <= DataLengthElem && i <= |fbufLength|
      invariant length == BeDecode(fbufLength[..i]) * Pow256(DataLengthElem - i)
    {
      if i == |fbufLength| {
        return IndexError(|reply|);
      }
      var p := Pow256(DataLengthElem - 1 - i);
      DecodeStep(fbufLength, i, length, p);
      length := length + fbufLength[i] * p;
      i := i + 1;
    }
    assert fbufLength[..DataLengthElem] == reply[|reply| - DataLengthElem..];
    BeDecodeBound(fbufLength[..DataLengthElem]);
    return Length(length);
  }

  /** One turn of the decoding loop: adding byte i at its weight extends the decoded prefix. */
  lemma DecodeStep(s: seq<Byte>, i: nat, length: int, p: nat)
    requires i < |s| && i < DataLengthElem && p == Pow256(DataLengthElem - 1 - i)
    requires length == BeDecode(s[..i]) * Pow256(DataLengthElem - i)
    ensures length + s[i] * p == BeDecode(s[..i + 1]) * Pow256(DataLengthElem - (i + 1))
  {
    var high := BeDecode(s[..i]);
    assert s[..i + 1][..i] == s[..i];
    assert BeDecode(s[..i + 1]) == high * 256 + s[i];
    assert Pow256(DataLengthElem - i) == 256 * p;
    assert length == high * 256 * p;
    assert (high * 256 + s[i]) * p == high * 256 * p + s[i] * p;
  }

  /** A four-byte big-endian value fits in 32 bits. */
  lemma BeDecodeBound(s: seq<Byte>)
    requires |s| == 4
    ensures BeDecode(s) < Word
  {
    assert Pow256(4) == Word;
  }

  /** The decoder inverts the 4-byte encoding PrepareCommand uses, whatever precedes it. */
  lemma FbufLenInvertsEncoding(prefix: seq<Byte>, x: int)
    requires 0 <= x < Word
    ensures FbufLen(prefix + BeEncode(x, 4)) == Length(x)
  {
    var reply := prefix + BeEncode(x, 4);
    assert reply[|reply| - 4..] == BeEncode(x, 4);
    BeRoundTrip(x, 4);
  }

  /** Conversely, a decoded length re-encodes to the last four bytes of the reply. */
  lemma FbufLenEncodes(reply: seq<Byte>)
    requires |reply| >= DataLengthElem
    ensures FbufLen(reply).Length?
    ensures BeEncode(FbufLen(reply).value, 4) == reply[|reply| - 4..]
  {
    BeEncodeDecode(reply[|reply| - 4..]);
  }

  /** A reply ending 00 00 04 00 announces 1024 bytes. */
  lemma FbufLenExample(prefix: seq<Byte>)
    ensures FbufLen(prefix + [0x00, 0x00, 0x04, 0x00]) == Length(1024)
  {
    assert BeEncode(1024, 4) == [0x00, 0x00, 0x04, 0x00];
    FbufLenInvertsEncoding(prefix, 1024);
  }

  /** The value `get_fbuf_len` computes: the last four bytes shifted into place, first byte highest. */
  lemma FbufLenClosedForm(prefix: seq<Byte>, b0: Byte, b1: Byte, b2: Byte, b3: Byte)
    ensures FbufLen(prefix + [b0, b1, b2, b3]) ==
      Length(b0 * 0x100_0000 + b1 * 0x1_0000 + b2 * 0x100 + b3)
  {
    var reply := prefix + [b0, b1, b2, b3];
    assert reply[|reply| - DataLengthElem..] == [b0, b1, b2, b3];
    assert [b0, b1, b2, b3][..3] == [b0, b1, b2];
    assert [b0, b1, b2][..2] == [b0, b1];
    assert [b0, b1][..1] == [b0];
    assert [b0][..0] == [];
    assert BeDecode([b0]) == b0;
    assert BeDecode([b0, b1]) == b0 * 0x100 + b1;
    assert BeDecode([b0, b1, b2]) == (b0 * 0x100 + b1) * 0x100 + b2;
    assert BeDecode([b0, b1, b2, b3]) == ((b0 * 0x100 + b1) * 0x100 + b2) * 0x100 + b3;
  }


  function Min(a: int, b: int): int
  {
    if a <= b then a else b
  }

  /** One read-buffer command of `read_fbuf`: its start address and its byte count. */
  datatype Chunk = Chunk(offset: int, size: nat)

  /** The chunks `read_fbuf(total)` requests once its offset has reached `offset`. */
  function ChunkPlan(offset: int, total: int): seq<Chunk>
    decreases total - offset
  {
    if offset < total then
      var size: nat := Min(total - offset, BytesToRead);
      [Chunk(offset, size)] + ChunkPlan(offset + size, total)
    else []
  }

  /** Chunk i starts 1024 * i bytes after `offset`; it holds between 1 and 1024 bytes and ends
      by `total`; it holds exactly 1024 unless it is the last, and the last one ends at `total`. */
  lemma {:induction false} ChunkAt(offset: int, total: int, i: nat)
    requires i < |ChunkPlan(offset, total)|
    ensures var cs := ChunkPlan(offset, total);
      cs[i].offset == offset + BytesToRead * i && 0 < cs[i].size <= BytesToRead &&
      cs[i].offset + cs[i].size <= total &&
      (i < |cs| - 1 ==> cs[i].size == BytesToRead) &&
      (i == |cs| - 1 ==> cs[i].offset + cs[i].size == total)
    decreases i
  {
    var cs := ChunkPlan(offset, total);
    var size := Min(total - offset, BytesToRead);
    var rest := ChunkPlan(offset + size, total);
    assert cs == [Chunk(offset, size)] + rest;
    if size < BytesToRead {
      assert rest == [];
    }
    if i > 0 {
      assert cs[i] == rest[i - 1];
      ChunkAt(offset + size, total, i - 1);
    }
  }

  /** ChunkAt for every chunk at once. */
  lemma ChunkPlanShape(offset: int, total: int)
    ensures var cs := ChunkPlan(offset, total);
      forall i :: 0 <= i < |cs| ==>
        cs[i].offset == offset + BytesToRead * i && 0 < cs[i].size <= BytesToRead &&
        cs[i].offset + cs[i].size <= total &&
        (i < |cs| - 1 ==> cs[i].size == BytesToRead)
  {
    var cs := ChunkPlan(offset, total);
    forall i | 0 <= i < |cs|
      ensures cs[i].offset == offset + BytesToRead * i && 0 < cs[i].size <= BytesToRead
      ensures cs[i].offset + cs[i].size <= total
      ensures i < |cs| - 1 ==> cs[i].size == BytesToRead
    {
      ChunkAt(offset, total, i);
    }
  }

  /** The chunks are requested at strictly increasing, non-overlapping offsets. */
  lemma ChunkPlanIncreasing(offset: int, total: int)
    ensures var cs := ChunkPlan(offset, total);
      forall i, j :: 0 <= i < j < |cs| ==> cs[i].offset + cs[i].size <= cs[j].offset
  {
    ChunkPlanShape(offset, total);
  }

  /** `read_fbuf(total)` issues ceil((total - offset) / 1024) commands, none when total <= offset. */
  lemma {:induction false} ChunkPlanCount(offset: int, total: int)
    ensures |ChunkPlan(offset, total)| ==
      if total <= offset then 0 else (total - offset + BytesToRead - 1) / BytesToRead
    decreases total - offset
  {
    if offset < total {
      var size := Min(total - offset, BytesToRead);
      ChunkPlanCount(offset + size, total);
    }
  }

  function SumSizes(cs: seq<Chunk>): int
  {
    if cs == [] then 0 else cs[0].size + SumSizes(cs[1..])
  }

  /** The chunk sizes add up to the bytes still to read. */
  lemma {:induction false} ChunkPlanSum(offset: int, total: int)
    requires offset <= total
    ensures SumSizes(ChunkPlan(offset, total)) == total - offset
    decreases total - offset
  {
    if offset < total {
      var size := Min(total - offset, BytesToRead);
      var cs := ChunkPlan(offset, total);
      assert cs[1..] == ChunkPlan(offset + size, total);
      ChunkPlanSum(offset + size, total);
    }
  }

  /** A 2500-byte frame is read as 1024, 1024 and 452 bytes at offsets 0, 1024 and 2048. */
  lemma ChunkPlanExample()
    ensures ChunkPlan(0, 2500) == [Chunk(0, 1024), Chunk(1024, 1024), Chunk(2048, 452)]
  {
    assert ChunkPlan(2048, 2500) == [Chunk(2048, 452)];
    assert ChunkPlan(1024, 2500) == [Chunk(1024, 1024), Chunk(2048, 452)];
  }

  /** The read-buffer commands written for a sequence of chunks, in order. */
  function ReadCommands(cs: seq<Chunk>): (cmds: seq<seq<Byte>>)
    ensures |cmds| == |cs|
    ensures forall i :: 0 <= i < |cs| ==> cmds[i] == PrepareCommand(cs[i].size, cs[i].offset)
  {
    if cs == [] then [] else [PrepareCommand(cs[0].size, cs[0].offset)] + ReadCommands(cs[1..])
  }

  /** For a frame of fewer than 2^32 bytes, command i asks the device for chunk i: address
      1024 * i, and 1024 bytes except possibly in the last command. */
  lemma ReadCommandsAddress(total: int)
    requires total < Word
    ensures var cs := ChunkPlan(0, total); var cmds := ReadCommands(cs);
      forall i :: 0 <= i < |cmds| ==>
        BeDecode(cmds[i][6..10]) == BytesToRead * i && BeDecode(cmds[i][10..14]) == cs[i].size
  {
    var cs := ChunkPlan(0, total);
    ChunkPlanShape(0, total);
    forall i | 0 <= i < |cs|
      ensures BeDecode(ReadCommands(cs)[i][6..10]) == BytesToRead * i
      ensures BeDecode(ReadCommands(cs)[i][10..14]) == cs[i].size
    {
      ChunkAt(0, total, i);
      PrepareCommandRoundTrip(cs[i].size, cs[i].offset);
    }
  }

  /** Python's `s[lo:hi]` for non-negative bounds: clamped to `s`, empty when hi <= lo. */
  function PySlice(s: seq<Byte>, lo: nat, hi: nat): (r: seq<Byte>)
    ensures lo <= hi <= |s| ==> r == s[lo..hi]
    ensures |r| <= if lo <= hi then hi - lo else 0
    ensures lo < hi && |s| < hi ==> |r| < hi - lo
  {
    var a := if lo <= |s| then lo else |s|;
    var b := if hi <= |s| then hi else |s|;
    if a <= b then s[a..b] else []
  }

  /** The bytes `read_fbuf` reads after asking for a chunk of `size` bytes: exactly
      header + size + trailer of them for a full chunk, whatever is waiting otherwise. */
  function ReadReply(l: Link, size: nat): (seq<Byte>, Link)
  {
    if size >= 1024 then Take(l, NumStartJpgDigits + size + NumEndJpgDigits) else TakeAll(l)
  }

  /** What a run of chunk reads adds to the image and leaves on the link. */
  datatype Transfer = Transfer(payload: seq<Byte>, link: Link)

  /**
   * The effect of the `read_fbuf` loop over the chunks `cs`, starting from link `l`: for each
   * chunk, write its command (the device's reply arrives), read the reply, keep reply bytes
   * [5, size + 5).
   */
  function FetchChunks(cs: seq<Chunk>, l: Link): (t: Transfer)
    ensures |t.payload| <= SumSizes(cs)
  {
    if cs == [] then Transfer([], l)
    else
      var r := ReadReply(Deliver(l), cs[0].size);
      var rest := FetchChunks(cs[1..], r.1);
      Transfer(PySlice(r.0, NumStartJpgDigits, cs[0].size + NumEndJpgDigits) + rest.payload, rest.link)
  }

  /** Moving the next piece from what remains to what is done keeps the whole. */
  lemma AppendShift<T>(whole: seq<T>, done: seq<T>, piece: seq<T>, rest: seq<T>)
    requires whole == done + (piece + rest)
    ensures whole == (done + piece) + rest
  {
  }

  /** One turn of the `read_fbuf` loop at `offset`: the chunk's command, then its payload,
      then whatever the chunks from `next` on add. */
  lemma FetchStep(offset: int, size: nat, next: int, total: int, before: Link, reply: seq<Byte>, after: Link)
    requires offset < total && size == Min(total - offset, BytesToRead) && next == offset + size
    requires (reply, after) == ReadReply(Deliver(before), size)
    ensures FetchChunks(ChunkPlan(offset, total), before).payload ==
      PySlice(reply, NumStartJpgDigits, size + NumEndJpgDigits) + FetchChunks(ChunkPlan(next, total), after).payload
    ensures FetchChunks(ChunkPlan(offset, total), before).link == FetchChunks(ChunkPlan(next, total), after).link
    ensures ReadCommands(ChunkPlan(offset, total)) == [PrepareCommand(size, offset)] + ReadCommands(ChunkPlan(next, total))
  {
    var cs := ChunkPlan(offset, total);
    assert cs[0] == Chunk(offset, size);
    assert cs[1..] == ChunkPlan(next, total);
  }

  /** The reply to a chunk read of `size` bytes is framed as the device frames it: a full chunk
      is read with exactly five header and five trailer bytes around it, a final partial chunk
      has at least its header and payload. */
  predicate FrameFits(size: nat, reply: seq<Byte>)
  {
    if size >= BytesToRead then |reply| == NumStartJpgDigits + size + NumEndJpgDigits
    else |reply| >= NumStartJpgDigits + size
  }

  /** The device sends one fitting reply per chunk. */
  predicate WellFramed(cs: seq<Chunk>, replies: seq<seq<Byte>>)
  {
    |replies| >= |cs| && forall i :: 0 <= i < |cs| ==> FrameFits(cs[i].size, replies[i])
  }

  /** The payloads of well-framed replies, in chunk order. */
  function Payloads(cs: seq<Chunk>, replies: seq<seq<Byte>>): (p: seq<Byte>)
    requires WellFramed(cs, replies)
    ensures |p| == SumSizes(cs)
  {
    if cs == [] then []
    else
      assert WellFramed(cs[1..], replies[1..]) by {
        forall i | 0 <= i < |cs| - 1 ensures FrameFits(cs[1..][i].size, replies[1..][i]) {
          assert FrameFits(cs[i + 1].size, replies[i + 1]);
        }
      }
      replies[0][NumStartJpgDigits..NumStartJpgDigits + cs[0].size] + Payloads(cs[1..], replies[1..])
  }

  /** Starting from an empty input buffer, well-framed replies are consumed one per chunk, and
      the image grows by exactly their payloads. */
  lemma {:induction false} FetchWellFramed(cs: seq<Chunk>, replies: seq<seq<Byte>>)
    requires WellFramed(cs, replies)
    ensures FetchChunks(cs, Link([], replies)) == Transfer(Payloads(cs, replies), Link([], replies[|cs|..]))
  {
    if cs != [] {
      var size := cs[0].size;
      assert FrameFits(size, replies[0]);
      var l := Deliver(Link([], replies));
      assert l == Link(replies[0], replies[1..]);
      var r := ReadReply(l, size);
      if size >= BytesToRead {
        assert replies[0][..|replies[0]|] == replies[0];
      }
      assert r == (replies[0], Link([], replies[1..]));
      assert WellFramed(cs[1..], replies[1..]) by {
        forall i | 0 <= i < |cs| - 1 ensures FrameFits(cs[1..][i].size, replies[1..][i]) {
          assert FrameFits(cs[i + 1].size, replies[i + 1]);
        }
      }
      FetchWellFramed(cs[1..], replies[1..]);
      assert replies[1..][|cs| - 1..] == replies[|cs|..];
    }
  }

  /** Every reply to a chunk read carries at least its header and its payload. */
  predicate Complete(cs: seq<Chunk>, replies: seq<seq<Byte>>)
  {
    |replies| >= |cs| && forall i :: 0 <= i < |cs| ==> |replies[i]| >= NumStartJpgDigits + cs[i].size
  }

  /** Whatever is already waiting, replies that carry their payloads make each chunk read
      keep exactly its size in bytes. */
  lemma {:induction false} FetchLength(cs: seq<Chunk>, l: Link)
    requires Complete(cs, l.replies)
    ensures |FetchChunks(cs, l).payload| == SumSizes(cs)
  {
    if cs != [] {
      var size := cs[0].size;
      var d := Deliver(l);
      assert d.pending == l.pending + l.replies[0] && d.replies == l.replies[1..];
      var r := ReadReply(d, size);
      assert |r.0| >= NumStartJpgDigits + size;
      assert |PySlice(r.0, NumStartJpgDigits, size + NumEndJpgDigits)| == size;
      assert Complete(cs[1..], r.1.replies) by {
        forall i | 0 <= i < |cs| - 1
          ensures |r.1.replies[i]| >= NumStartJpgDigits + cs[1..][i].size
        {
          assert r.1.replies[i] == l.replies[i + 1] && cs[1..][i] == cs[i + 1];
        }
      }
      FetchLength(cs[1..], r.1);
    }
  }

  /** When every reply carries its header and payload, `read_fbuf(total)` appends exactly
      `total` bytes, whatever was waiting before; with nothing waiting and well-framed replies
      it also leaves the input buffer empty. */
  lemma ReadFbufLength(total: int, l: Link)
    requires 0 <= total
    requires Complete(ChunkPlan(0, total), l.replies)
    ensures |FetchChunks(ChunkPlan(0, total), l).payload| == total
    ensures l.pending == [] && WellFramed(ChunkPlan(0, total), l.replies) ==>
      FetchChunks(ChunkPlan(0, total), l).link.pending == []
  {
    FetchLength(ChunkPlan(0, total), l);
    ChunkPlanSum(0, total);
    if l.pending == [] && WellFramed(ChunkPlan(0, total), l.replies) {
      FetchWellFramed(ChunkPlan(0, total), l.replies);
    }
  }

  /** Reply i carries, between its header and its trailer, the frame-buffer bytes of chunk i. */
  predicate CarriesImage(cs: seq<Chunk>, replies: seq<seq<Byte>>, image: seq<Byte>)
  {
    WellFramed(cs, replies) &&
    forall i :: 0 <= i < |cs| ==>
      0 <= cs[i].offset <= cs[i].offset + cs[i].size <= |image| &&
      replies[i][NumStartJpgDigits..NumStartJpgDigits + cs[i].size] ==
        image[cs[i].offset..cs[i].offset + cs[i].size]
  }

  /** Dropping the first chunk and its reply keeps the rest carrying the image. */
  lemma CarriesImageTail(cs: seq<Chunk>, replies: seq<seq<Byte>>, image: seq<Byte>)
    requires cs != [] && CarriesImage(cs, replies, image)
    ensures CarriesImage(cs[1..], replies[1..], image)
  {
    forall i | 0 <= i < |cs| - 1
      ensures FrameFits(cs[1..][i].size, replies[1..][i])
      ensures 0 <= cs[1..][i].offset <= cs[1..][i].offset + cs[1..][i].size <= |image|
      ensures replies[1..][i][NumStartJpgDigits..NumStartJpgDigits + cs[1..][i].size] ==
        image[cs[1..][i].offset..cs[1..][i].offset + cs[1..][i].size]
    {
      assert cs[1..][i] == cs[i + 1] && replies[1..][i] == replies[i + 1];
    }
  }

  lemma {:induction false} PayloadsReassemble(offset: int, image: seq<Byte>, replies: seq<seq<Byte>>)
    requires 0 <= offset <= |image|
    requires CarriesImage(ChunkPlan(offset, |image|), replies, image)
    ensures Payloads(ChunkPlan(offset, |image|), replies) == image[offset..]
    decreases |image| - offset
  {
    var cs := ChunkPlan(offset, |image|);
    if cs != [] {
      var size := cs[0].size;
      assert cs[1..] == ChunkPlan(offset + size, |image|);
      var head := replies[0][NumStartJpgDigits..NumStartJpgDigits + size];
      assert cs[0].offset == offset && head == image[offset..offset + size];
      CarriesImageTail(cs, replies, image);
      PayloadsReassemble(offset + size, image, replies[1..]);
      assert Payloads(cs, replies) == head + Payloads(cs[1..], replies[1..]);
      assert image[offset..] == image[offset..offset + size] + image[offset + size..];
    } else {
      assert offset == |image|;
    }
  }

  /** When each reply frames the matching slice of the device's frame buffer, `read_fbuf`
      of the buffer's length appends the frame buffer itself, in offset order. */
  lemma ReadFbufReassembles(image: seq<Byte>, replies: seq<seq<Byte>>)
    requires CarriesImage(ChunkPlan(0, |image|), replies, image)
    ensures FetchChunks(ChunkPlan(0, |image|), Link([], replies)).payload == image
  {
    FetchWellFramed(ChunkPlan(0, |image|), replies);
    PayloadsReassemble(0, image, replies);
  }

  /** Every reply before the last fits its chunk, and the last lacks part of its payload. */
  predicate ShortAtEnd(cs: seq<Chunk>, replies: seq<seq<Byte>>)
  {
    cs != [] && |replies| >= |cs| &&
    (forall i :: 0 <= i < |cs| - 1 ==> FrameFits(cs[i].size, replies[i])) &&
    |replies[|cs| - 1]| < NumStartJpgDigits + cs[|cs| - 1].size
  }

  /** A short last reply costs bytes: the chunk reads keep fewer bytes than requested. */
  lemma {:induction false} FetchShort(cs: seq<Chunk>, replies: seq<seq<Byte>>)
    requires ShortAtEnd(cs, replies) && cs[|cs| - 1].size > 0
    ensures |FetchChunks(cs, Link([], replies)).payload| < SumSizes(cs)
  {
    var size := cs[0].size;
    var l := Deliver(Link([], replies));
    assert l == Link(replies[0], replies[1..]);
    var r := ReadReply(l, size);
    if |cs| == 1 {
      assert r.0 == replies[0];
    } else {
      assert FrameFits(size, replies[0]);
      if size >= BytesToRead {
        assert replies[0][..|replies[0]|] == replies[0];
      }
      assert r == (replies[0], Link([], replies[1..]));
      assert ShortAtEnd(cs[1..], replies[1..]) by {
        forall i | 0 <= i < |cs| - 2 ensures FrameFits(cs[1..][i].size, replies[1..][i]) {
          assert FrameFits(cs[i + 1].size, replies[i + 1]);
        }
      }
      FetchShort(cs[1..], replies[1..]);
    }
  }

  /** No short-read check: when the last reply of a transfer is shorter than header plus
      payload, `read_fbuf(total)` silently keeps fewer than `total` bytes, with no error. */
  lemma ShortReplyTruncates(total: int, replies: seq<seq<Byte>>)
    requires ShortAtEnd(ChunkPlan(0, total), replies)
    ensures |FetchChunks(ChunkPlan(0, total), Link([], replies)).payload| < total
  {
    var cs := ChunkPlan(0, total);
    ChunkAt(0, total, |cs| - 1);
    ChunkPlanSum(0, total);
    FetchShort(cs, replies);
  }

  /** The camera: a serial connection and the image assembled by `read_fbuf`. */
  class Camera {
    const serial: Port
    /** `image_photo`: every byte `read_fbuf` has kept; no method of the class clears it. */
    var imagePhoto: seq<Byte>

    constructor (port: Port)
      ensures serial == port && imagePhoto == []
    {
      serial := port;
      imagePhoto := [];
    }

    /** `get_version`: the raw reply to the version query. */
    method GetVersion() returns (reply: seq<Byte>)
      modifies serial
      ensures serial.written == old(serial.written) + [GetVersionCmd]
      ensures (reply, serial.State()) == TakeAll(Deliver(old(serial.State())))
    {
      serial.Write(GetVersionCmd);
      reply := serial.ReadAll();
    }

    /** `reset`: the raw reply to the reset command. */
    method Reset() returns (reply: seq<Byte>)
      modifies serial
      ensures serial.written == old(serial.written) + [ResetCmd]
      ensures (reply, serial.State()) == TakeAll(Deliver(old(serial.State())))
    {
      serial.Write(ResetCmd);
      reply := serial.ReadAll();
    }

    /** `set_photo_compression`: set the ratio, query it, and return everything received. */
    method SetPhotoCompression() returns (reply: seq<Byte>)
      modifies serial
      ensures serial.written == old(serial.written) + [SetCompressionRatioCmd, GetCompressionRatioCmd]
      ensures (reply, serial.State()) == TakeAll(Deliver(Deliver(old(serial.State()))))
    {
      serial.Write(SetCompressionRatioCmd);
      serial.Write(GetCompressionRatioCmd);
      reply := serial.ReadAll();
    }

    /** `get_fbuf_len`: ask for the frame-buffer length and decode the reply. */
    method GetFbufLen() returns (r: LengthReply)
      modifies serial
      ensures serial.written == old(serial.written) + [GetBuffLenCmd]
      ensures var received := TakeAll(Deliver(old(serial.State())));
        r == FbufLen(received.0) && serial.State() == received.1
      ensures serial.State().pending == []
    {
      serial.Write(GetBuffLenCmd);
      var reply := serial.ReadAll();
      r := DecodeFbufLen(reply);
    }

    /** `set_photo_size`: the reply is not read and stays in the input buffer. */
    method SetPhotoSize()
      modifies serial
      ensures serial.written == old(serial.written) + [SetPhotoSizeCmd]
      ensures serial.State() == Deliver(old(serial.State()))
    {
      serial.Write(SetPhotoSizeCmd);
    }

    /** `take_photo`: set the compression, then capture; the capture reply stays unread. */
    method TakePhoto()
      modifies serial
      ensures serial.written ==
        old(serial.written) + [SetCompressionRatioCmd, GetCompressionRatioCmd, TakePhotoCmd]
      ensures serial.State() == Deliver(TakeAll(Deliver(Deliver(old(serial.State())))).1)
    {
      var _ := SetPhotoCompression();
      serial.Write(TakePhotoCmd);
    }

    /**
     * `read_fbuf(my_bytes)`: read the frame buffer in chunks of at most 1024 bytes, one
     * read-buffer command per chunk, appending each reply's payload to `image_photo`.
     */
    method ReadFbuf(myBytes: int) returns (image: seq<Byte>)
      modifies this, serial
      ensures var t := FetchChunks(ChunkPlan(0, myBytes), old(serial.State()));
        imagePhoto == old(imagePhoto) + t.payload && serial.State() == t.link
      ensures serial.written == old(serial.written) + ReadCommands(ChunkPlan(0, myBytes))
      ensures image == imagePhoto
    {
      ghost var all := FetchChunks(ChunkPlan(0, myBytes), old(serial.State()));
      ghost var allCommands := ReadCommands(ChunkPlan(0, myBytes));
      var initialOffset := 0;
      while initialOffset < myBytes
        invariant 0 <= initialOffset
        invariant old(imagePhoto) + all.payload ==
          imagePhoto + FetchChunks(ChunkPlan(initialOffset, myBytes), serial.State()).payload
        invariant all.link == FetchChunks(ChunkPlan(initialOffset, myBytes), serial.State()).link
        invariant old(serial.written) + allCommands ==
          serial.written + ReadCommands(ChunkPlan(initialOffset, myBytes))
        decreases myBytes - initialOffset
      {
        var bytesToGet := Min(myBytes - initialOffset, BytesToRead);
        ghost var offset, before, written, done := initialOffset, serial.State(), serial.written, imagePhoto;
        var command := PrepareCommand(bytesToGet, initialOffset);
        serial.Write(command);
        initialOffset := initialOffset + bytesToGet;
        var dataLen := NumStartJpgDigits + bytesToGet + NumEndJpgDigits;
        var data: seq<Byte>;
        if bytesToGet >= 1024 {
          data := serial.Read(dataLen);
        } else {
          data := serial.ReadAll();
        }
        var reply := data;
        var piece := PySlice(reply, NumStartJpgDigits, bytesToGet + NumEndJpgDigits);
        imagePhoto := imagePhoto + piece;
        FetchStep(offset, bytesToGet, initialOffset, myBytes, before, reply, serial.State());
        AppendShift(old(imagePhoto) + all.payload, done, piece,
          FetchChunks(ChunkPlan(initialOffset, myBytes), serial.State()).payload);
        AppendShift(old(serial.written) + allCommands, written, [command],
          ReadCommands(ChunkPlan(initialOffset, myBytes)));
      }
      image := imagePhoto;
    }
  }
}
