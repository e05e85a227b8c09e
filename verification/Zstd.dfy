/**
 The raw-block Zstandard writer and reader of arch_format.py, against the frame grammar of
 RFC 8878: a magic number, a frame header, then data blocks of which exactly the last is marked.
 */
module Zstd {
  import opened Bytes

  datatype ZstdError = TooLarge | NotAFrame | UnsupportedFrame | TruncatedFrame | TruncatedBlock | UnsupportedBlock

  const BLOCK_LIMIT: nat := 128 * 1024
  const SIZE_LIMIT: nat := 0x1_0000_0000
  const MAGIC: bytes := [0x28, 0xb5, 0x2f, 0xfd]
  const DESCRIPTOR: byte := 0xa0

  /** One Raw_Block (section 3.1.1.2 of RFC 8878). */
  datatype Block = Raw(last: bool, content: bytes)

  /** `n.to_bytes(3, "little")`. */
  function ToLittle3(n: nat): (s: bytes)
    requires n < 0x100_0000
    ensures |s| == 3
  {
    [n % 256, n / 256 % 256, n / 65536]
  }

  /** `n.to_bytes(4, "little")`. */
  function ToLittle4(n: nat): (s: bytes)
    requires n < SIZE_LIMIT
    ensures |s| == 4
  {
    [n % 256, n / 256 % 256, n / 65536 % 256, n / 0x100_0000]
  }

  /** `int.from_bytes(s, "little")` of three bytes. */
  function FromLittle3(s: bytes): (n: nat)
    requires |s| == 3
    ensures n < 0x100_0000
  {
    (s[0] as int) + 256 * (s[1] as int) + 65536 * (s[2] as int)
  }

  lemma Little3RoundTrip(n: nat, s: bytes)
    requires n < 0x100_0000 && |s| == 3
    ensures FromLittle3(ToLittle3(n)) == n
    ensures ToLittle3(FromLittle3(s)) == s
  {
    var m := FromLittle3(s);
    assert m % 256 == s[0] && m / 256 == (s[1] as int) + 256 * (s[2] as int);
    assert m / 65536 == s[2];
  }

  /** The 3-byte Block_Header: size, type 0 (raw) and the last-block bit. */
  function BlockHeader(b: Block): nat {
    8 * |b.content| + (if b.last then 1 else 0)
  }

  predicate Fits(b: Block) {
    8 * |b.content| + 7 < 0x100_0000
  }

  function SerializeBlock(b: Block): bytes
    requires Fits(b)
  {
    ToLittle3(BlockHeader(b)) + b.content
  }

  function Serialize(blocks: seq<Block>): bytes
    requires forall b <- blocks :: Fits(b)
  {
    if blocks == [] then [] else SerializeBlock(blocks[0]) + Serialize(blocks[1..])
  }

  function Content(blocks: seq<Block>): bytes {
    if blocks == [] then [] else blocks[0].content + Content(blocks[1..])
  }

  /** Exactly the last block is marked, and every size fits the 21-bit Block_Size field. */
  predicate WellFormed(blocks: seq<Block>) {
    && blocks != []
    && (forall i :: 0 <= i < |blocks| ==> (blocks[i].last <==> i == |blocks| - 1))
    && (forall b <- blocks :: Fits(b))
  }

  /** Block_Maximum_Size: the smaller of the window (here the whole content) and 128 KiB. */
  predicate RespectsMaximum(blocks: seq<Block>, window: nat) {
    forall i :: 0 <= i < |blocks| ==> |blocks[i].content| <= window && |blocks[i].content| <= BLOCK_LIMIT
  }

  // ----- frames of RFC 8878 -----

  /** A frame of raw blocks: the fields of its header (section 3.1.1.1 of RFC 8878) and its blocks. */
  datatype Frame = Frame(descriptor: byte, window: bytes, dictionary: bytes, blocks: seq<Block>)

  /** The Content_Checksum of a content, which is not modelled further. */
  type Hash = bytes -> Word

  type Word = n: nat | n < SIZE_LIMIT

  predicate SingleSegment(descriptor: byte) {
    (descriptor / 32) % 2 == 1
  }

  function DictionaryBytes(descriptor: byte): nat {
    match (descriptor as int) % 4
    case 0 => 0
    case 1 => 1
    case 2 => 2
    case _ => 4
  }

  function Pow2(e: nat): nat {
    if e == 0 then 1 else 2 * Pow2(e - 1)
  }

  /** Window_Size: the mantissa in eighths over a power of two from 1 KiB on. */
  function WindowSize(descriptor: byte): nat {
    Pow2(7 + (descriptor as int) / 8) * (8 + (descriptor as int) % 8)
  }

  /** Whether the Frame_Content_Size field that the descriptor asks for can hold a size. */
  predicate Declares(descriptor: byte, size: nat) {
    match (descriptor as int) / 64
    case 0 => !SingleSegment(descriptor) || size < 256
    case 1 => 256 <= size < 256 + 65536
    case 2 => size < SIZE_LIMIT
    case _ => size < SIZE_LIMIT * SIZE_LIMIT
  }

  /** Frame_Content_Size: 0 or 1, 2 (less 256), 4 or 8 bytes. */
  function SizeField(descriptor: byte, size: nat): bytes
    requires Declares(descriptor, size)
  {
    match (descriptor as int) / 64
    case 0 => if SingleSegment(descriptor) then [size] else []
    case 1 => [(size - 256) % 256, (size - 256) / 256]
    case 2 => ToLittle4(size)
    case _ => ToLittle4(size % SIZE_LIMIT) + ToLittle4(size / SIZE_LIMIT)
  }

  predicate ValidFrame(f: Frame) {
    && (f.descriptor / 8) % 2 == 0
    && |f.window| == (if SingleSegment(f.descriptor) then 0 else 1)
    && |f.dictionary| == DictionaryBytes(f.descriptor)
    && WellFormed(f.blocks) && Declares(f.descriptor, |Content(f.blocks)|)
    && RespectsMaximum(f.blocks, if f.window == [] then |Content(f.blocks)| else WindowSize(f.window[0]))
  }

  function Checksum(f: Frame, hash: Hash): bytes {
    if (f.descriptor / 4) % 2 == 1 then ToLittle4(hash(Content(f.blocks))) else []
  }

  /** The bytes after the descriptor and the window. */
  function Body(f: Frame, hash: Hash): bytes
    requires ValidFrame(f)
  {
    f.dictionary + SizeField(f.descriptor, |Content(f.blocks)|) + Serialize(f.blocks) + Checksum(f, hash)
  }

  function FrameBytes(f: Frame, hash: Hash): bytes
    requires ValidFrame(f)
  {
    MAGIC + [f.descriptor] + f.window + Body(f, hash)
  }

  /** A little-endian number of any width. */
  function FromLittle(s: bytes): nat {
    if s == [] then 0 else (s[0] as int) + 256 * FromLittle(s[1..])
  }

  /** The size field is the size in little-endian order, less 256 in a field of two bytes. */
  lemma SizeFieldHolds(descriptor: byte, size: nat)
    requires Declares(descriptor, size) && (descriptor / 64 > 0 || SingleSegment(descriptor))
    ensures FromLittle(SizeField(descriptor, size)) == size - if descriptor / 64 == 1 then 256 else 0
  {
    match (descriptor as int) / 64
    case 0 => LittleOne(size);
    case 1 => LittleTwo(size - 256);
    case 2 => LittleFour(size);
    case _ =>
      LittleFour(size % SIZE_LIMIT);
      LittleFour(size / SIZE_LIMIT);
      LittleJoined(ToLittle4(size % SIZE_LIMIT), ToLittle4(size / SIZE_LIMIT));
  }

  lemma LittleOne(n: nat)
    requires n < 256
    ensures FromLittle([n]) == n
  {
    assert [n as byte][1..] == [];
  }

  lemma LittleTwo(n: nat)
    requires n < 65536
    ensures FromLittle([n % 256, n / 256]) == n
  {
    var s: bytes := [n % 256, n / 256];
    assert s[1..] == [n / 256];
    LittleOne(n / 256);
  }

  lemma LittleFour(n: nat)
    requires n < SIZE_LIMIT
    ensures FromLittle(ToLittle4(n)) == n
  {
    var s := ToLittle4(n);
    var high: bytes := [n / 65536 % 256, n / 65536 / 256];
    assert s[1..][1..] == high;
    LittleTwo(n / 65536);
    assert FromLittle(s) == n % 256 + 256 * (n / 256 % 256 + 256 * (n / 65536));
    assert n / 65536 == n / 256 / 256;
  }

  lemma LittleCons(b: byte, s: bytes)
    ensures FromLittle([b] + s) == b as int + 256 * FromLittle(s)
  {
    assert ([b] + s)[1..] == s;
  }

  /** A number of four bytes with more bytes above it. */
  lemma LittleJoined(low: bytes, high: bytes)
    requires |low| == 4
    ensures FromLittle(low + high) == FromLittle(low) + SIZE_LIMIT * FromLittle(high)
  {
    LittleAbove(low, high);
    LittleAbove(low, []);
    assert low + [] == low;
  }

  lemma LittleAbove(low: bytes, high: bytes)
    requires |low| == 4
    ensures FromLittle(low + high)
         == low[0] as int + 256 * low[1] as int + 65536 * low[2] as int + 0x100_0000 * low[3] as int
            + SIZE_LIMIT * FromLittle(high)
  {
    hide FromLittle;
    LittleCons(low[3], high);
    LittleCons(low[2], [low[3]] + high);
    LittleCons(low[1], [low[2]] + ([low[3]] + high));
    LittleCons(low[0], [low[1]] + ([low[2]] + ([low[3]] + high)));
    assert low + high == [low[0]] + ([low[1]] + ([low[2]] + ([low[3]] + high)));
  }

  function FrameHeader(size: nat): bytes
    requires size < SIZE_LIMIT
  {
    MAGIC + [DESCRIPTOR] + ToLittle4(size)
  }

  lemma {:induction false} SerializeAppend(a: seq<Block>, b: seq<Block>)
    requires forall x <- a + b :: Fits(x)
    ensures Serialize(a + b) == Serialize(a) + Serialize(b)
    ensures Content(a + b) == Content(a) + Content(b)
  {
    assert forall x <- b :: x in a + b;
    if a == [] {
      assert a + b == b;
    } else {
      assert (a + b)[0] == a[0] && (a + b)[1..] == a[1..] + b;
      SerializeAppend(a[1..], b);
    }
  }

  /** Adding one serialized block to the output adds it to the block list. */
  lemma SerializeStep(chunks: seq<bytes>, blocks: seq<Block>, b: Block)
    requires Fits(b) && (forall x <- blocks :: Fits(x))
    requires Join(chunks) == Serialize(blocks)
    ensures Join(chunks + [SerializeBlock(b)]) == Serialize(blocks + [b])
    ensures Content(blocks + [b]) == Content(blocks) + b.content
  {
    SerializeAppend(blocks, [b]);
    JoinAppend(chunks, [SerializeBlock(b)]);
    assert Serialize([b]) == SerializeBlock(b) + [] && Content([b]) == b.content + [];
    assert Join([SerializeBlock(b)]) == SerializeBlock(b) + [];
  }

  /** The frame that the writer writes for some blocks. */
  function WrittenFrame(blocks: seq<Block>): Frame {
    Frame(DESCRIPTOR, [], [], blocks)
  }

  lemma WrittenIsValid(payload: bytes, blocks: seq<Block>)
    requires WellFormed(blocks) && RespectsMaximum(blocks, |payload|) && Content(blocks) == payload
    requires |payload| < SIZE_LIMIT
    ensures ValidFrame(WrittenFrame(blocks))
  {
  }

  lemma WrittenBytes(payload: bytes, blocks: seq<Block>, hash: Hash)
    requires ValidFrame(WrittenFrame(blocks)) && Content(blocks) == payload && |payload| < SIZE_LIMIT
    ensures FrameHeader(|payload|) + Serialize(blocks) == FrameBytes(WrittenFrame(blocks), hash)
  {
    hide ToLittle4, Serialize;
    var f := WrittenFrame(blocks);
    assert Checksum(f, hash) == [] && SizeField(DESCRIPTOR, |payload|) == ToLittle4(|payload|);
    assert Body(f, hash) == ToLittle4(|payload|) + Serialize(blocks);
  }

  /**
   The writer. On success its output is the frame of RFC 8878, of a single segment without checksum, whose
   blocks hold the payload; `blocks` is the witness.
   */
  method Encode(payload: bytes) returns (r: Result<bytes, ZstdError>, ghost blocks: seq<Block>)
    ensures r.Ok? <==> |payload| < SIZE_LIMIT
    ensures r.Err? ==> r.error == TooLarge
    ensures r.Ok? ==> WellFormed(blocks) && RespectsMaximum(blocks, |payload|) && Content(blocks) == payload
    ensures r.Ok? ==> r.value == FrameHeader(|payload|) + Serialize(blocks)
    ensures r.Ok? ==> ValidFrame(WrittenFrame(blocks))
    ensures r.Ok? ==> forall hash: Hash :: r.value == FrameBytes(WrittenFrame(blocks), hash)
  {
    hide ValidFrame, FrameBytes, WrittenFrame;
    hide FrameHeader, ToLittle3, Partial, Serialize;
    blocks := [];
    if |payload| >= SIZE_LIMIT {
      return Err(TooLarge), [];
    }
    var header := FrameHeader(|payload|);
    var chunks: seq<bytes> := [];
    var offset := 0;
    NothingWritten(payload);
    while offset < |payload|
      invariant 0 <= offset && |chunks| == |blocks| && (offset == 0 <==> blocks == [])
      invariant Partial(payload, blocks, offset)
      invariant (forall b <- blocks :: Fits(b)) && Join(chunks) == Serialize(blocks)
      decreases |payload| - offset
    {
      var end := if offset + BLOCK_LIMIT < |payload| then offset + BLOCK_LIMIT else |payload|;
      var chunk := payload[offset..end];
      var last := offset + |chunk| >= |payload|;
      var blockHeader := |chunk| * 8 + (if last then 1 else 0);
      ghost var block := Raw(last, chunk);
      SerializeStep(chunks, blocks, block);
      PartialStep(payload, blocks, offset);
      chunks := chunks + [ToLittle3(blockHeader) + chunk];
      blocks := blocks + [block];
      offset := offset + BLOCK_LIMIT;
    }
    if |chunks| == 0 {
      chunks := [ToLittle3(1)];
      blocks := [Raw(true, [])];
      EmptyFrame(payload, chunks);
    } else {
      AllWritten(payload, blocks, offset);
    }
    r := Ok(header + Join(chunks));
    WrittenIsValid(payload, blocks);
    forall hash: Hash
      ensures header + Serialize(blocks) == FrameBytes(WrittenFrame(blocks), hash)
    {
      WrittenBytes(payload, blocks, hash);
    }
  }

  /** The blocks written before `offset`: what they hold, their bounds, and which one is marked last. */
  predicate Partial(payload: bytes, blocks: seq<Block>, offset: nat) {
    && (offset > |payload| ==> blocks != [])
    && Content(blocks) == payload[..if offset < |payload| then offset else |payload|]
    && RespectsMaximum(blocks, |payload|)
    && forall i :: 0 <= i < |blocks| ==> (blocks[i].last <==> i == |blocks| - 1 && offset >= |payload|)
  }

  lemma NothingWritten(payload: bytes)
    ensures Partial(payload, [], 0) && Serialize([]) == []
  {
  }

  lemma PartialStep(payload: bytes, blocks: seq<Block>, offset: nat)
    requires Partial(payload, blocks, offset) && offset < |payload|
    ensures var end := if offset + BLOCK_LIMIT < |payload| then offset + BLOCK_LIMIT else |payload|;
            Partial(payload, blocks + [Raw(end >= |payload|, payload[offset..end])], offset + BLOCK_LIMIT)
  {
    var end := if offset + BLOCK_LIMIT < |payload| then offset + BLOCK_LIMIT else |payload|;
    ContentAppend(blocks, Raw(end >= |payload|, payload[offset..end]));
    assert payload[..end] == payload[..offset] + payload[offset..end];
  }

  lemma {:induction false} ContentAppend(blocks: seq<Block>, b: Block)
    ensures Content(blocks + [b]) == Content(blocks) + b.content
  {
    if blocks == [] {
      assert [] + [b] == [b] && [b][1..] == [] && Content([b]) == b.content + [];
    } else {
      assert (blocks + [b])[1..] == blocks[1..] + [b];
      ContentAppend(blocks[1..], b);
    }
  }

  lemma AllWritten(payload: bytes, blocks: seq<Block>, offset: nat)
    requires Partial(payload, blocks, offset) && offset >= |payload| && blocks != []
    requires forall b <- blocks :: Fits(b)
    ensures WellFormed(blocks) && RespectsMaximum(blocks, |payload|) && Content(blocks) == payload
  {
    assert payload[..|payload|] == payload;
  }

  /** An empty payload still gets one block, empty and marked last. */
  lemma EmptyFrame(payload: bytes, chunks: seq<bytes>)
    requires payload == [] && chunks == [ToLittle3(1)]
    ensures var blocks := [Raw(true, [])];
            && WellFormed(blocks) && RespectsMaximum(blocks, |payload|) && Content(blocks) == payload
            && Join(chunks) == Serialize(blocks)
  {
    SerializeStep([], [], Raw(true, []));
    assert [] + chunks == chunks && ToLittle3(1) + [] == ToLittle3(1) && [] + [Raw(true, [])] == [Raw(true, [])];
    assert Content([Raw(true, [])]) == [];
  }

  function Prepend(prefix: bytes, r: Result<bytes, ZstdError>): Result<bytes, ZstdError> {
    match r
    case Ok(rest) => Ok(prefix + rest)
    case Err(e) => Err(e)
  }

  lemma PrependTwice(a: bytes, b: bytes, r: Result<bytes, ZstdError>)
    ensures Prepend([], r) == r
    ensures Prepend(a, Prepend(b, r)) == Prepend(a + b, r)
  {
    if r.Ok? {
      assert [] + r.value == r.value;
      assert a + (b + r.value) == (a + b) + r.value;
    }
  }

  /** Read blocks up to the marked one; what follows it is ignored. */
  function ReadBlocks(data: bytes): (r: Result<bytes, ZstdError>)
    decreases |data|
  {
    if |data| < 3 then Err(TruncatedBlock)
    else
      var block := FromLittle3(data[..3]);
      var size := block / 8;
      if (block / 2) % 4 != 0 || 3 + size > |data| then Err(UnsupportedBlock)
      else if block % 2 == 1 then Ok(data[3..3 + size])
      else Prepend(data[3..3 + size], ReadBlocks(data[3 + size..]))
  }

  /** The content-size field the reader skips: 4 bytes for size flag 2, and 8 for every other flag. */
  function SizeBytes(descriptor: byte): nat {
    if (descriptor / 64) % 4 == 2 then 4 else 8
  }

  function ReadFrame(payload: bytes): Result<bytes, ZstdError> {
    if |payload| < 6 || payload[..4] != MAGIC then Err(NotAFrame)
    else if (payload[4] / 32) % 2 == 0 || (payload[4] / 8) % 2 == 1 then Err(UnsupportedFrame)
    else if 5 + SizeBytes(payload[4]) > |payload| then Err(TruncatedFrame)
    else ReadBlocks(payload[5 + SizeBytes(payload[4])..])
  }

  /** The reader. It stops on every input. */
  method Decode(payload: bytes) returns (r: Result<bytes, ZstdError>)
    ensures r == ReadFrame(payload)
  {
    if |payload| < 6 || payload[..4] != MAGIC {
      return Err(NotAFrame);
    }
    var descriptor := payload[4];
    var singleSegment := (descriptor / 32) % 2 == 1;
    if !singleSegment || (descriptor / 8) % 2 == 1 {
      return Err(UnsupportedFrame);
    }
    var position := 5 + SizeBytes(descriptor);
    if position > |payload| {
      return Err(TruncatedFrame);
    }
    var output: bytes := [];
    var last := false;
    ghost var start := position;
    PrependTwice([], [], ReadBlocks(payload[start..]));
    while !last
      invariant start <= position <= |payload|
      invariant last ==> ReadBlocks(payload[start..]) == Ok(output)
      invariant !last ==> ReadBlocks(payload[start..]) == Prepend(output, ReadBlocks(payload[position..]))
      decreases !last, |payload| - position
    {
      if position + 3 > |payload| {
        return Err(TruncatedBlock);
      }
      ghost var data := payload[position..];
      assert data[..3] == payload[position..position + 3];
      var block := FromLittle3(payload[position..position + 3]);
      position := position + 3;
      last := block % 2 == 1;
      var blockType := (block / 2) % 4;
      var size := block / 8;
      if blockType != 0 || position + size > |payload| {
        return Err(UnsupportedBlock);
      }
      assert data[3..3 + size] == payload[position..position + size];
      assert data[3 + size..] == payload[position + size..];
      ghost var before := output;
      output := output + payload[position..position + size];
      position := position + size;
      PrependTwice(before, data[3..3 + size], ReadBlocks(payload[position..]));
    }
    r := Ok(output);
  }

  lemma BlockHeaderFields(b: Block)
    requires Fits(b)
    ensures FromLittle3(ToLittle3(BlockHeader(b))) == BlockHeader(b)
    ensures BlockHeader(b) / 8 == |b.content| && (BlockHeader(b) / 2) % 4 == 0
    ensures BlockHeader(b) % 2 == 1 <==> b.last
  {
    hide ToLittle3, FromLittle3;
    Little3RoundTrip(BlockHeader(b), [0, 0, 0]);
    HeaderParts(|b.content|, if b.last then 1 else 0);
  }

  lemma HeaderParts(size: nat, last: nat)
    requires last < 2
    ensures var h := 8 * size + last; h / 8 == size && h / 2 == 4 * size && (h / 2) % 4 == 0 && h % 2 == last
  {
  }

  /** Reading past one serialized block. */
  lemma ReadOneBlock(b: Block, tail: bytes)
    requires Fits(b)
    ensures ReadBlocks(SerializeBlock(b) + tail) ==
            if b.last then Ok(b.content) else Prepend(b.content, ReadBlocks(tail))
  {
    var header, data := ToLittle3(BlockHeader(b)), SerializeBlock(b) + tail;
    BlockHeaderFields(b);
    assert data[..3] == header;
    assert data[3..3 + |b.content|] == b.content;
    assert data[3 + |b.content|..] == tail;
  }

  lemma WellFormedTail(blocks: seq<Block>)
    requires WellFormed(blocks) && |blocks| > 1
    ensures WellFormed(blocks[1..]) && !blocks[0].last
  {
    forall i | 0 <= i < |blocks[1..]|
      ensures blocks[1..][i].last <==> i == |blocks[1..]| - 1
    {
      assert blocks[1..][i] == blocks[i + 1];
    }
  }

  /** Reading any well-formed block list gives its content, whatever bytes follow. */
  lemma {:induction false} ReadBlocksInverts(blocks: seq<Block>, trailing: bytes)
    requires WellFormed(blocks)
    ensures ReadBlocks(Serialize(blocks) + trailing) == Ok(Content(blocks))
    decreases |blocks|
  {
    var b, rest := blocks[0], blocks[1..];
    ReadOneBlock(b, Serialize(rest) + trailing);
    assert Serialize(blocks) + trailing == SerializeBlock(b) + (Serialize(rest) + trailing);
    if rest == [] {
      assert blocks[0].last;
      assert Content(blocks) == b.content + Content(rest) == b.content;
    } else {
      WellFormedTail(blocks);
      ReadBlocksInverts(rest, trailing);
    }
  }

  /** The block at the front of data the reader accepts. */
  lemma FirstBlock(data: bytes) returns (b: Block, tail: bytes)
    requires ReadBlocks(data).Ok?
    ensures Fits(b) && data == SerializeBlock(b) + tail && |tail| < |data| && (b.last || ReadBlocks(tail).Ok?)
  {
    hide ToLittle3, FromLittle3;
    var block := FromLittle3(data[..3]);
    b, tail := Raw(block % 2 == 1, data[3..3 + block / 8]), data[3 + block / 8..];
    Little3RoundTrip(0, data[..3]);
    HeaderOfParts(block);
    assert BlockHeader(b) == block;
    assert data == data[..3] + (b.content + tail);
  }

  lemma HeaderOfParts(h: nat)
    requires (h / 2) % 4 == 0
    ensures 8 * (h / 8) + h % 2 == h
  {
    assert h / 8 == h / 2 / 4;
  }

  lemma WellFormedCons(b: Block, rest: seq<Block>)
    requires Fits(b) && !b.last && WellFormed(rest)
    ensures WellFormed([b] + rest)
    ensures Serialize([b] + rest) == SerializeBlock(b) + Serialize(rest)
    ensures Content([b] + rest) == b.content + Content(rest)
  {
    assert ([b] + rest)[1..] == rest;
  }

  /** Whatever the reader accepts is a well-formed block list followed by ignored bytes. */
  lemma {:induction false} ReadBlocksSound(data: bytes) returns (blocks: seq<Block>, trailing: bytes)
    requires ReadBlocks(data).Ok?
    ensures WellFormed(blocks)
    ensures data == Serialize(blocks) + trailing
    decreases |data|
  {
    hide ReadBlocks, SerializeBlock;
    var b, tail := FirstBlock(data);
    if b.last {
      blocks, trailing := [b], tail;
      assert Serialize(blocks) == SerializeBlock(b) + [];
    } else {
      var rest;
      rest, trailing := ReadBlocksSound(tail);
      WellFormedCons(b, rest);
      blocks := [b] + rest;
    }
  }

  /** `payload` is a single-segment frame with the given blocks, then `trailing`. */
  predicate IsFrame(payload: bytes, blocks: seq<Block>, trailing: bytes) {
    && |payload| >= 6
    && payload[..4] == MAGIC
    && (payload[4] / 32) % 2 == 1
    && (payload[4] / 8) % 2 == 0
    && 5 + SizeBytes(payload[4]) <= |payload|
    && WellFormed(blocks)
    && payload[5 + SizeBytes(payload[4])..] == Serialize(blocks) + trailing
  }

  /** The reader accepts exactly the frames of the grammar it supports, and returns their content. */
  lemma DecodeMeaning(payload: bytes, content: bytes)
    ensures ReadFrame(payload) == Ok(content) <==>
      exists blocks, trailing ::
        IsFrame(payload, blocks, trailing) && Content(blocks) == content
  {
    if ReadFrame(payload) == Ok(content) {
      var start := 5 + SizeBytes(payload[4]);
      var blocks, trailing := ReadBlocksSound(payload[start..]);
      ReadBlocksInverts(blocks, trailing);
      assert IsFrame(payload, blocks, trailing);
    }
    forall blocks, trailing | IsFrame(payload, blocks, trailing) && Content(blocks) == content
      ensures ReadFrame(payload) == Ok(content)
    {
      ReadBlocksInverts(blocks, trailing);
    }
  }

  /** The writer's header is one the reader accepts, and ends where the blocks start. */
  lemma HeaderIsAccepted(size: nat, data: bytes)
    requires size < SIZE_LIMIT
    ensures ReadFrame(FrameHeader(size) + data) == ReadBlocks(data)
  {
    var header := FrameHeader(size);
    var payload := header + data;
    assert payload[..4] == header[..4] == MAGIC;
    assert payload[4] == header[4] == DESCRIPTOR;
    assert |header| == 9 && payload[9..] == data;
    assert SizeBytes(DESCRIPTOR) == 4;
  }

  /** What the writer produced reads back as the payload it was given. */
  method RoundTrip(payload: bytes) returns (r: Result<bytes, ZstdError>)
    ensures r == if |payload| < SIZE_LIMIT then Ok(payload) else Err(TooLarge)
  {
    var encoded, blocks := Encode(payload);
    if encoded.Err? {
      return encoded;
    }
    HeaderIsAccepted(|payload|, Serialize(blocks));
    ReadBlocksInverts(blocks, []);
    assert Serialize(blocks) + [] == Serialize(blocks);
    r := Decode(encoded.value);
  }

  // ----- which frames of RFC 8878 are read correctly -----

  /** The reader returns the content of every frame of raw blocks with this descriptor. */
  ghost predicate ReadsFrames(descriptor: byte, hash: Hash) {
    forall f :: ValidFrame(f) && f.descriptor == descriptor ==> ReadFrame(FrameBytes(f, hash)) == Ok(Content(f.blocks))
  }

  /** Reading a frame goes straight to its blocks, wherever the reader takes them to start. */
  lemma ReadFrameAt(f: Frame, hash: Hash)
    requires ValidFrame(f)
    ensures ReadFrame(FrameBytes(f, hash)) ==
              if !SingleSegment(f.descriptor) then Err(UnsupportedFrame)
              else if SizeBytes(f.descriptor) > |Body(f, hash)| then Err(TruncatedFrame)
              else ReadBlocks(Body(f, hash)[SizeBytes(f.descriptor)..])
  {
    hide Body, ReadBlocks;
    var payload, header := FrameBytes(f, hash), MAGIC + [f.descriptor];
    assert payload[..4] == MAGIC && payload[4] == f.descriptor;
    BodyHolds(f, hash);
    if SingleSegment(f.descriptor) {
      assert header + f.window == header;
      assert payload == header + Body(f, hash);
      var n := SizeBytes(f.descriptor);
      if n <= |Body(f, hash)| { assert payload[5 + n..] == Body(f, hash)[n..]; }
    }
  }

  lemma BodyHolds(f: Frame, hash: Hash)
    requires ValidFrame(f)
    ensures |Body(f, hash)| >= 3
  {
    assert Serialize(f.blocks) == SerializeBlock(f.blocks[0]) + Serialize(f.blocks[1..]);
  }

  lemma GoodDescriptor(f: Frame, hash: Hash)
    requires ValidFrame(f) && SingleSegment(f.descriptor)
    requires f.descriptor % 4 == 0 && f.descriptor / 64 >= 2
    ensures ReadFrame(FrameBytes(f, hash)) == Ok(Content(f.blocks))
  {
    hide ReadBlocks, Serialize, ToLittle4;
    var n, size := SizeBytes(f.descriptor), SizeField(f.descriptor, |Content(f.blocks)|);
    ReadFrameAt(f, hash);
    assert |size| == n;
    assert Body(f, hash) == size + (Serialize(f.blocks) + Checksum(f, hash));
    assert Body(f, hash)[n..] == Serialize(f.blocks) + Checksum(f, hash);
    ReadBlocksInverts(f.blocks, Checksum(f, hash));
  }

  // ----- a frame that is misread, for every other descriptor -----

  function Sixes(n: nat): (s: bytes)
    ensures |s| == n && forall i :: 0 <= i < n ==> s[i] == 6
  {
    seq(n, _ => 6)
  }

  function Zeros(n: nat): (s: bytes)
    ensures |s| == n && forall i :: 0 <= i < n ==> s[i] == 0
  {
    seq(n, _ => 0)
  }

  /** One block of sixes, as many as the size field needs. */
  function Witness(descriptor: byte): Frame {
    Frame(descriptor, if SingleSegment(descriptor) then [] else [0], Zeros(DictionaryBytes(descriptor)),
          [Raw(true, Sixes(if descriptor / 64 == 1 then 262 else 6))])
  }

  lemma WitnessIsValid(descriptor: byte)
    requires (descriptor / 8) % 2 == 0
    ensures ValidFrame(Witness(descriptor))
    ensures Content(Witness(descriptor).blocks) == Witness(descriptor).blocks[0].content
    ensures Serialize(Witness(descriptor).blocks) == SerializeBlock(Witness(descriptor).blocks[0])
  {
    var b := Witness(descriptor).blocks[0];
    assert [b][1..] == [] && b.content + [] == b.content && SerializeBlock(b) + [] == SerializeBlock(b);
    assert Pow2(3) == 8 && Pow2(5) == 32 && Pow2(7) == 128;
  }

  lemma Rejected(data: bytes)
    requires |data| < 3 || (FromLittle3(data[..3]) / 2) % 4 != 0 || 3 + FromLittle3(data[..3]) / 8 > |data|
    ensures ReadBlocks(data).Err?
  {
    hide FromLittle3;
  }

  /** What three bytes at the front make of a short input. */
  lemma BadBlock(data: bytes)
    requires |data| >= 3 ==> (data[0] == 6 || (data[0] == 0 && |data| < 300 && 8 * 300 <= FromLittle3(data[..3])
                                               && (FromLittle3(data[..3]) / 2) % 4 == 0))
    ensures ReadBlocks(data).Err?
  {
    hide ReadBlocks;
    if |data| >= 3 && data[0] == 6 {
      SixIsReserved(data[..3]);
    }
    Rejected(data);
  }

  lemma SixIsReserved(header: bytes)
    requires |header| == 3 && header[0] == 6
    ensures (FromLittle3(header) / 2) % 4 == 3
  {
    assert FromLittle3(header) / 2 == 3 + 4 * (32 * (header[1] as int) + 8192 * (header[2] as int));
  }

  /** The body of the witness, with the two low bytes of its only block header. */
  function WitnessBody(dictionary: nat, size: bytes, high: byte, content: nat, checksum: bytes): bytes {
    Zeros(dictionary) + size + [49, high, 0] + Sixes(content) + checksum
  }

  lemma BodyOfWitness(descriptor: byte, hash: Hash)
    requires (descriptor / 8) % 2 == 0 && SingleSegment(descriptor)
    ensures ValidFrame(Witness(descriptor))
    ensures var flag, f := (descriptor as int) / 64, Witness(descriptor);
            Body(f, hash) == WitnessBody(DictionaryBytes(descriptor), [6] + Zeros([0, 1, 3, 7][flag]),
                                         if flag == 1 then 8 else 0, if flag == 1 then 262 else 6, Checksum(f, hash))
  {
    hide Checksum;
    WitnessIsValid(descriptor);
    var flag, f := (descriptor as int) / 64, Witness(descriptor);
    var n := if flag == 1 then 262 else 6;
    assert SizeField(descriptor, n) == [6] + Zeros([0, 1, 3, 7][flag]);
    assert ToLittle3(8 * n + 1) == [49, if flag == 1 then 8 else 0, 0];
    assert |Content(f.blocks)| == n;
  }

  /** With size flag 0 or 1 the reader starts past the first byte of the content, or right before it. */
  lemma ShortSizeMisread(dictionary: nat, flag: nat, checksum: bytes)
    requires flag < 2 && dictionary in {0, 1, 2, 4} && |checksum| <= 4
    ensures var body := WitnessBody(dictionary, [6] + Zeros(flag), if flag == 1 then 8 else 0,
                                    if flag == 1 then 262 else 6, checksum);
            |body| >= 8 && ReadBlocks(body[8..]).Err?
  {
    hide ReadBlocks;
    var body := WitnessBody(dictionary, [6] + Zeros(flag), if flag == 1 then 8 else 0,
                            if flag == 1 then 262 else 6, checksum);
    if flag == 1 && dictionary == 4 {
      assert body[8..][..3] == [0, 6, 6];
    }
    BadBlock(body[8..]);
  }

  /** With a dictionary it starts inside the size field or the block header. */
  lemma DictionaryMisread(dictionary: nat, n: nat, checksum: bytes)
    requires dictionary in {1, 2, 4} && n in {4, 8} && |checksum| <= 4
    ensures var body := WitnessBody(dictionary, [6] + Zeros(n - 1), 0, 6, checksum);
            |body| >= n && ReadBlocks(body[n..]).Err?
  {
    hide ReadBlocks;
    var body := WitnessBody(dictionary, [6] + Zeros(n - 1), 0, 6, checksum);
    var prefix := Zeros(dictionary) + ([6] + Zeros(n - 1));
    var blocks := [49, 0, 0] + (Sixes(6) + checksum);
    assert body == prefix + blocks;
    assert body[n..] == prefix[n..] + blocks;
    if dictionary == 4 && n == 4 {
      assert prefix[n] == 6;
      BadBlock(body[n..]);
    } else {
      assert prefix[n..] == Zeros(dictionary);
      MisreadZeros(dictionary, blocks);
    }
  }

  /** Zeros before the block header shift its size into a higher byte. */
  lemma MisreadZeros(zeros: nat, blocks: bytes)
    requires zeros in {1, 2, 4} && 3 <= |blocks| < 100 && blocks[..3] == [49, 0, 0]
    ensures ReadBlocks(Zeros(zeros) + blocks).Err?
  {
    hide ReadBlocks;
    var data := Zeros(zeros) + blocks;
    if zeros == 1 {
      assert data[..3] == [0] + blocks[..3][..2] == [0, 49, 0];
      BadBlock(data);
    } else if zeros == 2 {
      assert data[..3] == [0, 0] + blocks[..3][..1] == [0, 0, 49];
      BadBlock(data);
    } else {
      assert data[..3] == [0, 0, 0] && data[3..] == Zeros(1) + blocks;
      EmptyBlock(data);
      MisreadZeros(1, blocks);
    }
  }

  /** An empty block that is not the last is skipped. */
  lemma EmptyBlock(data: bytes)
    requires |data| >= 3 && data[..3] == [0, 0, 0]
    ensures ReadBlocks(data).Err? <==> ReadBlocks(data[3..]).Err?
  {
    hide ReadBlocks;
    assert ToLittle3(0) == [0, 0, 0];
    assert data == SerializeBlock(Raw(false, [])) + data[3..];
    ReadOneBlock(Raw(false, []), data[3..]);
  }

  lemma WitnessIsMisread(descriptor: byte, hash: Hash)
    requires (descriptor / 8) % 2 == 0
    requires !(SingleSegment(descriptor) && descriptor % 4 == 0 && descriptor / 64 >= 2)
    ensures ValidFrame(Witness(descriptor)) && ReadFrame(FrameBytes(Witness(descriptor), hash)).Err?
  {
    hide ReadBlocks, Body, FrameBytes, ReadFrame, ValidFrame, WitnessBody;
    var f := Witness(descriptor);
    WitnessIsValid(descriptor);
    ReadFrameAt(f, hash);
    if SingleSegment(descriptor) {
      BodyOfWitness(descriptor, hash);
      if descriptor / 64 < 2 {
        ShortSizeMisread(DictionaryBytes(descriptor), descriptor / 64, Checksum(f, hash));
      } else {
        DictionaryMisread(DictionaryBytes(descriptor), SizeBytes(descriptor), Checksum(f, hash));
      }
    }
  }

  /**
   * For every frame header descriptor of RFC 8878: the reader returns the content of all its frames of raw
   * blocks exactly when the frame is a single segment, without dictionary, and its size field has 4 or 8 bytes.
   */
  lemma FramesReadExactly(descriptor: byte, hash: Hash)
    requires (descriptor / 8) % 2 == 0
    ensures ReadsFrames(descriptor, hash)
       <==> SingleSegment(descriptor) && descriptor % 4 == 0 && descriptor / 64 >= 2
  {
    hide ReadFrame, FrameBytes, ValidFrame;
    if SingleSegment(descriptor) && descriptor % 4 == 0 && descriptor / 64 >= 2 {
      forall f | ValidFrame(f) && f.descriptor == descriptor
        ensures ReadFrame(FrameBytes(f, hash)) == Ok(Content(f.blocks))
      {
        GoodDescriptor(f, hash);
      }
    } else {
      WitnessIsMisread(descriptor, hash);
    }
  }
}
