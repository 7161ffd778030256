/** Moving a configuration to and from the device in blocks. */
module ConfigTransfer {
  import opened Struct
  import opened RobotConfigs
  import opened ConfigCodec

  const CFG_BLOCK_MAX := 192

  // ---------- Reassembly ----------

  datatype Block = Block(offset: int, data: bytes)

  predicate InRange(total: nat, b: Block) {
    0 <= b.offset && b.offset + |b.data| <= total
  }

  predicate Covers(b: Block, i: int) {
    b.offset <= i < b.offset + |b.data|
  }

  /** The buffer and, position by position, whether it has been written. */
  datatype Assembly = Assembly(buf: bytes, filled: seq<bool>)

  function Blank(total: nat): Assembly {
    Assembly(seq(total, i => 0), seq(total, i => false))
  }

  function Add(a: Assembly, b: Block): Assembly
    requires |a.buf| == |a.filled| && InRange(|a.buf|, b)
  {
    Assembly(
      seq(|a.buf|, i requires 0 <= i < |a.buf| => if Covers(b, i) then b.data[i - b.offset] else a.buf[i]),
      seq(|a.buf|, i requires 0 <= i < |a.buf| => Covers(b, i) || a.filled[i]))
  }

  predicate AllInRange(total: nat, blocks: seq<Block>) {
    forall k :: 0 <= k < |blocks| ==> InRange(total, blocks[k])
  }

  function Assembled(total: nat, blocks: seq<Block>): (a: Assembly)
    requires AllInRange(total, blocks)
    ensures |a.buf| == |a.filled| == total
  {
    if blocks == [] then Blank(total) else Add(Assembled(total, blocks[..|blocks| - 1]), blocks[|blocks| - 1])
  }

  predicate AnyCovers(blocks: seq<Block>, i: int) {
    exists k :: 0 <= k < |blocks| && Covers(blocks[k], i)
  }

  /** Block `k` is the last one that covers position `i`. */
  predicate LastCover(blocks: seq<Block>, i: int, k: nat) {
    k < |blocks| && Covers(blocks[k], i) && forall j :: k < j < |blocks| ==> !Covers(blocks[j], i)
  }

  /** A position counts as filled exactly when some block covered it, and then it holds what
      the last such block brought. */
  lemma {:induction false} FilledIffCovered(total: nat, blocks: seq<Block>, i: nat)
    requires AllInRange(total, blocks) && i < total
    ensures Assembled(total, blocks).filled[i] <==> AnyCovers(blocks, i)
    ensures forall k: nat :: LastCover(blocks, i, k) ==> Assembled(total, blocks).buf[i] == blocks[k].data[i - blocks[k].offset]
  {
    if blocks != [] {
      var n := |blocks| - 1;
      var front := blocks[..n];
      FilledIffCovered(total, front, i);
      forall k: nat | LastCover(blocks, i, k)
        ensures Assembled(total, blocks).buf[i] == blocks[k].data[i - blocks[k].offset]
      {
        if k < n {
          assert LastCover(front, i, k);
        }
      }
      if AnyCovers(blocks, i) && !Covers(blocks[n], i) {
        var k :| 0 <= k < |blocks| && Covers(blocks[k], i);
        assert Covers(front[k], i);
      }
      if AnyCovers(front, i) {
        var k :| 0 <= k < |front| && Covers(front[k], i);
        assert Covers(blocks[k], i);
      }
    }
  }

  predicate Full(a: Assembly) {
    forall i :: 0 <= i < |a.filled| ==> a.filled[i]
  }

  // ---------- Reading ----------

  datatype Reply = NoReply | Data(block: Block)

  /** The device, seen through its answers: what it says to the request with this number for
      this offset and length. */
  type Getter = (nat, nat, nat) -> Reply

  datatype Fetched = Fetched(blocks: seq<Block>) | Failed | OutOfRange

  function Min(a: int, b: int): int {
    if a < b then a else b
  }

  /** The window loop; every round that goes on moves the offset forward. */
  function Fetch(get: Getter, total: nat, window: nat, step: nat, offset: nat, blocks: seq<Block>): Fetched
    requires window > 0
    decreases total - offset
  {
    if offset >= total then Fetched(blocks)
    else
      match get(step, offset, Min(window, total - offset))
      case NoReply => Failed
      case Data(b) =>
        if !InRange(total, b) then OutOfRange
        else if b.data == [] then Failed
        else Fetch(get, total, window, step + 1, offset + |b.data|, blocks + [b])
  }

  datatype Summary = NoSummary | Summary(payloadSize: nat, blockMax: nat)

  datatype ReadResult = NoConfig | Got(config: RobotConfig) | Raised

  function Window(blockMax: nat): (w: nat)
    ensures w > 0
  {
    if blockMax == 0 then CFG_BLOCK_MAX else blockMax
  }

  /** How many bytes the first `n` blocks brought, and so which offset is asked for next. */
  function Received(blocks: seq<Block>, n: nat): nat
    requires n <= |blocks|
  {
    if n == 0 then 0 else Received(blocks, n - 1) + |blocks[n - 1].data|
  }

  /** Every block is the device's answer to the window that was asked for at that point. */
  ghost predicate AllAnswered(get: Getter, total: nat, window: nat, blocks: seq<Block>) {
    forall k :: 0 <= k < |blocks| ==> Answered(get, total, window, blocks, k)
  }

  predicate Answered(get: Getter, total: nat, window: nat, blocks: seq<Block>, k: nat)
    requires k < |blocks|
  {
    var offset := Received(blocks, k);
    offset < total && window > 0 && get(k, offset, Min(window, total - offset)) == Data(blocks[k])
  }

  lemma {:induction false} ReceivedPrefix(blocks: seq<Block>, b: Block, n: nat)
    requires n <= |blocks|
    ensures Received(blocks + [b], n) == Received(blocks, n)
  {
    if n > 0 {
      ReceivedPrefix(blocks, b, n - 1);
    }
  }

  lemma OneMoreAnswered(get: Getter, total: nat, window: nat, blocks: seq<Block>, b: Block)
    requires window > 0 && AllAnswered(get, total, window, blocks) && Received(blocks, |blocks|) < total
    requires var offset := Received(blocks, |blocks|);
             get(|blocks|, offset, Min(window, total - offset)) == Data(b)
    ensures AllAnswered(get, total, window, blocks + [b])
    ensures Received(blocks + [b], |blocks| + 1) == Received(blocks, |blocks|) + |b.data|
  {
    ReceivedPrefix(blocks, b, |blocks|);
    forall k | 0 <= k < |blocks| + 1 ensures Answered(get, total, window, blocks + [b], k) {
      ReceivedPrefix(blocks, b, k);
      if k < |blocks| {
        assert Answered(get, total, window, blocks, k);
      }
    }
  }

  lemma {:induction false} FetchInRange(get: Getter, total: nat, window: nat, step: nat, offset: nat, blocks: seq<Block>)
    requires window > 0 && AllInRange(total, blocks) && AllAnswered(get, total, window, blocks)
    requires |blocks| == step && Received(blocks, step) == offset
    ensures var f := Fetch(get, total, window, step, offset, blocks);
            f.Fetched? ==> AllInRange(total, f.blocks) && AllAnswered(get, total, window, f.blocks)
    decreases total - offset
  {
    if offset < total {
      match get(step, offset, Min(window, total - offset))
      case NoReply =>
      case Data(b) =>
        if InRange(total, b) && b.data != [] {
          OneMoreAnswered(get, total, window, blocks, b);
          FetchInRange(get, total, window, step + 1, offset + |b.data|, blocks + [b]);
        }
    }
  }

  function Finish(total: nat, blocks: seq<Block>): ReadResult
    requires AllInRange(total, blocks)
  {
    var a := Assembled(total, blocks);
    if !Full(a) then NoConfig
    else
      match Decode(a.buf)
      case Config(c) => Got(c)
      case WrongLength => Raised
      case WrongVersion => Raised
  }

  function ReadConfig(summary: Summary, get: Getter): ReadResult {
    match summary
    case NoSummary => NoConfig
    case Summary(total, blockMax) =>
      FetchInRange(get, total, Window(blockMax), 0, 0, []);
      match Fetch(get, total, Window(blockMax), 0, 0, [])
      case Failed => NoConfig
      case OutOfRange => Raised
      case Fetched(blocks) => Finish(total, blocks)
  }

  /** Against any device: a configuration is returned only if every byte of the payload was
      covered by some block the device sent for the window it was then asked for, and it is what
      those bytes decode to. */
  lemma ReadIsCovered(summary: Summary, get: Getter) returns (payload: bytes, blocks: seq<Block>)
    requires ReadConfig(summary, get).Got?
    ensures Decode(payload) == Config(ReadConfig(summary, get).config) && summary.Summary? && |payload| == summary.payloadSize
    ensures AllAnswered(get, |payload|, if summary.blockMax == 0 then 192 else summary.blockMax, blocks)
    ensures forall i :: 0 <= i < |payload| ==> AnyCovers(blocks, i)
    ensures forall i, k: nat :: 0 <= i < |payload| && LastCover(blocks, i, k) ==>
              0 <= i - blocks[k].offset < |blocks[k].data| && payload[i] == blocks[k].data[i - blocks[k].offset]
  {
    var total := summary.payloadSize;
    FetchInRange(get, total, Window(summary.blockMax), 0, 0, []);
    blocks := Fetch(get, total, Window(summary.blockMax), 0, 0, []).blocks;
    payload := Assembled(total, blocks).buf;
    forall i | 0 <= i < total
      ensures AnyCovers(blocks, i)
      ensures forall k: nat :: LastCover(blocks, i, k) ==>
                0 <= i - blocks[k].offset < |blocks[k].data| && payload[i] == blocks[k].data[i - blocks[k].offset]
    {
      FilledIffCovered(total, blocks, i);
    }
  }

  // ---------- A device that answers honestly ----------

  /** Every request is answered from the device's memory, with at least one byte and at most
      as many as were asked for. */
  ghost predicate Honest(get: Getter, memory: bytes) {
    forall step: nat, offset: nat, length: nat :: 0 < length && offset + length <= |memory| ==>
      HonestReply(get(step, offset, length), memory, offset, length)
  }

  predicate HonestReply(r: Reply, memory: bytes, offset: nat, length: nat)
    requires offset + length <= |memory|
  {
    r.Data? && r.block.offset == offset && 0 < |r.block.data| <= length
    && r.block.data == memory[offset..offset + |r.block.data|]
  }

  /** The first `offset` bytes have arrived. */
  predicate Arrived(a: Assembly, memory: bytes, offset: nat) {
    offset <= |memory| == |a.buf| == |a.filled|
    && forall i :: 0 <= i < offset ==> a.filled[i] && a.buf[i] == memory[i]
  }

  lemma AddArrives(a: Assembly, memory: bytes, offset: nat, b: Block)
    requires Arrived(a, memory, offset) && b.offset == offset && InRange(|memory|, b)
    requires b.data == memory[offset..offset + |b.data|]
    ensures Arrived(Add(a, b), memory, offset + |b.data|)
  {
  }

  /** An honest answer to the next request brings the next bytes. */
  lemma NextBlockArrives(memory: bytes, offset: nat, length: nat, blocks: seq<Block>, r: Reply)
    requires 0 < length && offset + length <= |memory| && HonestReply(r, memory, offset, length)
    requires AllInRange(|memory|, blocks) && Arrived(Assembled(|memory|, blocks), memory, offset)
    ensures InRange(|memory|, r.block) && AllInRange(|memory|, blocks + [r.block])
    ensures Arrived(Assembled(|memory|, blocks + [r.block]), memory, offset + |r.block.data|)
  {
    AddArrives(Assembled(|memory|, blocks), memory, offset, r.block);
    assert (blocks + [r.block])[..|blocks|] == blocks;
  }

  lemma {:induction false} HonestFetch(get: Getter, memory: bytes, window: nat, step: nat, offset: nat, blocks: seq<Block>)
    requires window > 0 && Honest(get, memory)
    requires AllInRange(|memory|, blocks) && Arrived(Assembled(|memory|, blocks), memory, offset)
    ensures var f := Fetch(get, |memory|, window, step, offset, blocks);
            f.Fetched? && AllInRange(|memory|, f.blocks) && Arrived(Assembled(|memory|, f.blocks), memory, |memory|)
    decreases |memory| - offset
  {
    if offset < |memory| {
      var length := Min(window, |memory| - offset);
      var r := get(step, offset, length);
      assert HonestReply(r, memory, offset, length);
      NextBlockArrives(memory, offset, length, blocks, r);
      HonestFetch(get, memory, window, step + 1, offset + |r.block.data|, blocks + [r.block]);
    }
  }

  /** Reading an honest device decodes its memory, whatever the block size and however short
      the blocks. */
  lemma HonestRead(get: Getter, memory: bytes, blockMax: nat, c: RobotConfig)
    requires Honest(get, memory) && Decode(memory) == Config(c)
    ensures ReadConfig(Summary(|memory|, blockMax), get) == Got(c)
  {
    FetchInRange(get, |memory|, Window(blockMax), 0, 0, []);
    HonestFetch(get, memory, Window(blockMax), 0, 0, []);
    var blocks := Fetch(get, |memory|, Window(blockMax), 0, 0, []).blocks;
    assert Assembled(|memory|, blocks).buf == memory;
  }

  /** Whatever an honest device holds, reading it gives what its memory decodes to, or raises. */
  lemma HonestReadIs(get: Getter, memory: bytes, blockMax: nat)
    requires Honest(get, memory)
    ensures ReadConfig(Summary(|memory|, blockMax), get)
         == if Decode(memory).Config? then Got(Decode(memory).config) else Raised
  {
    FetchInRange(get, |memory|, Window(blockMax), 0, 0, []);
    HonestFetch(get, memory, Window(blockMax), 0, 0, []);
    var blocks := Fetch(get, |memory|, Window(blockMax), 0, 0, []).blocks;
    assert Assembled(|memory|, blocks).buf == memory;
  }

  /** Every block so far is in range and holds something. */
  predicate AllUseful(total: nat, blocks: seq<Block>) {
    AllInRange(total, blocks) && forall k :: 0 <= k < |blocks| ==> blocks[k].data != []
  }

  lemma {:induction false} FetchFollows(get: Getter, total: nat, window: nat, blocks: seq<Block>, n: nat)
    requires window > 0 && AllUseful(total, blocks) && AllAnswered(get, total, window, blocks) && n <= |blocks|
    ensures Fetch(get, total, window, 0, 0, []) == Fetch(get, total, window, n, Received(blocks, n), blocks[..n])
  {
    if n > 0 {
      FetchFollows(get, total, window, blocks, n - 1);
      assert Answered(get, total, window, blocks, n - 1);
      assert blocks[..n] == blocks[..n - 1] + [blocks[n - 1]];
    }
  }

  /** After any good answers, a missing or an empty one gives no configuration, and one that
      reaches outside the payload raises. */
  lemma ReadStops(get: Getter, total: nat, blockMax: nat, blocks: seq<Block>)
    requires AllUseful(total, blocks) && AllAnswered(get, total, Window(blockMax), blocks)
    requires Received(blocks, |blocks|) < total
    ensures var offset := Received(blocks, |blocks|);
            var r := get(|blocks|, offset, Min(Window(blockMax), total - offset));
            (r.NoReply? || (InRange(total, r.block) && r.block.data == []) ==>
               ReadConfig(Summary(total, blockMax), get) == NoConfig)
            && (r.Data? && !InRange(total, r.block) ==> ReadConfig(Summary(total, blockMax), get) == Raised)
  {
    FetchFollows(get, total, Window(blockMax), blocks, |blocks|);
    assert blocks[..|blocks|] == blocks;
  }

  // ---------- Writing ----------

  datatype Ack = NoAck | Acked(length: int)

  datatype Written = Written(ok: bool, memory: bytes)

  function Splice(memory: bytes, offset: nat, chunk: bytes): (m: bytes)
    requires offset + |chunk| <= |memory|
    ensures |m| == |memory|
  {
    memory[..offset] + chunk + memory[offset + |chunk|..]
  }

  /** The write loop against a device that stores every block it acknowledges in full;
      `acks` gives its answers. */
  function Store(acks: nat -> Ack, memory: bytes, payload: bytes, step: nat, offset: nat): Written
    requires offset <= |payload| == |memory|
    decreases |payload| - offset
  {
    if offset == |payload| then Written(true, memory)
    else
      var chunk := payload[offset..Min(offset + CFG_BLOCK_MAX, |payload|)];
      if acks(step) != Acked(|chunk|) then Written(false, memory)
      else Store(acks, Splice(memory, offset, chunk), payload, step + 1, offset + |chunk|)
  }

  /** How many bytes block `k` of a payload of `n` bytes holds. */
  function BlockLength(n: nat, k: nat): int {
    Min(192, n - 192 * k)
  }

  /** The device acknowledges each block that starts at or after `from` with its full length. */
  ghost predicate AcksAll(acks: nat -> Ack, n: nat, from: nat) {
    forall k: nat :: from <= 192 * k < n ==> acks(k) == Acked(BlockLength(n, k))
  }

  /** The first `done` bytes are the payload's and the others are as before. */
  predicate Mixed(memory: bytes, before: bytes, payload: bytes, done: nat) {
    |memory| == |before| == |payload| && done <= |payload|
    && memory[..done] == payload[..done] && memory[done..] == before[done..]
  }

  /** Block `k` is the first one that was not acknowledged in full. */
  ghost predicate StopsAt(acks: nat -> Ack, n: nat, k: nat) {
    192 * k < n && acks(k) != Acked(BlockLength(n, k)) && forall j: nat :: j < k ==> acks(j) == Acked(BlockLength(n, j))
  }

  /** Writing from block `k` on: it succeeds exactly when every further block is acknowledged in
      full, and then the memory is the payload; when it stops, it does so at the first block that
      is not, and only the blocks before that one are written. */
  lemma {:induction false} StoredIff(acks: nat -> Ack, memory: bytes, before: bytes, payload: bytes, k: nat, offset: nat)
    returns (stop: nat)
    requires Mixed(memory, before, payload, offset) && offset == Min(192 * k, |payload|)
    requires forall j: nat :: j < k ==> acks(j) == Acked(BlockLength(|payload|, j))
    ensures var w := Store(acks, memory, payload, k, offset);
            (w.ok <==> AcksAll(acks, |payload|, 0)) && (w.ok ==> w.memory == payload)
            && (!w.ok ==> StopsAt(acks, |payload|, stop) && Mixed(w.memory, before, payload, 192 * stop))
    decreases |payload| - offset
  {
    stop := k;
    if offset == |payload| {
      assert memory[..offset] == memory && payload[..offset] == payload;
      AllAcked(acks, |payload|, k);
    } else {
      var chunk := payload[offset..Min(offset + 192, |payload|)];
      assert |chunk| == BlockLength(|payload|, k);
      if acks(k) == Acked(|chunk|) {
        SpliceExtends(memory, payload, offset, chunk);
        SpliceKeeps(memory, before, offset, chunk);
        stop := StoredIff(acks, Splice(memory, offset, chunk), before, payload, k + 1, offset + |chunk|);
      } else {
        assert StopsAt(acks, |payload|, k);
      }
    }
  }

  lemma AllAcked(acks: nat -> Ack, n: nat, k: nat)
    requires n <= 192 * k && forall j: nat :: j < k ==> acks(j) == Acked(BlockLength(n, j))
    ensures AcksAll(acks, n, 0)
  {
  }

  lemma SpliceKeeps(memory: bytes, before: bytes, offset: nat, chunk: bytes)
    requires offset + |chunk| <= |before| == |memory| && memory[offset..] == before[offset..]
    ensures Splice(memory, offset, chunk)[offset + |chunk|..] == before[offset + |chunk|..]
  {
    var n := |chunk|;
    assert Splice(memory, offset, chunk)[offset + n..] == memory[offset + n..] == memory[offset..][n..];
    assert before[offset + n..] == before[offset..][n..];
  }

  /** A write succeeds exactly when the device acknowledges every block with its own length, 192
      bytes and for the last what is left; then the memory is the payload. A write that fails has
      stored the blocks before the first one that was not so acknowledged, and nothing else. */
  lemma WritesIff(acks: nat -> Ack, before: bytes, payload: bytes) returns (stop: nat)
    requires |before| == |payload|
    ensures var w := Store(acks, before, payload, 0, 0);
            (w.ok <==> forall k: nat :: 192 * k < |payload| ==> acks(k) == Acked(Min(192, |payload| - 192 * k)))
            && (w.ok ==> w.memory == payload)
            && (!w.ok ==> StopsAt(acks, |payload|, stop) && Mixed(w.memory, before, payload, 192 * stop))
  {
    stop := StoredIff(acks, before, before, payload, 0, 0);
    assert AcksAll(acks, |payload|, 0) <==>
      forall k: nat :: 192 * k < |payload| ==> acks(k) == Acked(BlockLength(|payload|, k));
  }

  lemma SpliceExtends(memory: bytes, payload: bytes, offset: nat, chunk: bytes)
    requires offset + |chunk| <= |payload| == |memory| && memory[..offset] == payload[..offset]
    requires chunk == payload[offset..offset + |chunk|]
    ensures Splice(memory, offset, chunk)[..offset + |chunk|] == payload[..offset + |chunk|]
  {
    assert payload[..offset + |chunk|] == payload[..offset] + chunk;
    assert Splice(memory, offset, chunk)[..offset + |chunk|] == memory[..offset] + chunk;
  }

  /** Writing a valid configuration to a device that acknowledges its three blocks in full, and
      then reading it back, gives the same configuration, for every device that stores what it
      acknowledges and answers from what it stored. */
  lemma WriteThenRead(c: RobotConfig, acks: nat -> Ack, before: bytes, get: Getter, blockMax: nat)
    requires Valid(c) && Encode(c).Payload? && 0 !in c.robotName && |before| == |Encode(c).data|
    requires acks(0) == Acked(192) && acks(1) == Acked(192) && acks(2) == Acked(101)
    requires Honest(get, Store(acks, before, Encode(c).data, 0, 0).memory)
    ensures Store(acks, before, Encode(c).data, 0, 0).ok
    ensures ReadConfig(Summary(CONFIG_PAYLOAD_SIZE, blockMax), get) == Got(c)
  {
    var payload := Encode(c).data;
    ConfigRoundTrip(c);
    var stop := WritesIff(acks, before, payload);
    HonestRead(get, payload, blockMax, c);
  }

  // ---------- The objects and loops ----------

  class ConfigBlockAssembler {
    const totalLen: nat
    const buf: array<byte>
    const filled: array<bool>

    ghost predicate Valid()
      reads this
    {
      buf.Length == filled.Length == totalLen
    }

    ghost function Abstract(): Assembly
      reads this, buf, filled
    {
      Assembly(buf[..], filled[..])
    }

    constructor (totalLen: nat)
      ensures Valid() && fresh(buf) && fresh(filled) && this.totalLen == totalLen && Abstract() == Blank(totalLen)
    {
      this.totalLen := totalLen;
      buf := new byte[totalLen](_ => 0);
      filled := new bool[totalLen](_ => false);
    }

    /** Overwrite the block's range and mark it; a block that reaches outside changes nothing. */
    method AddBlock(b: Block) returns (ok: bool)
      requires Valid()
      modifies buf, filled
      ensures ok <==> InRange(totalLen, b)
      ensures Abstract() == if ok then Add(old(Abstract()), b) else old(Abstract())
    {
      if b.offset < 0 || b.offset + |b.data| > totalLen {
        return false;
      }
      for i := 0 to |b.data|
        invariant forall k :: 0 <= k < totalLen ==>
          buf[k] == if b.offset <= k < b.offset + i then b.data[k - b.offset] else old(buf[k])
        invariant forall k :: 0 <= k < totalLen ==>
          filled[k] == (b.offset <= k < b.offset + i || old(filled[k]))
      {
        buf[b.offset + i] := b.data[i];
        filled[b.offset + i] := true;
      }
      assert buf[..] == Add(old(Abstract()), b).buf;
      assert filled[..] == Add(old(Abstract()), b).filled;
      return true;
    }

    method Complete() returns (all: bool)
      requires Valid()
      ensures all <==> Full(Abstract())
    {
      for i := 0 to filled.Length
        invariant forall k :: 0 <= k < i ==> filled[k]
      {
        if !filled[i] {
          assert !filled[..][i];
          return false;
        }
      }
      return true;
    }
  }

  /** `read_config`: ask for windows until the offset reaches the end. */
  method ReadConfigLoop(summary: Summary, get: Getter) returns (r: ReadResult)
    ensures r == ReadConfig(summary, get)
  {
    if summary.NoSummary? {
      return NoConfig;
    }
    var total, window := summary.payloadSize, Window(summary.blockMax);
    var asm := new ConfigBlockAssembler(total);
    var offset, step := 0, 0;
    ghost var blocks: seq<Block> := [];
    while offset < total
      invariant asm.Valid() && asm.totalLen == total && fresh(asm.buf) && fresh(asm.filled) && |blocks| == step
      invariant AllInRange(total, blocks) && asm.Abstract() == Assembled(total, blocks)
      invariant Fetch(get, total, window, 0, 0, []) == Fetch(get, total, window, step, offset, blocks)
      decreases total - offset
    {
      var reply := get(step, offset, Min(window, total - offset));
      if reply.NoReply? {
        return NoConfig;
      }
      var ok := asm.AddBlock(reply.block);
      if !ok {
        return Raised;
      }
      if reply.block.data == [] {
        return NoConfig;
      }
      assert (blocks + [reply.block])[..|blocks|] == blocks;
      blocks := blocks + [reply.block];
      offset, step := offset + |reply.block.data|, step + 1;
    }
    var complete := asm.Complete();
    if !complete {
      return NoConfig;
    }
    var d := DecodeRobotConfig(asm.buf[..]);
    return if d.Config? then Got(d.config) else Raised;
  }

  /** `write_config` over the device's memory: stop at the first block that is not acknowledged in full. */
  method WriteConfigLoop(payload: bytes, acks: nat -> Ack, before: bytes) returns (ok: bool, memory: bytes)
    requires |before| == |payload|
    ensures Written(ok, memory) == Store(acks, before, payload, 0, 0)
  {
    memory := before;
    var offset, step := 0, 0;
    while offset < |payload|
      invariant offset <= |payload| == |memory|
      invariant Store(acks, before, payload, 0, 0) == Store(acks, memory, payload, step, offset)
    {
      var chunk := payload[offset..Min(offset + CFG_BLOCK_MAX, |payload|)];
      var ack := acks(step);
      if ack.NoAck? || ack.length != |chunk| {
        return false, memory;
      }
      memory := Splice(memory, offset, chunk);
      offset, step := offset + |chunk|, step + 1;
    }
    return true, memory;
  }
}
