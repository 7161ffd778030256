/**
  Consistent Overhead Byte Stuffing (Cheshire and Baker, IEEE/ACM Transactions on
  Networking, 1999). `Encode` and `Decode` give the code as recursions over the data; the
  methods are the source's loops over growing buffers, with back-patched code bytes.
  */
module Cobs {
  import opened Struct

  const MAX_RUN := 254

  datatype Error = ZeroByte | PastEnd

  datatype Decoded = Ok(value: bytes) | Err(error: Error)

  /** A block: its code byte, its literals, and everything after it. */
  function Block(run: bytes, rest: bytes): (out: bytes)
    requires |run| <= MAX_RUN
    ensures |out| == 1 + |run| + |rest|
  {
    [(|run| + 1) as byte] + (run + rest)
  }

  /** The encoding of `run + data` where `run` is the open block so far. */
  function EncodeFrom(run: bytes, data: bytes): bytes
    requires |run| < MAX_RUN
    decreases data
  {
    if data == [] then Block(run, [])
    else if data[0] == 0 then Block(run, EncodeFrom([], data[1..]))
    else if |run| + 1 == MAX_RUN then Block(run + [data[0]], EncodeFrom([], data[1..]))
    else EncodeFrom(run + [data[0]], data[1..])
  }

  function Encode(data: bytes): bytes {
    EncodeFrom([], data)
  }

  /** A decoding result with more output in front of it. */
  function After(out: bytes, r: Decoded): Decoded {
    if r.Ok? then Ok(out + r.value) else r
  }

  lemma AfterAfter(a: bytes, b: bytes, r: Decoded)
    ensures After(a, After(b, r)) == After(a + b, r)
    ensures After([], r) == r
  {
    if r.Ok? {
      assert a + (b + r.value) == a + b + r.value;
      assert [] + r.value == r.value;
    }
  }

  /** Decode with `left` literals still to come in the open block; `zero` says that the block,
      once closed, stands for a zero if anything follows it. */
  function DecodeFrom(data: bytes, left: nat, zero: bool): Decoded {
    if data == [] then (if left == 0 then Ok([]) else Err(PastEnd))
    else if left > 0 then After([data[0]], DecodeFrom(data[1..], left - 1, zero))
    else if data[0] == 0 then Err(ZeroByte)
    else After(if zero then [0] else [], DecodeFrom(data[1..], data[0] as int - 1, data[0] != 255))
  }

  function Decode(data: bytes): Decoded {
    DecodeFrom(data, 0, false)
  }

  lemma {:induction false} DecodeLiterals(run: bytes, rest: bytes, zero: bool)
    ensures DecodeFrom(run + rest, |run|, zero) == After(run, DecodeFrom(rest, 0, zero))
  {
    if run == [] {
      assert run + rest == rest;
      AfterAfter([], [], DecodeFrom(rest, 0, zero));
    } else {
      assert (run + rest)[1..] == run[1..] + rest;
      DecodeLiterals(run[1..], rest, zero);
      AfterAfter([run[0]], run[1..], DecodeFrom(rest, 0, zero));
      assert [run[0]] + run[1..] == run;
    }
  }

  lemma DecodeBlock(run: bytes, rest: bytes, zero: bool)
    requires |run| <= MAX_RUN
    ensures DecodeFrom(Block(run, rest), 0, zero)
         == After(if zero then [0] else [], After(run, DecodeFrom(rest, 0, |run| != MAX_RUN)))
  {
    assert Block(run, rest)[1..] == run + rest;
    DecodeLiterals(run, rest, |run| != MAX_RUN);
  }

  lemma {:induction false} DecodeEncodeFrom(run: bytes, data: bytes, zero: bool)
    requires |run| < MAX_RUN
    ensures DecodeFrom(EncodeFrom(run, data), 0, zero) == After(if zero then [0] else [], Ok(run + data))
    decreases data
  {
    if data == [] {
      DecodeBlock(run, [], zero);
    } else {
      var b, rest := data[0], data[1..];
      assert data == [b] + rest;
      assert run + data == run + [b] + rest;
      if b == 0 {
        DecodeEncodeFrom([], rest, true);
        DecodeBlock(run, EncodeFrom([], rest), zero);
        assert run + ([0] + ([] + rest)) == run + data;
      } else if |run| + 1 == MAX_RUN {
        DecodeEncodeFrom([], rest, false);
        DecodeBlock(run + [b], EncodeFrom([], rest), zero);
        assert run + [b] + ([] + ([] + rest)) == run + data;
      } else {
        DecodeEncodeFrom(run + [b], rest, zero);
      }
    }
  }

  // ---------- What decoding accepts ----------

  /** At most 254 bytes a block. */
  predicate Blocks(rs: seq<bytes>) {
    forall i :: 0 <= i < |rs| ==> |rs[i]| <= 254
  }

  /** The blocks one after another, each behind its length plus one. */
  function Stuffed(rs: seq<bytes>): bytes
    requires Blocks(rs)
  {
    if rs == [] then [] else [(|rs[0]| + 1) as byte] + (rs[0] + Stuffed(rs[1..]))
  }

  /** What they stand for: a zero between two blocks, unless the first of the two is full. */
  function Unstuffed(rs: seq<bytes>): bytes {
    if rs == [] then []
    else if |rs| == 1 then rs[0]
    else rs[0] + ((if |rs[0]| == 254 then [] else [0]) + Unstuffed(rs[1..]))
  }

  lemma {:induction false} DecodeStuffed(rs: seq<bytes>, zero: bool)
    requires Blocks(rs)
    ensures DecodeFrom(Stuffed(rs), 0, zero) == Ok((if zero && rs != [] then [0] else []) + Unstuffed(rs))
  {
    if rs != [] {
      var run, rest := rs[0], Stuffed(rs[1..]);
      DecodeBlock(run, rest, zero);
      DecodeStuffed(rs[1..], |run| != 254);
      var gap: bytes := if |run| != 254 && rs[1..] != [] then [0] else [];
      assert run + (gap + Unstuffed(rs[1..])) == Unstuffed(rs);
    } else {
      assert [] + Unstuffed(rs) == [];
    }
  }

  lemma {:induction false} LiteralsFit(data: bytes, left: nat, zero: bool)
    requires DecodeFrom(data, left, zero).Ok?
    ensures left <= |data| && DecodeFrom(data[left..], 0, zero).Ok?
  {
    if left == 0 {
      assert data[0..] == data;
    } else {
      LiteralsFit(data[1..], left - 1, zero);
      assert data[1..][left - 1..] == data[left..];
    }
  }

  lemma {:induction false} AcceptedIsStuffed(data: bytes, zero: bool) returns (rs: seq<bytes>)
    requires DecodeFrom(data, 0, zero).Ok?
    ensures Blocks(rs) && data == Stuffed(rs)
    decreases |data|
  {
    rs := [];
    if data != [] {
      var n := data[0] as int - 1;
      LiteralsFit(data[1..], n, data[0] != 255);
      var run, rest := data[1..][..n], data[1..][n..];
      var more := AcceptedIsStuffed(rest, data[0] != 255);
      rs := [run] + more;
      assert rs[1..] == more;
      assert data == [data[0]] + (run + rest);
    }
  }

  /** A byte string is accepted exactly when it is made of blocks, and then it gives what they
      stand for. */
  lemma DecodesIff(data: bytes)
    ensures Decode(data).Ok? <==> exists rs :: Blocks(rs) && data == Stuffed(rs)
    ensures forall rs :: Blocks(rs) && data == Stuffed(rs) ==> Decode(data) == Ok(Unstuffed(rs))
  {
    if Decode(data).Ok? {
      var rs := AcceptedIsStuffed(data, false);
    }
    forall rs | Blocks(rs) && data == Stuffed(rs) ensures Decode(data) == Ok(Unstuffed(rs)) {
      DecodeStuffed(rs, false);
      assert [] + Unstuffed(rs) == Unstuffed(rs);
    }
  }

  /** Decoding inverts encoding, for every byte string. */
  lemma DecodeEncode(data: bytes)
    ensures Decode(Encode(data)) == Ok(data)
  {
    DecodeEncodeFrom([], data, false);
    assert [] + ([] + data) == data;
  }

  lemma BlockHasNoZero(run: bytes, rest: bytes)
    requires |run| <= MAX_RUN && 0 !in run && 0 !in rest
    ensures 0 !in Block(run, rest)
  {
  }

  lemma {:induction false} EncodeFromHasNoZero(run: bytes, data: bytes)
    requires |run| < MAX_RUN && 0 !in run
    ensures 0 !in EncodeFrom(run, data)
    decreases data
  {
    if data == [] {
      BlockHasNoZero(run, []);
    } else if data[0] == 0 {
      EncodeFromHasNoZero([], data[1..]);
      BlockHasNoZero(run, EncodeFrom([], data[1..]));
    } else if |run| + 1 == MAX_RUN {
      EncodeFromHasNoZero([], data[1..]);
      BlockHasNoZero(run + [data[0]], EncodeFrom([], data[1..]));
    } else {
      EncodeFromHasNoZero(run + [data[0]], data[1..]);
    }
  }

  /** The encoding holds no zero byte, so a zero can delimit frames. */
  lemma EncodeHasNoZero(data: bytes)
    ensures 0 !in Encode(data)
  {
    EncodeFromHasNoZero([], data);
  }

  /** How often a run of nonzero bytes reaches 254, counted byte by byte. */
  function FullBlocks(data: bytes, run: nat): nat {
    if data == [] then 0
    else if data[0] == 0 then FullBlocks(data[1..], 0)
    else if run + 1 == MAX_RUN then 1 + FullBlocks(data[1..], 0)
    else FullBlocks(data[1..], run + 1)
  }

  lemma {:induction false} EncodeFromLength(run: bytes, data: bytes)
    requires |run| < MAX_RUN
    ensures |EncodeFrom(run, data)| == |run| + |data| + 1 + FullBlocks(data, |run|)
    decreases data
  {
    if data == [] {
    } else if data[0] == 0 || |run| + 1 == MAX_RUN {
      EncodeFromLength([], data[1..]);
    } else {
      EncodeFromLength(run + [data[0]], data[1..]);
    }
  }

  lemma {:induction false} FullBlocksBound(data: bytes, run: nat)
    requires run < MAX_RUN
    ensures MAX_RUN * FullBlocks(data, run) <= |data| + run
  {
    if data != [] {
      FullBlocksBound(data[1..], if data[0] == 0 || run + 1 == MAX_RUN then 0 else run + 1);
    }
  }

  /** The exact length of the encoding, and its overhead of one byte in 254. */
  lemma EncodeLength(data: bytes)
    ensures |Encode(data)| == |data| + 1 + FullBlocks(data, 0)
    ensures |Encode(data)| <= |data| + 1 + |data| / MAX_RUN
  {
    EncodeFromLength([], data);
    FullBlocksBound(data, 0);
  }

  // ---------- The loops ----------

  /** The encoder: literals are appended, and each block's code byte is patched in afterwards. */
  method CobsEncode(data: bytes) returns (out: bytes)
    ensures out == Encode(data)
  {
    out := [0];
    var codeIdx, code := 0, 1;
    ghost var done, run := [], [];
    assert data[0..] == data;
    assert [] + EncodeFrom([], data) == Encode(data);
    for i := 0 to |data|
      invariant code == |run| + 1 <= MAX_RUN && codeIdx == |done| && out == done + ([0] + run)
      invariant Encode(data) == done + EncodeFrom(run, data[i..])
    {
      assert data[i..][1..] == data[i + 1..];
      if data[i] == 0 {
        Patched(done, run, EncodeFrom([], data[i + 1..]));
        out := out[codeIdx := code as byte];
        codeIdx := |out|;
        out := out + [0];
        done, run, code := done + ([code as byte] + run), [], 1;
      } else {
        out := out + [data[i]];
        run := run + [data[i]];
        code := code + 1;
        if code == 0xFF {
          Patched(done, run, EncodeFrom([], data[i + 1..]));
          out := out[codeIdx := code as byte];
          codeIdx := |out|;
          out := out + [0];
          done, run, code := done + ([code as byte] + run), [], 1;
        }
      }
    }
    Patched(done, run, []);
    out := out[codeIdx := code as byte];
  }

  lemma Patched(done: bytes, run: bytes, rest: bytes)
    requires |run| <= MAX_RUN
    ensures done + Block(run, rest) == done + ([(|run| + 1) as byte] + run) + rest
    ensures (done + ([0] + run))[|done| := (|run| + 1) as byte] == done + ([(|run| + 1) as byte] + run)
  {
  }

  lemma {:induction false} TooShort(data: bytes, left: nat, zero: bool)
    requires |data| < left
    ensures DecodeFrom(data, left, zero) == Err(PastEnd)
  {
    if data != [] {
      TooShort(data[1..], left - 1, zero);
    }
  }

  lemma DecodeLiteral(out: bytes, data: bytes, at: nat, left: nat, zero: bool)
    requires at < |data| && left > 0
    ensures After(out, DecodeFrom(data[at..], left, zero))
         == After(out + [data[at]], DecodeFrom(data[at + 1..], left - 1, zero))
  {
    assert data[at..][1..] == data[at + 1..];
    AfterAfter(out, [data[at]], DecodeFrom(data[at + 1..], left - 1, zero));
  }

  lemma DecodeCode(data: bytes, at: nat)
    requires at < |data| && data[at] != 0
    ensures DecodeFrom(data[at..], 0, false) == DecodeFrom(data[at + 1..], data[at] as int - 1, data[at] != 255)
  {
    assert data[at..][1..] == data[at + 1..];
    AfterAfter([], [], DecodeFrom(data[at + 1..], data[at] as int - 1, data[at] != 255));
  }

  lemma DecodeBlockEnd(out: bytes, data: bytes, zero: bool)
    ensures After(out, DecodeFrom(data, 0, zero))
         == After(if zero && data != [] then out + [0] else out, DecodeFrom(data, 0, false))
  {
    if data != [] && data[0] != 0 {
      var r := DecodeFrom(data[1..], data[0] as int - 1, data[0] != 255);
      AfterAfter(out, [0], r);
      AfterAfter(out, [], r);
    }
  }

  /** The decoder: a read cursor over the input, one block per turn. */
  method CobsDecode(data: bytes) returns (r: Decoded)
    ensures r == Decode(data)
  {
    var out: bytes := [];
    var readIdx, n := 0, |data|;
    assert data[0..] == data;
    AfterAfter([], [], Decode(data));
    while readIdx < n
      invariant readIdx <= n
      invariant Decode(data) == After(out, DecodeFrom(data[readIdx..], 0, false))
    {
      var code := data[readIdx] as int;
      if code == 0 {
        return Err(ZeroByte);
      }
      DecodeCode(data, readIdx);
      if readIdx + code > n {
        TooShort(data[readIdx + 1..], code - 1, code != 255);
        return Err(PastEnd);
      }
      ghost var end := readIdx + code;
      readIdx := readIdx + 1;
      for k := 0 to code - 1
        invariant readIdx + (code - 1 - k) == end
        invariant Decode(data) == After(out, DecodeFrom(data[readIdx..], code - 1 - k, code != 255))
      {
        DecodeLiteral(out, data, readIdx, code - 1 - k, code != 255);
        out := out + [data[readIdx]];
        readIdx := readIdx + 1;
      }
      DecodeBlockEnd(out, data[readIdx..], code != 255);
      if code != 0xFF && readIdx < n {
        out := out + [0];
      }
    }
    assert out + [] == out;
    return Ok(out);
  }
}
