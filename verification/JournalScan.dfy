/**
  Scanning a damaged file for records: the parser tries a record at every position, jumps
  over each one it finds and moves on by one byte otherwise. The laws hold for every
  recognizer that decides by the record's own bytes alone.
  */
module JournalScan {
  import opened Struct
  import opened RobotConfigs

  datatype Record = Record(sequence: int, payload: bytes, config: RobotConfig)

  datatype Recognized = Found(span: nat, record: Record) | Nothing

  /** Looks for a record at the start of its argument. */
  type Recognizer = bytes -> Recognized

  /** The records of a file in order, each with its offset and length. */
  datatype Entries = End | Entry(offset: int, span: nat, record: Record, rest: Entries)

  function Join(a: Entries, b: Entries): Entries {
    match a
    case End => b
    case Entry(offset, span, r, rest) => Entry(offset, span, r, Join(rest, b))
  }

  /** Moving the bytes moves the offsets. */
  function Moved(es: Entries, shift: int): Entries {
    match es
    case End => End
    case Entry(offset, span, r, rest) => Entry(offset + shift, span, r, Moved(rest, shift))
  }

  function Count(es: Entries): nat {
    if es.End? then 0 else 1 + Count(es.rest)
  }

  /** The list from entry `i` on. */
  function From(es: Entries, i: nat): (r: Entries)
    requires i < Count(es)
    ensures r.Entry?
  {
    if i == 0 then es else From(es.rest, i - 1)
  }

  /** The entries before entry `i`. */
  function Before(es: Entries, i: nat): Entries
    requires i <= Count(es)
  {
    if i == 0 then End else Entry(es.offset, es.span, es.record, Before(es.rest, i - 1))
  }

  /** Names the pairs for which `Local` is to be used. */
  predicate Pair(b: bytes, c: bytes) {
    true
  }

  /** A record lies within the bytes it is found in, and only its own bytes matter. */
  ghost predicate Local(rec: Recognizer) {
    (forall b :: rec(b).Found? ==> 0 < rec(b).span <= |b|)
    && forall b, c {:trigger Pair(b, c)} ::
      Pair(b, c) && rec(b).Found? && rec(b).span <= |b| && rec(b).span <= |c| && c[..rec(b).span] == b[..rec(b).span]
      ==> rec(c) == rec(b)
  }

  ghost function Scan(rec: Recognizer, b: bytes, offset: int): Entries
    requires Local(rec)
    decreases |b|
  {
    if b == [] then End
    else
      match rec(b)
      case Nothing => Scan(rec, b[1..], offset + 1)
      case Found(span, r) => Entry(offset, span, r, Scan(rec, b[span..], offset + span))
  }

  /** No position of `b` that the scan of `b` passes over begins a record once `more` follows. */
  ghost predicate NoStraddle(rec: Recognizer, b: bytes, more: bytes)
    requires Local(rec)
    decreases |b|
  {
    b == []
    || match rec(b)
       case Nothing => rec(b + more).Nothing? && NoStraddle(rec, b[1..], more)
       case Found(span, r) => NoStraddle(rec, b[span..], more)
  }

  lemma FoundInLonger(rec: Recognizer, b: bytes, more: bytes)
    requires Local(rec) && rec(b).Found?
    ensures rec(b + more) == rec(b)
    ensures (b + more)[rec(b).span..] == b[rec(b).span..] + more
  {
    assert Pair(b, b + more);
    assert (b + more)[..rec(b).span] == b[..rec(b).span];
  }

  lemma DropFirst(b: bytes, more: bytes)
    requires b != []
    ensures (b + more)[1..] == b[1..] + more && b + more != []
  {
  }

  /** The first entry found lies no earlier than the place where the scan began. */
  lemma {:induction false} FirstOffset(rec: Recognizer, b: bytes, offset: int)
    requires Local(rec)
    ensures Scan(rec, b, offset).Entry? ==> offset <= Scan(rec, b, offset).offset
    decreases |b|
  {
    if b != [] && rec(b).Nothing? {
      FirstOffset(rec, b[1..], offset + 1);
    }
  }

  /** Scanning a concatenation is scanning the parts, exactly when nothing straddles them. */
  lemma {:induction false} ScanConcat(rec: Recognizer, b: bytes, more: bytes, offset: int)
    requires Local(rec)
    ensures Scan(rec, b + more, offset) == Join(Scan(rec, b, offset), Scan(rec, more, offset + |b|))
            <==> NoStraddle(rec, b, more)
    decreases |b|
  {
    if b == [] {
      assert b + more == more;
    } else {
      match rec(b)
      case Found(span, r) =>
        FoundInLonger(rec, b, more);
        ScanConcat(rec, b[span..], more, offset + span);
      case Nothing =>
        DropFirst(b, more);
        ScanConcat(rec, b[1..], more, offset + 1);
        if rec(b + more).Found? {
          FirstOffset(rec, b[1..], offset + 1);
          FirstOffset(rec, more, offset + |b|);
        }
    }
  }

  /** A shorter continuation straddles only where a longer one does. */
  lemma {:induction false} NoStraddleCut(rec: Recognizer, b: bytes, more: bytes, k: nat)
    requires Local(rec) && k <= |more| && NoStraddle(rec, b, more)
    ensures NoStraddle(rec, b, more[..k])
    decreases |b|
  {
    if b != [] {
      match rec(b)
      case Found(span, r) => NoStraddleCut(rec, b[span..], more, k);
      case Nothing =>
        NoStraddleCut(rec, b[1..], more, k);
        assert b + more[..k] + more[k..] == b + more;
        if rec(b + more[..k]).Found? {
          FoundInLonger(rec, b + more[..k], more[k..]);
        }
    }
  }

  lemma {:induction false} ScanMoves(rec: Recognizer, b: bytes, from: int, shift: int)
    requires Local(rec)
    ensures Scan(rec, b, from + shift) == Moved(Scan(rec, b, from), shift)
    decreases |b|
  {
    if b != [] {
      match rec(b)
      case Nothing => ScanMoves(rec, b[1..], from + 1, shift);
      case Found(span, r) => ScanMoves(rec, b[span..], from + span, shift);
    }
  }

  lemma CutPassed(rec: Recognizer, b: bytes, k: nat)
    requires Local(rec) && 0 < k <= |b| && rec(b).Nothing?
    ensures rec(b[..k]).Nothing? && b[..k][1..] == b[1..][..k - 1] && b[1..][k - 1..] == b[k..]
  {
    assert b[..k] + b[k..] == b;
    if rec(b[..k]).Found? {
      FoundInLonger(rec, b[..k], b[k..]);
    }
  }

  lemma CutJumped(rec: Recognizer, b: bytes, k: nat)
    requires Local(rec) && rec(b).Found? && rec(b).span <= k <= |b|
    ensures var span := rec(b).span;
            rec(b[..k]) == rec(b) && b[..k][span..] == b[span..][..k - span] && b[span..][k - span..] == b[k..]
  {
    assert Pair(b, b[..k]);
    assert b[..k][..rec(b).span] == b[..rec(b).span];
  }

  /** Where the entry from which the list `es` goes on was found. */
  ghost predicate FoundAt(rec: Recognizer, b: bytes, offset: int, es: Entries)
    requires Local(rec)
  {
    es.Entry? && offset <= es.offset <= offset + |b| && es == Scan(rec, b[es.offset - offset..], es.offset)
    && rec(b[es.offset - offset..]) == Found(es.span, es.record)
  }

  lemma {:induction false} EntryFoundAt(rec: Recognizer, b: bytes, offset: int, i: nat)
    requires Local(rec) && i < Count(Scan(rec, b, offset))
    ensures FoundAt(rec, b, offset, From(Scan(rec, b, offset), i))
    decreases |b|
  {
    var e := From(Scan(rec, b, offset), i);
    match rec(b)
    case Nothing =>
      EntryFoundAt(rec, b[1..], offset + 1, i);
      assert b[1..][e.offset - offset - 1..] == b[e.offset - offset..];
    case Found(span, r) =>
      if i == 0 {
        assert b[0..] == b;
      } else {
        EntryFoundAt(rec, b[span..], offset + span, i - 1);
        assert b[span..][e.offset - offset - span..] == b[e.offset - offset..];
      }
  }

  /** A byte that begins no record is in front of both parts. */
  lemma BeforePassed(rec: Recognizer, b: bytes, offset: int, i: nat, k: nat)
    requires Local(rec) && rec(b).Nothing? && 0 < k <= |b| && i <= Count(Scan(rec, b[1..], offset + 1))
    requires Before(Scan(rec, b[1..], offset + 1), i) == Scan(rec, b[1..][..k - 1], offset + 1)
    ensures i <= Count(Scan(rec, b, offset)) && Before(Scan(rec, b, offset), i) == Scan(rec, b[..k], offset)
  {
    CutPassed(rec, b, k);
  }

  /** So is a record. */
  lemma BeforeJumped(rec: Recognizer, b: bytes, offset: int, i: nat, k: nat, span: nat)
    requires Local(rec) && rec(b).Found? && rec(b).span == span <= k <= |b|
    requires i <= Count(Scan(rec, b[span..], offset + span))
    requires Before(Scan(rec, b[span..], offset + span), i) == Scan(rec, b[span..][..k - span], offset + span)
    ensures i + 1 <= Count(Scan(rec, b, offset)) && Before(Scan(rec, b, offset), i + 1) == Scan(rec, b[..k], offset)
  {
    CutJumped(rec, b, k);
  }

  /** The entries before entry `i` are those of the bytes before it. */
  lemma {:induction false} EntriesBefore(rec: Recognizer, b: bytes, offset: int, i: nat, k: nat)
    requires Local(rec) && i < Count(Scan(rec, b, offset))
    requires From(Scan(rec, b, offset), i).offset == offset + k && k <= |b|
    ensures Before(Scan(rec, b, offset), i) == Scan(rec, b[..k], offset)
    decreases |b|
  {
    if rec(b).Nothing? {
      EntryFoundAt(rec, b[1..], offset + 1, i);
      EntriesBefore(rec, b[1..], offset + 1, i, k - 1);
      BeforePassed(rec, b, offset, i, k);
    } else if i == 0 {
      assert b[..k] == [];
    } else {
      var span := rec(b).span;
      EntryFoundAt(rec, b[span..], offset + span, i - 1);
      EntriesBefore(rec, b[span..], offset + span, i - 1, k - span);
      BeforeJumped(rec, b, offset, i - 1, k, span);
    }
  }

  // ---------- The laws of editing ----------

  /** Appending: the scan of the longer file is the old entries and one new one, exactly when
      no record straddles the old end. */
  lemma AppendedScan(rec: Recognizer, b: bytes, added: bytes, r: Record)
    requires Local(rec) && rec(added) == Found(|added|, r)
    ensures Scan(rec, b + added, 0) == Join(Scan(rec, b, 0), Entry(|b|, |added|, r, End)) <==> NoStraddle(rec, b, added)
  {
    ScanConcat(rec, b, added, 0);
    assert added[|added|..] == [];
  }

  /** An append that stops part way keeps every earlier entry, in place. */
  lemma TruncatedScan(rec: Recognizer, b: bytes, added: bytes, k: nat)
    requires Local(rec) && NoStraddle(rec, b, added) && k <= |added|
    ensures Scan(rec, b + added[..k], 0) == Join(Scan(rec, b, 0), Scan(rec, added[..k], |b|))
  {
    NoStraddleCut(rec, b, added, k);
    ScanConcat(rec, b, added[..k], 0);
  }

  /** Deleting an entry's bytes: the scan is the old entries without it, the later ones moved
      down, exactly when no record straddles the junction. */
  lemma DeletedScan(rec: Recognizer, b: bytes, i: nat, k: nat, span: nat)
    requires Local(rec) && i < Count(Scan(rec, b, 0))
    requires var e := From(Scan(rec, b, 0), i); e.offset == k && e.span == span
    ensures k + span <= |b|
    ensures var es := Scan(rec, b, 0);
            Scan(rec, b[..k] + b[k + span..], 0) == Join(Before(es, i), Moved(From(es, i).rest, 0 - span))
            <==> NoStraddle(rec, b[..k], b[k + span..])
  {
    EntryFoundAt(rec, b, 0, i);
    EntriesBefore(rec, b, 0, i, k);
    var tail := b[k + span..];
    assert b[k..][span..] == tail;
    ScanConcat(rec, b[..k], tail, 0);
    ScanMoves(rec, tail, k + span, 0 - span);
  }

  // ---------- The loop ----------

  datatype Item = Item(offset: int, span: nat, record: Record)

  /** A growing list of items as a chain of entries, followed by more. */
  function Chain(items: seq<Item>, more: Entries): Entries {
    if items == [] then more
    else
      var n := |items| - 1;
      Chain(items[..n], Entry(items[n].offset, items[n].span, items[n].record, more))
  }

  /** Jump over each record found, move on by one byte otherwise, and stop when what is left
      is shorter than any record. */
  method ScanFile(rec: Recognizer, data: bytes, shortest: nat) returns (items: seq<Item>)
    requires Local(rec) && forall b :: rec(b).Found? ==> shortest <= |b|
    ensures Chain(items, End) == Scan(rec, data, 0)
  {
    items := [];
    var offset := 0;
    assert data[0..] == data;
    while |data| - offset >= shortest && offset < |data|
      invariant 0 <= offset <= |data|
      invariant Scan(rec, data, 0) == Chain(items, Scan(rec, data[offset..], offset))
      decreases |data| - offset
    {
      var r := rec(data[offset..]);
      match r
      case Nothing =>
        assert data[offset..][1..] == data[offset + 1..];
        offset := offset + 1;
      case Found(span, record) =>
        assert data[offset..][span..] == data[offset + span..];
        assert (items + [Item(offset, span, record)])[..|items|] == items;
        items := items + [Item(offset, span, record)];
        offset := offset + span;
    }
    ShortHasNone(rec, data[offset..], offset, shortest);
  }

  lemma {:induction false} ShortHasNone(rec: Recognizer, b: bytes, offset: int, shortest: nat)
    requires Local(rec) && (forall c :: rec(c).Found? ==> shortest <= |c|) && (|b| < shortest || b == [])
    ensures Scan(rec, b, offset) == End
    decreases |b|
  {
    if b != [] {
      ShortHasNone(rec, b[1..], offset + 1, shortest);
    }
  }
}
