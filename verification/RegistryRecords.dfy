/** The record layer of the registry file: size-framed payloads in strictly ascending key order. */
module RegistryRecords {
  import opened Bytes
  import opened RegistryWords
  import opened RegistryKeys
  import opened SchemaRegistry

  const MAX_FILE: nat := 536870912
  const RECORD := [8]

  datatype Decoded = Good(entry: Entry) | Bad(status: Status)

  datatype Reading<+T> = Done(value: T, rest: seq<byte>) | Fail(status: Status)

  /** What one payload means to this layer: its text, its parse after a given last key, and whether it is admitted. */
  type Printer = Entry -> seq<byte>
  type Parser = (seq<byte>, Option<Key>) -> Decoded
  type Admission = Entry -> bool

  /** A payload behind the size of its record. */
  function Frame(payload: seq<byte>): seq<byte> {
    PutWords(RECORD, [8 + |payload|]) + payload
  }

  function RecordsText(render: Printer, entries: seq<Entry>): seq<byte> {
    if entries == [] then [] else Frame(render(entries[0])) + RecordsText(render, entries[1..])
  }

  /** The payload of the next record. */
  function TakeFrame(s: seq<byte>): (r: Taken<seq<byte>>)
    ensures r.Taken? ==> |r.rest| < |s|
  {
    match TakeWords(RECORD, s)
    case Short => Short
    case Taken(w, rest) =>
      WordsPrintBack(RECORD, s);
      if w[0] < 8 then Short else TakeBytes(w[0] - 8, rest)
  }

  function DecodeRecords(parse: Parser, count: nat, s: seq<byte>, last: Option<Key>): Reading<seq<Entry>> {
    if count == 0 then Done([], s)
    else
      match TakeFrame(s)
      case Short => Fail(InvalidFormat)
      case Taken(payload, rest) =>
        match parse(payload, last)
        case Bad(status) => Fail(status)
        case Good(e) =>
          match DecodeRecords(parse, count - 1, rest, Some(e.key))
          case Fail(status) => Fail(status)
          case Done(entries, end) => Done([e] + entries, end)
  }

  predicate Follows(last: Option<Key>, key: Key) {
    last.Some? ==> CompareKeys(last.value, key) < 0
  }

  /** Admitted entries in strictly ascending key order, the first after `last`. */
  predicate Ascending(admits: Admission, entries: seq<Entry>, last: Option<Key>) {
    entries != [] ==>
      && Follows(last, entries[0].key) && admits(entries[0]) && Ascending(admits, entries[1..], Some(entries[0].key))
  }

  lemma {:induction false} AscendingIsSorted(admits: Admission, entries: seq<Entry>, last: Option<Key>)
    requires Ascending(admits, entries, last)
    ensures Sorted(entries) && forall e {:trigger e in entries} :: e in entries ==> admits(e) && Follows(last, e.key)
  {
    if entries != [] {
      var e, tail := entries[0], entries[1..];
      AscendingIsSorted(admits, tail, Some(e.key));
      forall f | f in tail ensures Follows(last, f.key) {
        if last.Some? {
          KeysTransitive(last.value, e.key, f.key);
        }
      }
      SortedCons(e, tail);
      assert entries == [e] + tail;
    }
  }

  lemma {:induction false} SortedIsAscending(admits: Admission, entries: seq<Entry>, last: Option<Key>)
    requires Sorted(entries) && forall e {:trigger e in entries} :: e in entries ==> admits(e)
    requires entries != [] ==> Follows(last, entries[0].key)
    ensures Ascending(admits, entries, last)
  {
    if entries != [] {
      SortedTail(entries);
      if |entries| > 1 {
        assert Before(entries[0], entries[1]);
      }
      assert entries[0] in entries;
      forall e | e in entries[1..] ensures admits(e) {
        assert e in entries;
      }
      SortedIsAscending(admits, entries[1..], Some(entries[0].key));
    }
  }

  /** The payload parser reads every admitted payload that comes after the last key. */
  ghost predicate Reads(render: Printer, parse: Parser, admits: Admission) {
    forall e, last {:trigger parse(render(e), last)} :: admits(e) && Follows(last, e.key) ==>
      parse(render(e), last) == Good(e)
  }

  /** Whatever the payload parser accepts is admitted, comes after the last key, and prints back. */
  ghost predicate PrintsBack(render: Printer, parse: Parser, admits: Admission) {
    forall s, last {:trigger parse(s, last)} :: parse(s, last).Good? ==>
      render(parse(s, last).entry) == s && admits(parse(s, last).entry) && Follows(last, parse(s, last).entry.key)
  }

  lemma FrameReads(payload: seq<byte>, rest: seq<byte>)
    requires |payload| <= MAX_FILE
    ensures TakeFrame(Frame(payload) + rest) == Taken(payload, rest)
  {
    var size: seq<nat> := [8 + |payload|];
    PowersOf256();
    assert Fit(RECORD, size);
    Assoc(PutWords(RECORD, size), payload, rest);
    WordsRead(RECORD, size, payload + rest);
    BytesRead(payload, rest);
  }

  lemma {:induction false} RecordsRead(render: Printer, parse: Parser, admits: Admission, entries: seq<Entry>,
                                       last: Option<Key>)
    requires Reads(render, parse, admits) && Ascending(admits, entries, last)
      && |RecordsText(render, entries)| <= MAX_FILE
    ensures DecodeRecords(parse, |entries|, RecordsText(render, entries), last) == Done(entries, [])
  {
    if entries != [] {
      var e, tail := entries[0], entries[1..];
      assert parse(render(e), last) == Good(e);
      FrameReads(render(e), RecordsText(render, tail));
      RecordsRead(render, parse, admits, tail, Some(e.key));
      assert entries == [e] + tail;
    }
  }

  lemma FramePrintsBack(s: seq<byte>)
    requires TakeFrame(s).Taken?
    ensures s == Frame(TakeFrame(s).value) + TakeFrame(s).rest
  {
    var w := TakeWords(RECORD, s);
    WordsPrintBack(RECORD, s);
    var payload := TakeBytes(w.value[0] - 8, w.rest);
    BytesPrintBack(w.value[0] - 8, w.rest);
    assert w.value == [8 + |payload.value|];
    Assoc(PutWords(RECORD, w.value), payload.value, payload.rest);
  }

  lemma RecordsJoin(render: Printer, e: Entry, tail: seq<Entry>, rest: seq<byte>)
    ensures RecordsText(render, [e] + tail) + rest == Frame(render(e)) + (RecordsText(render, tail) + rest)
  {
    assert ([e] + tail)[1..] == tail;
    Assoc(Frame(render(e)), RecordsText(render, tail), rest);
  }

  lemma {:induction false} RecordsPrintBack(render: Printer, parse: Parser, admits: Admission, count: nat, s: seq<byte>,
                                            last: Option<Key>)
    requires PrintsBack(render, parse, admits) && DecodeRecords(parse, count, s, last).Done?
    ensures var r := DecodeRecords(parse, count, s, last);
            Ascending(admits, r.value, last) && |r.value| == count && s == RecordsText(render, r.value) + r.rest
    decreases count
  {
    if count == 0 {
      assert RecordsText(render, []) + s == s;
    } else {
      var frame := TakeFrame(s);
      var e := parse(frame.value, last).entry;
      FramePrintsBack(s);
      RecordsPrintBack(render, parse, admits, count - 1, frame.rest, Some(e.key));
      var tail := DecodeRecords(parse, count - 1, frame.rest, Some(e.key));
      RecordsJoin(render, e, tail.value, tail.rest);
      assert ([e] + tail.value)[1..] == tail.value;
    }
  }

  // ----- The envelope: a fixed header and the digest of everything after it -----

  const FORMAT_VERSION: nat := 1
  const HEADER_SIZE: nat := 64
  const HEADER := [2, 2, 4, 4, 4, 8]

  function Magic(): (r: seq<byte>)
    ensures |r| == 8
  {
    Ascii("DXTTSR01")
  }

  function HeaderWords(count: nat, size: nat): (r: seq<nat>)
    ensures |r| == 6
  {
    [FORMAT_VERSION, HEADER_SIZE, 0, count, 0, size]
  }

  function Seal(digest: seq<byte> -> Digest, count: nat, records: seq<byte>): seq<byte> {
    Magic() + (PutWords(HEADER, HeaderWords(count, HEADER_SIZE + |records|)) + (digest(records) + records))
  }

  datatype Envelope = Opened(count: nat, records: seq<byte>) | Unreadable(status: Status)

  function Open(digest: seq<byte> -> Digest, data: seq<byte>): Envelope {
    if |data| < HEADER_SIZE then Unreadable(InvalidFormat)
    else if |data| > MAX_FILE then Unreadable(LimitExceeded)
    else
      var header := TakeWords(HEADER, data[8..]);
      if data[..8] != Magic() || header.Short? || |header.value| != 6
         || header.value != HeaderWords(header.value[3], |data|) then Unreadable(InvalidFormat)
      else if header.value[3] > MAX_ENTRIES then Unreadable(LimitExceeded)
      else if digest(data[HEADER_SIZE..]) != data[32..HEADER_SIZE] then Unreadable(DigestMismatch)
      else Opened(header.value[3], data[HEADER_SIZE..])
  }

  lemma HeaderFits(count: nat, size: nat)
    requires count <= MAX_ENTRIES && size <= MAX_FILE
    ensures Fit(HEADER, HeaderWords(count, size))
  {
    PowersOf256();
    var w := HeaderWords(count, size);
    forall i | 0 <= i < 6 ensures w[i] < Pow256(HEADER[i]) {
      assert HEADER[0] == 2 && HEADER[1] == 2 && HEADER[2] == 4 && HEADER[3] == 4 && HEADER[4] == 4 && HEADER[5] == 8;
    }
  }

  lemma {:induction false} PutSize(widths: seq<nat>, words: seq<nat>)
    requires |widths| == |words|
    ensures |PutWords(widths, words)| == Sum(widths)
  {
    if widths != [] {
      PutSize(widths[1..], words[1..]);
    }
  }

  function Sum(widths: seq<nat>): nat {
    if widths == [] then 0 else widths[0] + Sum(widths[1..])
  }

  lemma SizeOfHeader()
    ensures Sum(HEADER) == 24
  {
    assert HEADER[1..] == [2, 4, 4, 4, 8] && HEADER[1..][1..] == [4, 4, 4, 8];
    assert Sum([4, 4, 4, 8]) == 20 by {
      assert [4, 4, 4, 8][1..] == [4, 4, 8] && [4, 4, 8][1..] == [4, 8] && [4, 8][1..] == [8] && [8][1..] == [];
    }
  }

  lemma Layout(magic: seq<byte>, words: seq<byte>, digest: seq<byte>, records: seq<byte>)
    requires |magic| == 8 && |words| == 24 && |digest| == 32
    ensures var data := magic + (words + (digest + records));
            && |data| == HEADER_SIZE + |records| && data[..8] == magic && data[8..] == words + (digest + records)
            && data[32..HEADER_SIZE] == digest && data[HEADER_SIZE..] == records
  {
  }

  lemma SealOpens(digest: seq<byte> -> Digest, count: nat, records: seq<byte>)
    requires count <= MAX_ENTRIES && |Seal(digest, count, records)| <= MAX_FILE
    ensures Open(digest, Seal(digest, count, records)) == Opened(count, records)
  {
    var w := HeaderWords(count, HEADER_SIZE + |records|);
    PutSize(HEADER, w);
    SizeOfHeader();
    Layout(Magic(), PutWords(HEADER, w), digest(records), records);
    HeaderFits(count, HEADER_SIZE + |records|);
    WordsRead(HEADER, w, digest(records) + records);
  }

  lemma Sections(data: seq<byte>)
    requires |data| >= HEADER_SIZE
    ensures data == data[..8] + (data[8..32] + (data[32..HEADER_SIZE] + data[HEADER_SIZE..]))
    ensures data[8..] == data[8..32] + (data[32..HEADER_SIZE] + data[HEADER_SIZE..])
  {
  }

  lemma OpenedWasSealed(digest: seq<byte> -> Digest, data: seq<byte>)
    requires Open(digest, data).Opened?
    ensures var r := Open(digest, data);
            r.count <= MAX_ENTRIES && r.records == data[HEADER_SIZE..] && Seal(digest, r.count, r.records) == data
  {
    var header := TakeWords(HEADER, data[8..]);
    WordsPrintBack(HEADER, data[8..]);
    PutSize(HEADER, header.value);
    SizeOfHeader();
    Sections(data);
    CancelPrefix(PutWords(HEADER, header.value), data[8..32], header.rest, data[32..HEADER_SIZE] + data[HEADER_SIZE..]);
  }
}
