/**
  The FastCGI record layer as the FastCGI Specification 1.0 defines it: records
  (section 3.3), name-value pairs (section 3.4) and the streams of a request
  (sections 5.1 to 5.3). This is the encoder that the codec is the inverse of.
 */
module FastCgiWire {
  import opened Bytes

  const HEADER_LEN := 8
  const VERSION: byte := 1
  const BEGIN_REQUEST: byte := 1
  const END_REQUEST: byte := 3
  const PARAMS: byte := 4
  const STDIN: byte := 5
  const STDOUT: byte := 6
  const RESPONDER := 1
  const KEEP_CONN: byte := 1

  datatype Record = Record(
    version: byte, kind: byte, id: uint16, content: bytes, padding: bytes, reserved: byte)

  ghost predicate WellFormed(r: Record) {
    |r.content| < TWO_16 && |r.padding| < TWO_8
  }

  function Header(version: byte, kind: byte, id: uint16, length: uint16, padding: byte, reserved: byte): (h: bytes)
    ensures |h| == HEADER_LEN
  {
    [version, kind] + BigEndian16(id) + BigEndian16(length) + [padding, reserved]
  }

  ghost function Encode(r: Record): (b: bytes)
    requires WellFormed(r)
    ensures |b| == HEADER_LEN + |r.content| + |r.padding|
  {
    Header(r.version, r.kind, r.id, |r.content|, |r.padding|, r.reserved) + r.content + r.padding
  }

  ghost predicate AllWellFormed(records: seq<Record>) {
    forall i | 0 <= i < |records| :: WellFormed(records[i])
  }

  ghost function EncodeAll(records: seq<Record>): bytes
    requires AllWellFormed(records)
  {
    if records == [] then [] else Encode(records[0]) + EncodeAll(records[1..])
  }

  lemma {:induction false} EncodeAllAppend(a: seq<Record>, b: seq<Record>)
    requires AllWellFormed(a) && AllWellFormed(b)
    ensures AllWellFormed(a + b) && EncodeAll(a + b) == EncodeAll(a) + EncodeAll(b)
  {
    if a == [] {
      assert a + b == b;
    } else {
      assert (a + b)[0] == a[0] && (a + b)[1..] == a[1..] + b;
      EncodeAllAppend(a[1..], b);
      Assoc(Encode(a[0]), EncodeAll(a[1..]), EncodeAll(b));
    }
  }

  lemma Assoc(a: bytes, b: bytes, c: bytes)
    ensures a + b + c == a + (b + c)
  {
  }

  // ---------- Reading a header ----------

  function ContentLength(data: bytes): uint16
    requires |data| >= HEADER_LEN
  {
    Read16(data[4..6])
  }

  function PaddingLength(data: bytes): byte
    requires |data| >= HEADER_LEN
  {
    data[6]
  }

  function TotalLength(data: bytes): (total: nat)
    requires |data| >= HEADER_LEN
    ensures total >= HEADER_LEN
  {
    HEADER_LEN + ContentLength(data) + PaddingLength(data)
  }

  /** The first record of `data` has arrived completely. */
  predicate HasRecord(data: bytes) {
    |data| >= HEADER_LEN && |data| >= TotalLength(data)
  }

  function Content(data: bytes): bytes
    requires HasRecord(data)
  {
    data[HEADER_LEN..HEADER_LEN + ContentLength(data)]
  }

  lemma HeaderReadsBack(r: Record, rest: bytes)
    requires WellFormed(r)
    ensures var data := Encode(r) + rest;
            && HasRecord(data) && data[1] == r.kind && TotalLength(data) == |Encode(r)|
            && Content(data) == r.content && data[TotalLength(data)..] == rest
  {
    var data := Encode(r) + rest;
    assert data[4..6] == BigEndian16(|r.content|) + [];
    RoundTrip16(|r.content|, []);
    assert data[6] == |r.padding|;
  }

  /** A strict prefix of one record does not look complete. */
  lemma StrictPrefixHasNoRecord(r: Record, data: bytes)
    requires WellFormed(r) && |data| < |Encode(r)| && data == Encode(r)[..|data|]
    ensures !HasRecord(data)
  {
    if |data| >= HEADER_LEN {
      HeaderReadsBack(r, []);
      assert Encode(r) + [] == Encode(r);
      assert data[4..6] == Encode(r)[4..6];
    }
  }

  // ---------- A record decoder ----------

  /** All of `data` as records, or None if it does not end where a record ends. */
  function Decode(data: bytes): Option<seq<Record>>
    decreases |data|
  {
    if data == [] then Some([])
    else if !HasRecord(data) then None
    else
      var n := TotalLength(data);
      var rest := Decode(data[n..]);
      if rest.None? then None else Some([FirstRecord(data)] + rest.value)
  }

  function FirstRecord(data: bytes): Record
    requires HasRecord(data)
  {
    Record(data[0], data[1], Read16(data[2..4]), Content(data),
           data[HEADER_LEN + ContentLength(data)..TotalLength(data)], data[7])
  }

  lemma FirstRecordReadsBack(r: Record, rest: bytes)
    requires WellFormed(r)
    ensures HasRecord(Encode(r) + rest) && FirstRecord(Encode(r) + rest) == r
  {
    var data := Encode(r) + rest;
    HeaderReadsBack(r, rest);
    assert data[2..4] == BigEndian16(r.id) + [];
    RoundTrip16(r.id, []);
    assert data[HEADER_LEN + |r.content|..|Encode(r)|] == r.padding;
    assert data[0] == r.version && data[7] == r.reserved;
  }

  lemma {:induction false} DecodeInvertsEncode(records: seq<Record>)
    requires AllWellFormed(records)
    ensures Decode(EncodeAll(records)) == Some(records)
  {
    if records == [] {
    } else {
      var r, rest := records[0], EncodeAll(records[1..]);
      HeaderReadsBack(r, rest);
      FirstRecordReadsBack(r, rest);
      DecodeInvertsEncode(records[1..]);
      assert records == [r] + records[1..];
    }
  }

  lemma FirstRecordEncodes(data: bytes)
    requires HasRecord(data)
    ensures WellFormed(FirstRecord(data)) && Encode(FirstRecord(data)) == data[..TotalLength(data)]
  {
    var r, n := FirstRecord(data), TotalLength(data);
    assert data[..n] == data[..HEADER_LEN] + r.content + r.padding;
    ReadWrite16(data[2..4]);
    ReadWrite16(data[4..6]);
    assert data[..HEADER_LEN] == data[0..2] + data[2..4] + data[4..6] + data[6..8];
  }

  /** And the other way: whatever decodes is the encoding of what it decodes to. */
  lemma {:induction false} EncodeInvertsDecode(data: bytes)
    requires Decode(data).Some?
    ensures AllWellFormed(Decode(data).value) && EncodeAll(Decode(data).value) == data
    decreases |data|
  {
    if data == [] {
    } else {
      var n := TotalLength(data);
      FirstRecordEncodes(data);
      EncodeInvertsDecode(data[n..]);
      var r, records := FirstRecord(data), Decode(data[n..]).value;
      assert Decode(data).value == [r] + records;
      assert ([r] + records)[1..] == records;
      assert data == data[..n] + data[n..];
    }
  }

  // ---------- Name-value pairs ----------

  datatype Pair = Pair(name: bytes, value: bytes)

  ghost predicate Encodable(pairs: seq<Pair>) {
    forall i | 0 <= i < |pairs| :: |pairs[i].name| < TWO_31 && |pairs[i].value| < TWO_31
  }

  /** One byte below 128, four bytes with the high bit set otherwise. */
  ghost function EncodeLength(n: nat): bytes
    requires n < TWO_31
  {
    if n < 128 then [n] else BigEndian32(n + TWO_31)
  }

  ghost function EncodePair(p: Pair): bytes
    requires |p.name| < TWO_31 && |p.value| < TWO_31
  {
    EncodeLength(|p.name|) + EncodeLength(|p.value|) + p.name + p.value
  }

  ghost function EncodePairs(pairs: seq<Pair>): bytes
    requires Encodable(pairs)
  {
    if pairs == [] then [] else EncodePair(pairs[0]) + EncodePairs(pairs[1..])
  }

  /** Later pairs replace earlier ones of the same name. */
  ghost function LastWins(pairs: seq<Pair>, params: map<bytes, bytes>): map<bytes, bytes> {
    if pairs == [] then params else LastWins(pairs[1..], params[pairs[0].name := pairs[0].value])
  }

  // ---------- A whole request ----------

  ghost function Contents(records: seq<Record>): bytes {
    if records == [] then [] else records[0].content + Contents(records[1..])
  }

  /** A stream: non-empty records of one kind that spell out `data`, then an empty one. */
  ghost predicate IsStream(records: seq<Record>, kind: byte, data: bytes) {
    && AllWellFormed(records) && records != []
    && (forall i | 0 <= i < |records| :: records[i].kind == kind)
    && (forall i | 0 <= i < |records| :: records[i].content == [] <==> i == |records| - 1)
    && Contents(records) == data
  }

  /** A request to a responder, in any split into records and with any padding and request id. */
  datatype Request = Request(begin: Record, params: seq<Record>, stdin: seq<Record>) {
    ghost function Records(): seq<Record> {
      [begin] + params + stdin
    }
  }

  ghost predicate Encodes(req: Request, flags: byte, pairs: seq<Pair>, body: bytes) {
    && AllWellFormed(req.Records()) && req.begin.kind == BEGIN_REQUEST && |req.begin.content| == 8
    && Read16(req.begin.content) == RESPONDER && req.begin.content[2] == flags
    && Encodable(pairs) && IsStream(req.params, PARAMS, EncodePairs(pairs))
    && IsStream(req.stdin, STDIN, body)
  }
}
