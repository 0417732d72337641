/**
  FastCgiCodec of mucgi: the incremental request parser. `Parse` is what parseRequest
  does to the codec's state; the class at the end is the codec over real buffers.
 */
module FastCgiCodec {
  import opened Bytes
  import opened FastCgiWire
  import B = Buffer

  /** readLen's error value, static_cast<uint32_t>(-1). */
  const NO_LENGTH: uint32 := 0xffff_ffff

  datatype State = State(
    gotRequest: bool,
    keepConn: bool,
    stdin: bytes,
    paramsStream: bytes,
    params: map<bytes, bytes>)

  // ---------- What the parser does ----------

  /** readLen: the length, or NO_LENGTH, and what is left of the stream. */
  function ReadLen(stream: bytes): (r: (uint32, bytes))
    ensures |r.1| <= |stream|
    ensures r.0 != NO_LENGTH ==> |r.1| < |stream| && r.0 < TWO_31
  {
    if |stream| >= 1 then
      if stream[0] >= 128 then
        if |stream| >= 4 then (Low31(Signed32(Read32(stream))), stream[4..]) else (NO_LENGTH, stream)
      else (stream[0], stream[1..])
    else (NO_LENGTH, stream)
  }

  /** The unsigned 32-bit sum of two lengths. */
  function SumLength(a: uint32, b: uint32): uint32 {
    (a + b) % TWO_32
  }

  datatype ParamsResult = ParamsResult(ok: bool, stream: bytes, params: map<bytes, bytes>)

  /** One round of parseAllParams: a failure leaves what has been consumed so far. */
  function ParsePair(stream: bytes, params: map<bytes, bytes>): (r: ParamsResult)
    ensures r.ok ==> |r.stream| < |stream|
  {
    var (nameLen, s1) := ReadLen(stream);
    if nameLen == NO_LENGTH then ParamsResult(false, s1, params)
    else
      var (valueLen, s2) := ReadLen(s1);
      if valueLen == NO_LENGTH then ParamsResult(false, s2, params)
      else if |s2| >= SumLength(nameLen, valueLen) then
        LengthsDoNotWrap(stream, s1);
        ParamsResult(true, s2[nameLen + valueLen..], params[s2[..nameLen] := s2[nameLen..nameLen + valueLen]])
      else ParamsResult(false, s2, params)
  }

  /** parseAllParams. */
  function ParseAllParams(stream: bytes, params: map<bytes, bytes>): ParamsResult
    decreases |stream|
  {
    if stream == [] then ParamsResult(true, stream, params)
    else
      var r := ParsePair(stream, params);
      if r.ok then ParseAllParams(r.stream, r.params) else r
  }

  /** Two lengths that readLen delivers never wrap when added, and neither is the error value. */
  lemma LengthsDoNotWrap(s: bytes, t: bytes)
    ensures var a, b := ReadLen(s).0, ReadLen(t).0;
            a != NO_LENGTH && b != NO_LENGTH ==> SumLength(a, b) == a + b < NO_LENGTH
  {
  }

  function OnBeginRequest(st: State, content: bytes): State {
    if |content| >= HEADER_LEN && Read16(content) == RESPONDER
    then st.(keepConn := content[2] == KEEP_CONN) else st
  }

  function OnParams(st: State, content: bytes): State {
    if |content| > 0 then st.(paramsStream := st.paramsStream + content)
    else
      var r := ParseAllParams(st.paramsStream, st.params);
      st.(paramsStream := r.stream, params := r.params)
  }

  function OnStdin(st: State, content: bytes): State {
    if |content| > 0 then st.(stdin := st.stdin + content) else st.(gotRequest := true)
  }

  /** One complete record; kinds other than these three are skipped. */
  function OnRecord(st: State, kind: byte, content: bytes): State {
    if kind == BEGIN_REQUEST then OnBeginRequest(st, content)
    else if kind == PARAMS then OnParams(st, content)
    else if kind == STDIN then OnStdin(st, content)
    else st
  }

  /** parseRequest: the new state and the bytes that wait for the rest of their record. */
  function Parse(st: State, data: bytes): (State, bytes)
    decreases |data|
  {
    if !HasRecord(data) then (st, data)
    else Parse(OnRecord(st, data[1], Content(data)), data[TotalLength(data)..])
  }

  // ---------- Chunking does not matter ----------

  /** Parsing what has arrived and then the rest is parsing everything at once, whatever the bytes are. */
  lemma {:induction false} ParseInTwoSteps(st: State, a: bytes, b: bytes)
    ensures var (mid, rest) := Parse(st, a);
            Parse(st, a + b) == Parse(mid, rest + b)
    decreases |a|
  {
    if !HasRecord(a) {
    } else {
      var n := TotalLength(a);
      assert (a + b)[4..6] == a[4..6];
      assert Content(a + b) == Content(a);
      assert (a + b)[n..] == a[n..] + b;
      ParseInTwoSteps(OnRecord(st, a[1], Content(a)), a[n..], b);
    }
  }

  ghost function Concat(chunks: seq<bytes>): bytes {
    if chunks == [] then [] else chunks[0] + Concat(chunks[1..])
  }

  /** parseRequest called after every arrival. */
  ghost function ParseChunks(st: State, input: bytes, chunks: seq<bytes>): (State, bytes)
    decreases |chunks|
  {
    if chunks == [] then (st, input)
    else
      var (mid, rest) := Parse(st, input + chunks[0]);
      ParseChunks(mid, rest, chunks[1..])
  }

  /** For every byte stream and every split of it, the parser ends where one call on the whole ends. */
  lemma {:induction false} ChunkingIndependence(st: State, input: bytes, chunks: seq<bytes>)
    requires !HasRecord(input)
    ensures ParseChunks(st, input, chunks) == Parse(st, input + Concat(chunks))
    decreases |chunks|
  {
    if chunks == [] {
      assert input + Concat(chunks) == input;
    } else {
      var (mid, rest) := Parse(st, input + chunks[0]);
      LeftoverHasNoRecord(st, input + chunks[0]);
      ChunkingIndependence(mid, rest, chunks[1..]);
      ParseInTwoSteps(st, input + chunks[0], Concat(chunks[1..]));
      assert input + Concat(chunks) == input + chunks[0] + Concat(chunks[1..]);
    }
  }

  lemma {:induction false} LeftoverHasNoRecord(st: State, data: bytes)
    ensures !HasRecord(Parse(st, data).1)
    decreases |data|
  {
    if !HasRecord(data) {
    } else {
      LeftoverHasNoRecord(OnRecord(st, data[1], Content(data)), data[TotalLength(data)..]);
    }
  }

  // ---------- Name-value pairs come back ----------

  lemma ReadLenInvertsEncodeLength(n: nat, rest: bytes)
    requires n < TWO_31
    ensures ReadLen(EncodeLength(n) + rest) == (n, rest)
  {
    var stream := EncodeLength(n) + rest;
    if n >= 128 {
      RoundTrip32(n + TWO_31, rest);
      assert stream[0] == (n + TWO_31) / TWO_24 >= 128;
      assert stream[4..] == rest;
    } else {
      assert stream[1..] == rest;
    }
  }

  lemma OnePairReadsBack(p: Pair, rest: bytes, params: map<bytes, bytes>)
    requires |p.name| < TWO_31 && |p.value| < TWO_31
    ensures ParseAllParams(EncodePair(p) + rest, params) == ParseAllParams(rest, params[p.name := p.value])
  {
    var n, v := |p.name|, |p.value|;
    var s2 := p.name + p.value + rest;
    var s1 := EncodeLength(v) + s2;
    var stream := EncodeLength(n) + s1;
    assert EncodePair(p) + rest == stream;
    ReadLenInvertsEncodeLength(n, s1);
    ReadLenInvertsEncodeLength(v, s2);
    LengthsDoNotWrap(stream, s1);
    assert s2[..n] == p.name && s2[n..n + v] == p.value && s2[n + v..] == rest;
  }

  lemma {:induction false} PairsReadBack(pairs: seq<Pair>, params: map<bytes, bytes>)
    requires Encodable(pairs)
    ensures ParseAllParams(EncodePairs(pairs), params) == ParamsResult(true, [], LastWins(pairs, params))
  {
    if pairs == [] {
    } else {
      OnePairReadsBack(pairs[0], EncodePairs(pairs[1..]), params);
      PairsReadBack(pairs[1..], params[pairs[0].name := pairs[0].value]);
    }
  }

  // ---------- Malformed parameters ----------

  /** Complete pairs in front of anything are stored before that is looked at. */
  lemma {:induction false} PairsThenRest(pairs: seq<Pair>, rest: bytes, params: map<bytes, bytes>)
    requires Encodable(pairs)
    ensures ParseAllParams(EncodePairs(pairs) + rest, params) == ParseAllParams(rest, LastWins(pairs, params))
  {
    if pairs == [] {
      assert EncodePairs(pairs) + rest == rest;
    } else {
      var p, tail := EncodePair(pairs[0]), EncodePairs(pairs[1..]);
      assert EncodePairs(pairs) + rest == p + (tail + rest);
      OnePairReadsBack(pairs[0], tail + rest, params);
      PairsThenRest(pairs[1..], rest, params[pairs[0].name := pairs[0].value]);
    }
  }

  /** A pair whose name and value have not arrived completely fails, with its lengths used up. */
  lemma TruncatedPairFails(name: nat, value: nat, rest: bytes, params: map<bytes, bytes>)
    requires name < TWO_31 && value < TWO_31 && |rest| < name + value
    ensures ParseAllParams(EncodeLength(name) + EncodeLength(value) + rest, params) == ParamsResult(false, rest, params)
  {
    var s1 := EncodeLength(value) + rest;
    assert EncodeLength(name) + EncodeLength(value) + rest == EncodeLength(name) + s1;
    ReadLenInvertsEncodeLength(name, s1);
    ReadLenInvertsEncodeLength(value, rest);
    LengthsDoNotWrap(EncodeLength(name) + s1, s1);
  }

  /** So does a pair without its second length, and a four-byte length that is cut off stays in the stream. */
  lemma TruncatedLengthFails(name: nat, cut: bytes, params: map<bytes, bytes>)
    requires name < TWO_31 && |cut| < 4 && (cut != [] ==> cut[0] >= 128)
    ensures ParseAllParams(EncodeLength(name) + cut, params) == ParamsResult(false, cut, params)
    ensures cut != [] ==> ParseAllParams(cut, params) == ParamsResult(false, cut, params)
  {
    ReadLenInvertsEncodeLength(name, cut);
  }

  // ---------- Which records count ----------

  /**
    In the numbers of the specification: a begin-request record (type 1) of at least eight bytes and role 1
    sets whether the connection is kept, by flags 1; parameters are type 4 and the body is type 5; any other
    record changes nothing.
   */
  lemma RecordsThatCount(st: State, kind: byte, content: bytes)
    ensures kind == 1 && |content| >= 8 && content[0] == 0 && content[1] == 1 ==>
              OnRecord(st, kind, content) == st.(keepConn := content[2] == 1)
    ensures kind == 1 && (|content| < 8 || content[0] != 0 || content[1] != 1) ==> OnRecord(st, kind, content) == st
    ensures kind == 4 && content != [] ==> OnRecord(st, kind, content).paramsStream == st.paramsStream + content
    ensures kind == 5 && content != [] ==> OnRecord(st, kind, content).stdin == st.stdin + content
    ensures kind == 5 && content == [] ==> OnRecord(st, kind, content) == st.(gotRequest := true)
    ensures kind != 1 && kind != 4 && kind != 5 ==> OnRecord(st, kind, content) == st
  {
  }

  // ---------- Records are applied one by one ----------

  ghost function OnRecords(st: State, records: seq<Record>): State
    decreases |records|
  {
    if records == [] then st else OnRecords(OnRecord(st, records[0].kind, records[0].content), records[1..])
  }

  lemma {:induction false} OnRecordsAppend(st: State, a: seq<Record>, b: seq<Record>)
    ensures OnRecords(st, a + b) == OnRecords(OnRecords(st, a), b)
    decreases |a|
  {
    if a == [] {
      assert a + b == b;
    } else {
      assert (a + b)[1..] == a[1..] + b;
      OnRecordsAppend(OnRecord(st, a[0].kind, a[0].content), a[1..], b);
    }
  }

  /** The parser applies exactly the records that the bytes decode to, and leaves nothing iff they decode. */
  lemma {:induction false} ParseFollowsDecode(st: State, data: bytes)
    ensures Decode(data).Some? <==> Parse(st, data).1 == []
    ensures Decode(data).Some? ==> Parse(st, data).0 == OnRecords(st, Decode(data).value)
    decreases |data|
  {
    if !HasRecord(data) {
    } else {
      var r, n := FirstRecord(data), TotalLength(data);
      ParseFollowsDecode(OnRecord(st, data[1], Content(data)), data[n..]);
      if Decode(data[n..]).Some? {
        assert ([r] + Decode(data[n..]).value)[1..] == Decode(data[n..]).value;
      }
    }
  }

  lemma {:induction false} ParseRecords(st: State, records: seq<Record>)
    requires AllWellFormed(records)
    ensures Parse(st, EncodeAll(records)) == (OnRecords(st, records), [])
    decreases |records|
  {
    if records == [] {
    } else {
      HeaderReadsBack(records[0], EncodeAll(records[1..]));
      ParseRecords(OnRecord(st, records[0].kind, records[0].content), records[1..]);
    }
  }

  /** A strict prefix of the wire form applies the records that are complete in it, never the last one. */
  lemma {:induction false} ParsePrefix(st: State, records: seq<Record>, data: bytes) returns (k: nat)
    requires AllWellFormed(records) && |data| < |EncodeAll(records)| && data == EncodeAll(records)[..|data|]
    ensures k < |records| && Parse(st, data).0 == OnRecords(st, records[..k])
    decreases |records|
  {
    var r := records[0];
    if |data| < |Encode(r)| {
      assert data == Encode(r)[..|data|];
      StrictPrefixHasNoRecord(r, data);
      k := 0;
    } else {
      var rest := data[|Encode(r)|..];
      assert data == Encode(r) + rest;
      HeaderReadsBack(r, rest);
      k := ParsePrefix(OnRecord(st, r.kind, r.content), records[1..], rest);
      assert records[..k + 1][1..] == records[1..][..k];
      k := k + 1;
    }
  }

  // ---------- The streams of a request ----------

  lemma {:induction false} ParamsRecords(st: State, records: seq<Record>)
    requires forall i | 0 <= i < |records| :: records[i].kind == PARAMS && records[i].content != []
    ensures OnRecords(st, records) == st.(paramsStream := st.paramsStream + Contents(records))
    decreases |records|
  {
    if records == [] {
    } else {
      ParamsRecords(OnRecord(st, records[0].kind, records[0].content), records[1..]);
      assert st.paramsStream + Contents(records)
          == st.paramsStream + records[0].content + Contents(records[1..]);
    }
  }

  lemma {:induction false} StdinRecords(st: State, records: seq<Record>)
    requires forall i | 0 <= i < |records| :: records[i].kind == STDIN && records[i].content != []
    ensures OnRecords(st, records) == st.(stdin := st.stdin + Contents(records))
    decreases |records|
  {
    if records == [] {
    } else {
      StdinRecords(OnRecord(st, records[0].kind, records[0].content), records[1..]);
      assert st.stdin + Contents(records) == st.stdin + records[0].content + Contents(records[1..]);
    }
  }

  lemma {:induction false} ContentsSnoc(records: seq<Record>)
    requires records != [] && records[|records| - 1].content == []
    ensures Contents(records) == Contents(records[..|records| - 1])
  {
    var n, rest := |records|, records[1..];
    var init := records[..n - 1];
    if n == 1 {
    } else {
      ContentsSnoc(rest);
      assert init[0] == records[0] && init[1..] == rest[..n - 2];
    }
  }

  /** The codec between two requests. */
  ghost predicate Ready(st: State) {
    !st.gotRequest && st.stdin == [] && st.paramsStream == [] && st.params == map[]
  }

  ghost function AfterRequest(flags: byte, pairs: seq<Pair>, body: bytes): State {
    State(true, flags == KEEP_CONN, body, [], LastWins(pairs, map[]))
  }

  /** All records of a stream but the last carry data; the last one is empty. */
  lemma StreamSplits(records: seq<Record>, kind: byte, data: bytes) returns (full: seq<Record>, end: Record)
    requires IsStream(records, kind, data)
    ensures records == full + [end] && end.kind == kind && end.content == [] && Contents(full) == data
    ensures forall i | 0 <= i < |full| :: full[i].kind == kind && full[i].content != []
  {
    full, end := records[..|records| - 1], records[|records| - 1];
    ContentsSnoc(records);
  }

  lemma OnLast(st: State, full: seq<Record>, end: Record)
    ensures OnRecords(st, full + [end]) == OnRecord(OnRecords(st, full), end.kind, end.content)
  {
    OnRecordsAppend(st, full, [end]);
  }

  lemma ParamsStreamIsApplied(st: State, records: seq<Record>, pairs: seq<Pair>)
    requires st.paramsStream == [] && st.params == map[]
    requires Encodable(pairs) && IsStream(records, PARAMS, EncodePairs(pairs))
    ensures OnRecords(st, records) == st.(params := LastWins(pairs, map[]))
  {
    var full, end := StreamSplits(records, PARAMS, EncodePairs(pairs));
    OnLast(st, full, end);
    ParamsRecords(st, full);
    assert st.paramsStream + Contents(full) == EncodePairs(pairs);
    PairsReadBack(pairs, map[]);
  }

  lemma StdinStreamIsApplied(st: State, records: seq<Record>, body: bytes)
    requires st.stdin == [] && IsStream(records, STDIN, body)
    ensures OnRecords(st, records) == st.(stdin := body, gotRequest := true)
  {
    var full, end := StreamSplits(records, STDIN, body);
    OnLast(st, full, end);
    StdinRecords(st, full);
    assert st.stdin + Contents(full) == body;
  }

  lemma RequestIsApplied(st: State, req: Request, flags: byte, pairs: seq<Pair>, body: bytes)
    requires Ready(st) && Encodes(req, flags, pairs, body)
    ensures OnRecords(st, req.Records()) == AfterRequest(flags, pairs, body)
  {
    var begun := OnRecord(st, req.begin.kind, req.begin.content);
    var named := begun.(params := LastWins(pairs, map[]));
    assert OnRecords(st, [req.begin]) == begun;
    OnRecordsAppend(st, [req.begin], req.params);
    OnRecordsAppend(st, [req.begin] + req.params, req.stdin);
    ParamsStreamIsApplied(begun, req.params, pairs);
    StdinStreamIsApplied(named, req.stdin, body);
  }

  /** The request is complete only with its very last record. */
  lemma {:induction false} NotYetComplete(st: State, records: seq<Record>)
    requires !st.gotRequest
    requires forall i | 0 <= i < |records| :: records[i].kind == STDIN ==> records[i].content != []
    ensures !OnRecords(st, records).gotRequest
    decreases |records|
  {
    if records == [] {
    } else {
      NotYetComplete(OnRecord(st, records[0].kind, records[0].content), records[1..]);
    }
  }

  lemma PrefixIsIncomplete(st: State, req: Request, flags: byte, pairs: seq<Pair>, body: bytes, data: bytes)
    requires Ready(st) && Encodes(req, flags, pairs, body)
    requires |data| < |EncodeAll(req.Records())| && data == EncodeAll(req.Records())[..|data|]
    ensures !Parse(st, data).0.gotRequest
  {
    var k := ParsePrefix(st, req.Records(), data);
    NotYetComplete(st, req.Records()[..k]);
  }

  // ---------- onMessage ----------

  datatype Call = Call(params: map<bytes, bytes>, body: bytes)

  /** A connection: the codec, the input buffer, the callbacks made and how often shutdown was called. */
  datatype Conn = Conn(state: State, input: bytes, calls: seq<Call>, shutdowns: nat)

  function OnMessage(c: Conn, chunk: bytes): Conn {
    var (st, rest) := Parse(c.state, c.input + chunk);
    if st.gotRequest then
      Conn(State(false, st.keepConn, [], [], map[]), rest, c.calls + [Call(st.params, st.stdin)],
           if st.keepConn then c.shutdowns else c.shutdowns + 1)
    else c.(state := st, input := rest)
  }

  ghost function Deliver(c: Conn, chunks: seq<bytes>): Conn
    decreases |chunks|
  {
    if chunks == [] then c else Deliver(OnMessage(c, chunks[0]), chunks[1..])
  }

  ghost predicate Idle(c: Conn) {
    Ready(c.state) && c.input == []
  }

  lemma {:induction false} EmptyChunksDoNothing(c: Conn, chunks: seq<bytes>)
    requires Idle(c) && Concat(chunks) == []
    ensures Deliver(c, chunks) == c
    decreases |chunks|
  {
    if chunks == [] {
    } else {
      assert chunks[0] == [] && Concat(chunks[1..]) == [];
      EmptyChunksDoNothing(c, chunks[1..]);
    }
  }

  /** From the point where `seen` has arrived, the rest of the request completes it. */
  lemma {:induction false} DeliverRest(c0: Conn, seen: bytes, chunks: seq<bytes>,
                                       req: Request, flags: byte, pairs: seq<Pair>, body: bytes)
    requires Ready(c0.state) && Encodes(req, flags, pairs, body)
    requires seen + Concat(chunks) == EncodeAll(req.Records()) && |seen| < |EncodeAll(req.Records())|
    ensures Deliver(c0.(state := Parse(c0.state, seen).0, input := Parse(c0.state, seen).1), chunks)
            == Served(c0, flags, pairs, body)
    decreases |chunks|
  {
    var wire := EncodeAll(req.Records());
    var (st, rest) := Parse(c0.state, seen);
    var c := c0.(state := st, input := rest);
    assert seen == wire[..|seen|];
    PrefixIsIncomplete(c0.state, req, flags, pairs, body, seen);
    assert |Concat(chunks)| > 0;
    var more := seen + chunks[0];
    assert seen + Concat(chunks) == more + Concat(chunks[1..]);
    ParseInTwoSteps(c0.state, seen, chunks[0]);
    assert more == wire[..|more|];
    if |more| < |wire| {
      PrefixIsIncomplete(c0.state, req, flags, pairs, body, more);
      DeliverRest(c0, more, chunks[1..], req, flags, pairs, body);
    } else {
      assert more == wire && Concat(chunks[1..]) == [];
      ParseRecords(c0.state, req.Records());
      RequestIsApplied(c0.state, req, flags, pairs, body);
      assert OnMessage(c, chunks[0]) == Served(c0, flags, pairs, body);
      EmptyChunksDoNothing(Served(c0, flags, pairs, body), chunks[1..]);
    }
  }

  /** One callback with the decoded request, a shutdown unless kept alive, and ready again. */
  ghost function Served(c: Conn, flags: byte, pairs: seq<Pair>, body: bytes): Conn {
    Conn(State(false, flags == KEEP_CONN, [], [], map[]), [],
         c.calls + [Call(LastWins(pairs, map[]), body)],
         if flags == KEEP_CONN then c.shutdowns else c.shutdowns + 1)
  }

  /**
    End to end: however a request is split into records, padded and cut into arrivals, the callback runs
    exactly once with the last-wins parameters and the exact body; the connection is shut down iff the
    flags are not 1, and the codec is ready for the next request.
   */
  lemma RequestIsServedOnce(c: Conn, chunks: seq<bytes>, req: Request, flags: byte, pairs: seq<Pair>, body: bytes)
    requires Idle(c) && Encodes(req, flags, pairs, body)
    requires Concat(chunks) == EncodeAll(req.Records())
    ensures Deliver(c, chunks) == Served(c, flags, pairs, body)
    ensures Idle(Served(c, flags, pairs, body))
  {
    assert [] + Concat(chunks) == Concat(chunks);
    assert c == c.(state := Parse(c.state, []).0, input := Parse(c.state, []).1);
    DeliverRest(c, [], chunks, req, flags, pairs, body);
  }

  /** One request of a connection: how it is encoded, what it says, and the arrivals that bring it. */
  datatype Visit = Visit(req: Request, flags: byte, pairs: seq<Pair>, body: bytes, chunks: seq<bytes>)

  /** The arrivals are a split of the request's bytes, so the last of them ends with the request. */
  ghost predicate Arrives(v: Visit) {
    Encodes(v.req, v.flags, v.pairs, v.body) && Concat(v.chunks) == EncodeAll(v.req.Records())
  }

  ghost function Arrivals(visits: seq<Visit>): seq<bytes> {
    if visits == [] then [] else visits[0].chunks + Arrivals(visits[1..])
  }

  ghost function CallsFor(visits: seq<Visit>): (calls: seq<Call>)
    ensures |calls| == |visits|
  {
    seq(|visits|, i requires 0 <= i < |visits| => Call(LastWins(visits[i].pairs, map[]), visits[i].body))
  }

  /** How many of the requests do not ask to keep the connection. */
  ghost function Closing(visits: seq<Visit>): nat {
    if visits == [] then 0 else (if visits[0].flags == KEEP_CONN then 0 else 1) + Closing(visits[1..])
  }

  lemma {:induction false} DeliverAppend(c: Conn, a: seq<bytes>, b: seq<bytes>)
    ensures Deliver(c, a + b) == Deliver(Deliver(c, a), b)
    decreases |a|
  {
    if a == [] {
      assert a + b == b;
    } else {
      assert (a + b)[0] == a[0] && (a + b)[1..] == a[1..] + b;
      DeliverAppend(OnMessage(c, a[0]), a[1..], b);
    }
  }

  lemma CallsForCons(visits: seq<Visit>)
    requires visits != []
    ensures CallsFor(visits) == [Call(LastWins(visits[0].pairs, map[]), visits[0].body)] + CallsFor(visits[1..])
  {
  }

  lemma ConcatCalls(a: seq<Call>, call: Call, b: seq<Call>)
    ensures a + [call] + b == a + ([call] + b)
  {
  }

  /**
    A kept connection: any number of requests, each split over its own arrivals, are served in order with
    one callback each, the connection is shut down once for every request that does not keep it, and the
    codec is ready for another.
   */
  lemma {:induction false} RequestsAreServedInOrder(c: Conn, visits: seq<Visit>)
    requires Idle(c) && forall i | 0 <= i < |visits| :: Arrives(visits[i])
    ensures var d := Deliver(c, Arrivals(visits));
            && Idle(d) && d.calls == c.calls + CallsFor(visits) && d.shutdowns == c.shutdowns + Closing(visits)
    decreases |visits|
  {
    if visits == [] {
      assert c.calls + CallsFor(visits) == c.calls;
    } else {
      var v, rest := visits[0], visits[1..];
      var served := Served(c, v.flags, v.pairs, v.body);
      RequestIsServedOnce(c, v.chunks, v.req, v.flags, v.pairs, v.body);
      DeliverAppend(c, v.chunks, Arrivals(rest));
      RequestsAreServedInOrder(served, rest);
      CallsForCons(visits);
      ConcatCalls(c.calls, Call(LastWins(v.pairs, map[]), v.body), CallsFor(rest));
    }
  }

  /** The records of a small request: the parameter A = B, and the body "x". */
  ghost function SmallRequest(flags: byte): (records: seq<Record>)
    ensures AllWellFormed(records)
  {
    [Record(1, 1, 1, [0, 1, flags, 0, 0, 0, 0, 0], [], 0), Record(1, 4, 1, [1, 1, 65, 66], [0, 0, 0, 0], 0),
     Record(1, 4, 1, [], [], 0), Record(1, 5, 1, [120], [0, 0, 0, 0, 0, 0, 0], 0), Record(1, 5, 1, [], [], 0)]
  }

  lemma EncodeAllCons(r: Record, records: seq<Record>)
    requires WellFormed(r) && AllWellFormed(records)
    ensures AllWellFormed([r] + records) && EncodeAll([r] + records) == Encode(r) + EncodeAll(records)
  {
    assert ([r] + records)[1..] == records;
  }

  lemma SmallRecordBytes(flags: byte)
    ensures var rs := SmallRequest(flags);
            && Encode(rs[0]) == [1, 1, 0, 1, 0, 8, 0, 0, 0, 1, flags, 0, 0, 0, 0, 0]
            && Encode(rs[1]) == [1, 4, 0, 1, 0, 4, 4, 0, 1, 1, 65, 66, 0, 0, 0, 0]
            && Encode(rs[2]) == [1, 4, 0, 1, 0, 0, 0, 0]
            && Encode(rs[3]) == [1, 5, 0, 1, 0, 1, 7, 0, 120, 0, 0, 0, 0, 0, 0, 0]
            && Encode(rs[4]) == [1, 5, 0, 1, 0, 0, 0, 0]
  {
  }

  lemma SmallRequestBytes(flags: byte)
    ensures EncodeAll(SmallRequest(flags))
            == [1, 1, 0, 1, 0, 8, 0, 0, 0, 1, flags, 0, 0, 0, 0, 0]
               + ([1, 4, 0, 1, 0, 4, 4, 0, 1, 1, 65, 66, 0, 0, 0, 0]
                  + ([1, 4, 0, 1, 0, 0, 0, 0]
                     + ([1, 5, 0, 1, 0, 1, 7, 0, 120, 0, 0, 0, 0, 0, 0, 0]
                        + ([1, 5, 0, 1, 0, 0, 0, 0] + []))))
  {
    var rs := SmallRequest(flags);
    SmallRecordBytes(flags);
    EncodeAllOfFive(rs[0], rs[1], rs[2], rs[3], rs[4]);
    assert rs == [rs[0], rs[1], rs[2], rs[3], rs[4]];
  }

  lemma EncodeAllOfFive(a: Record, b: Record, c: Record, d: Record, e: Record)
    requires WellFormed(a) && WellFormed(b) && WellFormed(c) && WellFormed(d) && WellFormed(e)
    ensures AllWellFormed([a, b, c, d, e])
    ensures EncodeAll([a, b, c, d, e]) == Encode(a) + (Encode(b) + (Encode(c) + (Encode(d) + (Encode(e) + []))))
  {
    EncodeAllCons(e, []);
    EncodeAllCons(d, [e] + []);
    EncodeAllCons(c, [d] + ([e] + []));
    EncodeAllCons(b, [c] + ([d] + ([e] + [])));
    EncodeAllCons(a, [b] + ([c] + ([d] + ([e] + []))));
    assert [a, b, c, d, e] == [a] + ([b] + ([c] + ([d] + ([e] + []))));
  }

  lemma PairAB()
    ensures ParseAllParams([1, 1, 65, 66], map[]) == ParamsResult(true, [], map[[65] := [66]])
  {
    var s: bytes := [1, 1, 65, 66];
    assert ReadLen(s) == (1, [1, 65, 66]) && ReadLen([1, 65, 66]) == (1, [65, 66]);
    var s2: bytes := [65, 66];
    assert s2[..1] == [65] && s2[1..2] == [66] && s2[2..] == [];
    assert ParsePair(s, map[]) == ParamsResult(true, [], map[[65] := [66]]);
  }

  lemma OnRecordsCons(st: State, r: Record, records: seq<Record>)
    ensures OnRecords(st, [r] + records) == OnRecords(OnRecord(st, r.kind, r.content), records)
  {
    assert ([r] + records)[1..] == records;
  }

  lemma SmallParamsAreApplied(begun: State, pair: Record, end: Record, rest: seq<Record>)
    requires begun.paramsStream == [] && begun.params == map[]
    requires pair.kind == 4 && pair.content == [1, 1, 65, 66] && end.kind == 4 && end.content == []
    ensures OnRecords(begun, [pair] + ([end] + rest)) == OnRecords(begun.(params := map[[65] := [66]]), rest)
  {
    OnRecordsCons(begun, pair, [end] + rest);
    assert begun.paramsStream + pair.content == [1, 1, 65, 66];
    PairAB();
    OnRecordsCons(begun.(paramsStream := [1, 1, 65, 66]), end, rest);
  }

  lemma SmallBodyIsApplied(named: State, body: Record, end: Record)
    requires named.stdin == [] && body.kind == 5 && body.content == [120] && end.kind == 5 && end.content == []
    ensures OnRecords(named, [body] + ([end] + [])) == named.(stdin := [120], gotRequest := true)
  {
    OnRecordsCons(named, body, [end] + []);
    assert named.stdin + body.content == [120];
    OnRecordsCons(named.(stdin := [120]), end, []);
  }

  lemma SmallRequestIsApplied(flags: byte)
    ensures OnRecords(State(false, false, [], [], map[]), SmallRequest(flags))
            == State(true, flags == 1, [120], [], map[[65] := [66]])
  {
    var st, rs := State(false, false, [], [], map[]), SmallRequest(flags);
    var begun := st.(keepConn := flags == 1);
    var body := [rs[3]] + ([rs[4]] + []);
    assert rs == [rs[0]] + ([rs[1]] + ([rs[2]] + body));
    OnRecordsCons(st, rs[0], [rs[1]] + ([rs[2]] + body));
    SmallParamsAreApplied(begun, rs[1], rs[2], body);
    SmallBodyIsApplied(begun.(params := map[[65] := [66]]), rs[3], rs[4]);
  }

  /**
    A request byte by byte: begin-request with the given flags, the parameter A = B with four bytes of padding,
    the end of the parameters, the body "x" with seven bytes of padding, and the end of the body.
   */
  lemma RequestForX(flags: byte)
    ensures var data := [1, 1, 0, 1, 0, 8, 0, 0, 0, 1, flags, 0, 0, 0, 0, 0]
                        + ([1, 4, 0, 1, 0, 4, 4, 0, 1, 1, 65, 66, 0, 0, 0, 0]
                           + ([1, 4, 0, 1, 0, 0, 0, 0]
                              + ([1, 5, 0, 1, 0, 1, 7, 0, 120, 0, 0, 0, 0, 0, 0, 0]
                                 + ([1, 5, 0, 1, 0, 0, 0, 0] + []))));
            OnMessage(Conn(State(false, false, [], [], map[]), [], [], 0), data)
            == Conn(State(false, flags == 1, [], [], map[]), [], [Call(map[[65] := [66]], [120])],
                    if flags == 1 then 0 else 1)
  {
    SmallRequestBytes(flags);
    SmallRequestIsApplied(flags);
    ParseRecords(State(false, false, [], [], map[]), SmallRequest(flags));
    assert [] + EncodeAll(SmallRequest(flags)) == EncodeAll(SmallRequest(flags));
  }

  // ---------- The codec over its buffers ----------

  class Codec {
    var gotRequest: bool
    var keepConn: bool
    const stdin: B.Buffer
    const paramsStream: B.Buffer
    var params: map<bytes, bytes>

    ghost predicate Valid()
      reads this, stdin, paramsStream
    {
      stdin != paramsStream && stdin.Valid() && paramsStream.Valid()
    }

    ghost function Abs(): State
      reads this, stdin, paramsStream
      requires Valid()
    {
      State(gotRequest, keepConn, stdin.Contents(), paramsStream.Contents(), params)
    }

    constructor ()
      ensures Valid() && fresh(stdin) && fresh(paramsStream) && Ready(Abs())
    {
      gotRequest, keepConn, params := false, false, map[];
      stdin := new B.Buffer();
      paramsStream := new B.Buffer();
    }

    method TakeLength() returns (len: uint32)
      requires Valid()
      modifies paramsStream
      ensures Valid() && (len, paramsStream.Contents()) == ReadLen(old(paramsStream.Contents()))
    {
      if paramsStream.ReadableBytes() >= 1 {
        var first := Unsigned8(paramsStream.PeekInt8());
        if first >= 128 {
          if paramsStream.ReadableBytes() >= 4 {
            var x := paramsStream.ReadInt32();
            len := Low31(x);
          } else {
            len := NO_LENGTH;
          }
        } else {
          len := paramsStream.ReadInt8();
        }
      } else {
        len := NO_LENGTH;
      }
    }

    method StorePair(nameLen: nat, valueLen: nat)
      requires Valid() && nameLen + valueLen <= paramsStream.ReadableBytes()
      modifies `params, paramsStream
      ensures Valid() && paramsStream.Contents() == old(paramsStream.Contents())[nameLen + valueLen..]
      ensures var s := old(paramsStream.Contents());
              params == old(params)[s[..nameLen] := s[nameLen..nameLen + valueLen]]
    {
      ghost var s := paramsStream.Contents();
      assert s[nameLen..][valueLen..] == s[nameLen + valueLen..];
      assert s[nameLen..][..valueLen] == s[nameLen..nameLen + valueLen];
      var name := paramsStream.RetrieveAsString(nameLen);
      var value := paramsStream.RetrieveAsString(valueLen);
      params := params[name := value];
    }

    method TakePair() returns (ok: bool)
      requires Valid()
      modifies `params, paramsStream
      ensures Valid()
      ensures ParamsResult(ok, paramsStream.Contents(), params)
              == ParsePair(old(paramsStream.Contents()), old(params))
    {
      var nameLen := TakeLength();
      if nameLen == NO_LENGTH {
        return false;
      }
      ghost var s1 := paramsStream.Contents();
      var valueLen := TakeLength();
      if valueLen == NO_LENGTH {
        return false;
      }
      if paramsStream.ReadableBytes() >= SumLength(nameLen, valueLen) {
        LengthsDoNotWrap(old(paramsStream.Contents()), s1);
        StorePair(nameLen, valueLen);
        return true;
      } else {
        return false;
      }
    }

    /** parseAllParams. */
    method TakeAllParams() returns (ok: bool)
      requires Valid()
      modifies `params, paramsStream
      ensures Valid()
      ensures ParamsResult(ok, paramsStream.Contents(), params)
              == ParseAllParams(old(paramsStream.Contents()), old(params))
    {
      while paramsStream.ReadableBytes() > 0
        invariant Valid()
        invariant ParseAllParams(paramsStream.Contents(), params)
                  == ParseAllParams(old(paramsStream.Contents()), old(params))
        decreases paramsStream.ReadableBytes()
      {
        ok := TakePair();
        if !ok {
          return false;
        }
      }
      return true;
    }

    method HandleRecord(kind: byte, content: bytes)
      requires Valid()
      modifies `gotRequest, `keepConn, `params, stdin, paramsStream
      ensures Valid() && Abs() == OnRecord(old(Abs()), kind, content)
    {
      if kind == BEGIN_REQUEST {
        if |content| >= HEADER_LEN && Read16(content) == RESPONDER {
          keepConn := content[2] == KEEP_CONN;
        }
      } else if kind == PARAMS {
        if |content| > 0 {
          paramsStream.Append(content);
        } else {
          var ok := TakeAllParams();
        }
      } else if kind == STDIN {
        if |content| > 0 {
          stdin.Append(content);
        } else {
          gotRequest := true;
        }
      }
    }

    /** parseRequest. */
    method ParseRequest(buf: B.Buffer)
      requires Valid() && buf.Valid() && buf != stdin && buf != paramsStream
      modifies `gotRequest, `keepConn, `params, stdin, paramsStream, buf
      ensures Valid() && buf.Valid()
      ensures (Abs(), buf.Contents()) == Parse(old(Abs()), old(buf.Contents()))
    {
      while buf.ReadableBytes() >= HEADER_LEN
        invariant Valid() && buf.Valid()
        invariant Parse(Abs(), buf.Contents()) == Parse(old(Abs()), old(buf.Contents()))
        decreases buf.ReadableBytes()
      {
        var data := buf.Contents();
        var total := TotalLength(data);
        if buf.ReadableBytes() >= total {
          HandleRecord(data[1], Content(data));
          buf.Retrieve(total);
        } else {
          break;
        }
      }
    }

    /** onMessage: the callback's arguments if it ran, and whether the connection is to be shut down. */
    method HandleMessage(buf: B.Buffer, ghost c: Conn, ghost chunk: bytes) returns (call: Option<Call>, shutdown: bool)
      requires Valid() && buf.Valid() && buf != stdin && buf != paramsStream
      requires Abs() == c.state && buf.Contents() == c.input + chunk
      modifies this, stdin, paramsStream, buf
      ensures Valid() && buf.Valid()
      ensures var next := OnMessage(c, chunk);
              && Abs() == next.state && buf.Contents() == next.input
              && next.calls == c.calls + (if call.Some? then [call.value] else [])
              && next.shutdowns == c.shutdowns + (if shutdown then 1 else 0)
    {
      ParseRequest(buf);
      call, shutdown := None, false;
      if gotRequest {
        call := Some(Call(params, stdin.Contents()));
        stdin.RetrieveAll();
        paramsStream.RetrieveAll();
        params := map[];
        gotRequest := false;
        shutdown := !keepConn;
      }
    }
  }
}
