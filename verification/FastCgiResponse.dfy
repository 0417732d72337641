/**
  FastCgiCodec::respond: the response writer, proved to emit a well-formed stdout
  stream that any FastCGI record decoder turns back into the output.
 */
module FastCgiResponse {
  import opened Bytes
  import opened FastCgiWire
  import B = Buffer

  const MAX_LENGTH := 0xffff

  /** The bytes that bring a length up to a multiple of eight: `-length & 7`. */
  function PadLength(length: nat): (p: nat)
    ensures p < 8 && (length + p) % 8 == 0
  {
    (8 - length % 8) % 8
  }

  function Zeros(n: nat): (z: bytes)
    ensures |z| == n
  {
    seq(n, _ => 0)
  }

  function Ascii(s: string): (b: bytes)
    ensures |b| == |s|
  {
    seq(|s|, i requires 0 <= i < |s| => (s[i] as int) % TWO_8)
  }

  /** What is sent when the backend produced nothing. */
  function EmptyResult(): (b: bytes)
    ensures |b| > 0
  {
    Ascii("Content-Type: text/html; charset=UTF-8\r\n") + Ascii("Content-Length: 13\r\n\r\n") + Ascii("Empty Result!")
  }

  ghost function StdoutRecord(content: bytes): (r: Record)
    requires |content| <= MAX_LENGTH
    ensures WellFormed(r) && |Encode(r)| % 8 == 0
  {
    Record(VERSION, STDOUT, 1, content, Zeros(PadLength(|content|)), 0)
  }

  ghost function EndRecord(): (r: Record)
    ensures WellFormed(r) && |Encode(r)| == 16
  {
    Record(VERSION, END_REQUEST, 1, Zeros(8), [], 0)
  }

  /** The stdout records for an output: full ones, then the rest if there is any. */
  ghost function StdoutRecords(out: bytes): (records: seq<Record>)
    ensures AllWellFormed(records)
  {
    if out == [] then []
    else if |out| <= MAX_LENGTH then [StdoutRecord(out)]
    else [StdoutRecord(out[..MAX_LENGTH])] + StdoutRecords(out[MAX_LENGTH..])
  }

  /** The whole stdout stream, closed by an empty record. */
  ghost function StdoutStream(out: bytes): (records: seq<Record>)
    ensures AllWellFormed(records)
  {
    StdoutRecords(out) + [StdoutRecord([])]
  }

  ghost function Response(out: bytes): (records: seq<Record>)
    ensures AllWellFormed(records)
  {
    StdoutStream(out) + [EndRecord()]
  }

  // ---------- What a response is ----------

  lemma {:induction false} StdoutCarriesOutput(out: bytes)
    ensures var records := StdoutRecords(out);
            && Contents(records) == out
            && (forall i | 0 <= i < |records| ::
                  && records[i].kind == STDOUT && 1 <= |records[i].content| <= MAX_LENGTH
                  && |Encode(records[i])| % 8 == 0)
    decreases |out|
  {
    if out == [] {
    } else if |out| <= MAX_LENGTH {
      assert Contents([StdoutRecord(out)]) == out + Contents([]);
    } else {
      StdoutCarriesOutput(out[MAX_LENGTH..]);
      assert out == out[..MAX_LENGTH] + out[MAX_LENGTH..];
    }
  }

  lemma {:induction false} ContentsAppend(a: seq<Record>, b: seq<Record>)
    ensures Contents(a + b) == Contents(a) + Contents(b)
  {
    if a == [] {
      assert a + b == b;
    } else {
      assert (a + b)[1..] == a[1..] + b;
      ContentsAppend(a[1..], b);
    }
  }

  lemma StdoutStreamIsStream(out: bytes)
    ensures IsStream(StdoutStream(out), STDOUT, out)
  {
    var records := StdoutRecords(out);
    StdoutCarriesOutput(out);
    ContentsAppend(records, [StdoutRecord([])]);
    assert Contents([StdoutRecord([])]) == [] + Contents([]);
    forall i | 0 <= i < |StdoutStream(out)|
      ensures StdoutStream(out)[i].kind == STDOUT
      ensures StdoutStream(out)[i].content == [] <==> i == |StdoutStream(out)| - 1
    {
      if i < |records| {
        assert StdoutStream(out)[i] == records[i];
      }
    }
  }

  /** Every record of a response takes a multiple of eight bytes. */
  lemma ResponseRecord(out: bytes, i: nat)
    requires i < |Response(out)|
    ensures |Response(out)[i].content| <= MAX_LENGTH && |Encode(Response(out)[i])| % 8 == 0
  {
    var records, end := StdoutRecords(out), StdoutRecord([]);
    StdoutCarriesOutput(out);
    assert Response(out) == records + [end, EndRecord()];
    if i < |records| {
      assert Response(out)[i] == records[i];
    } else if i == |records| {
      assert Response(out)[i] == end;
    } else {
      assert Response(out)[i] == EndRecord();
    }
  }

  /**
    The response to any output decodes into a stdout stream that spells out exactly the output in
    non-empty records of at most 65535 bytes, closed by one empty record, and one end-request record
    with an 8-byte body; every record takes a multiple of eight bytes.
   */
  lemma ResponseRoundTrip(out: bytes)
    ensures Decode(EncodeAll(Response(out))) == Some(StdoutStream(out) + [EndRecord()])
    ensures IsStream(StdoutStream(out), STDOUT, out)
    ensures EndRecord().kind == END_REQUEST && |EndRecord().content| == 8
    ensures forall i | 0 <= i < |Response(out)| ::
              |Response(out)[i].content| <= MAX_LENGTH && |Encode(Response(out)[i])| % 8 == 0
  {
    DecodeInvertsEncode(Response(out));
    StdoutStreamIsStream(out);
    forall i | 0 <= i < |Response(out)|
      ensures |Response(out)[i].content| <= MAX_LENGTH && |Encode(Response(out)[i])| % 8 == 0
    {
      ResponseRecord(out, i);
    }
  }

  lemma OneMorePiece(length: nat)
    requires length > 65535
    ensures (length - 65535 + 65534) / 65535 + 1 == (length + 65534) / 65535
  {
    assert length + 65534 == 65535 * ((length - 1) / 65535 + 1) + (length - 1) % 65535;
  }

  lemma {:induction false} StdoutRecordCount(out: bytes)
    ensures |StdoutRecords(out)| == (|out| + 65534) / 65535
    decreases |out|
  {
    if out == [] {
    } else if |out| <= MAX_LENGTH {
    } else {
      OneMorePiece(|out|);
      StdoutRecordCount(out[MAX_LENGTH..]);
    }
  }

  /** How the output is cut: full records of 65535 bytes, then the rest. */
  ghost function Piece(out: bytes, i: nat): bytes
    requires 65535 * i <= |out|
  {
    out[65535 * i..if 65535 * (i + 1) <= |out| then 65535 * (i + 1) else |out|]
  }

  lemma PieceOfRest(out: bytes, i: nat)
    requires |out| > 65535 && i > 0 && 65535 * i <= |out|
    ensures Piece(out[65535..], i - 1) == Piece(out, i)
  {
  }

  lemma {:induction false} StdoutRecordAt(out: bytes, i: nat)
    requires i < |StdoutRecords(out)|
    ensures 65535 * i < |out| && |Piece(out, i)| <= MAX_LENGTH && StdoutRecords(out)[i] == StdoutRecord(Piece(out, i))
    decreases |out|
  {
    if |out| <= MAX_LENGTH {
      assert Piece(out, 0) == out;
    } else if i == 0 {
      assert Piece(out, 0) == out[..MAX_LENGTH];
    } else {
      StdoutRecordAt(out[MAX_LENGTH..], i - 1);
      PieceOfRest(out, i);
    }
  }

  /** The fields of a record of the response that do not depend on what it carries. */
  ghost predicate IsPlain(r: Record) {
    && r.version == 1 && r.id == 1 && r.reserved == 0
    && |r.padding| < 8 && (|r.content| + |r.padding|) % 8 == 0 && forall k | 0 <= k < |r.padding| :: r.padding[k] == 0
  }

  lemma StdoutIsPlain(content: bytes)
    requires |content| <= 65535
    ensures var r := StdoutRecord(content); IsPlain(r) && r.kind == 6 && r.content == content
  {
  }

  lemma EndIsPlain()
    ensures var r := EndRecord(); IsPlain(r) && r.kind == 3 && r.content == [0, 0, 0, 0, 0, 0, 0, 0]
  {
  }

  /** One record of a response to an output of `n` pieces. */
  ghost predicate IsRecordOf(out: bytes, n: nat, i: nat, r: Record) {
    && IsPlain(r)
    && r.kind == (if i <= n then 6 else 3)
    && (i < n ==> 65535 * i < |out| && r.content == Piece(out, i))
    && (i == n ==> r.content == [])
    && (i > n ==> r.content == [0, 0, 0, 0, 0, 0, 0, 0])
  }

  lemma ResponseRecordAt(out: bytes, i: nat)
    requires i < |Response(out)|
    ensures |Response(out)| == (|out| + 65534) / 65535 + 2
    ensures IsRecordOf(out, (|out| + 65534) / 65535, i, Response(out)[i])
  {
    var records, n := StdoutRecords(out), (|out| + 65534) / 65535;
    StdoutRecordCount(out);
    if i < n {
      StdoutRecordAt(out, i);
      StdoutIsPlain(records[i].content);
      assert Response(out)[i] == records[i];
    } else if i == n {
      StdoutIsPlain([]);
    } else {
      EndIsPlain();
    }
  }

  /**
    Record by record, in the numbers of the specification: version 1 and request id 1 throughout, padding of
    zeros; stdout records (type 6) with the output in pieces of 65535 bytes, an empty one, and an end-request
    record (type 3) whose body is eight zero bytes.
   */
  lemma ResponseIsWrittenOut(out: bytes)
    ensures Decode(EncodeAll(Response(out))).Some?
    ensures var records, n := Decode(EncodeAll(Response(out))).value, (|out| + 65534) / 65535;
            |records| == n + 2 && forall i | 0 <= i < n + 2 :: IsRecordOf(out, n, i, records[i])
  {
    DecodeInvertsEncode(Response(out));
    ResponseRecordAt(out, 0);
    forall i | 0 <= i < |Response(out)|
      ensures IsRecordOf(out, (|out| + 65534) / 65535, i, Response(out)[i])
    {
      ResponseRecordAt(out, i);
    }
  }

  /** The response to the output "x", byte by byte. */
  lemma ResponseToX()
    ensures EncodeAll(Response([120]))
            == [1, 6, 0, 1, 0, 1, 7, 0, 120, 0, 0, 0, 0, 0, 0, 0]
               + [1, 6, 0, 1, 0, 0, 0, 0]
               + [1, 3, 0, 1, 0, 8, 0, 0, 0, 0, 0, 0, 0, 0, 0, 0]
  {
    var out: bytes := [120];
    ResponseBytes(out);
    OneRecord(out);
    assert Zeros(7) == [0, 0, 0, 0, 0, 0, 0] && Zeros(0) == [] && Zeros(8) == [0, 0, 0, 0, 0, 0, 0, 0];
    assert Encode(StdoutRecord(out)) == [1, 6, 0, 1, 0, 1, 7, 0, 120, 0, 0, 0, 0, 0, 0, 0];
    assert Encode(StdoutRecord([])) == [1, 6, 0, 1, 0, 0, 0, 0];
    assert Encode(EndRecord()) == [1, 3, 0, 1, 0, 8, 0, 0, 0, 0, 0, 0, 0, 0, 0, 0];
  }

  function Decimal(n: nat): string {
    if n < 10 then [('0' as int + n) as char] else Decimal(n / 10) + [('0' as int + n % 10) as char]
  }

  lemma AsciiConcat(a: string, b: string)
    ensures Ascii(a + b) == Ascii(a) + Ascii(b)
  {
  }

  /** The fixed page announces the length of what follows its blank line. */
  lemma EmptyResultHasItsLength()
    ensures var body := "Empty Result!";
            EmptyResult() == Ascii("Content-Type: text/html; charset=UTF-8\r\n")
                             + Ascii("Content-Length: " + Decimal(|body|) + "\r\n\r\n") + Ascii(body)
  {
    assert Decimal(13) == Decimal(1) + "3" == "13";
    assert "Content-Length: " + "13" + "\r\n\r\n" == "Content-Length: 13\r\n\r\n";
  }

  // ---------- The writer ----------

  /** One stdout record with its padding. */
  method AppendStdout(response: B.Buffer, content: bytes)
    requires response.Valid() && |content| <= MAX_LENGTH
    modifies response
    ensures response.Valid()
    ensures response.Contents() == old(response.Contents()) + Encode(StdoutRecord(content))
  {
    var padding := PadLength(|content|);
    response.Append(Header(VERSION, STDOUT, 1, |content|, padding, 0));
    response.Append(content);
    response.Append(Zeros(padding));
    ghost var h := Header(VERSION, STDOUT, 1, |content|, padding, 0);
    assert old(response.Contents()) + h + content + Zeros(padding)
        == old(response.Contents()) + (h + content + Zeros(padding));
  }

  method EndStdout(response: B.Buffer)
    requires response.Valid()
    modifies response
    ensures response.Valid()
    ensures response.Contents() == old(response.Contents()) + Encode(StdoutRecord([]))
  {
    response.Append(Header(VERSION, STDOUT, 1, 0, 0, 0));
    assert Encode(StdoutRecord([])) == Header(VERSION, STDOUT, 1, 0, 0, 0);
  }

  method EndRequest(response: B.Buffer)
    requires response.Valid()
    modifies response
    ensures response.Valid()
    ensures response.Contents() == old(response.Contents()) + Encode(EndRecord())
  {
    response.Append(Header(VERSION, END_REQUEST, 1, HEADER_LEN, 0, 0));
    response.AppendInt32(0);
    response.AppendInt32(0);
    assert BigEndian32(Unsigned32(0)) + BigEndian32(Unsigned32(0)) == Zeros(8);
    ghost var h := Header(VERSION, END_REQUEST, 1, HEADER_LEN, 0, 0);
    assert Encode(EndRecord()) == h + BigEndian32(Unsigned32(0)) + BigEndian32(Unsigned32(0));
  }

  ghost function StdoutBytes(out: bytes): bytes {
    EncodeAll(StdoutRecords(out))
  }

  lemma OneRecord(out: bytes)
    requires 0 < |out| <= MAX_LENGTH
    ensures StdoutBytes(out) == Encode(StdoutRecord(out))
  {
    assert EncodeAll([StdoutRecord(out)]) == Encode(StdoutRecord(out)) + EncodeAll([]);
  }

  lemma FullRecord(out: bytes)
    requires |out| >= MAX_LENGTH
    ensures StdoutBytes(out) == Encode(StdoutRecord(out[..MAX_LENGTH])) + StdoutBytes(out[MAX_LENGTH..])
  {
    if |out| == MAX_LENGTH {
      OneRecord(out);
      assert out[..MAX_LENGTH] == out && out[MAX_LENGTH..] == [];
    } else {
      var records := StdoutRecords(out);
      assert records[1..] == StdoutRecords(out[MAX_LENGTH..]);
    }
  }

  /** A full record in front of `rest` brings the response one step nearer to `goal`. */
  method AppendFull(response: B.Buffer, content: bytes, ghost rest: bytes, ghost goal: bytes)
    requires response.Valid() && |rest| >= MAX_LENGTH && content == rest[..MAX_LENGTH]
    requires response.Contents() + StdoutBytes(rest) == goal
    modifies response
    ensures response.Valid() && response.Contents() + StdoutBytes(rest[MAX_LENGTH..]) == goal
  {
    FullRecord(rest);
    Assoc(response.Contents(), Encode(StdoutRecord(content)), StdoutBytes(rest[MAX_LENGTH..]));
    AppendStdout(response, content);
  }

  /** The last record, which takes everything that is left. */
  method AppendLast(response: B.Buffer, content: bytes)
    requires response.Valid() && 0 < |content| <= MAX_LENGTH
    modifies response
    ensures response.Valid() && response.Contents() == old(response.Contents()) + StdoutBytes(content)
  {
    OneRecord(content);
    AppendStdout(response, content);
  }

  /** The stdout part of respond, with its three places where a record is written. */
  method AppendOutput(out: bytes, response: B.Buffer)
    requires response.Valid() && out != []
    modifies response
    ensures response.Valid()
    ensures response.Contents() == old(response.Contents()) + StdoutBytes(out)
  {
    if |out| <= MAX_LENGTH {
      AppendLast(response, out);
    } else {
      ghost var goal := response.Contents() + StdoutBytes(out);
      assert out[0..] == out;
      var numSubstrings := |out| / MAX_LENGTH;
      for i := 0 to numSubstrings
        invariant response.Valid() && i * MAX_LENGTH <= |out|
        invariant response.Contents() + StdoutBytes(out[i * MAX_LENGTH..]) == goal
      {
        ghost var rest := out[i * MAX_LENGTH..];
        var outSubString := out[i * MAX_LENGTH..i * MAX_LENGTH + MAX_LENGTH];
        assert outSubString == rest[..MAX_LENGTH] && rest[MAX_LENGTH..] == out[(i + 1) * MAX_LENGTH..];
        AppendFull(response, outSubString, rest, goal);
      }
      if |out| % MAX_LENGTH != 0 {
        AppendLast(response, out[MAX_LENGTH * numSubstrings..]);
      } else {
        assert out[numSubstrings * MAX_LENGTH..] == [];
        assert StdoutBytes([]) == [];
      }
    }
  }

  lemma ResponseBytes(out: bytes)
    ensures EncodeAll(Response(out)) == StdoutBytes(out) + Encode(StdoutRecord([])) + Encode(EndRecord())
  {
    EncodeAllAppend(StdoutRecords(out), [StdoutRecord([])]);
    EncodeAllAppend(StdoutStream(out), [EndRecord()]);
    assert EncodeAll([StdoutRecord([])]) == Encode(StdoutRecord([])) + EncodeAll([]);
    assert EncodeAll([EndRecord()]) == Encode(EndRecord()) + EncodeAll([]);
  }

  /** respond: an empty output is replaced by a fixed page. */
  method Respond(out: bytes, response: B.Buffer) returns (sent: bytes)
    requires response.Valid()
    modifies response
    ensures response.Valid()
    ensures sent == if out == [] then EmptyResult() else out
    ensures response.Contents() == old(response.Contents()) + EncodeAll(Response(sent))
  {
    sent := if out == [] then EmptyResult() else out;
    ghost var was, stdout := response.Contents(), StdoutBytes(sent);
    AppendOutput(sent, response);
    EndStdout(response);
    EndRequest(response);
    ResponseBytes(sent);
    Assoc(was, stdout, Encode(StdoutRecord([])));
    Assoc(was, stdout + Encode(StdoutRecord([])), Encode(EndRecord()));
  }
}
