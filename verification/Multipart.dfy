/**
  The multipart/form-data branch of cgicc's parseFormInput with parseMIME, proved to
  invert the rendering of fields and files that section 5.1.1 of RFC 2046 and
  section 4 of RFC 7578 prescribe.
 */
module Multipart {
  import opened StringSearch
  import opened MultipartHeader
  import opened UrlForm

  datatype File = File(name: string, filename: string, contentType: string, data: string)

  datatype Form = Form(entries: seq<Entry>, files: seq<File>)

  /** parseMIME throws when a part has no blank line; everything stored before stays stored. */
  datatype Outcome = Parsed(form: Form) | Malformed(form: Form)

  // ---------- What the parser does ----------

  /** `size - from - 2` in size_t, as the count of a substr that starts at `from`: it wraps below two. */
  function ValueEnd(size: nat, from: nat): (end: nat)
    requires from <= size <= MAX_SIZE
    ensures from <= end <= size
  {
    var count := if size - from >= 2 then size - from - 2 else size - from - 2 + TWO_64;
    if from + count > size then size else from + count
  }

  ghost function Store(form: Form, h: Header, value: string): Form {
    if h.filename == "" then form.(entries := form.entries + [Entry(h.name, value)])
    else form.(files := form.files + [File(h.name, h.filename, h.contentType, value)])
  }

  /** parseMIME. */
  ghost function ParseMime(form: Form, part: string): Outcome
    requires |part| <= MAX_SIZE
  {
    var headLimit := Find(part, BLANK, 0);
    if headLimit == NPOS then Malformed(form)
    else
      var valueStart := headLimit + |BLANK|;
      Parsed(Store(form, ParseHeader(part[..valueStart]), part[valueStart..ValueEnd(|part|, valueStart)]))
  }

  /** What the loop over the separators cuts out, and the piece in front of the closing separator. */
  ghost function Pieces(data: string, sep1: string, sep2: string, oldPos: nat): (pieces: seq<string>)
    requires |data| <= MAX_SIZE && sep1 != ""
    ensures Short(pieces)
    decreases |data| - oldPos
  {
    var pos := Find(data, sep1, oldPos);
    if pos == NPOS then
      var last := Find(data, sep2, oldPos);
      if last == NPOS then [] else [data[oldPos..last]]
    else [data[oldPos..pos]] + Pieces(data, sep1, sep2, pos + |sep1|)
  }

  ghost predicate Short(pieces: seq<string>) {
    forall i | 0 <= i < |pieces| :: |pieces[i]| <= MAX_SIZE
  }

  /** parseMIME on each piece in turn, up to the first that it rejects. */
  ghost function ParsePieces(form: Form, pieces: seq<string>): Outcome
    requires Short(pieces)
    decreases |pieces|
  {
    if pieces == [] then Parsed(form)
    else
      var r := ParseMime(form, pieces[0]);
      if r.Malformed? then r else ParsePieces(r.form, pieces[1..])
  }

  function Sep1(boundary: string): (s: string)
    ensures |s| == |boundary| + 4
  {
    "--" + boundary + "\r\n"
  }

  function Sep2(boundary: string): (s: string)
    ensures |s| == |boundary| + 6
  {
    "--" + boundary + "--\r\n"
  }

  /** size_t addition: adding to npos wraps around. */
  function AddSize(a: nat, b: nat): nat {
    (a + b) % TWO_64
  }

  const BOUNDARY := "boundary="
  const MULTIPART_TYPE := "multipart/form-data"

  /** Everything behind "boundary=". Without it, npos wraps to an index inside the type's own name. */
  ghost function BoundaryOf(contentType: string): string
    requires |MULTIPART_TYPE| <= |contentType| <= MAX_SIZE
  {
    var from := AddSize(Find(contentType, BOUNDARY, 0), |BOUNDARY|);
    contentType[from..]
  }

  /** The body of a request whose boundary is known. */
  ghost function ParseWith(data: string, boundary: string): Outcome
    requires |data| <= MAX_SIZE
  {
    var sep1 := Sep1(boundary);
    if data == "" then Parsed(Form([], []))
    else ParsePieces(Form([], []), Pieces(data, sep1, Sep2(boundary), AddSize(Find(data, sep1, 0), |sep1|)))
  }

  /** The multipart branch of parseFormInput. */
  ghost function ParseBody(data: string, contentType: string): Outcome
    requires |data| <= MAX_SIZE && |MULTIPART_TYPE| <= |contentType| <= MAX_SIZE - 6
  {
    ParseWith(data, BoundaryOf(contentType))
  }

  // ---------- Rendering ----------

  datatype Part =
    | Field(name: string, value: string)
    | Upload(name: string, filename: string, contentType: string, value: string)

  ghost predicate Renderable(p: Part, boundary: string) {
    PlainPart(p) && forall i :: !Occurs(Body(p), "--" + boundary, i)
  }

  ghost function HeaderText(p: Part): string {
    match p
    case Field(name, _) => FieldHeader(name)
    case Upload(name, filename, contentType, _) => FileHeader(name, filename, contentType)
  }

  ghost function Body(p: Part): string {
    HeaderText(p) + p.value + "\r\n"
  }

  ghost function Bodies(parts: seq<Part>): (bodies: seq<string>)
    ensures |bodies| == |parts|
  {
    seq(|parts|, i requires 0 <= i < |parts| => Body(parts[i]))
  }

  /** Everything behind the first delimiter. */
  ghost function Tail(boundary: string, bodies: seq<string>): string
    requires bodies != []
  {
    if |bodies| == 1 then bodies[0] + Sep2(boundary)
    else bodies[0] + Sep1(boundary) + Tail(boundary, bodies[1..])
  }

  ghost function Render(boundary: string, parts: seq<Part>): string
    requires parts != []
  {
    Sep1(boundary) + Tail(boundary, Bodies(parts))
  }

  ghost function StorePart(form: Form, p: Part): Form {
    match p
    case Field(name, value) => form.(entries := form.entries + [Entry(name, value)])
    case Upload(name, filename, contentType, value) =>
      form.(files := form.files + [File(name, filename, contentType, value)])
  }

  /** The fields and the files, each in order. */
  ghost function Collect(form: Form, parts: seq<Part>): Form
    decreases |parts|
  {
    if parts == [] then form else Collect(StorePart(form, parts[0]), parts[1..])
  }

  /** A boundary that can be told from the text around it. */
  ghost predicate GoodBoundary(boundary: string) {
    OneLine(boundary) && boundary + "--" != "--" + boundary
  }

  // ---------- One part ----------

  /** What a header can carry. */
  ghost predicate PlainPart(p: Part) {
    match p
    case Field(name, _) => Quotable(name)
    case Upload(name, filename, contentType, _) =>
      UploadName(name) && UploadFilename(filename) && OneLine(contentType)
  }

  /** parseMIME takes the value to end two characters before the end of the text, whatever these are. */
  lemma TextIsParsed(form: Form, p: Part, end: string)
    requires PlainPart(p) && |end| == 2 && |HeaderText(p) + p.value + end| <= MAX_SIZE
    ensures ParseMime(form, HeaderText(p) + p.value + end) == Parsed(StorePart(form, p))
  {
    var h, part := HeaderText(p), HeaderText(p) + p.value + end;
    assert part == h + (p.value + end);
    match p {
      case Field(name, _) =>
        FieldHeaderEnds(name, p.value + end);
        FieldHeaderIsParsed(name);
      case Upload(name, filename, contentType, _) =>
        FileHeaderEnds(name, filename, contentType, p.value + end);
        FileHeaderIsParsed(name, filename, contentType);
    }
    var valueStart := |h|;
    assert part[..valueStart] == h;
    assert part[valueStart..|part| - 2] == p.value;
  }

  lemma PartIsParsed(form: Form, p: Part, boundary: string)
    requires Renderable(p, boundary) && |Body(p)| <= MAX_SIZE
    ensures ParseMime(form, Body(p)) == Parsed(StorePart(form, p))
  {
    TextIsParsed(form, p, "\r\n");
  }

  // ---------- Delimiters are found where they stand ----------

  /** A text that ends a line and does not contain `dash`. */
  ghost predicate Undivided(body: string, dash: string) {
    body != "" && body[|body| - 1] == '\n' && '\n' !in dash && forall i :: !Occurs(body, dash, i)
  }

  lemma BodyIsUndivided(p: Part, boundary: string)
    requires Renderable(p, boundary) && OneLine(boundary)
    ensures Undivided(Body(p), "--" + boundary)
  {
  }

  ghost predicate StandsAt(data: string, start: nat, body: string) {
    start + |body| <= |data| && data[start..start + |body|] == body
  }

  /** What starts and ends inside a piece of `data` occurs in that piece. */
  lemma OccursInside(body: string, dash: string, data: string, start: nat, suffix: string, i: nat)
    requires StandsAt(data, start, body) && start <= i && i + |dash| <= start + |body|
    requires Occurs(data, dash + suffix, i)
    ensures Occurs(body, dash, i - start)
  {
    var pat := dash + suffix;
    SliceOfSlice(data, i, i + |pat|, i, i + |dash|);
    SliceOfSlice(data, start, start + |body|, i, i + |dash|);
    assert pat[..|dash|] == dash;
  }

  /** No delimiter starts inside a part, not even one that reaches past its end. */
  lemma NoDelimiterInside(body: string, dash: string, data: string, start: nat, suffix: string, i: nat)
    requires Undivided(body, dash) && StandsAt(data, start, body) && start <= i < start + |body|
    ensures !Occurs(data, dash + suffix, i)
  {
    var pat, end := dash + suffix, start + |body|;
    assert data[end - 1] == data[start..end][|body| - 1] == '\n';
    if Occurs(data, pat, i) {
      if i + |dash| <= end {
        OccursInside(body, dash, data, start, suffix, i);
      } else {
        OccursAt(data, pat, i, end - 1 - i);
      }
    }
  }

  /** The short delimiter does not occur in the closing one. */
  lemma NoDelimiterInTerminator(boundary: string, o: nat)
    requires GoodBoundary(boundary)
    ensures !Occurs(Sep2(boundary), Sep1(boundary), o)
  {
    var sep1, sep2, n := Sep1(boundary), Sep2(boundary), |boundary|;
    if o < 2 {
      assert sep2[o..o + |sep1|][n + 2] == '-';
    } else if o == 2 {
      assert sep2[2..2 + |sep1|] == boundary + "--" + "\r\n";
      assert sep2[2..2 + |sep1|][..n + 2] == boundary + "--";
      assert sep1[..n + 2] == "--" + boundary;
    }
  }

  /** Behind a part and in front of the closing delimiter there is no further short delimiter. */
  lemma NoFurtherPart(body: string, boundary: string, data: string, start: nat, i: nat)
    requires Undivided(body, "--" + boundary) && GoodBoundary(boundary) && start <= i
    requires StandsAt(data, start, body) && data[start + |body|..] == Sep2(boundary)
    ensures !Occurs(data, Sep1(boundary), i)
  {
    var end := start + |body|;
    if i < end {
      NoDelimiterInside(body, "--" + boundary, data, start, "\r\n", i);
    } else if i + |Sep1(boundary)| <= |data| {
      NoDelimiterInTerminator(boundary, i - end);
      SliceOfSlice(data, end, |data|, i, i + |Sep1(boundary)|);
      assert data[end..|data|] == data[end..];
    }
  }

  /** The delimiter behind a part is the next one that the parser finds. */
  lemma DelimiterIsFound(body: string, dash: string, data: string, start: nat, suffix: string)
    requires Undivided(body, dash) && |data| <= MAX_SIZE && StandsAt(data, start, body)
    requires Occurs(data, dash + suffix, start + |body|)
    ensures Find(data, dash + suffix, start) == start + |body|
  {
    var pat := dash + suffix;
    forall i: nat | start <= i < start + |body|
      ensures !Occurs(data, pat, i)
    {
      NoDelimiterInside(body, dash, data, start, suffix, i);
    }
    FindIs(data, pat, start, start + |body|);
  }

  // ---------- Main results ----------

  /** Where the parser finds the two delimiters from the start of the last part. */
  lemma LastDelimiters(body: string, boundary: string, data: string, start: nat)
    requires Undivided(body, "--" + boundary) && GoodBoundary(boundary) && |data| <= MAX_SIZE
    requires StandsAt(data, start, body) && data[start + |body|..] == Sep2(boundary)
    ensures Find(data, Sep1(boundary), start) == NPOS && Find(data, Sep2(boundary), start) == start + |body|
  {
    var end := start + |body|;
    forall i: nat | start <= i
      ensures !Occurs(data, Sep1(boundary), i)
    {
      NoFurtherPart(body, boundary, data, start, i);
    }
    FindIs(data, Sep1(boundary), start, NPOS);
    assert data[end..end + |Sep2(boundary)|] == Sep2(boundary);
    DelimiterIsFound(body, "--" + boundary, data, start, "--\r\n");
  }

  /** Pieces behind each other stand where their lengths put them. */
  lemma LastGeometry(data: string, start: nat, body: string, sep2: string)
    requires start <= |data| && data[start..] == body + sep2
    ensures StandsAt(data, start, body) && data[start + |body|..] == sep2
  {
    assert data[start..][..|body|] == body && data[start..][|body|..] == sep2;
  }

  lemma Geometry(data: string, start: nat, body: string, sep1: string, tail: string)
    requires start <= |data| && data[start..] == body + sep1 + tail
    ensures start + |body| + |sep1| <= |data|
    ensures StandsAt(data, start, body) && Occurs(data, sep1, start + |body|)
    ensures data[start + |body| + |sep1|..] == tail
  {
    var here := data[start..];
    assert here[..|body|] == body && here[|body|..|body| + |sep1|] == sep1 && here[|body| + |sep1|..] == tail;
    SliceOfSlice(data, start, |data|, start + |body|, start + |body| + |sep1|);
    assert data[start..|data|] == here;
  }

  /** One body in front of the closing delimiter. */
  lemma LastPiece(boundary: string, body: string, data: string, start: nat)
    requires GoodBoundary(boundary) && Undivided(body, "--" + boundary) && |data| <= MAX_SIZE && start <= |data|
    requires data[start..] == body + Sep2(boundary)
    ensures Pieces(data, Sep1(boundary), Sep2(boundary), start) == [body]
  {
    LastGeometry(data, start, body, Sep2(boundary));
    LastDelimiters(body, boundary, data, start);
  }

  /** One body in front of the short delimiter. */
  lemma FirstPiece(boundary: string, body: string, data: string, start: nat, tail: string)
    requires OneLine(boundary) && Undivided(body, "--" + boundary) && |data| <= MAX_SIZE && start <= |data|
    requires data[start..] == body + Sep1(boundary) + tail
    ensures var next := start + |body| + |Sep1(boundary)|;
            && next <= |data| && data[next..] == tail
            && Pieces(data, Sep1(boundary), Sep2(boundary), start)
               == [body] + Pieces(data, Sep1(boundary), Sep2(boundary), next)
  {
    Geometry(data, start, body, Sep1(boundary), tail);
    DelimiterIsFound(body, "--" + boundary, data, start, "\r\n");
  }

  /** Cutting at the delimiters inverts joining with them. */
  lemma {:induction false} PiecesInvertTail(boundary: string, bodies: seq<string>, data: string, start: nat)
    requires GoodBoundary(boundary) && bodies != [] && |data| <= MAX_SIZE && start <= |data|
    requires forall i | 0 <= i < |bodies| :: Undivided(bodies[i], "--" + boundary)
    requires data[start..] == Tail(boundary, bodies)
    ensures Pieces(data, Sep1(boundary), Sep2(boundary), start) == bodies
    decreases |bodies|
  {
    if |bodies| == 1 {
      LastPiece(boundary, bodies[0], data, start);
    } else {
      var rest := bodies[1..];
      FirstPiece(boundary, bodies[0], data, start, Tail(boundary, rest));
      PiecesInvertTail(boundary, rest, data, start + |bodies[0]| + |Sep1(boundary)|);
      assert bodies == [bodies[0]] + rest;
    }
  }

  /** One more piece behind pieces that are all accepted. */
  lemma {:induction false} ParseSnoc(form: Form, pieces: seq<string>, last: string, stored: Form)
    requires Short(pieces) && Short(pieces + [last]) && |last| <= MAX_SIZE
    requires ParsePieces(form, pieces) == Parsed(stored)
    ensures ParsePieces(form, pieces + [last]) == ParseMime(stored, last)
    decreases |pieces|
  {
    var all := pieces + [last];
    if pieces == [] {
      assert all[0] == last && all[1..] == [];
    } else {
      assert all[0] == pieces[0] && all[1..] == pieces[1..] + [last];
      ParseSnoc(ParseMime(form, pieces[0]).form, pieces[1..], last, stored);
    }
  }

  lemma {:induction false} CollectSnoc(form: Form, parts: seq<Part>, last: Part)
    ensures Collect(form, parts + [last]) == StorePart(Collect(form, parts), last)
    decreases |parts|
  {
    if parts == [] {
      assert (parts + [last])[1..] == [];
    } else {
      assert (parts + [last])[1..] == parts[1..] + [last];
      CollectSnoc(StorePart(form, parts[0]), parts[1..], last);
    }
  }

  lemma BodiesSnoc(parts: seq<Part>, last: Part)
    ensures Bodies(parts + [last]) == Bodies(parts) + [Body(last)]
  {
  }

  lemma ShortSnoc(pieces: seq<string>, last: string)
    requires Short(pieces + [last])
    ensures Short(pieces) && |last| <= MAX_SIZE
  {
    var all := pieces + [last];
    assert all[|pieces|] == last && forall i | 0 <= i < |pieces| :: pieces[i] == all[i];
  }

  /** Parsing the bodies collects the fields and files. */
  lemma {:induction false} BodiesAreParsed(form: Form, boundary: string, parts: seq<Part>)
    requires Short(Bodies(parts)) && forall i | 0 <= i < |parts| :: Renderable(parts[i], boundary)
    ensures ParsePieces(form, Bodies(parts)) == Parsed(Collect(form, parts))
    decreases |parts|
  {
    if parts == [] {
    } else {
      var init, last := parts[..|parts| - 1], parts[|parts| - 1];
      BodiesSnoc(init, last);
      assert parts == init + [last];
      ShortSnoc(Bodies(init), Body(last));
      BodiesAreParsed(form, boundary, init);
      ParseSnoc(form, Bodies(init), Body(last), Collect(form, init));
      PartIsParsed(Collect(form, init), last, boundary);
      CollectSnoc(form, init, last);
    }
  }

  ghost function ContentTypeFor(boundary: string): string {
    MULTIPART_TYPE + "; " + BOUNDARY + boundary
  }

  lemma BoundaryIsFound(boundary: string)
    requires |ContentTypeFor(boundary)| <= MAX_SIZE
    ensures BoundaryOf(ContentTypeFor(boundary)) == boundary
  {
    var ct, front := ContentTypeFor(boundary), MULTIPART_TYPE + "; ";
    assert ct[|front|..|front| + |BOUNDARY|] == BOUNDARY;
    assert forall i | 0 <= i < |front| + 8 :: ct[i] == (front + BOUNDARY)[i];
    FoundByMarker(ct, BOUNDARY, 0, 8, |front|);
    assert ct[|front| + |BOUNDARY|..] == boundary;
  }

  /** Every body of rendered parts is one piece. */
  lemma RenderIsCut(boundary: string, bodies: seq<string>, data: string)
    requires GoodBoundary(boundary) && bodies != [] && |data| <= MAX_SIZE
    requires forall i | 0 <= i < |bodies| :: Undivided(bodies[i], "--" + boundary)
    requires data == Sep1(boundary) + Tail(boundary, bodies)
    ensures Find(data, Sep1(boundary), 0) == 0
    ensures Pieces(data, Sep1(boundary), Sep2(boundary), |Sep1(boundary)|) == bodies
  {
    var sep1 := Sep1(boundary);
    assert data[0..|sep1|] == sep1 && data[|sep1|..] == Tail(boundary, bodies);
    FindIs(data, sep1, 0, 0);
    PiecesInvertTail(boundary, bodies, data, |sep1|);
  }

  lemma ParseStarts(data: string, boundary: string, bodies: seq<string>)
    requires data != "" && |data| <= MAX_SIZE && |boundary| < MAX_SIZE && Find(data, Sep1(boundary), 0) == 0
    requires bodies == Pieces(data, Sep1(boundary), Sep2(boundary), |Sep1(boundary)|)
    ensures ParseWith(data, boundary) == ParsePieces(Form([], []), bodies)
  {
    assert AddSize(0, |Sep1(boundary)|) == |Sep1(boundary)|;
  }

  lemma RenderIsParsed(boundary: string, parts: seq<Part>)
    requires GoodBoundary(boundary) && parts != []
    requires forall i | 0 <= i < |parts| :: Renderable(parts[i], boundary)
    requires |Render(boundary, parts)| <= MAX_SIZE && |boundary| < MAX_SIZE
    ensures ParseWith(Render(boundary, parts), boundary) == Parsed(Collect(Form([], []), parts))
  {
    var bodies := Bodies(parts);
    forall i | 0 <= i < |bodies|
      ensures Undivided(bodies[i], "--" + boundary)
    {
      BodyIsUndivided(parts[i], boundary);
    }
    var data := Render(boundary, parts);
    RenderIsCut(boundary, bodies, data);
    ParseStarts(data, boundary, bodies);
    BodiesAreParsed(Form([], []), boundary, parts);
  }

  /**
    Round trip: for every non-empty list of fields and files rendered with a usable boundary, the parser
    returns the same fields and files, in order. Values are arbitrary as long as they do not contain the
    delimiter; blank lines in them do not matter.
   */
  lemma ParseInvertsRender(boundary: string, parts: seq<Part>)
    requires GoodBoundary(boundary) && parts != []
    requires forall i | 0 <= i < |parts| :: Renderable(parts[i], boundary)
    requires |Render(boundary, parts)| <= MAX_SIZE && |ContentTypeFor(boundary)| <= MAX_SIZE - 6
    ensures ParseBody(Render(boundary, parts), ContentTypeFor(boundary)) == Parsed(Collect(Form([], []), parts))
  {
    RenderIsParsed(boundary, parts);
    BoundaryIsFound(boundary);
  }

  /** Each character of such a boundary is a dash, or equals the one two places before it. */
  lemma {:induction false} DashAt(boundary: string, i: nat)
    requires boundary + "--" == "--" + boundary && i < |boundary|
    ensures boundary[i] == '-'
  {
    assert boundary[i] == (boundary + "--")[i] == ("--" + boundary)[i];
    if i < 2 {
    } else {
      DashAt(boundary, i - 2);
    }
  }

  /**
    The boundaries that are ruled out are exactly those of dashes only: for them, and for no others,
    the closing delimiter contains the short one.
   */
  lemma DashesAreNoBoundary(boundary: string)
    requires OneLine(boundary)
    ensures !GoodBoundary(boundary) <==> forall i | 0 <= i < |boundary| :: boundary[i] == '-'
    ensures !GoodBoundary(boundary) <==> Occurs(Sep2(boundary), Sep1(boundary), 2)
  {
    var sep1, sep2, n := Sep1(boundary), Sep2(boundary), |boundary|;
    assert sep2[2..2 + |sep1|] == boundary + "--" + "\r\n";
    assert sep1 == "--" + boundary + "\r\n";
    assert sep2[2..2 + |sep1|][..n + 2] == boundary + "--" && sep1[..n + 2] == "--" + boundary;
    if boundary + "--" == "--" + boundary {
      forall i | 0 <= i < n
        ensures boundary[i] == '-'
      {
        DashAt(boundary, i);
      }
    }
  }

  // ---------- What the parser makes of the boundaries that are ruled out ----------

  /** From the start of the last part, the short delimiter is found two characters into the closing one. */
  lemma DashedDelimiters(body: string, boundary: string, data: string, start: nat)
    requires Undivided(body, "--" + boundary) && OneLine(boundary) && !GoodBoundary(boundary) && |data| <= MAX_SIZE
    requires StandsAt(data, start, body) && data[start + |body|..] == Sep2(boundary)
    ensures Find(data, Sep1(boundary), start) == start + |body| + 2
    ensures start + |body| + 2 + |Sep1(boundary)| == |data|
  {
    var sep1, end, n := Sep1(boundary), start + |body|, |boundary|;
    DashesAreNoBoundary(boundary);
    forall i: nat | start <= i < end + 2
      ensures !Occurs(data, sep1, i)
    {
      if i < end {
        NoDelimiterInside(body, "--" + boundary, data, start, "\r\n", i);
      } else {
        assert data[i + n + 2] == data[end..][i - end + n + 2] == '-';
        assert sep1[n + 2] == '\r';
        MismatchAt(data, sep1, i, n + 2);
      }
    }
    SliceOfSlice(data, end, |data|, end + 2, |data|);
    assert data[end..|data|] == Sep2(boundary);
    FindIs(data, sep1, start, end + 2);
  }

  /** Behind the end of the data nothing is found. */
  lemma NothingBehindEnd(data: string, sep1: string, sep2: string)
    requires |data| <= MAX_SIZE && sep1 != "" && sep2 != ""
    ensures Pieces(data, sep1, sep2, |data|) == []
  {
    FindIs(data, sep1, |data|, NPOS);
    FindIs(data, sep2, |data|, NPOS);
  }

  lemma LastDashedPiece(boundary: string, body: string, data: string, start: nat)
    requires OneLine(boundary) && !GoodBoundary(boundary)
    requires Undivided(body, "--" + boundary) && |data| <= MAX_SIZE && start <= |data|
    requires data[start..] == body + Sep2(boundary)
    ensures Pieces(data, Sep1(boundary), Sep2(boundary), start) == [body + "--"]
  {
    var end := start + |body|;
    LastGeometry(data, start, body, Sep2(boundary));
    DashedDelimiters(body, boundary, data, start);
    NothingBehindEnd(data, Sep1(boundary), Sep2(boundary));
    assert data[start..end + 2] == data[start..end] + data[end..][..2];
    assert Sep2(boundary)[..2] == "--";
  }

  /** The text of the last part keeps the first two dashes of the closing delimiter. */
  ghost function Spoiled(bodies: seq<string>): (r: seq<string>)
    requires bodies != []
    ensures |r| == |bodies|
  {
    bodies[|bodies| - 1 := bodies[|bodies| - 1] + "--"]
  }

  lemma {:induction false} DashedPieces(boundary: string, bodies: seq<string>, data: string, start: nat)
    requires OneLine(boundary) && !GoodBoundary(boundary) && bodies != [] && |data| <= MAX_SIZE && start <= |data|
    requires forall i | 0 <= i < |bodies| :: Undivided(bodies[i], "--" + boundary)
    requires data[start..] == Tail(boundary, bodies)
    ensures Pieces(data, Sep1(boundary), Sep2(boundary), start) == Spoiled(bodies)
    decreases |bodies|
  {
    if |bodies| == 1 {
      LastDashedPiece(boundary, bodies[0], data, start);
    } else {
      var rest := bodies[1..];
      FirstPiece(boundary, bodies[0], data, start, Tail(boundary, rest));
      DashedPieces(boundary, rest, data, start + |bodies[0]| + |Sep1(boundary)|);
      assert Spoiled(bodies) == [bodies[0]] + Spoiled(rest);
    }
  }

  /** The last value gains the line end in front of the closing delimiter. */
  ghost function WithLineEnd(parts: seq<Part>): (r: seq<Part>)
    requires parts != []
    ensures |r| == |parts|
  {
    var last := parts[|parts| - 1];
    parts[|parts| - 1 := last.(value := last.value + "\r\n")]
  }

  lemma SpoiledBodyIsParsed(form: Form, p: Part, boundary: string)
    requires Renderable(p, boundary) && |Body(p) + "--"| <= MAX_SIZE
    ensures ParseMime(form, Body(p) + "--") == Parsed(StorePart(form, p.(value := p.value + "\r\n")))
  {
    var q := p.(value := p.value + "\r\n");
    assert HeaderText(q) + q.value == Body(p);
    TextIsParsed(form, q, "--");
  }

  lemma SpoiledBodies(parts: seq<Part>, last: Part)
    ensures Spoiled(Bodies(parts + [last])) == Bodies(parts) + [Body(last) + "--"]
    ensures WithLineEnd(parts + [last]) == parts + [last.(value := last.value + "\r\n")]
  {
    BodiesSnoc(parts, last);
  }

  lemma SpoiledBodiesAreParsed(form: Form, boundary: string, parts: seq<Part>)
    requires parts != [] && Short(Spoiled(Bodies(parts)))
    requires forall i | 0 <= i < |parts| :: Renderable(parts[i], boundary)
    ensures ParsePieces(form, Spoiled(Bodies(parts))) == Parsed(Collect(form, WithLineEnd(parts)))
  {
    var init, last := parts[..|parts| - 1], parts[|parts| - 1];
    SpoiledBodies(init, last);
    assert parts == init + [last];
    ShortSnoc(Bodies(init), Body(last) + "--");
    BodiesAreParsed(form, boundary, init);
    ParseSnoc(form, Bodies(init), Body(last) + "--", Collect(form, init));
    SpoiledBodyIsParsed(Collect(form, init), last, boundary);
    CollectSnoc(form, init, last.(value := last.value + "\r\n"));
  }

  lemma DashedRenderIsCut(boundary: string, bodies: seq<string>, data: string)
    requires OneLine(boundary) && !GoodBoundary(boundary) && bodies != [] && |data| <= MAX_SIZE
    requires forall i | 0 <= i < |bodies| :: Undivided(bodies[i], "--" + boundary)
    requires data == Sep1(boundary) + Tail(boundary, bodies)
    ensures Find(data, Sep1(boundary), 0) == 0
    ensures Pieces(data, Sep1(boundary), Sep2(boundary), |Sep1(boundary)|) == Spoiled(bodies)
  {
    var sep1 := Sep1(boundary);
    assert data[0..|sep1|] == sep1 && data[|sep1|..] == Tail(boundary, bodies);
    FindIs(data, sep1, 0, 0);
    DashedPieces(boundary, bodies, data, |sep1|);
  }

  /** With a boundary of dashes only, every form comes back with a line end appended to its last value. */
  lemma DashedRenderIsParsed(boundary: string, parts: seq<Part>)
    requires OneLine(boundary) && !GoodBoundary(boundary) && parts != []
    requires forall i | 0 <= i < |parts| :: Renderable(parts[i], boundary)
    requires |Render(boundary, parts)| <= MAX_SIZE && |boundary| < MAX_SIZE
    ensures ParseWith(Render(boundary, parts), boundary) == Parsed(Collect(Form([], []), WithLineEnd(parts)))
  {
    var bodies := Bodies(parts);
    forall i | 0 <= i < |bodies|
      ensures Undivided(bodies[i], "--" + boundary)
    {
      BodyIsUndivided(parts[i], boundary);
    }
    var data := Render(boundary, parts);
    DashedRenderIsCut(boundary, bodies, data);
    ParseStarts(data, boundary, Spoiled(bodies));
    SpoiledBodiesAreParsed(Form([], []), boundary, parts);
  }

  /** The appended line end can be told from the form that was sent. */
  lemma LineEndIsVisible(parts: seq<Part>)
    requires parts != []
    ensures Collect(Form([], []), WithLineEnd(parts)) != Collect(Form([], []), parts)
  {
    var init, last := parts[..|parts| - 1], parts[|parts| - 1];
    var longer, before := last.(value := last.value + "\r\n"), Collect(Form([], []), init);
    assert parts == init + [last] && WithLineEnd(parts) == init + [longer];
    CollectSnoc(Form([], []), init, last);
    CollectSnoc(Form([], []), init, longer);
    assert |longer.value| != |last.value|;
    var a, b := StorePart(before, last), StorePart(before, longer);
    match last
    case Field(_, _) => assert a.entries[|before.entries|] != b.entries[|before.entries|];
    case Upload(_, _, _, _) => assert a.files[|before.files|] != b.files[|before.files|];
  }

  /**
    The exact condition of the round trip: renderable parts come back as they were sent if and only
    if some character of the boundary is not a dash. Otherwise the last value gains a line end.
   */
  lemma RoundTripIffGoodBoundary(boundary: string, parts: seq<Part>)
    requires OneLine(boundary) && parts != []
    requires forall i | 0 <= i < |parts| :: Renderable(parts[i], boundary)
    requires |Render(boundary, parts)| <= MAX_SIZE && |ContentTypeFor(boundary)| <= MAX_SIZE - 6
    ensures ParseBody(Render(boundary, parts), ContentTypeFor(boundary)) == Parsed(Collect(Form([], []), parts))
            <==> exists i :: 0 <= i < |boundary| && boundary[i] != '-'
    ensures (forall i | 0 <= i < |boundary| :: boundary[i] == '-') ==>
              ParseBody(Render(boundary, parts), ContentTypeFor(boundary))
              == Parsed(Collect(Form([], []), WithLineEnd(parts)))
  {
    DashesAreNoBoundary(boundary);
    BoundaryIsFound(boundary);
    if GoodBoundary(boundary) {
      RenderIsParsed(boundary, parts);
    } else {
      DashedRenderIsParsed(boundary, parts);
      LineEndIsVisible(parts);
    }
  }

  // ---------- Messages and texts, character by character ----------

  lemma NameLineTexts()
    ensures NameLine("n") == "Content-Disposition: form-data; name=\"n\""
    ensures NameLine("u") == "Content-Disposition: form-data; name=\"u\""
  {
  }

  lemma MessageText()
    ensures Render("Z", [Field("n", "v"), Upload("u", "f", "t", "w")])
            == "--Z\r\n" + ("Content-Disposition: form-data; name=\"n\"" + "\r\n\r\n" + "v" + "\r\n"
               + "--Z\r\n" + ("Content-Disposition: form-data; name=\"u\"" + "; " + "filename=\"" + "f" + "\"" + "\r\n"
                             + "Content-Type: " + "t" + "\r\n\r\n" + "w" + "\r\n" + "--Z--\r\n"))
  {
    var a, b := Field("n", "v"), Upload("u", "f", "t", "w");
    NameLineTexts();
    SeparatorsForZ();
    var bodies := Bodies([a, b]);
    assert bodies == [Body(a), Body(b)] && bodies[1..] == [Body(b)];
    assert Tail("Z", bodies) == Body(a) + Sep1("Z") + Tail("Z", [Body(b)]);
    assert Tail("Z", [Body(b)]) == Body(b) + Sep2("Z");
  }

  lemma SeparatorsForZ()
    ensures Sep1("Z") == "--Z\r\n" && Sep2("Z") == "--Z--\r\n"
  {
  }

  /** Text without a character of the pattern does not contain the pattern. */
  lemma NotWithoutCharacter(s: string, pat: string, k: nat)
    requires k < |pat| && pat[k] !in s
    ensures forall i :: !Occurs(s, pat, i)
  {
    forall i: nat | Occurs(s, pat, i)
      ensures false
    {
      OccursAt(s, pat, i, k);
    }
  }

  lemma FieldIsRenderable()
    ensures Renderable(Field("n", "v"), "Z")
  {
    assert 'Z' !in DISPOSITION && 'Z' !in FORM_DATA && 'Z' !in NAME;
    NotWithoutCharacter(Body(Field("n", "v")), "--" + "Z", 2);
    NotWithoutCharacter("n", BLANK, 0);
  }

  lemma UploadIsRenderable()
    ensures Renderable(Upload("u", "f", "t", "w"), "Z")
  {
    assert 'Z' !in DISPOSITION && 'Z' !in FORM_DATA && 'Z' !in NAME && 'Z' !in FILENAME && 'Z' !in CONTENT_TYPE;
    NotWithoutCharacter(Body(Upload("u", "f", "t", "w")), "--" + "Z", 2);
    NotWithoutCharacter("u", BLANK, 0);
    NotWithoutCharacter("f", BLANK, 0);
    NotWithoutCharacter("u", CONTENT_TYPE, 0);
    NotWithoutCharacter("f", CONTENT_TYPE, 0);
  }

  /** A field and a file in one message. */
  lemma ParsedMessage()
    ensures ParseBody("--Z\r\n" + ("Content-Disposition: form-data; name=\"n\"" + "\r\n\r\n" + "v" + "\r\n"
                      + "--Z\r\n" + ("Content-Disposition: form-data; name=\"u\""
                                    + "; " + "filename=\"" + "f" + "\"" + "\r\n"
                                    + "Content-Type: " + "t" + "\r\n\r\n" + "w" + "\r\n" + "--Z--\r\n")),
                      "multipart/form-data; boundary=Z")
            == Parsed(Form([Entry("n", "v")], [File("u", "f", "t", "w")]))
  {
    var parts := [Field("n", "v"), Upload("u", "f", "t", "w")];
    MessageText();
    FieldIsRenderable();
    UploadIsRenderable();
    assert ("Z" + "--")[0] != ("--" + "Z")[0];
    assert ContentTypeFor("Z") == "multipart/form-data; boundary=Z";
    ParseInvertsRender("Z", parts);
    assert parts[1..] == [Upload("u", "f", "t", "w")] && parts[1..][1..] == [];
    var stored := StorePart(Form([], []), parts[0]);
    assert stored == Form([Entry("n", "v")], []);
    assert Collect(stored, parts[1..]) == Collect(StorePart(stored, parts[1]), []);
  }

  /** A part is rejected exactly when it has no blank line, and nothing is stored for it. */
  lemma MalformedIffNoBlankLine(form: Form, part: string)
    requires |part| <= MAX_SIZE
    ensures ParseMime(form, part).Malformed? <==> forall i: nat :: !Occurs(part, "\r\n\r\n", i)
    ensures ParseMime(form, part).Malformed? ==> ParseMime(form, part).form == form
  {
    if Find(part, BLANK, 0) == NPOS {
      assert forall i: nat :: !Occurs(part, BLANK, i);
    }
  }

  /** The last two characters are taken off a value; if there are fewer behind the blank line, nothing is. */
  lemma ValueBehindBlankLine(form: Form, head: string, rest: string)
    requires |head| + 4 + |rest| <= MAX_SIZE && Find(head + "\r\n\r\n" + rest, "\r\n\r\n", 0) == |head|
    ensures var value := if |rest| < 2 then rest else rest[..|rest| - 2];
            ParseMime(form, head + "\r\n\r\n" + rest) == Parsed(Store(form, ParseHeader(head + "\r\n\r\n"), value))
  {
    var part := head + BLANK + rest;
    assert part[..|head| + 4] == head + BLANK && part[|head| + 4..] == rest;
    var end := ValueEnd(|part|, |head| + 4);
    assert part[|head| + 4..end] == rest[..end - |head| - 4];
    assert rest[..|rest|] == rest;
  }

  /** Without "boundary=" the separators are made from what stands behind the first eight characters. */
  lemma MissingBoundary(contentType: string)
    requires |MULTIPART_TYPE| <= |contentType| <= MAX_SIZE
    requires forall i: nat :: !Occurs(contentType, "boundary=", i)
    ensures BoundaryOf(contentType) == contentType[8..]
  {
    FindIs(contentType, BOUNDARY, 0, NPOS);
  }

  // ---------- The parser as it is written ----------

  method ParseMimeInto(form: Form, part: string) returns (r: Outcome)
    requires |part| <= MAX_SIZE
    ensures r == ParseMime(form, part)
  {
    var headLimit := FindFirst(part, BLANK, 0);
    if headLimit == NPOS {
      return Malformed(form);
    }
    var valueStart := headLimit + |BLANK|;
    var value := part[valueStart..ValueEnd(|part|, valueStart)];
    var head := ParseHeaderOf(part[..valueStart]);
    if head.filename == "" {
      r := Parsed(form.(entries := form.entries + [Entry(head.name, value)]));
    } else {
      r := Parsed(form.(files := form.files + [File(head.name, head.filename, head.contentType, value)]));
    }
  }

  lemma ParseCons(form: Form, pieces: seq<string>, piece: string, rest: seq<string>, r: Outcome)
    requires pieces == [piece] + rest && |piece| <= MAX_SIZE && Short(pieces) && Short(rest)
    requires r == ParseMime(form, piece)
    ensures ParsePieces(form, pieces) == if r.Malformed? then r else ParsePieces(r.form, rest)
  {
    assert pieces[0] == piece && pieces[1..] == rest;
  }

  lemma PiecesCons(data: string, sep1: string, sep2: string, oldPos: nat, pos: nat)
    requires |data| <= MAX_SIZE && sep1 != "" && pos == Find(data, sep1, oldPos) != NPOS
    ensures Pieces(data, sep1, sep2, oldPos) == [data[oldPos..pos]] + Pieces(data, sep1, sep2, pos + |sep1|)
  {
  }

  /** One round of the loop. */
  lemma PieceIsTaken(form: Form, data: string, sep1: string, sep2: string, oldPos: nat, pos: nat, r: Outcome)
    requires |data| <= MAX_SIZE && sep1 != "" && pos == Find(data, sep1, oldPos) != NPOS
    requires r == ParseMime(form, data[oldPos..pos])
    ensures ParsePieces(form, Pieces(data, sep1, sep2, oldPos))
            == if r.Malformed? then r else ParsePieces(r.form, Pieces(data, sep1, sep2, pos + |sep1|))
  {
    var rest := Pieces(data, sep1, sep2, pos + |sep1|);
    PiecesCons(data, sep1, sep2, oldPos, pos);
    ParseCons(form, Pieces(data, sep1, sep2, oldPos), data[oldPos..pos], rest, r);
  }

  lemma LastIsTaken(form: Form, data: string, sep1: string, sep2: string, oldPos: nat)
    requires |data| <= MAX_SIZE && sep1 != "" && Find(data, sep1, oldPos) == NPOS
    ensures var last := Find(data, sep2, oldPos);
            ParsePieces(form, Pieces(data, sep1, sep2, oldPos))
            == if last == NPOS then Parsed(form) else ParseMime(form, data[oldPos..last])
  {
  }

  /** One round of the loop: what is to come is the outcome for the rest. */
  method TakePiece(form: Form, data: string, sep1: string, ghost sep2: string, oldPos: nat, pos: nat)
    returns (r: Outcome)
    requires |data| <= MAX_SIZE && sep1 != "" && pos == Find(data, sep1, oldPos) != NPOS
    ensures ToCome(form, data, sep1, sep2, oldPos)
            == if r.Malformed? then r else ToCome(r.form, data, sep1, sep2, pos + |sep1|)
  {
    r := ParseMimeInto(form, data[oldPos..pos]);
    PieceIsTaken(form, data, sep1, sep2, oldPos, pos, r);
  }

  /** What follows the loop. */
  method TakeLast(form: Form, data: string, ghost sep1: string, sep2: string, oldPos: nat) returns (r: Outcome)
    requires |data| <= MAX_SIZE && sep1 != "" && Find(data, sep1, oldPos) == NPOS
    ensures r == ToCome(form, data, sep1, sep2, oldPos)
  {
    LastIsTaken(form, data, sep1, sep2, oldPos);
    var pos := FindFirst(data, sep2, oldPos);
    if pos != NPOS {
      r := ParseMimeInto(form, data[oldPos..pos]);
    } else {
      r := Parsed(form);
    }
  }

  ghost function ToCome(form: Form, data: string, sep1: string, sep2: string, oldPos: nat): Outcome
    requires |data| <= MAX_SIZE && sep1 != ""
  {
    ParsePieces(form, Pieces(data, sep1, sep2, oldPos))
  }

  /** The next separator, and what the loop does with the text in front of it. */
  method NextPiece(form: Form, data: string, sep1: string, sep2: string, oldPos: nat)
    returns (r: Outcome, next: nat, done: bool)
    requires |data| <= MAX_SIZE && sep1 != ""
    ensures ToCome(form, data, sep1, sep2, oldPos) == if done then r else ToCome(r.form, data, sep1, sep2, next)
    ensures !done ==> oldPos < next <= |data|
  {
    var pos := FindFirst(data, sep1, oldPos);
    if pos == NPOS {
      r := TakeLast(form, data, sep1, sep2, oldPos);
      next, done := oldPos, true;
    } else {
      r := TakePiece(form, data, sep1, sep2, oldPos, pos);
      next, done := pos + |sep1|, r.Malformed?;
    }
  }

  /** The loop over the separators, and the last part behind it. */
  method ParseAllParts(data: string, sep1: string, sep2: string, start: nat) returns (r: Outcome)
    requires |data| <= MAX_SIZE && sep1 != ""
    ensures r == ToCome(Form([], []), data, sep1, sep2, start)
  {
    r := Parsed(Form([], []));
    var oldPos, done := start, false;
    ghost var result := ToCome(r.form, data, sep1, sep2, start);
    while !done
      invariant result == if done then r else ToCome(r.form, data, sep1, sep2, oldPos)
      decreases !done, |data| - oldPos
    {
      r, oldPos, done := NextPiece(r.form, data, sep1, sep2, oldPos);
    }
  }

  method ParseMultipart(data: string, contentType: string) returns (r: Outcome)
    requires |data| <= MAX_SIZE && |MULTIPART_TYPE| <= |contentType| <= MAX_SIZE - 6
    ensures r == ParseBody(data, contentType)
  {
    if data == "" {
      return Parsed(Form([], []));
    }
    var pos := FindFirst(contentType, BOUNDARY, 0);
    var boundary := contentType[AddSize(pos, |BOUNDARY|)..];
    var sep1, sep2 := Sep1(boundary), Sep2(boundary);
    var start := FindFirst(data, sep1, 0);
    r := ParseAllParts(data, sep1, sep2, AddSize(start, |sep1|));
  }
}
