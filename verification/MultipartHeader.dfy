/**
  The header of one part of a multipart/form-data body: cgicc's extractBetween and
  parseHeader, and the two forms that section 4 of RFC 7578 prescribes.
 */
module MultipartHeader {
  import opened StringSearch
  import opened UrlForm

  /** extractBetween: the text between the first `separator1` and the next `separator2`. */
  ghost function ExtractBetween(data: string, separator1: string, separator2: string): string
    requires |data| <= MAX_SIZE
  {
    var start := Find(data, separator1, 0);
    if start == NPOS then ""
    else
      var from := start + |separator1|;
      var limit := Find(data, separator2, from);
      if limit == NPOS then "" else data[from..limit]
  }

  datatype Header = Header(name: string, filename: string, contentType: string)

  ghost function ParseHeader(data: string): Header
    requires |data| <= MAX_SIZE
  {
    Header(ExtractBetween(data, "name=\"", "\""),
           Decode(ExtractBetween(data, "filename=\"", "\"")),
           ExtractBetween(data, "Content-Type: ", "\r\n\r\n"))
  }

  method ExtractBetweenOf(data: string, separator1: string, separator2: string) returns (result: string)
    requires |data| <= MAX_SIZE
    ensures result == ExtractBetween(data, separator1, separator2)
  {
    result := "";
    var start := FindFirst(data, separator1, 0);
    if start != NPOS {
      start := start + |separator1|;
      var limit := FindFirst(data, separator2, start);
      if limit != NPOS {
        result := data[start..limit];
      }
    }
  }

  method ParseHeaderOf(data: string) returns (h: Header)
    requires |data| <= MAX_SIZE
    ensures h == ParseHeader(data)
  {
    var name := ExtractBetweenOf(data, "name=\"", "\"");
    var filename := ExtractBetweenOf(data, "filename=\"", "\"");
    var cType := ExtractBetweenOf(data, "Content-Type: ", "\r\n\r\n");
    filename := FormUrlDecode(filename);
    h := Header(name, filename, cType);
  }

  // ---------- Rendered headers ----------

  const DISPOSITION := "Content-Disposition"
  const FORM_DATA := ": form-data; "
  const NAME := "name=\""
  const FILENAME := "filename=\""
  const FILENAME_KEY := "filename="
  const CONTENT_TYPE := "Content-Type: "
  const BLANK := "\r\n\r\n"

  /** Where the name starts. */
  const NAME_START := |DISPOSITION| + |FORM_DATA| + |NAME|

  /** Up to and including the closing quote of the name. */
  ghost function NameLine(name: string): string {
    DISPOSITION + FORM_DATA + NAME + name + "\""
  }

  ghost function FieldHeader(name: string): string {
    NameLine(name) + BLANK
  }

  ghost function FileLine(name: string, filename: string): string {
    NameLine(name) + "; " + FILENAME + filename + "\"" + "\r\n"
  }

  ghost function FileHeader(name: string, filename: string, contentType: string): string {
    FileLine(name, filename) + CONTENT_TYPE + contentType + BLANK
  }

  // ---------- What a header can carry ----------

  ghost predicate Contains(s: string, pat: string) {
    exists i: nat :: Occurs(s, pat, i)
  }

  /** Text between quotes: any field name but one with a quote or a blank line in it. */
  ghost predicate Quotable(s: string) {
    '"' !in s && !Contains(s, BLANK)
  }

  /** The name of an upload must not look like the start of what follows it. */
  ghost predicate UploadName(s: string) {
    && Quotable(s) && !Contains(s, CONTENT_TYPE)
    && !(|s| >= |FILENAME_KEY| && s[|s| - |FILENAME_KEY|..] == FILENAME_KEY)
  }

  /** A file name as it stands in a header. */
  ghost predicate SentFilename(s: string) {
    Quotable(s) && !Contains(s, CONTENT_TYPE)
  }

  /** A file name that form_urldecode leaves alone. */
  ghost predicate UploadFilename(s: string) {
    s != "" && SentFilename(s) && '%' !in s && '+' !in s
  }

  ghost predicate OneLine(s: string) {
    forall i | 0 <= i < |s| :: s[i] != '\r' && s[i] != '\n'
  }

  // ---------- Quotes as markers ----------

  /** A pattern without quotes does not reach over a quote. */
  lemma StaysBesideQuote(h: string, pat: string, i: nat, q: nat)
    requires Occurs(h, pat, i) && '"' !in pat && q < |h| && h[q] == '"'
    ensures i + |pat| <= q || q < i
  {
    OccursThroughout(h, pat, i);
  }

  lemma OccursThroughout(h: string, pat: string, i: nat)
    requires Occurs(h, pat, i)
    ensures forall q {:trigger h[q]} | i <= q < i + |pat| :: h[q] == pat[q - i] && h[q] in pat
  {
    forall q | i <= q < i + |pat|
      ensures h[q] == pat[q - i] && h[q] in pat
    {
      OccursAt(h, pat, i, q - i);
    }
  }

  /** What occurs within a piece occurs in the text of that piece. */
  lemma OccursInPiece(h: string, pat: string, i: nat, from: nat, piece: string)
    requires Occurs(h, pat, i) && from <= i && i + |pat| <= from + |piece| <= |h|
    requires h[from..from + |piece|] == piece
    ensures Contains(piece, pat)
  {
    SliceOfSlice(h, from, from + |piece|, i, i + |pat|);
    assert Occurs(piece, pat, i - from);
  }

  /** A pattern without quotes between two neighbouring quotes of the text lies in what they enclose. */
  lemma NotBetweenQuotes(h: string, pat: string, i: nat, from: nat, piece: string)
    requires '"' !in pat && pat != "" && !Contains(piece, pat)
    requires from > 0 && from + |piece| < |h| && h[from..from + |piece|] == piece
    requires h[from - 1] == '"' && h[from + |piece|] == '"' && from - 1 <= i <= from + |piece|
    ensures !Occurs(h, pat, i)
  {
    if Occurs(h, pat, i) {
      StaysBesideQuote(h, pat, i, from - 1);
      StaysBesideQuote(h, pat, i, from + |piece|);
      OccursInPiece(h, pat, i, from, piece);
    }
  }

  /** The first quote behind a text that stands at `from` is the one that closes it. */
  lemma QuoteAfter(h: string, text: string, from: nat)
    requires |h| <= MAX_SIZE && from + |text| < |h| && h[from..from + |text|] == text && h[from + |text|] == '"'
    requires '"' !in text
    ensures Find(h, "\"", from) == from + |text|
  {
    var end := from + |text|;
    assert h[end..end + 1] == "\"";
    forall i | from <= i < end
      ensures h[i] != '"'
    {
      assert h[i] == text[i - from];
    }
    FoundByMarker(h, "\"", from, 0, end);
  }

  // ---------- A header that starts with a name line ----------

  /** Where the name line of `h` ends: at the closing quote of the name. */
  ghost function NameEnd(name: string): nat {
    NAME_START + |name|
  }

  /** The text in front of the name has one quote, one colon and no line end. */
  ghost predicate StartsWithName(h: string, name: string) {
    && |h| > NameEnd(name) && h[NAME_START..NameEnd(name)] == name && h[NameEnd(name)] == '"'
    && h[NAME_START - 6..NAME_START] == NAME && h[NAME_START - 1] == '"' && h[NAME_START - 7] == ' ' && h[7] == '-'
    && (forall i | 0 <= i < NAME_START - 1 :: h[i] != '"' && h[i] != '\r')
    && (forall i | 0 <= i < NAME_START && h[i] == ':' :: i == |DISPOSITION|)
  }

  lemma NameLineStarts(name: string, tail: string)
    ensures StartsWithName(NameLine(name) + tail, name)
  {
    var front, h := DISPOSITION + FORM_DATA + NAME, NameLine(name) + tail;
    forall i | 0 <= i < NAME_START
      ensures h[i] == front[i]
      ensures i < NAME_START - 1 ==> h[i] != '"' && h[i] != '\r'
      ensures h[i] == ':' ==> i == |DISPOSITION|
    {
      if i < |DISPOSITION| {
        assert h[i] == DISPOSITION[i];
      } else if i < |DISPOSITION| + |FORM_DATA| {
        assert h[i] == FORM_DATA[i - |DISPOSITION|];
      } else {
        assert h[i] == NAME[i - |DISPOSITION| - |FORM_DATA|];
      }
    }
    assert h[NAME_START - 6..NAME_START] == NAME;
    assert h[NAME_START..NameEnd(name)] == name;
  }

  lemma NameIsExtracted(h: string, name: string)
    requires |h| <= MAX_SIZE && StartsWithName(h, name) && '"' !in name
    ensures ExtractBetween(h, NAME, "\"") == name
  {
    FoundByMarker(h, NAME, 0, 5, NAME_START - 6);
    QuoteAfter(h, name, NAME_START);
  }

  /** In front of the end of the name there is no blank line. */
  lemma NoBlankInNameLine(h: string, name: string, i: nat)
    requires StartsWithName(h, name) && Quotable(name) && i <= NameEnd(name)
    ensures !Occurs(h, BLANK, i)
  {
    if i < NAME_START - 1 {
      if Occurs(h, BLANK, i) {
        OccursAt(h, BLANK, i, 0);
      }
    } else {
      NotBetweenQuotes(h, BLANK, i, NAME_START, name);
    }
  }

  /** "Content-Type: " is not in front of the end of a name that does not contain it. */
  lemma NoTypeInNameLine(h: string, name: string, i: nat)
    requires StartsWithName(h, name) && !Contains(name, CONTENT_TYPE) && i <= NameEnd(name)
    ensures !Occurs(h, CONTENT_TYPE, i)
  {
    if i < NAME_START - 1 {
      if Occurs(h, CONTENT_TYPE, i) {
        StaysBesideQuote(h, CONTENT_TYPE, i, NAME_START - 1);
        OccursAt(h, CONTENT_TYPE, i, 12);
        OccursAt(h, CONTENT_TYPE, i, 0);
      }
    } else {
      NotBetweenQuotes(h, CONTENT_TYPE, i, NAME_START, name);
    }
  }

  // ---------- A field ----------

  /** A quote behind "filename=" in a field's header can only close the name, and nothing is quoted behind it. */
  lemma NoFilename(name: string)
    requires '"' !in name && |FieldHeader(name)| <= MAX_SIZE
    ensures ExtractBetween(FieldHeader(name), FILENAME, "\"") == ""
  {
    var h, end := FieldHeader(name), NameEnd(name);
    NameLineStarts(name, BLANK);
    assert forall i | end < i < |h| :: h[i] == BLANK[i - end - 1];
    assert forall i | NAME_START <= i < end :: h[i] == h[NAME_START..end][i - NAME_START] != '"';
    var pos := Find(h, FILENAME, 0);
    if pos != NPOS {
      OccursAt(h, FILENAME, pos, 9);
      OccursAt(h, FILENAME, pos, 3);
      assert pos + 9 == end;
      forall i: nat | end + 1 <= i
        ensures !Occurs(h, "\"", i)
      {
        if Occurs(h, "\"", i) {
          OccursAt(h, "\"", i, 0);
        }
      }
      FindIs(h, "\"", end + 1, NPOS);
    }
  }

  /** Every name without a quote is read back, and no file name is seen. */
  lemma FieldHeaderIsParsed(name: string)
    requires '"' !in name && |FieldHeader(name)| <= MAX_SIZE
    ensures ParseHeader(FieldHeader(name)).name == name && ParseHeader(FieldHeader(name)).filename == ""
  {
    NameLineStarts(name, BLANK);
    NameIsExtracted(FieldHeader(name), name);
    NoFilename(name);
  }

  // ---------- A file ----------

  /** Where the file name starts. */
  ghost function FilenameStart(name: string): nat {
    NameEnd(name) + 1 + 2 + |FILENAME|
  }

  ghost function FilenameEnd(name: string, filename: string): nat {
    FilenameStart(name) + |filename|
  }

  ghost predicate StartsWithFile(h: string, name: string, filename: string) {
    var start, end := FilenameStart(name), FilenameEnd(name, filename);
    && StartsWithName(h, name) && |h| > end + 2
    && h[start..end] == filename && h[end] == '"' && h[start - 10..start] == FILENAME && h[start - 1] == '"'
    && (forall i | NameEnd(name) < i < start - 1 :: h[i] != '"' && h[i] != 'C' && h[i] != '\r')
    && h[end + 1] == '\r' && h[end + 2] == '\n'
  }

  lemma FileLineStarts(name: string, filename: string, tail: string)
    ensures StartsWithFile(FileLine(name, filename) + tail, name, filename)
  {
    var line, h := NameLine(name), FileLine(name, filename) + tail;
    var start, end := FilenameStart(name), FilenameEnd(name, filename);
    assert h == line + ("; " + FILENAME + filename + "\"" + "\r\n" + tail);
    NameLineStarts(name, "; " + FILENAME + filename + "\"" + "\r\n" + tail);
    forall i | NameEnd(name) < i < start
      ensures h[i] == ("; " + FILENAME)[i - NameEnd(name) - 1]
      ensures i < start - 1 ==> h[i] != '"' && h[i] != 'C' && h[i] != '\r'
    {
      if i < NameEnd(name) + 3 {
        assert h[i] == "; "[i - NameEnd(name) - 1];
      } else {
        assert h[i] == FILENAME[i - NameEnd(name) - 3];
      }
    }
    assert h[start - 10..start] == FILENAME;
    assert h[start..end] == filename;
  }

  /** Only a name that ends with "filename=" makes its own closing quote look like the start of a file name. */
  lemma FilenameAtNameEnd(h: string, name: string)
    requires StartsWithName(h, name) && Occurs(h, FILENAME, NameEnd(name) - 9)
    ensures |name| >= 9 && name[|name| - 9..] == FILENAME_KEY
  {
    var i, end := NameEnd(name) - 9, NameEnd(name);
    OccursThroughout(h, FILENAME, i);
    if |name| >= 9 {
      SliceOfSlice(h, NAME_START, end, i, end);
      SliceOfSlice(h, i, i + |FILENAME|, i, end);
      assert FILENAME[..9] == FILENAME_KEY;
    }
  }

  lemma FilenameMarks(h: string, i: nat)
    requires Occurs(h, FILENAME, i)
    ensures h[i + 9] == '"' && h[i + 3] == 'e'
  {
    OccursAt(h, FILENAME, i, 9);
    OccursAt(h, FILENAME, i, 3);
  }

  /** No "filename=" with its quote stands in front of the real one. */
  lemma NoEarlierFilename(h: string, name: string, filename: string, i: nat)
    requires StartsWithFile(h, name, filename) && UploadName(name) && i < FilenameStart(name) - 10
    ensures !Occurs(h, FILENAME, i)
  {
    assert forall j | NAME_START <= j < NameEnd(name) :: h[j] == h[NAME_START..NameEnd(name)][j - NAME_START] != '"';
    if Occurs(h, FILENAME, i) {
      FilenameMarks(h, i);
      FilenameAtNameEnd(h, name);
    }
  }

  lemma FilenameIsExtracted(h: string, name: string, filename: string)
    requires |h| <= MAX_SIZE && StartsWithFile(h, name, filename) && UploadName(name) && '"' !in filename
    ensures ExtractBetween(h, FILENAME, "\"") == filename
  {
    var start := FilenameStart(name);
    forall i: nat | i < start - 10
      ensures !Occurs(h, FILENAME, i)
    {
      NoEarlierFilename(h, name, filename, i);
    }
    FindIs(h, FILENAME, 0, start - 10);
    QuoteAfter(h, filename, start);
  }

  /** The four pieces of a file header stand one behind the other. */
  lemma FileHeaderPieces(data: string, line: string, contentType: string, tail: string)
    requires data == line + CONTENT_TYPE + contentType + tail
    ensures var c0 := |line| + |CONTENT_TYPE|;
            && data[|line|..c0] == CONTENT_TYPE
            && (forall i | |line| <= i < c0 :: data[i] == CONTENT_TYPE[i - |line|])
            && (forall i | c0 <= i < c0 + |contentType| :: data[i] == contentType[i - c0])
            && data[c0..c0 + |contentType|] == contentType && data[c0 + |contentType|..] == tail
  {
    var front := line + CONTENT_TYPE + contentType;
    assert data[..|front|] == front;
    PieceStands(front, line, CONTENT_TYPE, contentType);
    PieceStands(data, line + CONTENT_TYPE, contentType, tail);
  }

  /** "Content-Type: " is not in the line of the disposition. */
  lemma NoTypeInFileLine(h: string, name: string, filename: string, i: nat)
    requires StartsWithFile(h, name, filename) && UploadName(name) && SentFilename(filename)
    requires i <= FilenameEnd(name, filename) + 2
    ensures !Occurs(h, CONTENT_TYPE, i)
  {
    var start, end := FilenameStart(name), FilenameEnd(name, filename);
    if i <= NameEnd(name) {
      NoTypeInNameLine(h, name, i);
    } else if start - 1 <= i <= end {
      NotBetweenQuotes(h, CONTENT_TYPE, i, start, filename);
    } else if Occurs(h, CONTENT_TYPE, i) {
      OccursAt(h, CONTENT_TYPE, i, 0);
    }
  }

  lemma ContentTypeIsFound(h: string, name: string, filename: string, tail: string)
    requires |h| <= MAX_SIZE && h == FileLine(name, filename) + tail && UploadName(name) && SentFilename(filename)
    requires |tail| >= |CONTENT_TYPE| && tail[..|CONTENT_TYPE|] == CONTENT_TYPE
    ensures Find(h, CONTENT_TYPE, 0) == |FileLine(name, filename)|
  {
    var n := |FileLine(name, filename)|;
    FileLineStarts(name, filename, tail);
    forall i: nat | i < n
      ensures !Occurs(h, CONTENT_TYPE, i)
    {
      NoTypeInFileLine(h, name, filename, i);
    }
    assert h[n..n + |CONTENT_TYPE|] == tail[..|CONTENT_TYPE|];
    FindIs(h, CONTENT_TYPE, 0, n);
  }

  /** The type ends at the first blank line behind it. */
  lemma TypeEnds(h: string, line: string, contentType: string)
    requires |h| <= MAX_SIZE && h == line + CONTENT_TYPE + contentType + BLANK && OneLine(contentType)
    ensures var c0 := |line| + |CONTENT_TYPE|;
            Find(h, BLANK, c0) == c0 + |contentType| && h[c0..c0 + |contentType|] == contentType
  {
    var c0 := |line| + |CONTENT_TYPE|;
    FileHeaderPieces(h, line, contentType, BLANK);
    assert h[c0 + |contentType|..c0 + |contentType| + 4] == BLANK;
    FoundByMarker(h, BLANK, c0, 0, c0 + |contentType|);
  }

  lemma ContentTypeIsExtracted(h: string, name: string, filename: string, contentType: string)
    requires |h| <= MAX_SIZE && h == FileHeader(name, filename, contentType)
    requires UploadName(name) && SentFilename(filename) && OneLine(contentType)
    ensures ExtractBetween(h, CONTENT_TYPE, BLANK) == contentType
  {
    var line, tail := FileLine(name, filename), CONTENT_TYPE + contentType + BLANK;
    assert h == line + tail && tail[..|CONTENT_TYPE|] == CONTENT_TYPE;
    ContentTypeIsFound(h, name, filename, tail);
    TypeEnds(h, line, contentType);
  }

  lemma {:induction false} DecodePlain(s: string)
    requires '%' !in s && '+' !in s
    ensures Decode(s) == s
  {
    if s == "" {
    } else {
      DecodePlain(s[1..]);
    }
  }

  /** Name and type are read back, and the file name is decoded. */
  lemma FileHeaderIsDecoded(name: string, filename: string, contentType: string)
    requires UploadName(name) && SentFilename(filename) && OneLine(contentType)
    requires |FileHeader(name, filename, contentType)| <= MAX_SIZE
    ensures ParseHeader(FileHeader(name, filename, contentType)) == Header(name, Decode(filename), contentType)
  {
    var line, h := FileLine(name, filename), FileHeader(name, filename, contentType);
    assert h == line + h[|line|..];
    FileLineStarts(name, filename, h[|line|..]);
    NameIsExtracted(h, name);
    FilenameIsExtracted(h, name, filename);
    ContentTypeIsExtracted(h, name, filename, contentType);
  }

  lemma FileHeaderIsParsed(name: string, filename: string, contentType: string)
    requires UploadName(name) && UploadFilename(filename) && OneLine(contentType)
    requires |FileHeader(name, filename, contentType)| <= MAX_SIZE
    ensures ParseHeader(FileHeader(name, filename, contentType)) == Header(name, filename, contentType)
  {
    FileHeaderIsDecoded(name, filename, contentType);
    DecodePlain(filename);
  }

  /** Encoded text has no quotes, no spaces and no line ends. */
  lemma {:induction false} EncodedIsOneWord(s: string)
    requires IsBytes(s)
    ensures '"' !in Encode(s) && ' ' !in Encode(s) && '\r' !in Encode(s)
  {
    if s == "" {
    } else {
      EncodedIsOneWord(s[1..]);
    }
  }

  /** Any file name at all comes back if it was encoded, as the parser assumes. */
  lemma EncodedFilenameIsParsed(name: string, filename: string, contentType: string)
    requires UploadName(name) && IsBytes(filename) && OneLine(contentType)
    requires |FileHeader(name, Encode(filename), contentType)| <= MAX_SIZE
    ensures ParseHeader(FileHeader(name, Encode(filename), contentType)) == Header(name, filename, contentType)
  {
    var sent := Encode(filename);
    EncodedIsOneWord(filename);
    forall i: nat
      ensures !Occurs(sent, BLANK, i) && !Occurs(sent, CONTENT_TYPE, i)
    {
      if Occurs(sent, BLANK, i) {
        OccursAt(sent, BLANK, i, 0);
      }
      if Occurs(sent, CONTENT_TYPE, i) {
        OccursAt(sent, CONTENT_TYPE, i, 13);
      }
    }
    FileHeaderIsDecoded(name, sent, contentType);
    DecodeInvertsEncode(filename);
  }

  // ---------- The end of the header ----------

  /** The first blank line of a part is the one that ends its header, whatever follows. */
  lemma FieldHeaderEnds(name: string, rest: string)
    requires Quotable(name) && |FieldHeader(name) + rest| <= MAX_SIZE
    ensures Find(FieldHeader(name) + rest, BLANK, 0) == |NameLine(name)|
  {
    var line, data := NameLine(name), FieldHeader(name) + rest;
    assert data == line + (BLANK + rest);
    NameLineStarts(name, BLANK + rest);
    assert data[|line|..|line| + 4] == BLANK;
    forall i: nat | i < |line|
      ensures !Occurs(data, BLANK, i)
    {
      NoBlankInNameLine(data, name, i);
    }
    FindIs(data, BLANK, 0, |line|);
  }

  /** No blank line starts in the disposition line when a type follows it. */
  lemma NoBlankInFileLine(h: string, name: string, filename: string, tail: string, i: nat)
    requires h == FileLine(name, filename) + tail && Quotable(name) && Quotable(filename)
    requires tail != "" && tail[0] == 'C' && i < |FileLine(name, filename)|
    ensures !Occurs(h, BLANK, i)
  {
    var start, end := FilenameStart(name), FilenameEnd(name, filename);
    FileLineStarts(name, filename, tail);
    assert h[end + 3] == tail[0];
    if i <= NameEnd(name) {
      NoBlankInNameLine(h, name, i);
    } else if start - 1 <= i <= end {
      NotBetweenQuotes(h, BLANK, i, start, filename);
    } else if Occurs(h, BLANK, i) {
      OccursAt(h, BLANK, i, 0);
      OccursAt(h, BLANK, i, 2);
    }
  }

  /** Nor in "Content-Type: " or in the type. */
  lemma NoBlankInType(h: string, line: string, contentType: string, tail: string, i: nat)
    requires h == line + CONTENT_TYPE + contentType + tail && OneLine(contentType)
    requires |line| <= i < |line| + |CONTENT_TYPE| + |contentType|
    ensures !Occurs(h, BLANK, i)
  {
    FileHeaderPieces(h, line, contentType, tail);
    if Occurs(h, BLANK, i) {
      OccursAt(h, BLANK, i, 0);
    }
  }

  lemma FileHeaderEnds(name: string, filename: string, contentType: string, rest: string)
    requires UploadName(name) && SentFilename(filename) && OneLine(contentType)
    requires |FileHeader(name, filename, contentType) + rest| <= MAX_SIZE
    ensures Find(FileHeader(name, filename, contentType) + rest, BLANK, 0)
            == |FileHeader(name, filename, contentType)| - 4
  {
    var line, data := FileLine(name, filename), FileHeader(name, filename, contentType) + rest;
    var c1, tail := |line| + |CONTENT_TYPE| + |contentType|, CONTENT_TYPE + contentType + (BLANK + rest);
    assert data == line + tail && data == line + CONTENT_TYPE + contentType + (BLANK + rest) && tail[0] == 'C';
    FileHeaderPieces(data, line, contentType, BLANK + rest);
    assert data[c1..c1 + 4] == data[c1..][..4] == BLANK;
    forall i: nat | i < c1
      ensures !Occurs(data, BLANK, i)
    {
      if i < |line| {
        NoBlankInFileLine(data, name, filename, tail, i);
      } else {
        NoBlankInType(data, line, contentType, BLANK + rest, i);
      }
    }
    FindIs(data, BLANK, 0, c1);
  }
}
