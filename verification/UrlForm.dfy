/**
  cgicc's urlencoded forms: form_urlencode, form_urldecode and the
  application/x-www-form-urlencoded branch of parseFormInput.
 */
module UrlForm {

  /** A string whose characters are bytes, which is what std::string holds. */
  predicate IsBytes(s: string) {
    forall i | 0 <= i < |s| :: s[i] as int < 256
  }

  lemma Assoc<T>(a: seq<T>, b: seq<T>, c: seq<T>)
    ensures a + (b + c) == a + b + c
  {
  }

  // ---------- Single characters ----------

  function HexDigit(n: int): (c: char)
    requires 0 <= n < 16
  {
    if n > 9 then ('A' as int - 10 + n) as char else ('0' as int + n) as char
  }

  function CharToHex(c: char): (s: string)
    requires c as int < 256
    ensures |s| == 2
  {
    [HexDigit(c as int / 16), HexDigit(c as int % 16)]
  }

  predicate IsHexDigit(c: char) {
    '0' <= c <= '9' || 'A' <= c <= 'F' || 'a' <= c <= 'f'
  }

  /** `x & 0xDF` for a byte: the case bit is cleared. */
  function ClearCaseBit(x: int): int
    requires 0 <= x < 256
  {
    if x / 32 % 2 == 1 then x - 32 else x
  }

  function DigitValue(c: char): (n: int)
    requires IsHexDigit(c)
    ensures 0 <= n < 16
  {
    if c >= 'A' then ClearCaseBit(c as int) - 'A' as int + 10 else c as int - '0' as int
  }

  function HexToChar(first: char, second: char): (c: char)
    requires IsHexDigit(first) && IsHexDigit(second)
    ensures c as int < 256
  {
    (DigitValue(first) * 16 + DigitValue(second)) as char
  }

  predicate IsUnreserved(c: char) {
    || 'A' <= c <= 'Z' || 'a' <= c <= 'z' || '0' <= c <= '9'
    || c == '-' || c == '_' || c == '.' || c == '!' || c == '~' || c == '*' || c == '\'' || c == '(' || c == ')'
  }

  function EncodeChar(c: char): (s: string)
    requires c as int < 256
    ensures |s| > 0
  {
    if c == ' ' then "+" else if IsUnreserved(c) then [c] else "%" + CharToHex(c)
  }

  /** A read at the end of a std::string finds its terminating NUL. */
  function CharAt(s: string, i: nat): char {
    if i < |s| then s[i] else '\0'
  }

  /** The decoder consumes an escape here: a percent sign and two hexadecimal digits. */
  predicate IsEscape(s: string) {
    |s| >= 2 && s[0] == '%' && IsHexDigit(CharAt(s, 1)) && IsHexDigit(CharAt(s, 2))
  }

  // ---------- Strings ----------

  function Encode(s: string): string
    requires IsBytes(s)
  {
    if s == "" then "" else EncodeChar(s[0]) + Encode(s[1..])
  }

  /** An ill-formed percent sign is passed through. */
  function Decode(s: string): string
    decreases |s|
  {
    if s == "" then ""
    else if s[0] == '+' then " " + Decode(s[1..])
    else if IsEscape(s) then [HexToChar(s[1], s[2])] + Decode(s[3..])
    else [s[0]] + Decode(s[1..])
  }

  lemma HexRoundTrip(c: char)
    requires c as int < 256
    ensures var h := CharToHex(c);
            IsHexDigit(h[0]) && IsHexDigit(h[1]) && HexToChar(h[0], h[1]) == c
  {
    DigitRoundTrip(c as int / 16);
    DigitRoundTrip(c as int % 16);
  }

  lemma DigitRoundTrip(n: int)
    requires 0 <= n < 16
    ensures IsHexDigit(HexDigit(n)) && DigitValue(HexDigit(n)) == n
  {
  }

  lemma DecodeOne(c: char, rest: string)
    requires c as int < 256
    ensures Decode(EncodeChar(c) + rest) == [c] + Decode(rest)
  {
    var s := EncodeChar(c) + rest;
    if c == ' ' || IsUnreserved(c) {
      assert s[1..] == rest;
    } else {
      HexRoundTrip(c);
      var h := CharToHex(c);
      assert s[0] == '%' && s[1] == h[0] && s[2] == h[1] && s[3..] == rest;
    }
  }

  /** Decoding inverts encoding, for every byte string. */
  lemma {:induction false} DecodeInvertsEncode(s: string)
    requires IsBytes(s)
    ensures Decode(Encode(s)) == s
  {
    if s == "" {
    } else {
      DecodeOne(s[0], Encode(s[1..]));
      DecodeInvertsEncode(s[1..]);
    }
  }

  /** Encoded text has no separators in it. */
  lemma {:induction false} EncodedHasNoSeparator(s: string)
    requires IsBytes(s)
    ensures '=' !in Encode(s) && '&' !in Encode(s)
  {
    if s == "" {
    } else {
      EncodedHasNoSeparator(s[1..]);
    }
  }

  // ---------- What an encoding looks like ----------

  /** The characters that stand for themselves. */
  predicate StandsForItself(c: char) {
    'A' <= c <= 'Z' || 'a' <= c <= 'z' || '0' <= c <= '9' || c in "-_.!~*'()"
  }

  const HEX := "0123456789ABCDEF"

  /** One character: itself, '+' for a space, or '%' and its two hexadecimal digits in upper case. */
  lemma EncodedCharacter(c: char)
    requires c as int < 256
    ensures StandsForItself(c) ==> Encode([c]) == [c]
    ensures c == ' ' ==> Encode([c]) == "+"
    ensures !StandsForItself(c) && c != ' ' ==> Encode([c]) == ['%', HEX[c as int / 16], HEX[c as int % 16]]
  {
    assert [c][1..] == "";
    assert EncodeChar(c) + "" == EncodeChar(c);
  }

  /** What a first character contributes does not depend on what follows. */
  lemma EncodeHead(c: char, x: string, y: string) returns (front: string)
    requires c as int < 256 && IsBytes(x) && IsBytes(y)
    ensures Encode([c] + x) == front + Encode(x) && Encode([c] + y) == front + Encode(y)
  {
    front := EncodeChar(c);
    assert ([c] + x)[1..] == x && ([c] + y)[1..] == y;
  }

  /** Text is encoded character by character. */
  lemma {:induction false} EncodeConcat(a: string, b: string)
    requires IsBytes(a) && IsBytes(b)
    ensures Encode(a + b) == Encode(a) + Encode(b)
    decreases |a|
  {
    if a == "" {
      assert a + b == b;
    } else {
      var c, rest := a[0], a[1..];
      assert a == [c] + rest && a + b == [c] + (rest + b);
      var front := EncodeHead(c, rest, rest + b);
      EncodeConcat(rest, b);
      Assoc(front, Encode(rest), Encode(b));
    }
  }

  /** The alphabet of encoded text. */
  lemma {:induction false} EncodedAlphabet(s: string)
    requires IsBytes(s)
    ensures forall c <- Encode(s) :: StandsForItself(c) || c == '+' || c == '%'
  {
    if s == "" {
    } else {
      EncodedAlphabet(s[1..]);
    }
  }

  /** Text of unreserved characters is its own encoding. */
  lemma {:induction false} UnreservedIsUnchanged(s: string)
    requires forall i | 0 <= i < |s| :: StandsForItself(s[i])
    ensures IsBytes(s) && Encode(s) == s
  {
    if s == "" {
    } else {
      UnreservedIsUnchanged(s[1..]);
    }
  }

  // ---------- What else decodes ----------

  /** The value of an escape does not depend on the case of its digits. */
  lemma EscapeHasNoCase(n: nat, high: char, low: char, rest: string)
    requires n < 256
    requires high == "0123456789ABCDEF"[n / 16] || high == "0123456789abcdef"[n / 16]
    requires low == "0123456789ABCDEF"[n % 16] || low == "0123456789abcdef"[n % 16]
    ensures Decode(['%', high, low] + rest) == [n as char] + Decode(rest)
  {
    var s := ['%', high, low] + rest;
    HexValue(high, n / 16);
    HexValue(low, n % 16);
    assert s[3..] == rest && s[1] == high && s[2] == low;
  }

  lemma HexValue(c: char, n: nat)
    requires n < 16 && (c == "0123456789ABCDEF"[n] || c == "0123456789abcdef"[n])
    ensures IsHexDigit(c) && DigitValue(c) == n
  {
  }

  /** '+' is a space, and every other character but a percent sign stands for itself. */
  lemma DecodedCharacter(c: char, rest: string)
    ensures c == '+' ==> Decode([c] + rest) == " " + Decode(rest)
    ensures c != '+' && c != '%' ==> Decode([c] + rest) == [c] + Decode(rest)
  {
    assert ([c] + rest)[1..] == rest;
  }

  /** And so does a percent sign that two hexadecimal digits do not follow. */
  lemma LonePercent(rest: string)
    requires |rest| < 2 || !IsHexDigit(rest[0]) || !IsHexDigit(rest[1])
    ensures Decode("%" + rest) == "%" + Decode(rest)
  {
    assert ("%" + rest)[1..] == rest;
  }

  method FormUrlEncode(src: string) returns (result: string)
    requires IsBytes(src)
    ensures result == Encode(src)
  {
    result := "";
    for i := 0 to |src|
      invariant result + Encode(src[i..]) == Encode(src)
    {
      var c := src[i];
      Assoc(result, EncodeChar(c), Encode(src[i + 1..]));
      assert src[i..][1..] == src[i + 1..];
      if c == ' ' {
        result := result + "+";
      } else if IsUnreserved(c) {
        result := result + [c];
      } else {
        Assoc(result, "%", CharToHex(c));
        result := result + "%" + CharToHex(c);
      }
    }
  }

  /** How far one round of the decoder advances, and what it appends. */
  function Width(s: string): nat
    requires s != ""
  {
    if IsEscape(s) then 3 else 1
  }

  function DecodeFront(s: string): char
    requires s != ""
  {
    if s[0] == '+' then ' ' else if IsEscape(s) then HexToChar(s[1], s[2]) else s[0]
  }

  lemma DecodeRound(src: string, i: nat)
    requires i < |src|
    ensures var s := src[i..];
            Width(s) <= |s| && Decode(s) == [DecodeFront(s)] + Decode(src[i + Width(s)..])
  {
    var s := src[i..];
    assert s[1..] == src[i + 1..];
    if IsEscape(s) {
      assert s[3..] == src[i + 3..];
    }
  }

  method FormUrlDecode(src: string) returns (result: string)
    ensures result == Decode(src)
  {
    result := "";
    var i := 0;
    while i < |src|
      invariant 0 <= i <= |src|
      invariant result + Decode(src[i..]) == Decode(src)
    {
      ghost var s := src[i..];
      DecodeRound(src, i);
      Assoc(result, [DecodeFront(s)], Decode(src[i + Width(s)..]));
      if src[i] == '+' {
        result := result + " ";
      } else if src[i] == '%' && |src| - i >= 2
             && IsHexDigit(CharAt(src, i + 1)) && IsHexDigit(CharAt(src, i + 2)) {
        var first := src[i + 1];
        i := i + 2;
        result := result + [HexToChar(first, src[i])];
      } else {
        result := result + [src[i]];
      }
      i := i + 1;
    }
  }

  // ---------- The form parser ----------

  datatype Entry = Entry(name: string, value: string)

  /** `pos` is the first position of `c` from `from` on; the length of the string stands for npos. */
  ghost predicate IsFirst(s: string, c: char, from: nat, pos: nat) {
    from <= pos <= |s| && (pos < |s| ==> s[pos] == c) && forall k | from <= k < pos :: s[k] != c
  }

  /** find_first_of for one character. */
  method FindFirstOf(s: string, c: char, from: nat) returns (pos: nat)
    requires from <= |s|
    ensures IsFirst(s, c, from, pos)
  {
    pos := from;
    while pos < |s| && s[pos] != c
      invariant from <= pos <= |s| && forall k | from <= k < pos :: s[k] != c
    {
      pos := pos + 1;
    }
  }

  lemma FirstIsUnique(s: string, c: char, from: nat, pos: nat, other: nat)
    requires IsFirst(s, c, from, pos) && IsFirst(s, c, from, other)
    ensures pos == other
  {
  }

  /** One round of the parser finds `p` at `oldPos`: its name runs to the next '=', its value to the next '&'. */
  ghost predicate PairAt(data: string, oldPos: nat, p: Entry) {
    var eq := oldPos + |p.name|;
    var amp := eq + 1 + |p.value|;
    && amp <= |data| && IsFirst(data, '=', oldPos, eq) && IsFirst(data, '&', eq + 1, amp)
    && data[oldPos..eq] == p.name && data[eq + 1..amp] == p.value
  }

  /** Where its value ends. */
  ghost function EndOf(oldPos: nat, p: Entry): nat {
    oldPos + |p.name| + 1 + |p.value|
  }

  /** The raw pairs that the parser finds from `oldPos` on; text without '=' is ignored. */
  ghost predicate SplitsInto(data: string, oldPos: nat, pairs: seq<Entry>)
    requires oldPos <= |data|
    decreases |pairs|
  {
    if pairs == [] then IsFirst(data, '=', oldPos, |data|)
    else
      && PairAt(data, oldPos, pairs[0])
      && var amp := EndOf(oldPos, pairs[0]);
      if amp == |data| then |pairs| == 1 else SplitsInto(data, amp + 1, pairs[1..])
  }

  /** A pair that reaches the end is the whole split. */
  lemma SplitsLast(data: string, oldPos: nat, p: Entry)
    requires oldPos <= |data| && PairAt(data, oldPos, p) && EndOf(oldPos, p) == |data|
    ensures SplitsInto(data, oldPos, [p])
  {
  }

  /** A pair in front of an '&' is the first of the split. */
  lemma SplitsMore(data: string, oldPos: nat, pairs: seq<Entry>, amp: nat)
    requires oldPos <= |data| && pairs != [] && PairAt(data, oldPos, pairs[0])
    requires amp == EndOf(oldPos, pairs[0]) < |data| && SplitsInto(data, amp + 1, pairs[1..])
    ensures SplitsInto(data, oldPos, pairs)
  {
  }

  lemma PairIsUnique(data: string, oldPos: nat, p: Entry, q: Entry)
    requires PairAt(data, oldPos, p) && PairAt(data, oldPos, q)
    ensures p == q
  {
    var eq := oldPos + |p.name|;
    FirstIsUnique(data, '=', oldPos, eq, oldPos + |q.name|);
    FirstIsUnique(data, '&', eq + 1, eq + 1 + |p.value|, eq + 1 + |q.value|);
  }

  lemma PairOrNothing(data: string, oldPos: nat, p: Entry)
    requires PairAt(data, oldPos, p)
    ensures !IsFirst(data, '=', oldPos, |data|)
  {
  }

  /** There is only one way to split. */
  lemma {:induction false} SplitIsUnique(data: string, oldPos: nat, a: seq<Entry>, b: seq<Entry>)
    requires oldPos <= |data| && SplitsInto(data, oldPos, a) && SplitsInto(data, oldPos, b)
    ensures a == b
    decreases |a|
  {
    if a == [] {
    } else {
      PairOrNothing(data, oldPos, a[0]);
      PairIsUnique(data, oldPos, a[0], b[0]);
      assert a == [a[0]] + a[1..] && b == [b[0]] + b[1..];
      var amp := EndOf(oldPos, a[0]);
      if amp < |data| {
        SplitIsUnique(data, amp + 1, a[1..], b[1..]);
      }
    }
  }

  ghost predicate Separable(p: Entry) {
    '=' !in p.name && '&' !in p.value
  }

  /** The text that section 17.13.4.1 of HTML 4.01 prescribes for a list of encoded pairs. */
  ghost function Join(pairs: seq<Entry>): string {
    if pairs == [] then ""
    else if |pairs| == 1 then pairs[0].name + "=" + pairs[0].value
    else pairs[0].name + "=" + pairs[0].value + "&" + Join(pairs[1..])
  }

  lemma {:induction false} JoinSplits(data: string, before: string, pairs: seq<Entry>)
    requires data == before + Join(pairs) && forall i | 0 <= i < |pairs| :: Separable(pairs[i])
    ensures SplitsInto(data, |before|, pairs)
    decreases |pairs|
  {
    if |pairs| <= 1 {
      ShortJoinSplits(data, before, pairs);
    } else {
      var front := Front(before, pairs[0]);
      JoinHead(before, pairs);
      JoinSplits(data, front, pairs[1..]);
      JoinSplitsMore(data, before, pairs);
    }
  }

  lemma ShortJoinSplits(data: string, before: string, pairs: seq<Entry>)
    requires |pairs| <= 1 && data == before + Join(pairs) && forall i | 0 <= i < |pairs| :: Separable(pairs[i])
    ensures SplitsInto(data, |before|, pairs)
  {
    if |pairs| == 1 {
      OnlyPairSplits(data, before, pairs[0]);
      assert pairs == [pairs[0]];
    }
  }

  /** The text up to the '&' behind a pair. */
  ghost function Front(before: string, p: Entry): (front: string)
    ensures |front| == EndOf(|before|, p) + 1
  {
    before + p.name + "=" + p.value + "&"
  }

  lemma JoinSplitsMore(data: string, before: string, pairs: seq<Entry>)
    requires |pairs| > 1 && Separable(pairs[0]) && data == Front(before, pairs[0]) + Join(pairs[1..])
    requires SplitsInto(data, EndOf(|before|, pairs[0]) + 1, pairs[1..])
    ensures SplitsInto(data, |before|, pairs)
  {
    FirstPairSplits(data, before, pairs[0], Join(pairs[1..]), pairs[1..]);
    assert pairs == [pairs[0]] + pairs[1..];
  }

  lemma OnlyPairSplits(data: string, before: string, p: Entry)
    requires Separable(p) && data == before + (p.name + "=" + p.value)
    ensures SplitsInto(data, |before|, [p])
  {
    assert data == before + p.name + "=" + p.value + "";
    PairStands(data, before, p, "");
    SplitsLast(data, |before|, p);
  }

  lemma FirstPairSplits(data: string, before: string, p: Entry, tail: string, rest: seq<Entry>)
    requires Separable(p) && data == before + p.name + "=" + p.value + "&" + tail
    requires SplitsInto(data, EndOf(|before|, p) + 1, rest)
    ensures SplitsInto(data, |before|, [p] + rest)
  {
    assert PairAt(data, |before|, p) by {
      var text := before + p.name + "=" + p.value;
      assert data == text + ("&" + tail) by { Assoc(text, "&", tail); }
      PairStands(data, before, p, "&" + tail);
    }
    var pairs := [p] + rest;
    assert pairs[1..] == rest;
    SplitsMore(data, |before|, pairs, EndOf(|before|, p));
  }

  lemma JoinHead(before: string, pairs: seq<Entry>)
    requires |pairs| > 1
    ensures before + Join(pairs) == Front(before, pairs[0]) + Join(pairs[1..])
  {
    Regroup(before, pairs[0].name, pairs[0].value, Join(pairs[1..]));
  }

  lemma Regroup(a: string, n: string, v: string, t: string)
    ensures a + (n + "=" + v + "&" + t) == a + n + "=" + v + "&" + t
  {
  }

  /** The pieces of a text stand where their lengths put them. */
  lemma PieceStands(data: string, a: string, b: string, c: string)
    requires data == a + b + c
    ensures data[|a|..|a| + |b|] == b
    ensures forall k | |a| <= k < |a| + |b| :: data[k] == b[k - |a|]
    ensures c != "" ==> data[|a| + |b|] == c[0]
  {
  }

  /** A separable pair between `before` and an '&' or the end is found where it stands. */
  lemma PairStands(data: string, before: string, p: Entry, tail: string)
    requires data == before + p.name + "=" + p.value + tail
    requires Separable(p) && (tail == "" || tail[0] == '&')
    ensures EndOf(|before|, p) == |data| - |tail| && PairAt(data, |before|, p)
  {
    var eq := |before| + |p.name|;
    PieceStands(data, before + p.name + "=", p.value, tail);
    assert data[..eq + 1] == before + p.name + "=";
    PieceStands(data[..eq + 1], before, p.name, "=");
    assert data[|before|..eq] == data[..eq + 1][|before|..eq];
    assert forall k | 0 <= k <= eq :: data[k] == data[..eq + 1][k];
  }

  // ---------- Decoded pairs ----------

  ghost function DecodeAll(pairs: seq<Entry>): (r: seq<Entry>)
    ensures |r| == |pairs|
  {
    seq(|pairs|, i requires 0 <= i < |pairs| => Entry(Decode(pairs[i].name), Decode(pairs[i].value)))
  }

  lemma DecodeAllSnoc(pairs: seq<Entry>, p: Entry)
    ensures DecodeAll(pairs + [p]) == DecodeAll(pairs) + [Entry(Decode(p.name), Decode(p.value))]
  {
  }

  ghost predicate AreBytes(pairs: seq<Entry>) {
    forall i | 0 <= i < |pairs| :: IsBytes(pairs[i].name) && IsBytes(pairs[i].value)
  }

  ghost function EncodeAll(pairs: seq<Entry>): (r: seq<Entry>)
    requires AreBytes(pairs)
    ensures |r| == |pairs|
  {
    seq(|pairs|, i requires 0 <= i < |pairs| => Entry(Encode(pairs[i].name), Encode(pairs[i].value)))
  }

  /** `entries` is what the urlencoded branch of parseFormInput stores for `data`. */
  ghost predicate ParsesTo(data: string, entries: seq<Entry>) {
    exists raw :: SplitsInto(data, 0, raw) && entries == DecodeAll(raw)
  }

  /**
    Parsing inverts rendering, for every list of pairs of byte strings, empty ones included: the text of
    the encoded pairs parses to the pairs and to nothing else.
   */
  lemma ParseInvertsRender(pairs: seq<Entry>, entries: seq<Entry>)
    requires AreBytes(pairs)
    ensures ParsesTo(Join(EncodeAll(pairs)), entries) <==> entries == pairs
  {
    var encoded := EncodeAll(pairs);
    var data := Join(encoded);
    forall i | 0 <= i < |pairs|
      ensures Separable(encoded[i])
      ensures Decode(encoded[i].name) == pairs[i].name && Decode(encoded[i].value) == pairs[i].value
    {
      EncodedHasNoSeparator(pairs[i].name);
      EncodedHasNoSeparator(pairs[i].value);
      DecodeInvertsEncode(pairs[i].name);
      DecodeInvertsEncode(pairs[i].value);
    }
    assert "" + data == data;
    JoinSplits(data, "", encoded);
    assert DecodeAll(encoded) == pairs;
    forall raw | SplitsInto(data, 0, raw)
      ensures raw == encoded
    {
      SplitIsUnique(data, 0, raw, encoded);
    }
  }

  /** A text character by character: '=' ends a name, '&' a value. */
  lemma ParsedText()
    ensures ParsesTo("a=1&b+c=%41&", [Entry("a", "1"), Entry("b c", "A")])
  {
    var raw := [Entry("a", "1"), Entry("b+c", "%41")];
    var text := "a=1&b+c=%41&";
    PairsOfText();
    assert raw[1..] == [raw[1]] && [raw[1]][1..] == [];
    assert SplitsInto(text, 12, []);
    SplitsMore(text, 4, [raw[1]], 11);
    SplitsMore(text, 0, raw, 3);
    DecodeABC();
    assert DecodeAll(raw) == [Entry("a", "1"), Entry("b c", "A")];
  }

  lemma PairsOfText()
    ensures PairAt("a=1&b+c=%41&", 0, Entry("a", "1")) && PairAt("a=1&b+c=%41&", 4, Entry("b+c", "%41"))
  {
  }

  /** A value may contain '=', and what is left without '=' is ignored. */
  lemma ParsedRemainder()
    ensures ParsesTo("a=b=c&d", [Entry("a", "b=c")])
  {
    var text, pairs := "a=b=c&d", [Entry("a", "b=c")];
    assert PairAt(text, 0, pairs[0]) && pairs[1..] == [];
    assert SplitsInto(text, 6, []);
    SplitsMore(text, 0, pairs, 5);
    DecodeABC();
    assert DecodeAll(pairs) == pairs;
  }

  lemma DecodeABC()
    ensures Decode("a") == "a" && Decode("1") == "1" && Decode("b+c") == "b c" && Decode("%41") == "A"
    ensures Decode("b=c") == "b=c"
  {
    DecodedCharacter('a', "");
    DecodedCharacter('1', "");
    DecodedCharacter('c', "");
    DecodedCharacter('+', "c");
    DecodedCharacter('=', "c");
    DecodedCharacter('b', "+c");
    DecodedCharacter('b', "=c");
    assert ['+'] + "c" == "+c" && ['b'] + "+c" == "b+c" && ['='] + "c" == "=c" && ['b'] + "=c" == "b=c";
    assert ['a'] + "" == "a" && ['1'] + "" == "1" && ['c'] + "" == "c";
    EscapeHasNoCase(65, '4', '1', "");
    assert ['%', '4', '1'] + "" == "%41";
  }

  /** Once more pairs are split off, what was found so far is the front of the whole. */
  ghost predicate Continues(data: string, oldPos: nat, raw: seq<Entry>) {
    oldPos <= |data| && forall rest :: SplitsInto(data, oldPos, rest) ==> SplitsInto(data, 0, raw + rest)
  }

  lemma NothingFoundYet(data: string)
    ensures Continues(data, 0, [])
  {
    assert forall rest: seq<Entry> :: [] + rest == rest;
  }

  lemma NothingMore(data: string, oldPos: nat, raw: seq<Entry>)
    requires Continues(data, oldPos, raw) && IsFirst(data, '=', oldPos, |data|)
    ensures ParsesTo(data, DecodeAll(raw))
  {
    assert SplitsInto(data, oldPos, []);
    assert raw + [] == raw;
  }

  /** One round of the parser, whose '=' stands at `eq`. */
  method TakePair(data: string, oldPos: nat, eq: nat) returns (entry: Entry, amp: nat, ghost pair: Entry)
    requires IsFirst(data, '=', oldPos, eq) && eq < |data|
    ensures PairAt(data, oldPos, pair) && amp == EndOf(oldPos, pair)
    ensures entry == Entry(Decode(pair.name), Decode(pair.value))
  {
    var name := FormUrlDecode(data[oldPos..eq]);
    amp := FindFirstOf(data, '&', eq + 1);
    var value := FormUrlDecode(data[eq + 1..amp]);
    entry := Entry(name, value);
    pair := Entry(data[oldPos..eq], data[eq + 1..amp]);
  }

  /** What has been stored so far, and that it is the front of what the text parses to. */
  ghost predicate Progress(data: string, oldPos: nat, raw: seq<Entry>, formData: seq<Entry>) {
    formData == DecodeAll(raw) && Continues(data, oldPos, raw)
  }

  /** One round of the loop; it is the last one if no '=' or no '&' is found. */
  method NextPair(data: string, oldPos: nat, formData: seq<Entry>, ghost raw: seq<Entry>)
    returns (stored: seq<Entry>, next: nat, done: bool, ghost more: seq<Entry>)
    requires Progress(data, oldPos, raw, formData)
    ensures if done then ParsesTo(data, stored) else Progress(data, next, more, stored)
    ensures !done ==> oldPos < next <= |data|
  {
    var eq := FindFirstOf(data, '=', oldPos);
    if eq == |data| {
      NothingMore(data, oldPos, raw);
      stored, next, done, more := formData, oldPos, true, raw;
    } else {
      var entry, amp, pair := TakePair(data, oldPos, eq);
      more := raw + [pair];
      Extend(data, oldPos, raw, pair, amp, more);
      DecodeAllSnoc(raw, pair);
      stored, next, done := formData + [entry], amp + 1, amp == |data|;
    }
  }

  /** The urlencoded branch of parseFormInput. */
  method ParseFormInput(data: string) returns (formData: seq<Entry>)
    ensures ParsesTo(data, formData)
  {
    formData := [];
    if data == "" {
      NothingFoundYet(data);
      NothingMore(data, 0, []);
      return;
    }
    var oldPos, done := 0, false;
    ghost var raw: seq<Entry> := [];
    NothingFoundYet(data);
    while !done
      invariant if done then ParsesTo(data, formData) else Progress(data, oldPos, raw, formData)
      decreases !done, |data| - oldPos
    {
      formData, oldPos, done, raw := NextPair(data, oldPos, formData, raw);
    }
  }

  lemma Extend(data: string, oldPos: nat, raw: seq<Entry>, p: Entry, amp: nat, more: seq<Entry>)
    requires Continues(data, oldPos, raw) && PairAt(data, oldPos, p) && amp == EndOf(oldPos, p) && more == raw + [p]
    ensures amp == |data| ==> ParsesTo(data, DecodeAll(more))
    ensures amp < |data| ==> Continues(data, amp + 1, more)
  {
    if amp == |data| {
      SplitsLast(data, oldPos, p);
      assert SplitsInto(data, 0, more);
    } else {
      forall rest | SplitsInto(data, amp + 1, rest)
        ensures SplitsInto(data, 0, more + rest)
      {
        var pairs := [p] + rest;
        assert pairs[1..] == rest;
        SplitsMore(data, oldPos, pairs, amp);
        Assoc(raw, [p], rest);
      }
    }
  }
}
