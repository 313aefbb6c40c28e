/**
 What a string literal means, said from the writer's side (section 7 of RFC 8259): its characters,
 its short escapes, and its escapes of code points, each of which can be written in several ways.
 */
module JsonEscapes {
  import opened JsonStrings
  import opened JsonText

  // ---------- four hexadecimal digits ----------

  const SMALL_DIGITS := "0123456789abcdef"
  const BIG_DIGITS := "0123456789ABCDEF"

  /** `c` is a way to write the digit `d`. */
  predicate WritesDigit(c: char, d: nat) {
    d < 16 && (c == SMALL_DIGITS[d] || c == BIG_DIGITS[d])
  }

  lemma DigitWritten(c: char, d: nat)
    ensures HexValue(c) == Some(d) <==> WritesDigit(c, d)
  {
    if d < 16 {
      DigitTables(d);
    }
  }

  lemma DigitTables(d: nat)
    requires d < 16
    ensures SMALL_DIGITS[d] as int == (if d < 10 then 48 + d else 87 + d)
    ensures BIG_DIGITS[d] as int == (if d < 10 then 48 + d else 55 + d)
  {
  }

  /** The text begins with four digits that write `v`. */
  predicate WritesHex(t: string, v: nat) {
    |t| >= 4 && v < 65536
    && WritesDigit(t[0], v / 4096) && WritesDigit(t[1], v / 256 % 16)
    && WritesDigit(t[2], v / 16 % 16) && WritesDigit(t[3], v % 16)
  }

  lemma HexWritten(t: string, v: nat)
    requires v > 0
    ensures Hex4(t) == v <==> WritesHex(t, v)
  {
    if WritesHex(t, v) {
      HexRead(t, v);
    }
    if Hex4(t) == v {
      HexWriting(t);
    }
  }

  lemma HexRead(t: string, v: nat)
    requires WritesHex(t, v)
    ensures Hex4(t) == v
  {
    DigitWritten(t[0], v / 4096);
    DigitWritten(t[1], v / 256 % 16);
    DigitWritten(t[2], v / 16 % 16);
    DigitWritten(t[3], v % 16);
    FourDigits(v);
  }

  lemma HexWriting(t: string)
    requires Hex4(t) > 0
    ensures WritesHex(t, Hex4(t))
  {
    HexPlain(t);
    var a, b, c, d := HexValue(t[0]).value, HexValue(t[1]).value, HexValue(t[2]).value, HexValue(t[3]).value;
    DigitWritten(t[0], a);
    DigitWritten(t[1], b);
    DigitWritten(t[2], c);
    DigitWritten(t[3], d);
    DigitsWriting(t, a, b, c, d);
  }

  lemma DigitsWriting(t: string, a: nat, b: nat, c: nat, d: nat)
    requires |t| >= 4 && WritesDigit(t[0], a) && WritesDigit(t[1], b) && WritesDigit(t[2], c) && WritesDigit(t[3], d)
    ensures WritesHex(t, ((a * 16 + b) * 16 + c) * 16 + d)
  {
    FromDigits(a, b, c, d);
  }

  lemma FourDigits(v: nat)
    ensures ((v / 4096 * 16 + v / 256 % 16) * 16 + v / 16 % 16) * 16 + v % 16 == v
  {
    assert v / 16 / 16 == v / 256 && v / 256 / 16 == v / 4096;
  }

  lemma FromDigits(a: nat, b: nat, c: nat, d: nat)
    requires a < 16 && b < 16 && c < 16 && d < 16
    ensures var v := ((a * 16 + b) * 16 + c) * 16 + d;
      v < 65536 && v / 4096 == a && v / 256 % 16 == b && v / 16 % 16 == c && v % 16 == d
  {
  }

  // ---------- code points ----------

  /** Any code point but the halves of pairs. */
  predicate Scalar(v: nat) {
    v < 0x110000 && !(0xD800 <= v < 0xE000)
  }

  /** The two halves of a code point from 10000 (hexadecimal) on: the upper ten bits of what is over
      that, and the lower ten. */
  function High(v: nat): nat
    requires v >= 0x10000
  {
    0xD800 + (v - 0x10000) / 1024
  }

  function Lower10(v: nat): nat
    requires v >= 0x10000
  {
    0xDC00 + (v - 0x10000) % 1024
  }

  /** `e` is an escape of `v`: four digits, or from 10000 (hexadecimal) on four for either half. */
  predicate WritesEscape(e: string, v: nat) {
    Scalar(v)
    && if v < 0x10000 then |e| == 6 && e[..2] == "\\u" && WritesHex(e[2..], v)
      else
        |e| == 12 && e[..2] == "\\u" && e[6..8] == "\\u"
        && WritesHex(e[2..], High(v)) && WritesHex(e[8..], Lower10(v))
  }

  /** What the decoder accepts at a backslash and a "u", and what it takes it for: exactly the escapes
      of a scalar value other than 0, however their digits are written. */
  lemma EscapeExact(b: string, v: nat, n: nat)
    requires |b| >= 2 && b[..2] == "\\u"
    ensures CodePoint(b) == Some((v, n)) <==> v > 0 && n <= |b| && WritesEscape(b[..n], v)
  {
    OneEscape(b, v);
    PairEscape(b, v);
    if n == 6 <= |b| {
      HexPrefix(b, 2, 6);
      assert b[..6][..2] == b[..2];
    } else if n == 12 <= |b| {
      PairPrefix(b, v);
    }
  }

  lemma PairPrefix(b: string, v: nat)
    requires |b| >= 12 && b[..2] == "\\u"
    ensures WritesEscape(b[..12], v) && v >= 0x10000 <==> WritesPair(b, v)
  {
    HexPrefix(b, 2, 12);
    HexPrefix(b, 8, 12);
    assert b[..12][..2] == b[..2] && b[..12][6..8] == [b[6], b[7]];
  }

  lemma HexPrefix(b: string, i: nat, n: nat)
    requires i + 4 <= n <= |b|
    ensures forall v :: WritesHex(b[..n][i..], v) <==> WritesHex(b[i..], v)
  {
    assert b[..n][i..] == b[i..n];
    assert forall k | 0 <= k < 4 :: b[i..n][k] == b[i..][k];
  }

  lemma OneEscape(b: string, v: nat)
    requires |b| >= 2
    ensures CodePoint(b) == Some((v, 6)) <==> v > 0 && Scalar(v) && v < 0x10000 && |b| >= 6 && WritesHex(b[2..], v)
  {
    if v > 0 {
      HexWritten(b[2..], v);
    }
  }

  /** The text begins with a pair of escapes for the two halves of `v`. */
  predicate WritesPair(b: string, v: nat) {
    0x10000 <= v < 0x110000 && WritesHalves(b, High(v), Lower10(v))
  }

  predicate WritesHalves(b: string, high: nat, low: nat) {
    |b| >= 12 && b[6] == '\\' && b[7] == 'u' && WritesHex(b[2..], high) && WritesHex(b[8..], low)
  }

  lemma PairEscape(b: string, v: nat)
    requires |b| >= 2
    ensures CodePoint(b) == Some((v, 12)) <==> WritesPair(b, v)
  {
    if WritesPair(b, v) {
      PairRead(b, v);
    }
    if CodePoint(b) == Some((v, 12)) {
      PairWriting(b);
    }
  }

  lemma PairRead(b: string, v: nat)
    requires WritesPair(b, v)
    ensures CodePoint(b) == Some((v, 12))
  {
    Halves(High(v), Lower10(v), v);
    HalvesRead(b, High(v), Lower10(v));
    PairJoined(b, High(v), Lower10(v));
  }

  lemma HalvesRead(b: string, high: nat, low: nat)
    requires WritesHalves(b, high, low)
    ensures Hex4(b[2..]) == high && Hex4(b[8..]) == low
  {
    HexRead(b[2..], high);
    HexRead(b[8..], low);
  }

  lemma PairWriting(b: string)
    requires |b| >= 2 && CodePoint(b).Some? && CodePoint(b).value.1 == 12
    ensures WritesPair(b, CodePoint(b).value.0)
  {
    var high, low := Hex4(b[2..]), Hex4(b[8..]);
    PairJoined(b, high, low);
    HexPlain(b[8..]);
    HalvesWriting(b);
    Halves(high, low, CodePoint(b).value.0);
  }

  lemma HalvesWriting(b: string)
    requires |b| >= 12 && b[6] == '\\' && b[7] == 'u' && Hex4(b[2..]) > 0 && Hex4(b[8..]) > 0
    ensures WritesHalves(b, Hex4(b[2..]), Hex4(b[8..]))
  {
    HexWriting(b[2..]);
    HexWriting(b[8..]);
  }

  /** When CodePoint takes two escapes, and what for. */
  lemma PairJoined(b: string, high: nat, low: nat)
    requires |b| >= 11 || (|b| >= 2 && CodePoint(b).Some? && CodePoint(b).value.1 == 12)
    requires high == Hex4(b[2..]) && low == Hex4(if |b| >= 8 then b[8..] else "")
    ensures 0xD800 <= high < 0xDC00 && 0xDC00 <= low < 0xE000 && b[6] == '\\' && b[7] == 'u'
      <==> CodePoint(b).Some? && CodePoint(b).value.1 == 12
    ensures CodePoint(b).Some? && CodePoint(b).value.1 == 12 ==>
      |b| >= 11 && CodePoint(b).value.0 == Joined10(high, low)
  {
  }

  function Joined10(high: nat, low: nat): nat {
    0x10000 + (high % 1024) * 1024 + low % 1024
  }

  /** The two halves and the code point. */
  lemma Halves(high: nat, low: nat, v: nat)
    ensures 0xD800 <= high < 0xDC00 && 0xDC00 <= low < 0xE000 && v == Joined10(high, low)
      <==> 0x10000 <= v < 0x110000 && high == High(v) && low == Lower10(v)
  {
    if 0xD800 <= high < 0xDC00 && 0xDC00 <= low < 0xE000 {
      TenBits(high - 0xD800, 54);
      TenBits(low - 0xDC00, 55);
    }
    if v >= 0x10000 {
      var w := v - 0x10000;
      assert w == w / 1024 * 1024 + w % 1024;
      if v < 0x110000 {
        TenBits(w / 1024, 54);
        TenBits(w % 1024, 55);
      }
    }
  }

  lemma TenBits(x: nat, n: nat)
    requires x < 1024
    ensures (n * 1024 + x) % 1024 == x
  {
  }

  // ---------- literals ----------

  /** A part of a literal: a character, a backslash and a character, or an escape of a code point. */
  datatype Part = Raw(c: char) | Short(e: char) | Code(text: string, v: nat) {
    predicate Valid() {
      match this
      case Raw(c) => c != '"' && c != '\\'
      case Short(e) => e != 'u'
      case Code(e, v) => v > 0 && WritesEscape(e, v)
    }

    function Text(): string {
      match this
      case Raw(c) => [c]
      case Short(e) => ['\\', e]
      case Code(e, _) => e
    }

    /** The bytes it stands for. */
    predicate Means(bytes: string) {
      match this
      case Raw(c) => bytes == [c]
      case Short(e) => ShortMeans(e, bytes)
      case Code(_, v) => Utf8Value(bytes) == Some(v)
    }
  }

  const SHORT := "\"\\/bfnrt"
  const CONTROL := [0x22 as char, 0x5C as char, 0x2F as char, 8 as char, 12 as char, 10 as char, 13 as char, 9 as char]

  /** The characters of the short escapes; any other character stands for itself. */
  predicate ShortMeans(e: char, bytes: string) {
    if e in SHORT then exists i | 0 <= i < 8 :: SHORT[i] == e && bytes == [CONTROL[i]] else bytes == [e]
  }

  lemma ShortMeant(e: char)
    ensures ShortMeans(e, [Unescape(e)])
  {
    assert SHORT[0] == '"' && SHORT[1] == '\\' && SHORT[2] == '/' && SHORT[3] == 'b';
    assert SHORT[4] == 'f' && SHORT[5] == 'n' && SHORT[6] == 'r' && SHORT[7] == 't';
    if e in SHORT {
      var i :| 0 <= i < 8 && SHORT[i] == e;
      assert [CONTROL[i]] == [Unescape(e)];
    }
  }

  /** What the printer makes of a character: its short escape if it has one, which the slash does not
      need, an escape of its code if it is another control character, and else the character. */
  lemma CharPrinted(c: char)
    ensures forall i | 0 <= i < 8 :: CONTROL[i] == c && c != '/' ==> EscapeChar(c) == ['\\', SHORT[i]]
    ensures c !in CONTROL && c as int < 32 ==> WritesEscape(EscapeChar(c), c as int)
    ensures c == '/' || (c !in CONTROL && c as int >= 32) ==> EscapeChar(c) == [c]
  {
    assert SHORT[0] == '"' && SHORT[1] == '\\' && SHORT[2] == '/' && SHORT[3] == 'b';
    assert SHORT[4] == 'f' && SHORT[5] == 'n' && SHORT[6] == 'r' && SHORT[7] == 't';
    assert CONTROL[0] == '"' && CONTROL[1] == '\\' && CONTROL[2] == '/' && CONTROL[3] as int == 8;
    assert CONTROL[4] as int == 12 && CONTROL[5] == '\n' && CONTROL[6] == '\r' && CONTROL[7] == '\t';
    if c !in CONTROL && c as int < 32 {
      ControlPrinted(c);
    }
  }

  lemma ControlPrinted(c: char)
    requires c as int < 32 && EscapeChar(c) == "\\u00" + [HexDigit(c as int / 16), HexDigit(c as int % 16)]
    ensures WritesEscape(EscapeChar(c), c as int)
  {
    var e, v := EscapeChar(c), c as int;
    assert e[..2] == "\\u" && e[2..] == ['0', '0', HexDigit(v / 16), HexDigit(v % 16)];
    DigitTables(0);
    DigitTables(v / 16);
    DigitTables(v % 16);
  }

  function Written(parts: seq<Part>): string {
    if parts == [] then "" else parts[0].Text() + Written(parts[1..])
  }

  function Joined(pieces: seq<string>): string {
    if pieces == [] then "" else pieces[0] + Joined(pieces[1..])
  }

  /** One part is a step of the scan and of the decoding. */
  lemma PartDecoded(p: Part, u: string) returns (bytes: string)
    requires p.Valid()
    ensures p.Means(bytes) && Decode(p.Text() + u) == Prepend(bytes, Decode(u))
    ensures Scan(p.Text() + u) == Add(|p.Text()|, Scan(u))
  {
    match p
    case Raw(c) =>
      PlainBack(c, u);
      bytes := [c];
    case Short(e) =>
      ShortBack(e, u);
      ShortMeant(e);
      bytes := [Unescape(e)];
    case Code(e, v) =>
      CodeDecoded(e, v, u);
      Utf8RoundTrip(v);
      bytes := Utf8(v);
  }

  lemma CodeDecoded(e: string, v: nat, u: string)
    requires v > 0 && WritesEscape(e, v)
    ensures Decode(e + u) == Prepend(Utf8(v), Decode(u)) && Scan(e + u) == Add(|e|, Scan(u))
  {
    var b := e + u;
    assert b[..|e|] == e && b[|e|..] == u && b[..2] == e[..2] == "\\u";
    assert b[0] == b[..2][0] && b[1] == b[..2][1];
    EscapeExact(b, v, |e|);
    EscapeScanned(b);
    if |e| == 12 {
      assert b[6] == b[..12][6..8][0];
      PairWriting(b);
      HalvesRead(b, High(v), Lower10(v));
      PairScanned(b);
    }
  }

  lemma EscapeScanned(b: string)
    requires |b| >= 6 && b[0] == '\\' && Hex4(b[2..]) > 0
    ensures Scan(b) == Add(6, Scan(b[6..]))
  {
    HexPlain(b[2..]);
    HexScanned(b);
  }

  lemma HexScanned(b: string)
    requires |b| >= 6 && b[0] == '\\' && forall i | 0 <= i < 4 :: HexValue(b[2..][i]).Some?
    ensures Scan(b) == Add(6, Scan(b[6..]))
  {
    ScanHex(b[2..]);
    assert b[2..][4..] == b[6..];
  }

  lemma PairScanned(b: string)
    requires |b| >= 12 && b[6] == '\\' && Hex4(b[8..]) > 0 && Scan(b) == Add(6, Scan(b[6..]))
    ensures Scan(b) == Add(12, Scan(b[12..]))
  {
    assert b[6..][2..] == b[8..] && b[6..][6..] == b[12..];
    EscapeScanned(b[6..]);
  }

  /** Every literal made of such parts parses to the bytes they stand for, one after the other, and
      the parser stops behind the closing quote. */
  lemma LiteralMeans(parts: seq<Part>, u: string) returns (bytes: seq<string>)
    requires forall p <- parts :: p.Valid()
    ensures |bytes| == |parts| && forall i | 0 <= i < |parts| :: parts[i].Means(bytes[i])
    ensures ParseString("\"" + Written(parts) + "\"" + u) == Some((Joined(bytes), u))
  {
    bytes := PartsDecode(parts);
    PartsScan(parts, "\"" + u);
    QuoteSlices(Written(parts), u);
  }

  lemma {:induction false} PartsDecode(parts: seq<Part>) returns (bytes: seq<string>)
    requires forall p <- parts :: p.Valid()
    ensures |bytes| == |parts| && forall i | 0 <= i < |parts| :: parts[i].Means(bytes[i])
    ensures Decode(Written(parts)) == Some(Joined(bytes))
  {
    if parts == [] {
      bytes := [];
    } else {
      var rest := PartsDecode(parts[1..]);
      var first := PartDecoded(parts[0], Written(parts[1..]));
      bytes := [first] + rest;
    }
  }

  lemma {:induction false} PartsScan(parts: seq<Part>, u: string)
    requires (forall p <- parts :: p.Valid()) && u != "" && u[0] == '"'
    ensures Scan(Written(parts) + u) == Some(|Written(parts)|)
  {
    if parts == [] {
      assert Written(parts) + u == u;
    } else {
      PartsScan(parts[1..], u);
      var bytes := PartDecoded(parts[0], Written(parts[1..]) + u);
      Group3(parts[0].Text(), Written(parts[1..]), u);
    }
  }

  // ---------- nothing else is accepted ----------

  /** The part that a decoded text begins with. */
  lemma FirstPart(b: string, w: string) returns (p: Part, n: nat)
    requires b != "" && Decode(b).Some? && Scan(b + w) == Some(|b|)
    ensures 0 < n <= |b| && p.Valid() && p.Text() == b[..n]
  {
    assert (b + w)[0] == b[0];
    if b[0] != '\\' {
      p, n := Raw(b[0]), 1;
    } else if b[1] == 'u' {
      assert b[..2] == "\\u";
      var v := CodePoint(b).value.0;
      n := CodePoint(b).value.1;
      EscapeExact(b, v, n);
      p := Code(b[..n], v);
    } else {
      p, n := Short(b[1]), 2;
      assert b[..2] == ['\\', b[1]];
    }
  }

  lemma {:induction false} PartsOf(b: string, w: string) returns (parts: seq<Part>)
    requires Decode(b).Some? && Scan(b + w) == Some(|b|)
    ensures (forall p <- parts :: p.Valid()) && Written(parts) == b
    decreases |b|
  {
    if b == "" {
      parts := [];
    } else {
      var p, n := FirstPart(b, w);
      PartOff(p, b, n, w);
      parts := PartsOf(b[n..], w);
      parts := [p] + parts;
      assert b == p.Text() + b[n..];
    }
  }

  lemma PartOff(p: Part, b: string, n: nat, w: string)
    requires 0 < n <= |b| && p.Valid() && p.Text() == b[..n] && Decode(b).Some? && Scan(b + w) == Some(|b|)
    ensures Decode(b[n..]).Some? && Scan(b[n..] + w) == Some(|b[n..]|)
  {
    assert b == p.Text() + b[n..];
    Group3(p.Text(), b[n..], w);
    var bytes := PartDecoded(p, b[n..]);
    bytes := PartDecoded(p, b[n..] + w);
  }

  /** A literal that parses is made of such parts; only its closing quote may be missing, at the end of
      the text. */
  lemma LiteralOnly(t: string) returns (parts: seq<Part>)
    requires ParseString(t).Some?
    ensures forall p <- parts :: p.Valid()
    ensures var u := ParseString(t).value.1;
      t == "\"" + Written(parts) + "\"" + u || (t == "\"" + Written(parts) && u == "")
  {
    var body, n := t[1..], Scan(t[1..]).value;
    assert body == body[..n] + body[n..];
    parts := PartsOf(body[..n], body[n..]);
    ScannedCut(t, n);
  }

  /** The literal that the scan ends in front of the closing quote or at the end of the text. */
  lemma ScannedCut(t: string, n: nat)
    requires t != "" && t[0] == '"' && n <= |t[1..]| && (n < |t[1..]| ==> t[1..][n] == '"')
    ensures var rest := t[1..][n..];
      var u := if At(rest, 0) == '"' then rest[1..] else rest;
      t == "\"" + t[1..][..n] + "\"" + u || (t == "\"" + t[1..][..n] && u == "")
  {
    var body := t[1..];
    if n < |body| {
      assert body[n..] == "\"" + body[n..][1..];
      assert t == "\"" + (body[..n] + body[n..]);
      Group4("\"", body[..n], "\"", body[n..][1..]);
    } else {
      assert body[..n] == body && body[n..] == "";
    }
  }
}
