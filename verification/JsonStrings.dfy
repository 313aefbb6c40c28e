/**
 String literals and integers of cJSON: escaping, decoding, digits.

 A C string is a `string` without NUL whose characters are bytes; a `char *` into a text
 is the part of the text still ahead.  Reading at the end of a text gives NUL.
 */
module JsonStrings {
  datatype Option<+T> = None | Some(value: T)

  /** Bytes, none of them NUL. */
  predicate CString(s: string) {
    forall i | 0 <= i < |s| :: 0 < s[i] as int < 256
  }

  function At(t: string, i: nat): char {
    if i < |t| then t[i] else '\0'
  }

  // ---------- C strings in memory ----------

  /** `json` holds the C string `text`, of which what follows `at` is untouched. */
  ghost predicate Holds(json: array<char>, text: string, at: nat)
    reads json
  {
    at <= |text| < json.Length && json[at..|text|] == text[at..] && json[|text|] == '\0'
  }

  lemma HoldsAt(json: array<char>, text: string, at: nat)
    requires Holds(json, text, at)
    ensures json[at] == At(text[at..], 0)
    ensures at < |text| ==> json[at + 1] == At(text[at..], 1)
  {
    if at < |text| {
      assert json[at] == json[at..|text|][0];
    }
    if at + 1 < |text| {
      assert json[at + 1] == json[at..|text|][1];
    }
  }

  lemma HoldsLater(json: array<char>, text: string, at: nat, i: nat)
    requires Holds(json, text, at) && at <= i <= |text|
    ensures Holds(json, text, i)
  {
    assert json[i..|text|] == json[at..|text|][i - at..];
  }

  lemma HoldsEnd(json: array<char>, text: string, at: nat)
    requires Holds(json, text, at) && '\0' !in text
    ensures (json[at] == '\0' <==> at == |text|) && (at < |text| ==> json[at] == text[at])
  {
    HoldsAt(json, text, at);
    assert at < |text| ==> text[at] in text;
  }

  // ---------- print_string_ptr ----------

  predicate Special(c: char) {
    c == '"' || c == '\\' || c as int < 32
  }

  function HexDigit(d: nat): char
    requires d < 16
  {
    if d < 10 then (48 + d) as char else (87 + d) as char
  }

  /** One character of a string as it is printed. */
  function EscapeChar(c: char): string {
    if !Special(c) then [c]
    else if c == '\\' then "\\\\"
    else if c == '"' then "\\\""
    else if c as int == 8 then "\\b"
    else if c as int == 12 then "\\f"
    else if c as int == 10 then "\\n"
    else if c as int == 13 then "\\r"
    else if c as int == 9 then "\\t"
    else "\\u00" + [HexDigit(c as int / 16), HexDigit(c as int % 16)]
  }

  function Escape(s: string): string {
    if s == "" then "" else EscapeChar(s[0]) + Escape(s[1..])
  }

  function Quote(s: string): string {
    "\"" + Escape(s) + "\""
  }

  /** The bytes the first pass counts: one per character, and more for those it escapes. */
  function CountedChar(c: char): nat {
    if c in ['"', '\\', 8 as char, 12 as char, '\n', '\r', '\t'] then 2 else if c as int < 32 then 6 else 1
  }

  function Counted(s: string): nat {
    if s == "" then 0 else CountedChar(s[0]) + Counted(s[1..])
  }

  /** The escaped text fills exactly the bytes counted for it. */
  lemma {:induction false} EscapeCounted(s: string)
    ensures |Escape(s)| == Counted(s)
  {
    if s != "" {
      EscapeCounted(s[1..]);
    }
  }

  /** A string with nothing to escape is printed as it is. */
  lemma {:induction false} EscapePlain(s: string)
    requires forall i | 0 <= i < |s| :: !Special(s[i])
    ensures Escape(s) == s && Counted(s) == |s|
  {
    if s != "" {
      EscapePlain(s[1..]);
      assert !Special(s[0]);
    }
  }

  // ---------- parse_string ----------

  function HexValue(c: char): Option<nat> {
    if '0' <= c <= '9' then Some(c as int - 48)
    else if 'A' <= c <= 'F' then Some(c as int - 55)
    else if 'a' <= c <= 'f' then Some(c as int - 87)
    else None
  }

  /** parse_hex4: zero unless four hexadecimal digits are ahead. */
  function Hex4(t: string): (h: nat)
    ensures h < 0x10000
  {
    var a, b, c, d := HexValue(At(t, 0)), HexValue(At(t, 1)), HexValue(At(t, 2)), HexValue(At(t, 3));
    if a.None? || b.None? || c.None? || d.None? then 0
    else ((a.value * 16 + b.value) * 16 + c.value) * 16 + d.value
  }

  /** The bytes of one code point: last ones first in the code, six bits each. */
  function Utf8(uc: nat): (s: string)
    requires uc < 0x110000
    ensures 1 <= |s| <= 4
  {
    if uc < 0x80 then [uc as char]
    else if uc < 0x800 then [(0xC0 + uc / 64) as char, Cont(uc)]
    else if uc < 0x10000 then [(0xE0 + uc / 4096) as char, Cont(uc / 64), Cont(uc)]
    else [(0xF0 + uc / 262144) as char, Cont(uc / 4096), Cont(uc / 64), Cont(uc)]
  }

  function Cont(uc: nat): char {
    (0x80 + uc % 64) as char
  }

  /** The text up to the closing quote, or to the end of an unclosed literal;
      None when a backslash is the last character, where the code reads past the terminator. */
  function Scan(t: string): (n: Option<nat>)
    ensures n.Some? ==> n.value <= |t| && (n.value < |t| ==> t[n.value] == '"')
  {
    if t == "" || t[0] == '"' then Some(0)
    else if t[0] == '\\' then
      if |t| == 1 then None
      else (match Scan(t[2..]) case None => None case Some(n) => Some(n + 2))
    else (match Scan(t[1..]) case None => None case Some(n) => Some(n + 1))
  }

  /** The bytes the scan counts for the decoded string. */
  function ScanCount(t: string): nat
    requires Scan(t).Some?
  {
    if t == "" || t[0] == '"' then 0
    else if t[0] == '\\' then 1 + ScanCount(t[2..])
    else 1 + ScanCount(t[1..])
  }

  /** The code point of an escape starting at `b` ("\u" and what follows) and its length. */
  function CodePoint(b: string): (r: Option<(nat, nat)>)
    requires |b| >= 2
    ensures r.Some? ==> 0 < r.value.0 < 0x110000 && r.value.1 <= |b| && r.value.1 in {6, 12}
    ensures r.Some? && r.value.1 == 6 ==> r.value.0 < 0x10000
  {
    var uc := Hex4(b[2..]);
    if |b| <= 5 then None
    else if 0xDC00 <= uc <= 0xDFFF || uc == 0 then None
    else if 0xD800 <= uc <= 0xDBFF then
      if |b| < 11 || b[6] != '\\' || b[7] != 'u' then None
      else
        var uc2 := Hex4(b[8..]);
        if uc2 < 0xDC00 || uc2 > 0xDFFF then None
        else Some((0x10000 + (uc % 1024) * 1024 + uc2 % 1024, 12))
    else Some((uc, 6))
  }

  function Unescape(c: char): char {
    match c
    case 'b' => 8 as char
    case 'f' => 12 as char
    case 'n' => '\n'
    case 'r' => '\r'
    case 't' => '\t'
    case _ => c
  }

  /** The bytes of a literal body, or None if an escape in it is invalid. */
  function Decode(b: string): Option<string> {
    if b == "" then Some("")
    else if b[0] != '\\' then Prepend([b[0]], Decode(b[1..]))
    else if |b| == 1 then None
    else if b[1] == 'u' then
      match CodePoint(b)
      case None => None
      case Some((uc, n)) => Prepend(Utf8(uc), Decode(b[n..]))
    else Prepend([Unescape(b[1])], Decode(b[2..]))
  }

  function Prepend(s: string, r: Option<string>): Option<string> {
    if r.None? then None else Some(s + r.value)
  }

  /** parse_string: the string and the text after the literal. */
  function ParseString(t: string): (r: Option<(string, string)>)
    ensures r.Some? ==> |r.value.1| < |t|
  {
    if At(t, 0) != '"' then None
    else
      match Scan(t[1..])
      case None => None
      case Some(n) =>
        match Decode(t[1..][..n])
        case None => None
        case Some(s) =>
          var rest := t[1..][n..];
          Some((s, if At(rest, 0) == '"' then rest[1..] else rest))
  }

  // ---------- round trip ----------

  lemma HexRoundTrip(d: nat)
    requires d < 16
    ensures HexValue(HexDigit(d)) == Some(d)
  {
  }

  /** A character that is neither a quote nor a backslash is one step of the scan. */
  lemma ScanPlain(t: string)
    requires t != "" && t[0] != '"' && t[0] != '\\'
    ensures Scan(t) == Add(1, Scan(t[1..]))
    ensures Scan(t).Some? ==> ScanCount(t) == 1 + ScanCount(t[1..])
  {
  }

  function Add(k: nat, n: Option<nat>): Option<nat> {
    if n.None? then None else Some(n.value + k)
  }

  lemma ScanHex(t: string)
    requires |t| >= 4 && forall i | 0 <= i < 4 :: HexValue(t[i]).Some?
    ensures Scan(t) == Add(4, Scan(t[4..]))
    ensures Scan(t).Some? ==> ScanCount(t) == 4 + ScanCount(t[4..])
  {
    assert HexValue('"').None? && HexValue('\\').None?;
    assert t[1] == t[1..][0] && t[2] == t[2..][0] && t[3] == t[3..][0];
    ScanPlain(t);
    ScanPlain(t[1..]);
    assert t[1..][1..] == t[2..];
    ScanPlain(t[2..]);
    assert t[2..][1..] == t[3..];
    ScanPlain(t[3..]);
    assert t[3..][1..] == t[4..];
  }

  lemma HexEscape(c: char, u: string)
    requires 0 < c as int < 32
    ensures var e := "\\u00" + [HexDigit(c as int / 16), HexDigit(c as int % 16)];
      Decode(e + u) == Prepend([c], Decode(u)) && Scan(e + u) == Add(6, Scan(u))
  {
    var h, l := c as int / 16, c as int % 16;
    var b := "\\u00" + [HexDigit(h), HexDigit(l)] + u;
    HexRoundTrip(h);
    HexRoundTrip(l);
    assert HexValue('0') == Some(0);
    var d := b[2..];
    assert d[0] == '0' && d[1] == '0' && d[2] == HexDigit(h) && d[3] == HexDigit(l);
    assert b[6..] == u && d[4..] == u;
    assert Hex4(d) == c as int;
    assert CodePoint(b) == Some((c as int, 6));
    assert Utf8(c as int) == [c];
    ScanHex(d);
  }

  /** One escaped character is scanned and decoded as a unit. */
  lemma EscapeCharBack(c: char, u: string)
    requires 0 < c as int < 256
    ensures Decode(EscapeChar(c) + u) == Prepend([c], Decode(u))
    ensures Scan(EscapeChar(c) + u) == Add(|EscapeChar(c)|, Scan(u))
  {
    if !Special(c) {
      PlainBack(c, u);
    } else if |EscapeChar(c)| == 2 {
      ShortBack(EscapeChar(c)[1], u);
    } else {
      HexEscape(c, u);
    }
  }

  lemma PlainBack(c: char, u: string)
    requires c != '\\' && c != '"'
    ensures Decode([c] + u) == Prepend([c], Decode(u)) && Scan([c] + u) == Add(1, Scan(u))
  {
    assert ([c] + u)[1..] == u;
  }

  /** A backslash and one more character. */
  lemma ShortBack(e: char, u: string)
    requires e != 'u'
    ensures Decode(['\\', e] + u) == Prepend([Unescape(e)], Decode(u)) && Scan(['\\', e] + u) == Add(2, Scan(u))
  {
    assert (['\\', e] + u)[2..] == u;
  }

  lemma {:induction false} EscapeDecode(s: string)
    requires CString(s)
    ensures Decode(Escape(s)) == Some(s)
  {
    if s != "" {
      EscapeDecode(s[1..]);
      EscapeCharBack(s[0], Escape(s[1..]));
      assert [s[0]] + s[1..] == s;
    }
  }

  lemma {:induction false} EscapeScans(s: string, u: string)
    requires CString(s) && u != "" && u[0] == '"'
    ensures Scan(Escape(s) + u) == Some(|Escape(s)|)
  {
    if s == "" {
      assert Escape(s) + u == u;
    } else {
      EscapeScans(s[1..], u);
      EscapeCharScan(s[0], Escape(s[1..]) + u);
      EscapeSplit(s, u);
    }
  }

  lemma EscapeCharScan(c: char, u: string)
    requires 0 < c as int < 256
    ensures Scan(EscapeChar(c) + u) == Add(|EscapeChar(c)|, Scan(u))
  {
    EscapeCharBack(c, u);
  }

  lemma EscapeSplit(s: string, u: string)
    requires s != ""
    ensures Escape(s) + u == EscapeChar(s[0]) + (Escape(s[1..]) + u)
    ensures |Escape(s)| == |EscapeChar(s[0])| + |Escape(s[1..])|
  {
  }

  /** parse_string recovers every string print_string_ptr prints. */
  lemma QuoteRoundTrip(s: string, u: string)
    requires CString(s)
    ensures ParseString(Quote(s) + u) == Some((s, u))
  {
    EscapeDecode(s);
    EscapeScans(s, "\"" + u);
    QuoteSlices(Escape(s), u);
  }

  lemma QuoteSlices(e: string, u: string)
    ensures var t := "\"" + e + "\"" + u;
      t[1..] == e + ("\"" + u) && t[1..][..|e|] == e && t[1..][|e|..] == "\"" + u && ("\"" + u)[1..] == u
  {
    assert ("\"" + e + "\"" + u)[1..] == e + ("\"" + u);
  }

  // ---------- the decoded string fits what was allocated ----------

  lemma Slices(t: string, m: nat, n: nat)
    requires m <= n <= |t|
    ensures t[..n][m..] == t[m..][..n - m]
  {
  }

  /** The digits of a unicode escape are ordinary characters of the scan. */
  lemma PlainScan(t: string, m: nat)
    requires Scan(t).Some? && |t| >= 2 && t[0] == '\\' && t[1] == 'u'
    requires var c := CodePoint(t[..Scan(t).value]); c.Some? && c.value.1 == m
    ensures m <= Scan(t).value && Scan(t[m..]) == Some(Scan(t).value - m)
    ensures ScanCount(t) == ScanCount(t[m..]) + (if m == 6 then 5 else 10)
  {
    EscapeScan(t);
    if m == 12 {
      PairScan(t);
    }
  }

  /** The second half of a surrogate pair. */
  lemma PairScan(t: string)
    requires Scan(t).Some? && |t| >= 6 && Scan(t[6..]) == Some(Scan(t).value - 6)
    requires var b := t[..Scan(t).value]; |b| >= 11 && b[6] == '\\' && b[7] == 'u' && Hex4(b[8..]) != 0
    ensures 12 <= Scan(t).value && Scan(t[12..]) == Some(Scan(t).value - 12)
    ensures ScanCount(t[6..]) == 5 + ScanCount(t[12..])
  {
    assert t[6..][2..Scan(t).value - 6] == t[..Scan(t).value][8..];
    EscapeScan(t[6..]);
    assert t[6..][6..] == t[12..];
  }

  /** One "\uXXXX" is five tokens of the scan. */
  lemma EscapeScan(t: string)
    requires Scan(t).Some? && |t| >= 2 && t[0] == '\\' && t[1] == 'u'
    requires Hex4(t[2..Scan(t).value]) != 0
    ensures 6 <= Scan(t).value && Scan(t[6..]) == Some(Scan(t).value - 6) && ScanCount(t) == 5 + ScanCount(t[6..])
  {
    HexAhead(t, Scan(t).value);
    EscapeHead(t);
    ScanHex(t[2..]);
    assert t[2..][4..] == t[6..];
  }

  /** A backslash and the character behind it are one step of the scan. */
  lemma EscapeHead(t: string)
    requires Scan(t).Some? && |t| >= 2 && t[0] == '\\'
    ensures Scan(t) == Add(2, Scan(t[2..])) && ScanCount(t) == 1 + ScanCount(t[2..])
  {
  }

  lemma HexAhead(t: string, n: nat)
    requires 2 <= n <= |t| && Hex4(t[2..n]) != 0
    ensures n >= 6 && forall i | 0 <= i < 4 :: HexValue(t[2..][i]).Some?
  {
    HexPlain(t[2..n]);
    forall i | 0 <= i < 4 ensures HexValue(t[2..][i]).Some? {
      assert t[2..][i] == t[2..n][i];
    }
  }

  lemma HexPlain(t: string)
    requires Hex4(t) != 0
    ensures |t| >= 4 && forall i | 0 <= i < 4 :: HexValue(t[i]).Some?
  {
    assert HexValue('\0').None?;
  }

  // ---------- UTF-8 ----------

  /** The code point a well-formed byte sequence stands for (section 3 of RFC 3629). */
  function Utf8Value(s: string): Option<nat> {
    if |s| == 1 && s[0] as int < 0x80 then Some(s[0] as int)
    else if |s| == 2 && 0xC2 <= s[0] as int < 0xE0 && Tail(s, 1) then
      Some((s[0] as int - 0xC0) * 64 + (s[1] as int - 0x80))
    else if |s| == 3 && 0xE0 <= s[0] as int < 0xF0 && Tail(s, 1) && Tail(s, 2) then
      var v := (s[0] as int - 0xE0) * 4096 + (s[1] as int - 0x80) * 64 + (s[2] as int - 0x80);
      if v < 0x800 || 0xD800 <= v < 0xE000 then None else Some(v)
    else if |s| == 4 && 0xF0 <= s[0] as int < 0xF5 && Tail(s, 1) && Tail(s, 2) && Tail(s, 3) then
      var v := (s[0] as int - 0xF0) * 262144 + (s[1] as int - 0x80) * 4096 + (s[2] as int - 0x80) * 64
        + (s[3] as int - 0x80);
      if v < 0x10000 || v >= 0x110000 then None else Some(v)
    else None
  }

  predicate Tail(s: string, i: nat)
    requires i < |s|
  {
    0x80 <= s[i] as int < 0xC0
  }

  /** Escapes decode to well-formed UTF-8 of the code point they name. */
  lemma Utf8RoundTrip(uc: nat)
    requires uc < 0x110000 && !(0xD800 <= uc < 0xE000)
    ensures Utf8Value(Utf8(uc)) == Some(uc)
  {
    SixBits(uc);
    SixBits(uc / 64);
    SixBits(uc / 4096);
    assert uc / 64 / 64 == uc / 4096 && uc / 4096 / 64 == uc / 262144;
  }

  lemma SixBits(n: nat)
    ensures n == n / 64 * 64 + n % 64 && (0x80 + n % 64) as char as int - 0x80 == n % 64
  {
  }

  /** A code point is never half a surrogate pair. */
  lemma CodePointScalar(b: string)
    requires |b| >= 2 && CodePoint(b).Some?
    ensures !(0xD800 <= CodePoint(b).value.0 < 0xE000)
    ensures Utf8Value(Utf8(CodePoint(b).value.0)) == Some(CodePoint(b).value.0)
  {
    Utf8RoundTrip(CodePoint(b).value.0);
  }

  // ---------- integers ----------

  predicate Digit(c: char) { '0' <= c <= '9' }

  function Digits(n: nat): (s: string)
    ensures s != "" && forall i | 0 <= i < |s| :: Digit(s[i])
    ensures n > 0 ==> s[0] != '0'
    ensures n == 0 ==> s == "0"
  {
    if n < 10 then [(48 + n) as char] else Digits(n / 10) + [(48 + n % 10) as char]
  }

  /** "%d" */
  function Decimal(n: int): string {
    if n < 0 then "-" + Digits(-n) else Digits(n)
  }

  /** The value and the rest after a run of digits read into `acc`. */
  function ReadDigits(t: string, acc: nat): (r: (nat, string))
    ensures |r.1| <= |t|
    ensures At(t, 0) != '\0' && Digit(At(t, 0)) ==> |r.1| < |t|
  {
    if t != "" && Digit(t[0]) then ReadDigits(t[1..], acc * 10 + (t[0] as int - 48)) else (acc, t)
  }

  /** Digits printed are the digits read back. */
  lemma ReadDigitsBack(n: nat, u: string)
    requires u != "" ==> !Digit(u[0])
    ensures ReadDigits(Digits(n) + u, 0) == (n, u)
  {
    ReadDigitsApp(Digits(n), u, 0);
    DigitsValue(n);
  }

  function Value(s: string, acc: nat): nat
    requires forall i | 0 <= i < |s| :: Digit(s[i])
  {
    if s == "" then acc else assert Digit(s[0]); Value(s[1..], acc * 10 + (s[0] as int - 48))
  }

  lemma {:induction false} ReadDigitsApp(s: string, u: string, acc: nat)
    requires forall i | 0 <= i < |s| :: Digit(s[i])
    requires u != "" ==> !Digit(u[0])
    ensures ReadDigits(s + u, acc) == (Value(s, acc), u)
  {
    if s == "" {
      assert s + u == u;
    } else {
      assert (s + u)[1..] == s[1..] + u;
      assert Digit(s[0]);
      ReadDigitsApp(s[1..], u, acc * 10 + (s[0] as int - 48));
    }
  }

  lemma {:induction false} ValueSnoc(s: string, c: char, acc: nat)
    requires forall i | 0 <= i < |s| :: Digit(s[i])
    requires Digit(c)
    ensures Value(s + [c], acc) == Value(s, acc) * 10 + (c as int - 48)
  {
    if s == "" {
      assert s + [c] == [c];
      assert Value([c], acc) == Value("", acc * 10 + (c as int - 48));
    } else {
      assert (s + [c])[1..] == s[1..] + [c];
      ValueSnoc(s[1..], c, acc * 10 + (s[0] as int - 48));
    }
  }

  lemma {:induction false} DigitsValue(n: nat)
    ensures Value(Digits(n), 0) == n
  {
    if n < 10 {
      assert Value([(48 + n) as char], 0) == Value("", n);
    } else {
      DigitsValue(n / 10);
      ValueSnoc(Digits(n / 10), (48 + n % 10) as char, 0);
    }
  }
}
