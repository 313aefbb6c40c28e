/**
 The parser of cJSON as it runs: loops that move a pointer along the text and fill in what
 they read.  Each method computes the function of JsonText it is named after.
 */
module JsonParser {
  import opened Bits
  import opened JsonStrings
  import opened JsonText

  /** skip */
  method SkipSpaces(text: string) returns (rest: string)
    ensures rest == Skip(text)
  {
    rest := text;
    while rest != "" && rest[0] <= ' '
      invariant Skip(rest) == Skip(text)
      decreases |rest|
    {
      rest := rest[1..];
    }
  }

  // ---------- parse_number ----------

  /** Digits read into `acc`, and how many there were. */
  method ReadRun(text: string, acc: nat) returns (n: nat, rest: string)
    ensures (n, rest) == ReadDigits(text, acc)
  {
    n, rest := acc, text;
    while Digit(At(rest, 0))
      invariant ReadDigits(rest, n) == ReadDigits(text, acc)
      decreases |rest|
    {
      n, rest := n * 10 + (rest[0] as int - 48), rest[1..];
    }
  }

  /** The fraction, read into the number; `scale` goes down by one a digit. */
  method ReadFraction(text: string, acc: nat) returns (n: nat, scale: int, rest: string)
    ensures (n, scale, rest) == ParseFraction(text, acc)
  {
    n, scale, rest := acc, 0, text;
    if At(rest, 0) == '.' && Digit(At(rest, 1)) {
      rest := rest[1..];
      while Digit(At(rest, 0))
        invariant ReadDigits(rest, n) == ReadDigits(text[1..], acc) && scale == |rest| - |text| + 1
        decreases |rest|
      {
        n, scale, rest := n * 10 + (rest[0] as int - 48), scale - 1, rest[1..];
      }
    }
  }

  method ReadExponent(text: string) returns (exponent: int, rest: string)
    ensures (exponent, rest) == ParseExponent(text)
  {
    var subscale: nat, signsubscale := 0, 1;
    rest := text;
    if At(rest, 0) == 'e' || At(rest, 0) == 'E' {
      rest := rest[1..];
      if At(rest, 0) == '+' {
        rest := rest[1..];
      } else if At(rest, 0) == '-' {
        signsubscale, rest := -1, rest[1..];
      }
      subscale, rest := ReadRun(rest, 0);
    }
    exponent := subscale * signsubscale;
  }

  /** parse_number */
  method ReadNumber(text: string) returns (item: Json, rest: string)
    ensures (item, rest) == ParseNumber(text)
  {
    var n: nat, sign, scale: int := 0, 1, 0;
    rest := text;
    if At(rest, 0) == '-' {
      sign, rest := -1, rest[1..];
    }
    ghost var unsigned := rest;
    if At(rest, 0) == '0' {
      rest := rest[1..];
    }
    if '1' <= At(rest, 0) <= '9' {
      n, rest := ReadRun(rest, n);
    }
    n, scale, rest := ReadFraction(rest, n);
    var exponent;
    exponent, rest := ReadExponent(rest);
    assert (n, scale + exponent, rest) == ParseUnsigned(unsigned);
    item := Num(if sign == 1 then n else 0 - n, scale + exponent);
  }

  // ---------- parse_string ----------

  /** A byte behind the first: the lowest six bits, marked. */
  lemma TailByte(u: nat)
    ensures And(Or(u, 0x80), 0xBF) == 0x80 + u % 64 && Shr(u, 6) == u / 64
  {
    Powers();
    LowHigh(u, 6);
    ShlTimes(2, 6);
    Cut(u, 6);
    Marked(Shr(u, 6), Low(u, 6), 6, 2);
    SecondBit(Shr(u, 6));
  }
  lemma SecondBit(v: nat)
    ensures And(Or(v, 2), 2) == 2
  {
    var w := v / 2;
    OrBit(w, v % 2, 1, 0);
    AndBit(Or(w, 1), v % 2, 1, 0);
    OrBit(w / 2, w % 2, 0, 1);
    AndBit(w / 2, 1, 0, 1);
  }
  /** The first byte: the highest bits, marked with its length. */
  lemma LeadByte(u: nat)
    ensures u < 0x20 ==> Or(u, 0xC0) == 0xC0 + u
    ensures u < 0x10 ==> Or(u, 0xE0) == 0xE0 + u
    ensures u < 8 ==> Or(u, 0xF0) == 0xF0 + u
  {
    Powers();
    assert Shl(6, 5) == 0xC0 && Shl(14, 4) == 0xE0 && Shl(30, 3) == 0xF0;
    if u < 32 { OrAdds(6, u, 5); }
    if u < 16 { OrAdds(14, u, 4); }
    if u < 8 { OrAdds(30, u, 3); }
  }
  /** A surrogate pair: ten bits of either half. */
  lemma PairBits(u: nat, v: nat)
    ensures Or(Shl(And(u, 0x3FF), 10), And(v, 0x3FF)) == u % 1024 * 1024 + v % 1024
  {
    Powers();
    AndOnes(u, 10);
    AndOnes(v, 10);
    LowHigh(u, 10);
    LowHigh(v, 10);
    OrAdds(u % 1024, v % 1024, 10);
    ShlTimes(u % 1024, 10);
  }

  /** The byte for the lowest six bits, and the bits that are left. */
  method TailOf(code: nat) returns (c: char, rest: nat)
    ensures c == Cont(code) && rest == code / 64
  {
    TailByte(code);
    c, rest := And(Or(code, 0x80), 0xBF) as char, Shr(code, 6);
  }

  /** The byte for the highest bits of a code point of `len` bytes. */
  method LeadOf(code: nat, len: nat) returns (c: char)
    requires 1 <= len <= 4
    requires code < if len == 1 then 0x80 else if len == 2 then 0x20 else if len == 3 then 0x10 else 8
    ensures c as int == code + FirstByteMark(len)
  {
    LeadByte(code);
    c := Or(code, FirstByteMark(len)) as char;
  }

  /** The bytes of a code point, written from the last to the first. */
  method PutUtf8(out: array<char>, at: nat, uc: nat) returns (ptr: nat)
    requires uc < 0x110000 && at + |Utf8(uc)| <= out.Length
    modifies out
    ensures ptr == at + |Utf8(uc)| && out[..ptr] == old(out[..at]) + Utf8(uc)
  {
    Shifts(uc);
    var len := if uc < 0x80 then 1 else if uc < 0x800 then 2 else if uc < 0x10000 then 3 else 4;
    var code := uc;
    ptr := at + len;
    if len >= 4 {
      ptr := ptr - 1;
      out[ptr], code := TailOf(code);
    }
    if len >= 3 {
      ptr := ptr - 1;
      out[ptr], code := TailOf(code);
    }
    if len >= 2 {
      ptr := ptr - 1;
      out[ptr], code := TailOf(code);
    }
    ptr := ptr - 1;
    out[ptr] := LeadOf(code, len);
    Written(out[..], at, uc, code);
    ptr := ptr + len;
  }

  lemma Shifts(uc: nat)
    requires uc < 0x110000
    ensures uc / 64 / 64 == uc / 4096 && uc / 4096 / 64 == uc / 262144 && uc / 262144 < 8
    ensures uc < 0x10000 ==> uc / 4096 < 16
    ensures uc < 0x800 ==> uc / 64 < 32
  {
  }

  lemma Written(s: string, at: nat, uc: nat, code: nat)
    requires uc < 0x110000 && at + |Utf8(uc)| <= |s|
    requires code
      == (if uc < 0x80 then uc else if uc < 0x800 then uc / 64 else if uc < 0x10000 then uc / 4096 else uc / 262144)
    requires s[at] as int == code + FirstByteMark(|Utf8(uc)|)
    requires |Utf8(uc)| == 2 ==> s[at + 1] == Cont(uc)
    requires |Utf8(uc)| == 3 ==> s[at + 1] == Cont(uc / 64) && s[at + 2] == Cont(uc)
    requires |Utf8(uc)| == 4 ==> s[at + 1] == Cont(uc / 4096) && s[at + 2] == Cont(uc / 64) && s[at + 3] == Cont(uc)
    ensures s[..at + |Utf8(uc)|] == s[..at] + Utf8(uc)
  {
    assert s[at..at + |Utf8(uc)|] == Utf8(uc);
  }

  function FirstByteMark(len: nat): nat {
    if len == 2 then 0xC0 else if len == 3 then 0xE0 else if len == 4 then 0xF0 else 0
  }

  /** The end of a literal body and the bytes to allocate for it; None where the code would run
      past the end of the text. */
  method ScanString(text: string) returns (r: Option<(nat, nat)>)
    ensures r.None? <==> Scan(text).None?
    ensures r.Some? ==> r.value == (Scan(text).value, ScanCount(text))
  {
    var end, n, len := text, 0, 0;
    while end != "" && end[0] != '"'
      invariant Scan(text) == Add(n, Scan(end))
      invariant Scan(end).Some? ==> ScanCount(text) == len + ScanCount(end)
      decreases |end|
    {
      if end[0] == '\\' {
        if |end| == 1 {
          return None;
        }
        end, n := end[2..], n + 2;
      } else {
        end, n := end[1..], n + 1;
      }
      len := len + 1;
    }
    return Some((n, len));
  }

  lemma PrependNone(r: Option<string>)
    ensures Prepend("", r) == r
  {
    assert r.Some? ==> "" + r.value == r.value;
  }

  lemma PrependMore(s: string, t: string, r: Option<string>)
    ensures Prepend(s, Prepend(t, r)) == Prepend(s + t, r)
  {
    if r.Some? {
      Group3(s, t, r.value);
    }
  }

  /** One token of a literal body of `m` bytes: how long it is and what it stands for. */
  function Token(b: string): Option<(nat, string)>
    requires b != ""
  {
    if b[0] != '\\' then Some((1, [b[0]]))
    else if |b| == 1 then None
    else if b[1] != 'u' then Some((2, [Unescape(b[1])]))
    else
      match CodePoint(b)
      case None => None
      case Some((uc, n)) => Some((n, Utf8(uc)))
  }

  ghost predicate TokenFits(t: string, m: nat, n: nat, w: string)
    requires Scan(t) == Some(m)
  {
    0 < n <= m && Decode(t[..m]) == Prepend(w, Decode(t[n..][..m - n])) && Scan(t[n..]) == Some(m - n)
    && |w| + ScanCount(t[n..]) <= ScanCount(t)
  }

  /** A token decodes as its bytes, stays within the scan and takes no more bytes than were counted for it. */
  lemma TokenStep(t: string, m: nat)
    requires Scan(t) == Some(m) && m > 0
    ensures Token(t[..m]).None? ==> Decode(t[..m]).None?
    ensures Token(t[..m]).Some? ==> TokenFits(t, m, Token(t[..m]).value.0, Token(t[..m]).value.1)
  {
    var b := t[..m];
    if b[0] == '\\' && |b| > 1 && b[1] == 'u' && CodePoint(b).Some? {
      PlainScan(t, CodePoint(b).value.1);
    }
    if Token(b).Some? {
      Slices(t, Token(b).value.0, m);
    }
  }

  /** The decoded string never takes more bytes than were counted. */
  lemma {:induction false} DecodeFits(t: string)
    requires Scan(t).Some? && Decode(t[..Scan(t).value]).Some?
    ensures |Decode(t[..Scan(t).value]).value| <= ScanCount(t)
    decreases |t|
  {
    if Scan(t).value > 0 {
      TokenStep(t, Scan(t).value);
      DecodeFits(t[Token(t[..Scan(t).value]).value.0..]);
    }
  }

  /** Decode a literal body of `m` bytes into a block of the counted size, and no further. */
  method DecodeString(body: string, m: nat, out: array<char>) returns (r: Option<nat>)
    requires Scan(body) == Some(m) && out.Length == ScanCount(body) + 1
    modifies out
    ensures r.None? <==> Decode(body[..m]).None?
    ensures r.Some? ==> r.value < out.Length && Decode(body[..m]) == Some(out[..r.value]) && out[r.value] == '\0'
  {
    var ptr, left, ptr2: nat := body, m, 0;
    PrependNone(Decode(body[..m]));
    assert out[..0] == "";
    while left > 0
      invariant Scan(ptr) == Some(left) && ptr2 + ScanCount(ptr) < out.Length
      invariant Decode(body[..m]) == Prepend(out[..ptr2], Decode(ptr[..left]))
    {
      TokenStep(ptr, left);
      ghost var done, token := out[..ptr2], Token(ptr[..left]);
      var n;
      n, ptr2 := DecodeOne(ptr, left, out, ptr2);
      if n == 0 {
        return None;
      }
      PrependMore(done, token.value.1, Decode(ptr[n..][..left - n]));
      ptr, left := ptr[n..], left - n;
    }
    out[ptr2] := '\0';
    r := Some(ptr2);
    assert Decode(ptr[..left]) == Some("") && out[..ptr2] + "" == out[..ptr2];
  }

  /** parse_hex4: one digit after the other is shifted in. */
  method ReadHex4(t: string) returns (h: nat)
    ensures h == Hex4(t)
  {
    var a, b, c, d := HexValue(At(t, 0)), HexValue(At(t, 1)), HexValue(At(t, 2)), HexValue(At(t, 3));
    if a.None? {
      return 0;
    }
    h := a.value;
    HexShift(h);
    h := Shl(h, 4);
    if b.None? {
      return 0;
    }
    h := h + b.value;
    HexShift(h);
    h := Shl(h, 4);
    if c.None? {
      return 0;
    }
    h := h + c.value;
    HexShift(h);
    h := Shl(h, 4);
    if d.None? {
      return 0;
    }
    h := h + d.value;
  }

  lemma HexShift(h: nat)
    ensures Shl(h, 4) == h * 16
  {
    Powers();
    ShlTimes(h, 4);
  }

  /** The code point of an escape, with the halves of a surrogate pair joined by masks. */
  method ReadCodePoint(b: string) returns (r: Option<(nat, nat)>)
    requires |b| >= 2
    ensures r == CodePoint(b)
  {
    var uc := ReadHex4(b[2..]);
    if |b| <= 5 || 0xDC00 <= uc <= 0xDFFF || uc == 0 {
      return None;
    }
    if uc < 0xD800 || uc > 0xDBFF {
      return Some((uc, 6));
    }
    if |b| < 11 || b[6] != '\\' || b[7] != 'u' {
      return None;
    }
    var uc2 := ReadHex4(b[8..]);
    if uc2 < 0xDC00 || uc2 > 0xDFFF {
      return None;
    }
    PairBits(uc, uc2);
    r := Some((0x10000 + Or(Shl(And(uc, 0x3FF), 10), And(uc2, 0x3FF)), 12));
  }

  /** One round of the decoding loop: the length of the token, or 0 when it is not valid. */
  method DecodeOne(ptr: string, left: nat, out: array<char>, at: nat) returns (n: nat, ptr2: nat)
    requires Scan(ptr) == Some(left) && left > 0
    requires Token(ptr[..left]).Some? ==> at + |Token(ptr[..left]).value.1| <= out.Length
    modifies out
    ensures n == 0 <==> Token(ptr[..left]).None?
    ensures n > 0 ==> n == Token(ptr[..left]).value.0 && ptr2 == at + |Token(ptr[..left]).value.1|
    ensures n > 0 ==> out[..ptr2] == old(out[..at]) + Token(ptr[..left]).value.1
  {
    if ptr[0] != '\\' {
      out[at] := ptr[0];
      n, ptr2 := 1, at + 1;
    } else if ptr[1] != 'u' {
      out[at] := Unescape(ptr[1]);
      n, ptr2 := 2, at + 1;
    } else {
      var code := ReadCodePoint(ptr[..left]);
      if code.None? {
        return 0, at;
      }
      n := code.value.1;
      ptr2 := PutUtf8(out, at, code.value.0);
    }
  }

  method ReadString(text: string) returns (r: Option<(string, string)>)
    ensures r == ParseString(text)
  {
    if At(text, 0) != '"' {
      return None;
    }
    var scan := ScanString(text[1..]);
    if scan.None? {
      return None;
    }
    var (n, len) := scan.value;
    var out := new char[len + 1];
    var end := DecodeString(text[1..], n, out);
    if end.None? {
      return None;
    }
    var rest := text[1..][n..];
    if At(rest, 0) == '"' {
      rest := rest[1..];
    }
    return Some((out[..end.value], rest));
  }

  // ---------- arrays and objects ----------

  /** What the loop over the elements has still to read. */
  function MoreItems(t: string): Option<(seq<Json>, string)> {
    if At(t, 0) == ',' then ParseItems(Skip(t[1..]))
    else if At(t, 0) == ']' then Some(([], t[1..])) else None
  }

  function MoreMembers(t: string): Option<(seq<Member>, string)> {
    if At(t, 0) == ',' then ParseMembers(Skip(t[1..]))
    else if At(t, 0) == '}' then Some(([], t[1..])) else None
  }

  function Join<T>(done: seq<T>, more: Option<(seq<T>, string)>): Option<(seq<T>, string)> {
    match more
    case None => None
    case Some((rest, t)) => Some((done + rest, t))
  }

  lemma JoinMore<T>(done: seq<T>, v: T, more: Option<(seq<T>, string)>)
    ensures Join(done, Join([v], more)) == Join(done + [v], more)
  {
    if more.Some? {
      assert done + ([v] + more.value.0) == (done + [v]) + more.value.0;
    }
  }

  lemma ItemsUnfold(t: string)
    ensures ParseItems(t)
      == if ParseValue(t).None? then None
        else Join([ParseValue(t).value.0], MoreItems(Skip(ParseValue(t).value.1)))
  {
    if ParseValue(t).Some? {
      var v := ParseValue(t).value.0;
      assert [v] + [] == [v];
    }
  }

  lemma MembersUnfold(t: string)
    ensures ParseMembers(t)
      == if ParseMember(t).None? then None
        else Join([ParseMember(t).value.0], MoreMembers(Skip(ParseMember(t).value.1)))
  {
    if ParseMember(t).Some? {
      var m := ParseMember(t).value.0;
      assert [m] + [] == [m];
    }
  }

  /** parse_value */
  method ReadValue(value: string) returns (r: Option<(Json, string)>)
    ensures r == ParseValue(value)
    decreases |value|, 2
  {
    if value == "" { return None; }
    if "null" <= value { return Some((Null, value[4..])); }
    if "false" <= value { return Some((False, value[5..])); }
    if "true" <= value { return Some((True, value[4..])); }
    if value[0] == '"' {
      var s := ReadString(value);
      match s {
        case None => return None;
        case Some((str, rest)) => return Some((Str(str), rest));
      }
    }
    if value[0] == '-' || Digit(value[0]) {
      var item, rest := ReadNumber(value);
      return Some((item, rest));
    }
    if value[0] == '[' { r := ReadArray(value); return; }
    if value[0] == '{' { r := ReadObject(value); return; }
    return None;
  }

  /** parse_array */
  method ReadArray(text: string) returns (r: Option<(Json, string)>)
    requires text != ""
    ensures r == ParseArray(text)
    decreases |text|, 1
  {
    var value := SkipSpaces(text[1..]);
    if At(value, 0) == ']' { return Some((Arr([]), value[1..])); }
    ghost var start := value;
    ItemsUnfold(value);
    var first := ReadValue(value);
    if first.None? { return None; }
    var items := [first.value.0];
    value := SkipSpaces(first.value.1);
    while At(value, 0) == ','
      invariant |value| < |text| && ParseItems(start) == Join(items, MoreItems(value))
      decreases |value|
    {
      value := SkipSpaces(value[1..]);
      ItemsUnfold(value);
      var next := ReadValue(value);
      if next.None? { return None; }
      JoinMore(items, next.value.0, MoreItems(Skip(next.value.1)));
      items := items + [next.value.0];
      value := SkipSpaces(next.value.1);
    }
    if At(value, 0) != ']' { return None; }
    assert items + [] == items;
    return Some((Arr(items), value[1..]));
  }

  /** The name, the colon and the value of a member. */
  method ReadMember(text: string) returns (r: Option<(Member, string)>)
    ensures r == ParseMember(text)
    decreases |text|, 0
  {
    var name := ReadString(text);
    if name.None? { return None; }
    var value := SkipSpaces(name.value.1);
    if At(value, 0) != ':' { return None; }
    value := SkipSpaces(value[1..]);
    var v := ReadValue(value);
    if v.None? { return None; }
    return Some((Member(name.value.0, v.value.0), v.value.1));
  }

  /** parse_object */
  method ReadObject(text: string) returns (r: Option<(Json, string)>)
    requires text != ""
    ensures r == ParseObject(text)
    decreases |text|, 1
  {
    var value := SkipSpaces(text[1..]);
    if At(value, 0) == '}' { return Some((Obj([]), value[1..])); }
    ghost var start := value;
    MembersUnfold(value);
    var first := ReadMember(value);
    if first.None? { return None; }
    var members := [first.value.0];
    value := SkipSpaces(first.value.1);
    while At(value, 0) == ','
      invariant |value| < |text| && ParseMembers(start) == Join(members, MoreMembers(value))
      decreases |value|
    {
      value := SkipSpaces(value[1..]);
      MembersUnfold(value);
      var next := ReadMember(value);
      if next.None? { return None; }
      JoinMore(members, next.value.0, MoreMembers(Skip(next.value.1)));
      members := members + [next.value.0];
      value := SkipSpaces(next.value.1);
    }
    if At(value, 0) != '}' { return None; }
    assert members + [] == members;
    return Some((Obj(members), value[1..]));
  }

  /** cJSON_ParseWithOpts */
  method ParseText(text: string, requireEnd: bool) returns (r: Option<(Json, string)>)
    ensures r == Parse(text, requireEnd)
  {
    var value := SkipSpaces(text);
    r := ReadValue(value);
    if r.None? { return; }
    if requireEnd {
      var end := SkipSpaces(r.value.1);
      if end != "" { return None; }
      return Some((r.value.0, end));
    }
  }
}
