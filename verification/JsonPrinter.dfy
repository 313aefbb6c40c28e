/**
 The printer of cJSON that takes no buffer: it prints every child into a text of its own, adds up
 the sizes and composes the result in an array of that size, which gives the text `Print`.
 */
module JsonPrinter {
  import opened Bits
  import opened JsonStrings
  import opened JsonText

  // ---------- sizes ----------

  /** pow2gt: the bits below the highest one of the number before are filled, and one is added. */
  method Pow2Gt(x: nat) returns (r: nat)
    requires x >= 1
    ensures r >= x
    ensures x <= 0x8000_0000 ==> r < 2 * x && r == Pow2(Width(x - 1))
  {
    var y := x - 1;
    y := Or(y, Shr(y, 1));
    y := Or(y, Shr(y, 2));
    y := Or(y, Shr(y, 4));
    y := Or(y, Shr(y, 8));
    y := Or(y, Shr(y, 16));
    Smeared(x - 1);
    r := y + 1;
  }

  function Smear(x: nat, m: nat): (y: nat)
    ensures y >= x
  {
    OrAtLeast(x, Shr(x, m));
    Or(x, Shr(x, m))
  }

  /** After five steps all 31 bits of an int are filled. */
  lemma Smeared(x: nat)
    ensures var y := Smear(Smear(Smear(Smear(Smear(x, 1), 2), 4), 8), 16);
      y >= x && (x < 0x8000_0000 ==> y == Pow2(Width(x)) - 1 <= 2 * x)
  {
    if 0 < x < 0x8000_0000 {
      var n := Width(x);
      WidthAtMost(x);
      FirstBit(x);
      SmearStep(x, n, 1);
      SmearStep(Smear(x, 1), n, 2);
      SmearStep(Smear(Smear(x, 1), 2), n, 4);
      SmearStep(Smear(Smear(Smear(x, 1), 2), 4), n, 8);
      SmearStep(Smear(Smear(Smear(Smear(x, 1), 2), 4), 8), n, 16);
    }
  }

  lemma WidthAtMost(x: nat)
    requires x < 0x8000_0000
    ensures Width(x) <= 31
  {
    Powers();
    if Width(x) > 31 {
      Pow2Mono(31, Width(x) - 1);
    }
  }

  function Min(a: nat, b: nat): nat {
    if a < b then a else b
  }

  lemma SmearStep(y: nat, n: nat, m: nat)
    requires Topped(y, n, Min(m, n))
    ensures Topped(Smear(y, m), n, Min(2 * m, n))
  {
    if m <= n {
      ToppedTwice(y, n, m);
    } else {
      OrBelow(y, Shr(y, m), n);
      OrAtLeast(y, Shr(y, m));
    }
  }

  /** A number in the range of int prints in at most 11 characters. */
  lemma DecimalFits(n: int)
    requires INT_MIN <= n <= INT_MAX
    ensures |Decimal(n)| <= 11
  {
    DigitsFit(if n < 0 then -n else n, 10);
  }

  lemma {:induction false} DigitsFit(n: nat, k: nat)
    requires k > 0 && n < Pow10(k)
    ensures |Digits(n)| <= k
  {
    if n >= 10 {
      DigitsFit(n / 10, k - 1);
    }
  }

  function Pow10(k: nat): nat {
    if k == 0 then 1 else 10 * Pow10(k - 1)
  }

  // ---------- what is printed has no NUL ----------

  lemma {:induction false} EscapeClean(s: string)
    requires CString(s)
    ensures '\0' !in Escape(s)
  {
    if s != "" {
      EscapeClean(s[1..]);
      assert '\0' !in EscapeChar(s[0]);
    }
  }

  lemma {:induction false} TabsClean(n: nat)
    ensures '\0' !in Tabs(n) && |Tabs(n)| == n
  {
    if n > 0 {
      TabsClean(n - 1);
    }
  }

  lemma DigitsClean(n: int)
    ensures '\0' !in Decimal(n)
  {
    assert !Digit('\0');
  }

  lemma {:induction false} PrintClean(j: Json, depth: nat, fmt: bool)
    requires Printable(j)
    ensures '\0' !in Print(j, depth, fmt)
    decreases j
  {
    match j
    case Num(mant, _) => DigitsClean(mant);
    case Str(s) => EscapeClean(s);
    case Arr(items) => ItemsClean(items, depth + 1, fmt);
    case Obj(members) =>
      MembersClean(members, depth + 1, fmt);
      TabsClean(depth);
    case _ =>
  }

  lemma {:induction false} ItemsClean(items: seq<Json>, depth: nat, fmt: bool)
    requires forall v <- items :: Printable(v)
    ensures '\0' !in PrintItems(items, depth, fmt)
    decreases items
  {
    if items != [] {
      PrintClean(items[0], depth, fmt);
      ItemsClean(items[1..], depth, fmt);
    }
  }

  lemma {:induction false} MembersClean(members: seq<Member>, depth: nat, fmt: bool)
    requires forall m <- members :: CString(m.key) && Printable(m.val)
    ensures '\0' !in PrintMembers(members, depth, fmt)
    decreases members
  {
    if members != [] {
      TabsClean(depth);
      EscapeClean(members[0].key);
      PrintClean(members[0].val, depth, fmt);
      assert '\0' !in PrintMember(members[0], depth, fmt);
      MembersClean(members[1..], depth, fmt);
    }
  }

  // ---------- writing ----------

  /** The C string at the start of `s`. */
  function Text(s: string): string {
    if s == "" || s[0] == '\0' then "" else [s[0]] + Text(s[1..])
  }

  lemma {:induction false} TextOf(s: string, p: string)
    requires '\0' !in p && p + "\0" <= s
    ensures Text(s) == p
  {
    if p != "" {
      assert s[0] == (p + "\0")[0] && s[1..][..|p|] == s[..|p| + 1][1..];
      assert (p + "\0")[1..] == p[1..] + "\0";
      TextOf(s[1..], p[1..]);
    }
  }

  method Put(out: array<char>, at: nat, s: string) returns (end: nat)
    requires at + |s| <= out.Length
    modifies out
    ensures end == at + |s|
    ensures out[..end] == old(out[..at]) + s && out[end..] == old(out[end..])
  {
    var k := 0;
    while k < |s|
      invariant k <= |s|
      invariant out[..at + k] == old(out[..at]) + s[..k] && out[at + k..] == old(out[at + k..])
    {
      out[at + k] := s[k];
      k := k + 1;
    }
    end := at + k;
  }

  method PutTabs(out: array<char>, at: nat, n: nat) returns (i: nat)
    requires at + n <= out.Length
    modifies out
    ensures i == n
    ensures out[..at + n] == old(out[..at]) + Tabs(n) && out[at + n..] == old(out[at + n..])
  {
    i := 0;
    assert out[..at] == old(out[..at]) + Tabs(0);
    while i < n
      invariant i <= n
      invariant out[..at + i] == old(out[..at]) + Tabs(i) && out[at + i..] == old(out[at + i..])
    {
      out[at + i] := '\t';
      TabsSnoc(i);
      i := i + 1;
    }
  }

  lemma {:induction false} TabsSnoc(n: nat)
    ensures Tabs(n) + "\t" == Tabs(n + 1)
  {
    if n > 0 {
      TabsSnoc(n - 1);
    }
  }

  // ---------- print_string_ptr ----------

  /** The first pass: whether nothing is to be escaped, and how many bytes will be written. */
  method StringSize(s: string) returns (plain: bool, len: nat)
    requires CString(s)
    ensures plain <==> forall i | 0 <= i < |s| :: !Special(s[i])
    ensures len == |Escape(s)|
  {
    EscapeCounted(s);
    plain := true;
    var i := 0;
    while i < |s|
      invariant i <= |s|
      invariant plain <==> forall k | 0 <= k < i :: !Special(s[k])
    {
      plain := plain && !Special(s[i]);
      i := i + 1;
    }
    if plain {
      EscapePlain(s);
      return plain, |s|;
    }
    len, i := 0, 0;
    while i < |s|
      invariant i <= |s| && len + Counted(s[i..]) == Counted(s)
    {
      assert s[i..][1..] == s[i + 1..];
      len := len + CountedChar(s[i]);
      i := i + 1;
    }
  }

  /** The second pass, from `at` on. */
  method PutString(out: array<char>, at: nat, s: string, plain: bool)
    requires CString(s) && at + |Escape(s)| + 3 <= out.Length
    requires plain ==> forall i | 0 <= i < |s| :: !Special(s[i])
    modifies out
    ensures out[..at + |Quote(s)| + 1] == old(out[..at]) + Quote(s) + "\0"
  {
    var ptr := Put(out, at, "\"");
    if plain {
      EscapePlain(s);
      ptr := Put(out, ptr, s);
    } else {
      ptr := PutEscaped(out, ptr, s);
    }
    ptr := Put(out, ptr, "\"\0");
    QuoteGlue(old(out[..at]), Escape(s));
  }

  lemma QuoteGlue(b: string, e: string)
    ensures b + "\"" + e + "\"\0" == b + ("\"" + e + "\"") + "\0"
  {
    assert "\"\0" == "\"" + "\0";
    Group3(b + "\"" + e, "\"", "\0");
    Group4(b, "\"", e, "\"");
    Group3("\"", e, "\"");
  }

  method PutEscaped(out: array<char>, at: nat, s: string) returns (ptr: nat)
    requires CString(s) && at + |Escape(s)| <= out.Length
    modifies out
    ensures ptr == at + |Escape(s)| && out[..ptr] == old(out[..at]) + Escape(s)
  {
    ptr := at;
    var i := 0;
    while i < |s|
      invariant i <= |s| && ptr + |Escape(s[i..])| == at + |Escape(s)|
      invariant out[..ptr] + Escape(s[i..]) == old(out[..at]) + Escape(s)
    {
      EscapeStep(out[..ptr], s, i);
      ptr := Put(out, ptr, EscapeChar(s[i]));
      i := i + 1;
    }
    assert out[..ptr] + "" == out[..ptr];
  }

  lemma EscapeStep(b: string, s: string, i: nat)
    requires i < |s|
    ensures |Escape(s[i..])| == |EscapeChar(s[i])| + |Escape(s[i + 1..])|
    ensures b + Escape(s[i..]) == b + EscapeChar(s[i]) + Escape(s[i + 1..])
  {
    assert s[i..][1..] == s[i + 1..];
    Group3(b, EscapeChar(s[i]), Escape(s[i + 1..]));
  }

  // ---------- the unbuffered printer ----------

  /** print_string_ptr without a buffer */
  method PrintString(s: string) returns (text: string)
    requires CString(s)
    ensures text == Quote(s)
  {
    var plain, len := StringSize(s);
    var out := new char[len + 3];
    PutString(out, 0, s, plain);
    assert out[..0] + Quote(s) == Quote(s);
    EscapeClean(s);
    TextOf(out[..], Quote(s));
    text := Text(out[..]);
  }

  /** A constant or a number, in a block of `size` bytes. */
  method PrintWord(s: string, size: nat) returns (text: string)
    requires |s| < size && '\0' !in s
    ensures text == s
  {
    var out := new char[size];
    var end := Put(out, 0, s + "\0");
    assert out[..0] + (s + "\0") == s + "\0";
    TextOf(out[..], s);
    text := Text(out[..]);
  }

  function Separator(last: bool, fmt: bool): string {
    if last then "" else "," + Fmt(fmt, " ")
  }

  lemma ItemsNext(items: seq<Json>, i: nat, depth: nat, fmt: bool, b: string)
    requires i < |items| && forall v <- items :: Printable(v)
    ensures b + PrintItems(items[i..], depth, fmt)
      == b + Print(items[i], depth, fmt) + Separator(i == |items| - 1, fmt) + PrintItems(items[i + 1..], depth, fmt)
  {
    assert items[i..][1..] == items[i + 1..];
    var p, sep, rest := Print(items[i], depth, fmt), Separator(i == |items| - 1, fmt),
      PrintItems(items[i + 1..], depth, fmt);
    assert i == |items| - 1 ==> rest == "";
    Group4(b, p, sep, rest);
    assert PrintItems(items[i..], depth, fmt) == p + (sep + rest);
  }

  /** What a line of an object is made of, left to right. */
  lemma MembersNext(members: seq<Member>, i: nat, depth: nat, fmt: bool, b: string)
    requires i < |members| && forall m <- members :: CString(m.key) && Printable(m.val)
    ensures b + PrintMembers(members[i..], depth, fmt)
      == b + Fmt(fmt, Tabs(depth)) + Quote(members[i].key) + (":" + Fmt(fmt, "\t")) + Print(members[i].val, depth, fmt)
         + (MemberEnd(i == |members| - 1, fmt)) + PrintMembers(members[i + 1..], depth, fmt)
  {
    assert members[i..][1..] == members[i + 1..];
    var m, rest := members[i], PrintMembers(members[i + 1..], depth, fmt);
    var tabs, q, p := Fmt(fmt, Tabs(depth)), Quote(m.key), Print(m.val, depth, fmt);
    var comma := if i == |members| - 1 then "" else ",";
    assert PrintMembers(members[i..], depth, fmt) == PrintMember(m, depth, fmt) + comma + Fmt(fmt, "\n") + rest;
    LineGlue(b, tabs, q, Fmt(fmt, "\t"), p, comma, Fmt(fmt, "\n"), rest);
  }

  function MemberEnd(last: bool, fmt: bool): string {
    (if last then "" else ",") + Fmt(fmt, "\n")
  }

  lemma LineGlue(b: string, tabs: string, q: string, tab: string, p: string, comma: string, nl: string, rest: string)
    ensures b + ((tabs + q + ":" + tab + p) + comma + nl + rest) == b + tabs + q + (":" + tab) + p + (comma + nl) + rest
  {
    var line := tabs + q + ":" + tab + p;
    Group4(b, line, comma + nl, rest);
    Group4(line, comma, nl, rest);
    Group3(comma, nl, rest);
    Group3(tabs + q, ":", tab);
    Group3(b, tabs + q + (":" + tab), p);
    Group3(b, tabs + q, ":" + tab);
    Group3(b, tabs, q);
  }

  /** The sum of the sizes of the texts and of `c` more bytes for each. */
  ghost function Sum(texts: seq<string>, c: nat): nat {
    if texts == [] then 0 else |texts[0]| + c + Sum(texts[1..], c)
  }

  lemma {:induction false} SumSnoc(texts: seq<string>, t: string, c: nat)
    ensures Sum(texts + [t], c) == Sum(texts, c) + |t| + c
  {
    if texts == [] {
      assert [t][1..] == [];
    } else {
      assert (texts + [t])[1..] == texts[1..] + [t];
      SumSnoc(texts[1..], t, c);
    }
  }

  lemma SumNext(texts: seq<string>, i: nat, c: nat)
    requires i < |texts|
    ensures Sum(texts[i..], c) == |texts[i]| + c + Sum(texts[i + 1..], c)
  {
    assert texts[i..][1..] == texts[i + 1..];
  }

  /** print_value without a buffer */
  method PrintValue(j: Json, depth: nat, fmt: bool) returns (text: string)
    requires Printable(j)
    ensures text == Print(j, depth, fmt)
    decreases j, 1
  {
    match j
    case Null => text := PrintWord("null", 5);
    case False => text := PrintWord("false", 6);
    case True => text := PrintWord("true", 5);
    case Num(mant, _) =>
      DigitsClean(mant);
      DecimalFits(mant);
      text := PrintWord(Decimal(mant), if mant == 0 then 2 else 21);
    case Str(s) => text := PrintString(s);
    case Arr(items) => text := PrintArray(items, depth, fmt);
    case Obj(members) => text := PrintObject(members, depth, fmt);
  }

  /** The texts of the elements, and the bytes the array will take. */
  method PrintEntries(items: seq<Json>, depth: nat, fmt: bool) returns (entries: seq<string>, len: nat)
    requires forall v <- items :: Printable(v)
    ensures |entries| == |items| && forall k | 0 <= k < |items| :: entries[k] == Print(items[k], depth, fmt)
    ensures len == 5 + Sum(entries, if fmt then 3 else 2)
    decreases items, 0
  {
    entries, len := [], 5;
    var i := 0;
    while i < |items|
      invariant i == |entries| <= |items| && forall k | 0 <= k < i :: entries[k] == Print(items[k], depth, fmt)
      invariant len == 5 + Sum(entries, if fmt then 3 else 2)
    {
      var ret := PrintValue(items[i], depth, fmt);
      SumSnoc(entries, ret, if fmt then 3 else 2);
      entries, len := entries + [ret], len + |ret| + 2 + if fmt then 1 else 0;
      i := i + 1;
    }
  }

  /** print_array without a buffer */
  method PrintArray(items: seq<Json>, depth: nat, fmt: bool) returns (text: string)
    requires forall v <- items :: Printable(v)
    ensures text == Print(Arr(items), depth, fmt)
    decreases items, 1
  {
    PrintClean(Arr(items), depth, fmt);
    if |items| == 0 {
      text := PrintWord("[]", 3);
      return;
    }
    var entries, len := PrintEntries(items, depth + 1, fmt);
    var out := new char[len];
    var ptr := PutItems(out, entries, items, depth + 1, fmt);
    ptr := Put(out, ptr, "]\0");
    Group3("[" + PrintItems(items, depth + 1, fmt), "]", "\0");
    assert "]\0" == "]" + "\0";
    TextOf(out[..], Print(Arr(items), depth, fmt));
    text := Text(out[..]);
  }

  /** The opening bracket and the elements. */
  method PutItems(out: array<char>, entries: seq<string>, ghost items: seq<Json>, ghost depth: nat, fmt: bool)
    returns (ptr: nat)
    requires forall v <- items :: Printable(v)
    requires |entries| == |items| && forall k | 0 <= k < |items| :: entries[k] == Print(items[k], depth, fmt)
    requires out.Length == 5 + Sum(entries, if fmt then 3 else 2)
    modifies out
    ensures ptr + 2 <= out.Length && out[..ptr] == "[" + PrintItems(items, depth, fmt)
  {
    ptr := Put(out, 0, "[");
    assert out[..0] + "[" == "[";
    var i := 0;
    while i < |entries|
      invariant i <= |entries| && ptr + Sum(entries[i..], if fmt then 3 else 2) + 4 <= out.Length
      invariant out[..ptr] + PrintItems(items[i..], depth, fmt) == "[" + PrintItems(items, depth, fmt)
    {
      SumNext(entries, i, if fmt then 3 else 2);
      ItemsNext(items, i, depth, fmt, out[..ptr]);
      ptr := Put(out, ptr, entries[i]);
      ptr := Put(out, ptr, Separator(i == |entries| - 1, fmt));
      i := i + 1;
    }
    assert out[..ptr] + "" == out[..ptr];
  }

  /** The bytes of a line besides its name and its value, as the sizes are added up. */
  function LineRoom(depth: nat, fmt: bool): nat {
    2 + if fmt then 2 + depth else 0
  }

  /** `names` and `entries` are the texts of the members. */
  ghost predicate Texts(names: seq<string>, entries: seq<string>, members: seq<Member>, depth: nat, fmt: bool) {
    |names| == |entries| == |members|
    && forall k | 0 <= k < |members| :: MemberTexts(names[k], entries[k], members[k], depth, fmt)
  }

  ghost predicate MemberTexts(name: string, entry: string, m: Member, depth: nat, fmt: bool) {
    CString(m.key) && Printable(m.val) && name == Quote(m.key) && entry == Print(m.val, depth, fmt)
  }

  /** The texts of the names and values, and the bytes the object will take. */
  method PrintPairs(members: seq<Member>, depth: nat, fmt: bool)
    returns (names: seq<string>, entries: seq<string>, len: nat)
    requires forall m <- members :: CString(m.key) && Printable(m.val)
    ensures Texts(names, entries, members, depth, fmt)
    ensures len == 7 + (if fmt then depth else 0) + Sum(names, LineRoom(depth, fmt)) + Sum(entries, 0)
    decreases members, 0
  {
    names, entries, len := [], [], 7 + if fmt then depth else 0;
    var i := 0;
    while i < |members|
      invariant i <= |members| && Texts(names, entries, members[..i], depth, fmt)
      invariant len == 7 + (if fmt then depth else 0) + Sum(names, LineRoom(depth, fmt)) + Sum(entries, 0)
    {
      var str := PrintString(members[i].key);
      var ret := PrintValue(members[i].val, depth, fmt);
      SumSnoc(names, str, LineRoom(depth, fmt));
      SumSnoc(entries, ret, 0);
      TextsSnoc(names, entries, members, i, str, ret, depth, fmt);
      names, entries := names + [str], entries + [ret];
      len := len + |ret| + |str| + 2 + if fmt then 2 + depth else 0;
      i := i + 1;
    }
    assert members[..i] == members;
  }

  lemma TextsSnoc(names: seq<string>, entries: seq<string>, members: seq<Member>, i: nat, name: string, entry: string,
      depth: nat, fmt: bool)
    requires i < |members| && Texts(names, entries, members[..i], depth, fmt)
    requires MemberTexts(name, entry, members[i], depth, fmt)
    ensures Texts(names + [name], entries + [entry], members[..i + 1], depth, fmt)
  {
  }

  /** print_object without a buffer */
  method PrintObject(members: seq<Member>, depth: nat, fmt: bool) returns (text: string)
    requires forall m <- members :: CString(m.key) && Printable(m.val)
    ensures text == Print(Obj(members), depth, fmt)
    decreases members, 1
  {
    PrintClean(Obj(members), depth, fmt);
    TabsClean(depth);
    if |members| == 0 {
      text := PrintEmpty(depth, fmt);
      return;
    }
    var names, entries, len := PrintPairs(members, depth + 1, fmt);
    var out := Compose(names, entries, len, members, depth, fmt);
    ObjectGlue(Fmt(fmt, "\n"), PrintMembers(members, depth + 1, fmt), Fmt(fmt, Tabs(depth)));
    TextOf(out[..], Print(Obj(members), depth, fmt));
    text := Text(out[..]);
  }

  /** The text composed in a block of the size that was added up. */
  method Compose(names: seq<string>, entries: seq<string>, len: nat, ghost members: seq<Member>, depth: nat, fmt: bool)
    returns (out: array<char>)
    requires forall m <- members :: CString(m.key) && Printable(m.val)
    requires Texts(names, entries, members, depth + 1, fmt)
    requires len == 7 + (if fmt then depth + 1 else 0) + Sum(names, LineRoom(depth + 1, fmt)) + Sum(entries, 0)
    ensures "{" + Fmt(fmt, "\n") + PrintMembers(members, depth + 1, fmt)
      + (Fmt(fmt, Tabs(depth)) + ("}" + "\0")) <= out[..]
  {
    out := new char[len];
    var ptr := PutMembers(out, names, entries, members, depth + 1, fmt);
    PutClose(out, ptr, depth, fmt);
  }

  method PutClose(out: array<char>, at: nat, depth: nat, fmt: bool)
    requires at + 2 + (if fmt then depth else 0) <= out.Length
    modifies out
    ensures var tabs := Fmt(fmt, Tabs(depth));
      at + |tabs| + 2 <= out.Length && out[..at + |tabs| + 2] == old(out[..at]) + (tabs + ("}" + "\0"))
  {
    TabsClean(depth);
    var ptr := at;
    if fmt {
      var n := PutTabs(out, ptr, depth);
      ptr := ptr + n;
    }
    assert out[..ptr] == old(out[..at]) + Fmt(fmt, Tabs(depth));
    ptr := Put(out, ptr, "}\0");
    assert "}\0" == "}" + "\0";
    Group3(old(out[..at]), Fmt(fmt, Tabs(depth)), "}" + "\0");
  }

  lemma ObjectGlue(nl: string, body: string, tabs: string)
    ensures "{" + nl + body + (tabs + ("}" + "\0")) == ("{" + nl + body + tabs + "}") + "\0"
  {
    Group4("{" + nl + body, tabs, "}", "\0");
  }

  /** An object without members, in the block the code asks for. */
  method PrintEmpty(depth: nat, fmt: bool) returns (text: string)
    ensures text == Print(Obj([]), depth, fmt)
  {
    TabsClean(depth);
    ghost var p := Print(Obj([]), depth, fmt);
    var out := new char[if fmt then depth + 4 else 3];
    var ptr := Put(out, 0, "{");
    assert out[..0] + "{" == "{";
    if fmt {
      ptr := Put(out, ptr, "\n");
      var i := PutTabs(out, ptr, depth);
      ptr := ptr + i;
    }
    assert out[..ptr] + "}" == p;
    ptr := Put(out, ptr, "}\0");
    assert out[..ptr] == p + "\0";
    TextOf(out[..], p);
    text := Text(out[..]);
  }

  /** The opening brace and the members. */
  method PutMembers(out: array<char>, names: seq<string>, entries: seq<string>, ghost members: seq<Member>, depth: nat,
      fmt: bool)
    returns (ptr: nat)
    requires forall m <- members :: CString(m.key) && Printable(m.val)
    requires Texts(names, entries, members, depth, fmt)
    requires out.Length == 7 + (if fmt then depth else 0) + Sum(names, LineRoom(depth, fmt)) + Sum(entries, 0)
    modifies out
    ensures ptr + 2 + (if fmt then depth else 0) <= out.Length
    ensures out[..ptr] == "{" + Fmt(fmt, "\n") + PrintMembers(members, depth, fmt)
  {
    ptr := Put(out, 0, "{");
    ptr := Put(out, ptr, Fmt(fmt, "\n"));
    assert out[..0] + "{" == "{";
    var i := 0;
    while i < |entries|
      invariant i <= |entries|
      invariant ptr + Sum(names[i..], LineRoom(depth, fmt)) + Sum(entries[i..], 0) + 5
        + (if fmt then depth else 0) <= out.Length
      invariant out[..ptr] + PrintMembers(members[i..], depth, fmt)
        == "{" + Fmt(fmt, "\n") + PrintMembers(members, depth, fmt)
    {
      SumNext(names, i, LineRoom(depth, fmt));
      SumNext(entries, i, 0);
      MembersNext(members, i, depth, fmt, out[..ptr]);
      ptr := PutLine(out, ptr, names[i], entries[i], i == |entries| - 1, depth, fmt);
      i := i + 1;
    }
    assert out[..ptr] + "" == out[..ptr];
  }

  /** One member: tabs, name, colon, value, comma, newline. */
  method PutLine(out: array<char>, at: nat, name: string, entry: string, last: bool, depth: nat, fmt: bool)
    returns (ptr: nat)
    requires at + |name| + |entry| + LineRoom(depth, fmt) <= out.Length
    modifies out
    ensures ptr <= at + |name| + |entry| + LineRoom(depth, fmt)
    ensures out[..ptr]
      == old(out[..at]) + Fmt(fmt, Tabs(depth)) + name + (":" + Fmt(fmt, "\t")) + entry + MemberEnd(last, fmt)
  {
    ptr := at;
    if fmt {
      var j := PutTabs(out, ptr, depth);
      ptr := ptr + j;
    }
    assert out[..ptr] == old(out[..at]) + Fmt(fmt, Tabs(depth));
    ptr := Put(out, ptr, name);
    ptr := Put(out, ptr, ":" + Fmt(fmt, "\t"));
    ptr := Put(out, ptr, entry);
    ptr := Put(out, ptr, MemberEnd(last, fmt));
  }

  /** cJSON_Print and cJSON_PrintUnformatted */
  method PrintText(j: Json, fmt: bool) returns (text: string)
    requires Printable(j)
    ensures text == Print(j, 0, fmt)
  {
    text := PrintValue(j, 0, fmt);
  }
}
