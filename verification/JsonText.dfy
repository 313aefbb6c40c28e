/**
 The two text formats of cJSON and the recursive-descent parser, as functions on texts,
 and the round trip between them.
 */
module JsonText {
  import opened JsonStrings

  /** A cJSON tree.  A number is `mant * 10^exp`; the ones that are printed have `exp` zero. */
  datatype Json =
    | Null
    | False
    | True
    | Num(mant: int, exp: int)
    | Str(s: string)
    | Arr(items: seq<Json>)
    | Obj(members: seq<Member>)

  datatype Member = Member(key: string, val: Json)

  const INT_MAX := 0x7FFF_FFFF
  const INT_MIN := -0x8000_0000

  /** NUL-free strings and numbers in the range of int. */
  predicate Printable(j: Json)
    decreases j
  {
    match j
    case Num(mant, exp) => exp == 0 && INT_MIN <= mant <= INT_MAX
    case Str(s) => CString(s)
    case Arr(items) => forall v <- items :: Printable(v)
    case Obj(members) => forall m <- members :: CString(m.key) && Printable(m.val)
    case _ => true
  }

  // ---------- printing ----------

  function Tabs(n: nat): string {
    if n == 0 then "" else "\t" + Tabs(n - 1)
  }

  /** `s` in the formatted text, nothing in the unformatted one. */
  function Fmt(fmt: bool, s: string): string {
    if fmt then s else ""
  }

  /** print_value, print_array and print_object */
  function Print(j: Json, depth: nat, fmt: bool): string
    requires Printable(j)
    decreases j
  {
    match j
    case Null => "null"
    case False => "false"
    case True => "true"
    case Num(mant, _) => Decimal(mant)
    case Str(s) => Quote(s)
    case Arr(items) => "[" + PrintItems(items, depth + 1, fmt) + "]"
    case Obj(members) => "{" + Fmt(fmt, "\n") + PrintMembers(members, depth + 1, fmt) + Fmt(fmt, Tabs(depth)) + "}"
  }

  function PrintItems(items: seq<Json>, depth: nat, fmt: bool): string
    requires forall v <- items :: Printable(v)
    decreases items
  {
    if items == [] then ""
    else
      Print(items[0], depth, fmt)
      + (if |items| == 1 then "" else "," + Fmt(fmt, " ") + PrintItems(items[1..], depth, fmt))
  }

  function PrintMembers(members: seq<Member>, depth: nat, fmt: bool): string
    requires forall m <- members :: CString(m.key) && Printable(m.val)
    decreases members
  {
    if members == [] then ""
    else
      PrintMember(members[0], depth, fmt)
      + (if |members| == 1 then "" else ",") + Fmt(fmt, "\n") + PrintMembers(members[1..], depth, fmt)
  }

  function PrintMember(m: Member, depth: nat, fmt: bool): string
    requires CString(m.key) && Printable(m.val)
    decreases m
  {
    Fmt(fmt, Tabs(depth)) + Quote(m.key) + ":" + Fmt(fmt, "\t") + Print(m.val, depth, fmt)
  }

  // ---------- parsing ----------

  /** skip */
  function Skip(t: string): (r: string)
    ensures |r| <= |t|
  {
    if t != "" && t[0] <= ' ' then Skip(t[1..]) else t
  }

  /** parse_number */
  function ParseNumber(t: string): (r: (Json, string))
    ensures t != "" && (t[0] == '-' || Digit(t[0])) ==> |r.1| < |t|
  {
    var neg := At(t, 0) == '-';
    var (n, e, rest) := ParseUnsigned(if neg then t[1..] else t);
    (Num(if neg then 0 - n else n, e), rest)
  }

  /** Digits, exponent and rest of a number without its sign. */
  function ParseUnsigned(t: string): (r: (nat, int, string))
    ensures |r.2| <= |t| && (Digit(At(t, 0)) ==> |r.2| < |t|)
  {
    var t1 := if At(t, 0) == '0' then t[1..] else t;
    var (n, t2) := ParseWhole(t1);
    var (m, scale, t3) := ParseFraction(t2, n);
    var (e, rest) := ParseExponent(t3);
    (m, scale + e, rest)
  }

  function ParseWhole(t: string): (r: (nat, string))
    ensures |r.1| <= |t| && ('1' <= At(t, 0) <= '9' ==> |r.1| < |t|)
  {
    if '1' <= At(t, 0) <= '9' then ReadDigits(t, 0) else (0, t)
  }

  /** A fraction read into `acc`; each digit takes one from the scale. */
  function ParseFraction(t: string, acc: nat): (r: (nat, int, string))
    ensures |r.2| <= |t|
  {
    if At(t, 0) == '.' && Digit(At(t, 1)) then
      var (n, rest) := ReadDigits(t[1..], acc);
      (n, |rest| - |t| + 1, rest)
    else (acc, 0, t)
  }

  function ParseExponent(t: string): (r: (int, string))
    ensures |r.1| <= |t|
  {
    if At(t, 0) == 'e' || At(t, 0) == 'E' then ParseSigned(t[1..]) else (0, t)
  }

  function ParseSigned(t: string): (r: (int, string))
    ensures |r.1| <= |t|
  {
    var sign := At(t, 0);
    var (e, rest) := ReadDigits(if sign == '+' || sign == '-' then t[1..] else t, 0);
    (if sign == '-' then 0 - e else e, rest)
  }

  /** parse_value: the value and the text after it, or None. */
  function ParseValue(t: string): (r: Option<(Json, string)>)
    ensures r.Some? ==> |r.value.1| < |t|
    decreases |t|, 1
  {
    if t == "" then None
    else if "null" <= t then Some((Null, t[4..]))
    else if "false" <= t then Some((False, t[5..]))
    else if "true" <= t then Some((True, t[4..]))
    else if t[0] == '"' then
      match ParseString(t)
      case None => None
      case Some((s, rest)) => Some((Str(s), rest))
    else if t[0] == '-' || Digit(t[0]) then Some(ParseNumber(t))
    else if t[0] == '[' then ParseArray(t)
    else if t[0] == '{' then ParseObject(t)
    else None
  }

  /** parse_array */
  function ParseArray(t: string): (r: Option<(Json, string)>)
    requires t != ""
    ensures r.Some? ==> |r.value.1| < |t|
    decreases |t|, 0
  {
    var t1 := Skip(t[1..]);
    if At(t1, 0) == ']' then Some((Arr([]), t1[1..]))
    else
      match ParseItems(t1)
      case None => None
      case Some((items, rest)) => Some((Arr(items), rest))
  }

  /** parse_object */
  function ParseObject(t: string): (r: Option<(Json, string)>)
    requires t != ""
    ensures r.Some? ==> |r.value.1| < |t|
    decreases |t|, 0
  {
    var t1 := Skip(t[1..]);
    if At(t1, 0) == '}' then Some((Obj([]), t1[1..]))
    else
      match ParseMembers(t1)
      case None => None
      case Some((members, rest)) => Some((Obj(members), rest))
  }

  /** The elements of an array up to and with the closing bracket. */
  function ParseItems(t: string): (r: Option<(seq<Json>, string)>)
    ensures r.Some? ==> |r.value.1| < |t| && r.value.0 != []
    decreases |t|, 2
  {
    match ParseValue(t)
    case None => None
    case Some((v, t1)) =>
      var t2 := Skip(t1);
      if At(t2, 0) == ',' then
        match ParseItems(Skip(t2[1..]))
        case None => None
        case Some((items, rest)) => Some(([v] + items, rest))
      else if At(t2, 0) == ']' then Some(([v], t2[1..]))
      else None
  }

  /** The members of an object up to and with the closing brace. */
  function ParseMembers(t: string): (r: Option<(seq<Member>, string)>)
    ensures r.Some? ==> |r.value.1| < |t| && r.value.0 != []
    decreases |t|, 2
  {
    match ParseMember(t)
    case None => None
    case Some((m, t1)) =>
      var t2 := Skip(t1);
      if At(t2, 0) == ',' then
        match ParseMembers(Skip(t2[1..]))
        case None => None
        case Some((members, rest)) => Some(([m] + members, rest))
      else if At(t2, 0) == '}' then Some(([m], t2[1..]))
      else None
  }

  function ParseMember(t: string): (r: Option<(Member, string)>)
    ensures r.Some? ==> |r.value.1| < |t|
    decreases |t|, 0
  {
    match ParseString(t)
    case None => None
    case Some((key, t1)) =>
      var t2 := Skip(t1);
      if At(t2, 0) != ':' then None
      else
        match ParseValue(Skip(t2[1..]))
        case None => None
        case Some((v, rest)) => Some((Member(key, v), rest))
  }

  /** cJSON_ParseWithOpts: the tree and where parsing ended. */
  function Parse(t: string, requireEnd: bool): Option<(Json, string)> {
    match ParseValue(Skip(t))
    case None => None
    case Some((j, rest)) =>
      if !requireEnd then Some((j, rest))
      else if Skip(rest) == "" then Some((j, Skip(rest))) else None
  }

  // ---------- round trip ----------

  lemma {:induction false} SkipTabs(n: nat, u: string)
    ensures Skip(Tabs(n) + u) == Skip(u)
  {
    if n == 0 {
      assert Tabs(n) + u == u;
    } else {
      SkipTabs(n - 1, u);
      assert (Tabs(n) + u)[1..] == Tabs(n - 1) + u;
    }
  }

  /** The text after a number that would be read as part of it. */
  predicate Continues(u: string) {
    u != "" && (Digit(u[0]) || u[0] in ['.', 'e', 'E'])
  }

  lemma NumberRoundTrip(n: int, u: string)
    requires !Continues(u)
    ensures ParseNumber(Decimal(n) + u) == (Num(n, 0), u)
  {
    if n < 0 {
      assert (Decimal(n) + u)[1..] == Digits(-n) + u;
      NatRoundTrip(-n, u);
      NumberStep(Decimal(n) + u, -n, u);
    } else {
      NatRoundTrip(n, u);
      NumberStep(Decimal(n) + u, n, u);
    }
  }

  /** A sign and a number that nothing continues. */
  lemma NumberStep(t: string, n: nat, u: string)
    requires !Continues(u) && t != ""
    requires var t1 := if t[0] == '-' then t[1..] else t;
      t1 != "" && Digit(t1[0])
      && if n == 0 then t1[0] == '0' && t1[1..] == u else t1[0] != '0' && ReadDigits(t1, 0) == (n, u)
    ensures ParseNumber(t) == (Num(if t[0] == '-' then 0 - n else n, 0), u)
  {
  }

  lemma NatRoundTrip(n: nat, u: string)
    requires !Continues(u)
    ensures var t := Digits(n) + u;
      t[0] == Digits(n)[0] && Digit(t[0]) &&
      if n == 0 then t[0] == '0' && t[1..] == u else t[0] != '0' && ReadDigits(t, 0) == (n, u)
  {
    ReadDigitsBack(n, u);
    assert Digit(Digits(n)[0]);
  }

  /** Printed values start with a visible character that closes nothing. */
  lemma FirstChar(j: Json, depth: nat, fmt: bool)
    requires Printable(j)
    ensures var p := Print(j, depth, fmt); p != "" && p[0] > ' ' && p[0] != ']' && p[0] != '}'
  {
    if j.Num? {
      assert Digit(Digits(if j.mant < 0 then -j.mant else j.mant)[0]);
    }
  }

  // Concatenation regrouped, so that each proof below can peel a text from the left.

  lemma Drop(c: string, u: string)
    requires |c| == 1
    ensures (c + u)[0] == c[0] && (c + u)[1..] == u
  {
  }

  lemma Group3(a: string, b: string, c: string)
    ensures a + b + c == a + (b + c)
  {
  }

  lemma Group4(a: string, b: string, c: string, d: string)
    ensures a + b + c + d == a + (b + (c + d))
  {
    Group3(a, b, c + d);
    Group3(a + b, c, d);
  }

  lemma Group6(a: string, b: string, c: string, d: string, e: string, f: string)
    ensures a + b + c + d + e + f == a + (b + (c + (d + (e + f))))
  {
    Group4(a, b, c, d + (e + f));
    Group3(a + b + c + d, e, f);
    Group3(a + b + c, d, e + f);
  }

  /** Parsing the text of a value gives the value back and consumes exactly its text. */
  lemma {:induction false} RoundTrip(j: Json, depth: nat, fmt: bool, u: string)
    requires Printable(j) && (j.Num? ==> !Continues(u))
    ensures ParseValue(Print(j, depth, fmt) + u) == Some((j, u))
    decreases j, 1
  {
    match j
    case Null => assert ("null" + u)[4..] == u;
    case False =>
      assert "false" <= "false" + u && ("false" + u)[0] == 'f';
      assert ("false" + u)[5..] == u;
    case True =>
      assert "true" <= "true" + u && ("true" + u)[0] == 't';
      assert ("true" + u)[4..] == u;
    case Num(mant, _) =>
      NumberRoundTrip(mant, u);
      assert Digit(Digits(if mant < 0 then -mant else mant)[0]);
    case Str(s) =>
      QuoteRoundTrip(s, u);
    case Arr(items) =>
      ArrayRoundTrip(items, depth, fmt, u);
    case Obj(members) =>
      ObjectRoundTrip(members, depth, fmt, u);
  }

  lemma {:induction false} ArrayRoundTrip(items: seq<Json>, depth: nat, fmt: bool, u: string)
    requires forall v <- items :: Printable(v)
    ensures ParseValue("[" + PrintItems(items, depth + 1, fmt) + "]" + u) == Some((Arr(items), u))
    decreases items, 1
  {
    var text := PrintItems(items, depth + 1, fmt);
    var body := text + ("]" + u);
    Group4("[", text, "]", u);
    Drop("[", body);
    Bracket("[" + body);
    if items == [] {
      assert body == "]" + u;
      Drop("]", u);
    } else {
      ItemsRoundTrip(items, depth + 1, fmt, u);
      ItemsFirst(items, depth + 1, fmt);
      assert Skip(body) == body;
    }
  }

  lemma Bracket(t: string)
    requires t != ""
    ensures t[0] == '[' ==> ParseValue(t) == ParseArray(t)
    ensures t[0] == '{' ==> ParseValue(t) == ParseObject(t)
  {
  }

  lemma ItemsFirst(items: seq<Json>, depth: nat, fmt: bool)
    requires items != [] && forall v <- items :: Printable(v)
    ensures var p := PrintItems(items, depth, fmt); p != "" && p[0] > ' ' && p[0] != ']'
  {
    FirstChar(items[0], depth, fmt);
  }

  lemma {:induction false} ObjectRoundTrip(members: seq<Member>, depth: nat, fmt: bool, u: string)
    requires forall m <- members :: CString(m.key) && Printable(m.val)
    ensures ParseValue("{" + Fmt(fmt, "\n") + PrintMembers(members, depth + 1, fmt) + Fmt(fmt, Tabs(depth)) + "}" + u)
      == Some((Obj(members), u))
    decreases members, 1
  {
    if members == [] {
      EmptyObject(depth, fmt, u);
    } else {
      var tail := Fmt(fmt, Tabs(depth)) + ("}" + u);
      ObjectTail(depth, fmt, u);
      MembersRoundTrip(members, depth + 1, fmt, tail, u);
      ObjectStep(members, fmt, PrintMembers(members, depth + 1, fmt), Fmt(fmt, Tabs(depth)), u);
    }
  }

  lemma ObjectTail(depth: nat, fmt: bool, u: string)
    ensures var tail := Fmt(fmt, Tabs(depth)) + ("}" + u); Skip(tail) == "}" + u && !Continues(tail)
  {
    SkipTail(fmt, depth, "}" + u);
    Drop("}", u);
    TailStops(fmt, depth, u);
  }

  lemma EmptyObject(depth: nat, fmt: bool, u: string)
    ensures ParseValue("{" + Fmt(fmt, "\n") + "" + Fmt(fmt, Tabs(depth)) + "}" + u) == Some((Obj([]), u))
  {
    var tabs := Fmt(fmt, Tabs(depth));
    SkipTail(fmt, depth, "}" + u);
    Drop("}", u);
    assert "" + (tabs + ("}" + u)) == tabs + ("}" + u);
    ObjectStep([], fmt, "", tabs, u);
  }

  lemma ObjectStep(members: seq<Member>, fmt: bool, text: string, tabs: string, u: string)
    requires var body := text + (tabs + ("}" + u));
      if members == [] then Skip(body) == "}" + u
      else ParseMembers(Skip(body)) == Some((members, u)) && At(Skip(body), 0) == '"'
    ensures ParseValue("{" + Fmt(fmt, "\n") + text + tabs + "}" + u) == Some((Obj(members), u))
  {
    var body := text + (tabs + ("}" + u));
    Group6("{", Fmt(fmt, "\n"), text, tabs, "}", u);
    Drop("{", Fmt(fmt, "\n") + body);
    Bracket("{" + (Fmt(fmt, "\n") + body));
    SkipNewline(fmt, body);
    Drop("}", u);
  }

  lemma TailStops(fmt: bool, depth: nat, u: string)
    ensures !Continues(Fmt(fmt, Tabs(depth)) + ("}" + u))
  {
    if fmt && depth > 0 {
      assert Tabs(depth)[0] == '\t';
      assert (Tabs(depth) + ("}" + u))[0] == '\t';
    } else {
      assert "" + ("}" + u) == "}" + u;
    }
  }

  lemma SkipNewline(fmt: bool, u: string)
    ensures Skip(Fmt(fmt, "\n") + u) == Skip(u)
  {
    assert ("\n" + u)[1..] == u;
    assert "" + u == u;
  }

  lemma SkipTail(fmt: bool, depth: nat, u: string)
    ensures Skip(Fmt(fmt, Tabs(depth)) + u) == Skip(u)
  {
    SkipTabs(depth, u);
    assert "" + u == u;
  }

  lemma ItemsStep(t: string, v: Json, t1: string)
    requires ParseValue(t) == Some((v, t1)) && t1 != ""
    ensures t1[0] == ']' ==> ParseItems(t) == Some(([v], t1[1..]))
    ensures t1[0] == ',' && ParseItems(Skip(t1[1..])).Some? ==>
      ParseItems(t) == Some(([v] + ParseItems(Skip(t1[1..])).value.0, ParseItems(Skip(t1[1..])).value.1))
  {
  }

  lemma {:induction false} ItemsRoundTrip(items: seq<Json>, depth: nat, fmt: bool, u: string)
    requires items != [] && forall v <- items :: Printable(v)
    ensures ParseItems(PrintItems(items, depth, fmt) + ("]" + u)) == Some((items, u))
    decreases items, 0
  {
    var v, more := items[0], items[1..];
    var p, end := Print(v, depth, fmt), "]" + u;
    assert [v] + more == items;
    if more == [] {
      RoundTrip(v, depth, fmt, end);
      Drop("]", u);
      assert PrintItems(items, depth, fmt) == p && items == [v];
      ItemsStep(p + end, v, end);
    } else {
      var text := PrintItems(more, depth, fmt);
      var rest := "," + (Fmt(fmt, " ") + (text + end));
      ItemsGlue(p, Fmt(fmt, " "), text, end);
      RoundTrip(v, depth, fmt, rest);
      Drop(",", Fmt(fmt, " ") + (text + end));
      ItemsFirst(more, depth, fmt);
      SkipSpace(fmt, text + end);
      assert Skip(text + end) == text + end;
      ItemsRoundTrip(more, depth, fmt, u);
      ItemsStep(p + rest, v, rest);
    }
  }

  lemma ItemsGlue(p: string, space: string, text: string, end: string)
    ensures (p + ("," + space + text)) + end == p + ("," + (space + (text + end)))
  {
    Group3(p, "," + space + text, end);
    Group4(",", space, text, end);
  }

  lemma SkipSpace(fmt: bool, u: string)
    ensures Skip(Fmt(fmt, " ") + u) == Skip(u)
  {
    assert (" " + u)[1..] == u;
    assert "" + u == u;
  }

  lemma MembersStep(t: string, m: Member, t1: string)
    requires ParseMember(t) == Some((m, t1))
    ensures At(Skip(t1), 0) == '}' ==> ParseMembers(t) == Some(([m], Skip(t1)[1..]))
    ensures At(Skip(t1), 0) == ',' && ParseMembers(Skip(Skip(t1)[1..])).Some? ==>
      ParseMembers(t)
        == Some(([m] + ParseMembers(Skip(Skip(t1)[1..])).value.0, ParseMembers(Skip(Skip(t1)[1..])).value.1))
  {
  }

  lemma {:induction false} MembersRoundTrip(members: seq<Member>, depth: nat, fmt: bool, tail: string, u: string)
    requires members != [] && forall m <- members :: CString(m.key) && Printable(m.val)
    requires Skip(tail) == "}" + u && !Continues(tail)
    ensures ParseMembers(Skip(PrintMembers(members, depth, fmt) + tail)) == Some((members, u))
    ensures At(Skip(PrintMembers(members, depth, fmt) + tail), 0) == '"'
    decreases members, 0
  {
    var m := members[0];
    if |members| == 1 {
      LineStops(fmt, tail);
      MemberRoundTrip(m, depth, fmt, Fmt(fmt, "\n") + tail);
      LastMember(members, depth, fmt, tail, u);
    } else {
      var next := PrintMembers(members[1..], depth, fmt) + tail;
      MembersRoundTrip(members[1..], depth, fmt, tail, u);
      MemberRoundTrip(m, depth, fmt, "," + (Fmt(fmt, "\n") + next));
      NextMember(members, depth, fmt, tail, u);
    }
  }

  /** The text of a member is read as that member, up to `rest`. */
  ghost predicate MemberReads(m: Member, depth: nat, fmt: bool, rest: string)
    requires CString(m.key) && Printable(m.val)
  {
    var t := Skip(PrintMember(m, depth, fmt) + rest);
    ParseMember(t) == Some((m, rest)) && At(t, 0) == '"'
  }

  lemma LastMember(members: seq<Member>, depth: nat, fmt: bool, tail: string, u: string)
    requires |members| == 1 && forall m <- members :: CString(m.key) && Printable(m.val)
    requires MemberReads(members[0], depth, fmt, Fmt(fmt, "\n") + tail)
    requires Skip(tail) == "}" + u
    ensures ParseMembers(Skip(PrintMembers(members, depth, fmt) + tail)) == Some((members, u))
    ensures At(Skip(PrintMembers(members, depth, fmt) + tail), 0) == '"'
  {
    PrintLast(members, depth, fmt, tail);
    MembersLast(PrintMember(members[0], depth, fmt), fmt, tail, members[0], u);
    assert members == [members[0]];
  }

  lemma NextMember(members: seq<Member>, depth: nat, fmt: bool, tail: string, u: string)
    requires |members| > 1 && forall m <- members :: CString(m.key) && Printable(m.val)
    requires MemberReads(members[0], depth, fmt, ","
      + (Fmt(fmt, "\n") + (PrintMembers(members[1..], depth, fmt) + tail)))
    requires ParseMembers(Skip(PrintMembers(members[1..], depth, fmt) + tail)) == Some((members[1..], u))
    ensures ParseMembers(Skip(PrintMembers(members, depth, fmt) + tail)) == Some((members, u))
    ensures At(Skip(PrintMembers(members, depth, fmt) + tail), 0) == '"'
  {
    PrintMore(members, depth, fmt, tail);
    var more := PrintMembers(members[1..], depth, fmt) + tail;
    MembersMore(PrintMember(members[0], depth, fmt), fmt, more, members[0], members[1..], u);
    assert [members[0]] + members[1..] == members;
  }

  lemma PrintLast(members: seq<Member>, depth: nat, fmt: bool, tail: string)
    requires |members| == 1 && forall m <- members :: CString(m.key) && Printable(m.val)
    ensures PrintMembers(members, depth, fmt) + tail == PrintMember(members[0], depth, fmt) + (Fmt(fmt, "\n") + tail)
  {
    LastGlue(PrintMember(members[0], depth, fmt), Fmt(fmt, "\n"), tail);
  }

  lemma PrintMore(members: seq<Member>, depth: nat, fmt: bool, tail: string)
    requires |members| > 1 && forall m <- members :: CString(m.key) && Printable(m.val)
    ensures PrintMembers(members, depth, fmt) + tail
      == PrintMember(members[0], depth, fmt)
        + ("," + (Fmt(fmt, "\n") + (PrintMembers(members[1..], depth, fmt) + tail)))
  {
    MembersGlue(PrintMember(members[0], depth, fmt), ",", Fmt(fmt, "\n"), PrintMembers(members[1..], depth, fmt), tail);
  }

  lemma LastGlue(p: string, nl: string, tail: string)
    ensures (p + "" + nl + "") + tail == p + (nl + tail)
  {
    Group3(p, nl, tail);
    assert p + "" == p && p + nl + "" == p + nl;
  }

  lemma MembersLast(p: string, fmt: bool, tail: string, m: Member, u: string)
    requires ParseMember(Skip(p + (Fmt(fmt, "\n") + tail))) == Some((m, Fmt(fmt, "\n") + tail))
    requires Skip(tail) == "}" + u
    ensures ParseMembers(Skip(p + (Fmt(fmt, "\n") + tail))) == Some(([m], u))
  {
    SkipNewline(fmt, tail);
    MembersStep(Skip(p + (Fmt(fmt, "\n") + tail)), m, Fmt(fmt, "\n") + tail);
    Drop("}", u);
  }

  lemma MembersMore(p: string, fmt: bool, next: string, m: Member, more: seq<Member>, u: string)
    requires ParseMember(Skip(p + ("," + (Fmt(fmt, "\n") + next)))) == Some((m, "," + (Fmt(fmt, "\n") + next)))
    requires ParseMembers(Skip(next)) == Some((more, u))
    ensures ParseMembers(Skip(p + ("," + (Fmt(fmt, "\n") + next)))) == Some(([m] + more, u))
  {
    var line := Fmt(fmt, "\n") + next;
    Drop(",", line);
    SkipNewline(fmt, next);
    MembersStep(Skip(p + ("," + line)), m, "," + line);
  }

  lemma LineStops(fmt: bool, tail: string)
    requires !Continues(tail)
    ensures !Continues(Fmt(fmt, "\n") + tail)
  {
    assert !fmt ==> Fmt(fmt, "\n") + tail == tail;
  }

  lemma MembersGlue(p: string, comma: string, nl: string, text: string, tail: string)
    ensures (p + comma + nl + text) + tail == p + (comma + (nl + (text + tail)))
  {
    Group3(p + comma + nl, text, tail);
    Group4(p, comma, nl, text + tail);
  }

  lemma {:induction false} MemberRoundTrip(m: Member, depth: nat, fmt: bool, u: string)
    requires CString(m.key) && Printable(m.val) && !Continues(u)
    ensures MemberReads(m, depth, fmt, u)
    decreases m, 0
  {
    var p := Print(m.val, depth, fmt);
    var value := Fmt(fmt, "\t") + (p + u);
    var afterKey := ":" + value;
    var t := Quote(m.key) + afterKey;
    Group6(Fmt(fmt, Tabs(depth)), Quote(m.key), ":", Fmt(fmt, "\t"), p, u);
    SkipTail(fmt, depth, t);
    assert t[0] == '"' && Skip(t) == t;
    QuoteRoundTrip(m.key, afterKey);
    Drop(":", value);
    SkipTab(fmt, p + u);
    FirstChar(m.val, depth, fmt);
    assert Skip(p + u) == p + u;
    RoundTrip(m.val, depth, fmt, u);
  }

  lemma SkipTab(fmt: bool, u: string)
    ensures Skip(Fmt(fmt, "\t") + u) == Skip(u)
  {
    assert ("\t" + u)[1..] == u;
    assert "" + u == u;
  }

  /** cJSON_Parse undoes cJSON_Print and cJSON_PrintUnformatted, and consumes all of the text. */
  lemma ParsePrint(j: Json, fmt: bool, requireEnd: bool)
    requires Printable(j)
    ensures Parse(Print(j, 0, fmt), requireEnd) == Some((j, ""))
  {
    FirstChar(j, 0, fmt);
    RoundTrip(j, 0, fmt, "");
    assert Print(j, 0, fmt) + "" == Print(j, 0, fmt);
  }
}
