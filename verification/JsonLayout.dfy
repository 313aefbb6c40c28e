/**
 The layout of the formatted text, told from the unformatted one: a reader that knows nothing of
 trees, only the brackets that are open, puts in the same blanks.
 */
module JsonLayout {
  import opened JsonStrings
  import opened JsonText
  import opened JsonMinify
  import opened JsonMinified

  /** The unformatted text `t` with blanks put in; `open` are the brackets around it.  A blank goes
      behind a comma in an array, a tab behind a colon.  In an object a line ends behind the brace and
      every comma and before the closing brace, and the next one begins with a tab for every
      bracket that is open.  Literals stay as they are. */
  function Indent(t: string, open: string): string
    decreases |t|
  {
    if t == "" then ""
    else if t[0] == '"' then
      match Literal(t)
      case Some(n) => t[..n] + Indent(t[n..], open)
      case None => t
    else if t[0] == '{' && At(t, 1) == '}' then "{\n" + Tabs(|open|) + "}" + Indent(t[2..], open)
    else Mark(t[0], open) + Indent(t[1..], Open(t[0], open))
  }

  /** What one character becomes. */
  function Mark(c: char, open: string): string {
    match c
    case '{' => "{\n" + Tabs(|open| + 1)
    case '}' => "\n" + Tabs(if open == "" then 0 else |open| - 1) + "}"
    case ',' => if open != "" && open[|open| - 1] == '[' then ", " else ",\n" + Tabs(|open|)
    case ':' => ":\t"
    case _ => [c]
  }

  /** The brackets open behind it. */
  function Open(c: char, open: string): string {
    if c == '[' || c == '{' then open + [c]
    else if (c == ']' || c == '}') && open != "" then open[..|open| - 1]
    else open
  }

  // ---------- parts of a text ----------

  /** Characters that stay as they are. */
  predicate Same(c: char) {
    c !in ['"', '{', '}', '[', ']', ',', ':']
  }

  lemma {:induction false} IndentSame(s: string, u: string, open: string)
    requires forall i | 0 <= i < |s| :: Same(s[i])
    ensures Indent(s + u, open) == s + Indent(u, open)
  {
    if s == "" {
      assert s + u == u;
    } else {
      var c := [s[0]];
      assert Same(s[0]) && s == c + s[1..];
      Group3(c, s[1..], u);
      Drop(c, s[1..] + u);
      IndentSame(s[1..], u, open);
      Group3(c, s[1..], Indent(u, open));
    }
  }

  lemma IndentQuote(s: string, u: string, open: string)
    requires CString(s)
    ensures Indent(Quote(s) + u, open) == Quote(s) + Indent(u, open)
  {
    var t := Quote(s) + u;
    assert t[1..] == Escape(s) + ("\"" + u);
    EscapeScans(s, "\"" + u);
    assert t[..|Quote(s)|] == Quote(s) && t[|Quote(s)|..] == u;
  }

  lemma IndentDecimal(n: int, u: string, open: string)
    ensures Indent(Decimal(n) + u, open) == Decimal(n) + Indent(u, open)
  {
    forall i | 0 <= i < |Decimal(n)| ensures Same(Decimal(n)[i]) {
      assert Decimal(n)[i] == '-' || Digit(Decimal(n)[i]);
    }
    IndentSame(Decimal(n), u, open);
  }

  lemma IndentMark(c: char, u: string, open: string)
    requires c != '"' && (c == '{' ==> At(u, 0) != '}')
    ensures Indent([c] + u, open) == Mark(c, open) + Indent(u, Open(c, open))
  {
    Drop([c], u);
    assert At([c] + u, 1) == At(u, 0);
  }

  // ---------- values ----------

  /** The text of a value becomes its formatted text, as deep as there are brackets open. */
  lemma {:induction false} IndentPrint(j: Json, depth: nat, open: string, u: string)
    requires Printable(j)
    ensures Indent(Print(j, depth, false) + u, open) == Print(j, |open|, true) + Indent(u, open)
    decreases j, 1
  {
    match j
    case Null => IndentSame("null", u, open);
    case False => IndentSame("false", u, open);
    case True => IndentSame("true", u, open);
    case Num(mant, _) => IndentDecimal(mant, u, open);
    case Str(s) => IndentQuote(s, u, open);
    case Arr(items) => IndentArray(items, depth, open, u);
    case Obj(members) =>
      if members == [] {
        EmptyObject(depth, open, u);
      } else {
        IndentObject(members, depth, open, u);
      }
  }

  lemma {:induction false} IndentArray(items: seq<Json>, depth: nat, open: string, u: string)
    requires forall v <- items :: Printable(v)
    ensures Indent(Print(Arr(items), depth, false) + u, open) == Print(Arr(items), |open|, true) + Indent(u, open)
    decreases items, 1
  {
    var p, q := PrintItems(items, depth + 1, false), PrintItems(items, |open| + 1, true);
    Group4("[", p, "]", u);
    IndentMark('[', p + ("]" + u), open);
    IndentItems(items, depth + 1, open + "[", "]" + u);
    IndentMark(']', u, open + "[");
    assert (open + "[")[..|open|] == open;
    Group4("[", q, "]", Indent(u, open));
  }

  lemma {:induction false} IndentItems(items: seq<Json>, depth: nat, open: string, u: string)
    requires (forall v <- items :: Printable(v)) && open != "" && open[|open| - 1] == '['
    ensures Indent(PrintItems(items, depth, false) + u, open) == PrintItems(items, |open|, true) + Indent(u, open)
    decreases items, 0
  {
    if items == [] {
      IndentSame("", u, open);
    } else if |items| == 1 {
      IndentPrint(items[0], depth, open, u);
      assert PrintItems(items, depth, false) == Print(items[0], depth, false);
      assert PrintItems(items, |open|, true) == Print(items[0], |open|, true);
    } else {
      var p, q := PrintItems(items[1..], depth, false), PrintItems(items[1..], |open|, true);
      ItemsText(items, depth, false, u);
      IndentPrint(items[0], depth, open, "," + (p + u));
      IndentMark(',', p + u, open);
      IndentItems(items[1..], depth, open, u);
      ItemsText(items, |open|, true, Indent(u, open));
    }
  }

  /** What parts two elements. */
  lemma ItemsText(items: seq<Json>, depth: nat, fmt: bool, u: string)
    requires |items| > 1 && forall v <- items :: Printable(v)
    ensures PrintItems(items, depth, fmt) + u
      == Print(items[0], depth, fmt) + ((if fmt then ", " else ",") + (PrintItems(items[1..], depth, fmt) + u))
  {
    var p := PrintItems(items[1..], depth, fmt);
    var comma := "," + Fmt(fmt, " ");
    ItemsLaw(items, depth, fmt, p);
    Group3(Print(items[0], depth, fmt), comma + p, u);
    Group3(comma, p, u);
    assert comma == if fmt then ", " else ",";
  }

  lemma EmptyObject(depth: nat, open: string, u: string)
    ensures Indent(Print(Obj([]), depth, false) + u, open) == Print(Obj([]), |open|, true) + Indent(u, open)
  {
    var t := "{}" + u;
    assert Print(Obj([]), depth, false) == "{}";
    assert t[2..] == u;
    assert Print(Obj([]), |open|, true) == "{\n" + Tabs(|open|) + "}";
  }

  lemma {:induction false} IndentObject(members: seq<Member>, depth: nat, open: string, u: string)
    requires members != [] && forall m <- members :: CString(m.key) && Printable(m.val)
    ensures Indent(Print(Obj(members), depth, false) + u, open) == Print(Obj(members), |open|, true) + Indent(u, open)
    decreases members, 1
  {
    var p := PrintMembers(members, depth + 1, false);
    MembersHead(members, depth + 1);
    ObjectText(members, depth, u);
    IndentMark('{', p + ("}" + u), open);
    IndentMembers(members, depth + 1, open, u);
    ObjectLines(members, |open|, Indent(p + ("}" + u), open + "{"), Indent(u, open));
  }

  lemma ObjectText(members: seq<Member>, depth: nat, u: string)
    requires forall m <- members :: CString(m.key) && Printable(m.val)
    ensures Print(Obj(members), depth, false) + u == "{" + (PrintMembers(members, depth + 1, false) + ("}" + u))
  {
    var p := PrintMembers(members, depth + 1, false);
    Braces(p);
    Group3("{", p + "}", u);
    Group3(p, "}", u);
  }

  lemma ObjectLines(members: seq<Member>, depth: nat, t: string, u: string)
    requires forall m <- members :: CString(m.key) && Printable(m.val)
    requires Tabs(depth + 1) + t == PrintMembers(members, depth + 1, true) + (Tabs(depth) + ("}" + u))
    ensures "{\n" + Tabs(depth + 1) + t == Print(Obj(members), depth, true) + u
  {
    ObjectGlue(PrintMembers(members, depth + 1, true), Tabs(depth), Tabs(depth + 1), t, u);
  }

  lemma ObjectGlue(q: string, tabs: string, more: string, t: string, u: string)
    requires more + t == q + (tabs + ("}" + u))
    ensures "{\n" + more + t == "{" + "\n" + q + tabs + "}" + u
  {
    Group3("{\n", more, t);
    Group6("{", "\n", q, tabs, "}", u);
  }

  lemma MembersHead(members: seq<Member>, depth: nat)
    requires members != [] && forall m <- members :: CString(m.key) && Printable(m.val)
    ensures var p := PrintMembers(members, depth, false); p != "" && p[0] == '"'
  {
    assert PrintMember(members[0], depth, false)[0] == '"';
  }

  /** The lines of the members, up to and with the closing brace. */
  lemma {:induction false} IndentMembers(members: seq<Member>, depth: nat, open: string, u: string)
    requires members != [] && forall m <- members :: CString(m.key) && Printable(m.val)
    ensures Tabs(|open| + 1) + Indent(PrintMembers(members, depth, false) + ("}" + u), open + "{")
      == PrintMembers(members, |open| + 1, true) + (Tabs(|open|) + ("}" + Indent(u, open)))
    decreases members, 0
  {
    var o, m := open + "{", members[0];
    var tail := Tabs(|open|) + ("}" + Indent(u, open));
    if |members| == 1 {
      OneMember(members, depth);
      IndentMember(m, depth, o, "}" + u);
      CloseLine(open, u);
      OneMember(members, |o|);
      Group3(PrintMember(m, |o|, true), "\n", tail);
    } else {
      var p := PrintMembers(members[1..], depth, false) + ("}" + u);
      MoreMembers(members, depth, "}" + u);
      IndentMember(m, depth, o, "," + p);
      CommaLine(open, p);
      IndentMembers(members[1..], depth, open, u);
      MoreLines(members, |o|, tail);
    }
  }

  lemma CloseLine(open: string, u: string)
    ensures Indent("}" + u, open + "{") == "\n" + (Tabs(|open|) + ("}" + Indent(u, open)))
  {
    IndentMark('}', u, open + "{");
    assert (open + "{")[..|open|] == open;
    Group4("\n", Tabs(|open|), "}", Indent(u, open));
  }

  lemma CommaLine(open: string, t: string)
    ensures Indent("," + t, open + "{") == ",\n" + (Tabs(|open| + 1) + Indent(t, open + "{"))
  {
    var o := open + "{";
    IndentMark(',', t, o);
    InObject(o);
    Group3(",\n", Tabs(|open| + 1), Indent(t, o));
  }

  lemma InObject(open: string)
    requires open != "" && open[|open| - 1] == '{'
    ensures Mark(',', open) == ",\n" + Tabs(|open|) && Open(',', open) == open
  {
  }

  lemma OneMember(members: seq<Member>, depth: nat)
    requires |members| == 1 && forall m <- members :: CString(m.key) && Printable(m.val)
    ensures PrintMembers(members, depth, false) == PrintMember(members[0], depth, false)
    ensures PrintMembers(members, depth, true) == PrintMember(members[0], depth, true) + "\n"
  {
    assert PrintMembers(members[1..], depth, false) == "" == PrintMembers(members[1..], depth, true);
  }

  lemma MoreMembers(members: seq<Member>, depth: nat, u: string)
    requires |members| > 1 && forall m <- members :: CString(m.key) && Printable(m.val)
    ensures PrintMembers(members, depth, false) + u
      == PrintMember(members[0], depth, false) + ("," + (PrintMembers(members[1..], depth, false) + u))
  {
    var m, p := PrintMember(members[0], depth, false), PrintMembers(members[1..], depth, false);
    CommaGlue(m, ",", p);
    Group3(m, "," + p, u);
    Group3(",", p, u);
  }

  lemma MoreLines(members: seq<Member>, depth: nat, u: string)
    requires |members| > 1 && forall m <- members :: CString(m.key) && Printable(m.val)
    ensures PrintMembers(members, depth, true) + u
      == PrintMember(members[0], depth, true) + (",\n" + (PrintMembers(members[1..], depth, true) + u))
  {
    Lines(PrintMember(members[0], depth, true), PrintMembers(members[1..], depth, true), u);
  }

  lemma Lines(m: string, p: string, u: string)
    ensures m + "," + "\n" + p + u == m + (",\n" + (p + u))
  {
    Group3(m, ",", "\n");
    Group4(m, ",\n", p, u);
  }

  lemma {:induction false} IndentMember(m: Member, depth: nat, open: string, u: string)
    requires CString(m.key) && Printable(m.val)
    ensures Tabs(|open|) + Indent(PrintMember(m, depth, false) + u, open)
      == PrintMember(m, |open|, true) + Indent(u, open)
    decreases m, 0
  {
    var p := Print(m.val, depth, false);
    MemberText(m, depth, u);
    IndentQuote(m.key, ":" + (p + u), open);
    IndentMark(':', p + u, open);
    IndentPrint(m.val, depth, open, u);
    MemberLine(m, |open|, Indent(u, open));
  }

  lemma MemberText(m: Member, depth: nat, u: string)
    requires CString(m.key) && Printable(m.val)
    ensures PrintMember(m, depth, false) + u == Quote(m.key) + (":" + (Print(m.val, depth, false) + u))
  {
    var p := Print(m.val, depth, false);
    KeyGlue(Quote(m.key), p);
    Group3(Quote(m.key), ":" + p, u);
    Group3(":", p, u);
  }

  lemma MemberLine(m: Member, depth: nat, u: string)
    requires CString(m.key) && Printable(m.val)
    ensures PrintMember(m, depth, true) + u
      == Tabs(depth) + (Quote(m.key) + (":\t" + (Print(m.val, depth, true) + u)))
  {
    var p := Print(m.val, depth, true);
    Group6(Tabs(depth), Quote(m.key), ":", "\t", p, u);
    assert ":" + ("\t" + (p + u)) == ":\t" + (p + u);
  }

  /** The formatted text of a document is the unformatted one with these blanks put in. */
  lemma IndentFormats(j: Json)
    requires Printable(j)
    ensures Indent(Print(j, 0, false), "") == Print(j, 0, true)
  {
    IndentPrint(j, 0, "", "");
    assert Print(j, 0, true) + "" == Print(j, 0, true);
    assert Print(j, 0, false) + "" == Print(j, 0, false);
  }
}
