/**
 What minifying does to the meaning of a text: it turns the formatted print into the
 unformatted one, and a text that parses still parses, as the same tree.
 */
module JsonMinified {
  import opened JsonStrings
  import opened JsonText
  import opened JsonMinify
  import opened JsonParser

  // ---------- the two printers ----------

  /** Characters that are copied one by one. */
  predicate Plain(c: char) {
    !Blank(c) && c != '/' && c != '"'
  }

  lemma {:induction false} MinifyPlain(s: string, u: string)
    requires forall i | 0 <= i < |s| :: Plain(s[i])
    ensures Minify(s + u) == Prepend(s, Minify(u))
  {
    if s == "" {
      assert s + u == u;
      assert Minify(u).Some? ==> "" + Minify(u).value == Minify(u).value;
    } else {
      assert (s + u)[1..] == s[1..] + u && Plain(s[0]);
      MinifyPlain(s[1..], u);
      assert Minify(u).Some? ==> [s[0]] + (s[1..] + Minify(u).value) == s + Minify(u).value;
    }
  }

  lemma {:induction false} MinifyBlank(s: string, u: string)
    requires forall i | 0 <= i < |s| :: Blank(s[i])
    ensures Minify(s + u) == Minify(u)
  {
    if s == "" {
      assert s + u == u;
    } else {
      assert (s + u)[1..] == s[1..] + u && Blank(s[0]);
      MinifyBlank(s[1..], u);
    }
  }

  lemma MinifyQuote(s: string, u: string)
    requires CString(s)
    ensures Minify(Quote(s) + u) == Prepend(Quote(s), Minify(u))
  {
    var t := Quote(s) + u;
    assert t[1..] == Escape(s) + ("\"" + u);
    EscapeScans(s, "\"" + u);
    assert t[..|Quote(s)|] == Quote(s) && t[|Quote(s)|..] == u;
  }

  lemma {:induction false} TabsBlank(n: nat)
    ensures forall i | 0 <= i < |Tabs(n)| :: Blank(Tabs(n)[i])
  {
    if n > 0 {
      TabsBlank(n - 1);
    }
  }

  lemma MinifyFmt(fmt: bool, s: string, u: string)
    requires forall i | 0 <= i < |s| :: Blank(s[i])
    ensures Minify(Fmt(fmt, s) + u) == Minify(u)
  {
    MinifyBlank(Fmt(fmt, s), u);
  }

  lemma MinifyDecimal(n: int, u: string)
    ensures Minify(Decimal(n) + u) == Prepend(Decimal(n), Minify(u))
  {
    forall i | 0 <= i < |Decimal(n)| ensures Plain(Decimal(n)[i]) {
      assert Decimal(n)[i] == '-' || Digit(Decimal(n)[i]);
    }
    MinifyPlain(Decimal(n), u);
  }

  /** The text of a value, however formatted, becomes its unformatted text. */
  lemma {:induction false} MinifyPrint(j: Json, depth: nat, fmt: bool, depth': nat, u: string)
    requires Printable(j)
    ensures Minify(Print(j, depth, fmt) + u) == Prepend(Print(j, depth', false), Minify(u))
    decreases j, 1
  {
    match j
    case Null => MinifyPlain("null", u);
    case False => MinifyPlain("false", u);
    case True => MinifyPlain("true", u);
    case Num(mant, _) => MinifyDecimal(mant, u);
    case Str(s) => MinifyQuote(s, u);
    case Arr(items) => MinifyArray(items, depth, fmt, depth', u);
    case Obj(members) => MinifyObject(members, depth, fmt, depth', u);
  }

  lemma {:induction false} MinifyArray(items: seq<Json>, depth: nat, fmt: bool, depth': nat, u: string)
    requires forall v <- items :: Printable(v)
    ensures Minify(Print(Arr(items), depth, fmt) + u) == Prepend(Print(Arr(items), depth', false), Minify(u))
    decreases items, 1
  {
    var p, q := PrintItems(items, depth + 1, fmt), PrintItems(items, depth' + 1, false);
    Group4("[", p, "]", u);
    MinifyPlain("[", p + ("]" + u));
    MinifyItems(items, depth + 1, fmt, depth' + 1, "]" + u);
    MinifyPlain("]", u);
    PrependMore(q, "]", Minify(u));
    PrependMore("[", q + "]", Minify(u));
    Group3("[", q, "]");
  }

  lemma {:induction false} MinifyItems(items: seq<Json>, depth: nat, fmt: bool, depth': nat, u: string)
    requires forall v <- items :: Printable(v)
    ensures Minify(PrintItems(items, depth, fmt) + u) == Prepend(PrintItems(items, depth', false), Minify(u))
    decreases items, 0
  {
    if items == [] {
      MinifyPlain("", u);
    } else if |items| == 1 {
      MinifyPrint(items[0], depth, fmt, depth', u);
      assert PrintItems(items, depth, fmt) == Print(items[0], depth, fmt);
      assert PrintItems(items, depth', false) == Print(items[0], depth', false);
    } else {
      var ps, qs := PrintItems(items[1..], depth, fmt), PrintItems(items[1..], depth', false);
      MinifyPrint(items[0], depth, fmt, depth', "," + (Fmt(fmt, " ") + (ps + u)));
      MinifyItems(items[1..], depth, fmt, depth', u);
      MinifyComma(fmt, ps + u, Print(items[0], depth', false), qs, u);
      ItemsLaw(items, depth, fmt, ps);
      ItemsLaw(items, depth', false, qs);
      ItemsGlue(Print(items[0], depth, fmt), Fmt(fmt, " "), ps, u);
    }
  }

  lemma ItemsLaw(items: seq<Json>, depth: nat, fmt: bool, rest: string)
    requires |items| > 1 && (forall v <- items :: Printable(v)) && rest == PrintItems(items[1..], depth, fmt)
    ensures PrintItems(items, depth, fmt) == Print(items[0], depth, fmt) + ("," + Fmt(fmt, " ") + rest)
    ensures !fmt ==> PrintItems(items, depth, fmt) == Print(items[0], depth, fmt) + ("," + rest)
  {
    assert "," + "" == ",";
  }

  /** A comma, perhaps a blank, and what follows. */
  lemma MinifyComma(fmt: bool, t: string, q: string, qs: string, u: string)
    requires Minify(t) == Prepend(qs, Minify(u))
    ensures Prepend(q, Minify("," + (Fmt(fmt, " ") + t))) == Prepend(q + ("," + qs), Minify(u))
  {
    MinifyPlain(",", Fmt(fmt, " ") + t);
    MinifyFmt(fmt, " ", t);
    PrependMore(",", qs, Minify(u));
    PrependMore(q, "," + qs, Minify(u));
  }

  lemma {:induction false} MinifyObject(members: seq<Member>, depth: nat, fmt: bool, depth': nat, u: string)
    requires forall m <- members :: CString(m.key) && Printable(m.val)
    ensures Minify(Print(Obj(members), depth, fmt) + u) == Prepend(Print(Obj(members), depth', false), Minify(u))
    decreases members, 1
  {
    var p, q := PrintMembers(members, depth + 1, fmt), PrintMembers(members, depth' + 1, false);
    var tail := Fmt(fmt, Tabs(depth)) + ("}" + u);
    MinifyMembers(members, depth + 1, fmt, depth' + 1, tail);
    MinifyClose(depth, fmt, u);
    PrependMore(q, "}", Minify(u));
    MinifyOpen(p, fmt, depth, q + "}", u);
    Braces(q);
  }

  lemma MinifyClose(depth: nat, fmt: bool, u: string)
    ensures Minify(Fmt(fmt, Tabs(depth)) + ("}" + u)) == Prepend("}", Minify(u))
  {
    TabsBlank(depth);
    MinifyFmt(fmt, Tabs(depth), "}" + u);
    MinifyPlain("}", u);
  }

  lemma MinifyOpen(p: string, fmt: bool, depth: nat, q: string, u: string)
    requires Minify(p + (Fmt(fmt, Tabs(depth)) + ("}" + u))) == Prepend(q, Minify(u))
    ensures Minify("{" + Fmt(fmt, "\n") + p + Fmt(fmt, Tabs(depth)) + "}" + u) == Prepend("{" + q, Minify(u))
  {
    var body := p + (Fmt(fmt, Tabs(depth)) + ("}" + u));
    Group6("{", Fmt(fmt, "\n"), p, Fmt(fmt, Tabs(depth)), "}", u);
    MinifyPlain("{", Fmt(fmt, "\n") + body);
    MinifyFmt(fmt, "\n", body);
    PrependMore("{", q, Minify(u));
  }

  lemma Braces(q: string)
    ensures "{" + "" + q + "" + "}" == "{" + (q + "}")
  {
  }

  lemma {:induction false} MinifyMembers(members: seq<Member>, depth: nat, fmt: bool, depth': nat, u: string)
    requires forall m <- members :: CString(m.key) && Printable(m.val)
    ensures Minify(PrintMembers(members, depth, fmt) + u) == Prepend(PrintMembers(members, depth', false), Minify(u))
    decreases members, 0
  {
    if members == [] {
      MinifyPlain("", u);
    } else {
      var comma := if |members| == 1 then "" else ",";
      var ps, qs := PrintMembers(members[1..], depth, fmt), PrintMembers(members[1..], depth', false);
      var q := PrintMember(members[0], depth', false);
      MembersGlue(PrintMember(members[0], depth, fmt), comma, Fmt(fmt, "\n"), ps, u);
      MinifyMember(members[0], depth, fmt, depth', comma + (Fmt(fmt, "\n") + (ps + u)));
      MinifyPlain(comma, Fmt(fmt, "\n") + (ps + u));
      MinifyFmt(fmt, "\n", ps + u);
      MinifyMembers(members[1..], depth, fmt, depth', u);
      PrependMore(comma, qs, Minify(u));
      PrependMore(q, comma + qs, Minify(u));
      CommaGlue(q, comma, qs);
    }
  }

  lemma CommaGlue(q: string, comma: string, qs: string)
    ensures q + comma + "" + qs == q + (comma + qs)
  {
    Group3(q, comma, qs);
  }

  lemma {:induction false} MinifyMember(m: Member, depth: nat, fmt: bool, depth': nat, u: string)
    requires CString(m.key) && Printable(m.val)
    ensures Minify(PrintMember(m, depth, fmt) + u) == Prepend(PrintMember(m, depth', false), Minify(u))
    decreases m, 0
  {
    var p, q := Print(m.val, depth, fmt), Print(m.val, depth', false);
    Group6(Fmt(fmt, Tabs(depth)), Quote(m.key), ":", Fmt(fmt, "\t"), p, u);
    TabsBlank(depth);
    MinifyFmt(fmt, Tabs(depth), Quote(m.key) + (":" + (Fmt(fmt, "\t") + (p + u))));
    MinifyQuote(m.key, ":" + (Fmt(fmt, "\t") + (p + u)));
    MinifyPlain(":", Fmt(fmt, "\t") + (p + u));
    MinifyFmt(fmt, "\t", p + u);
    MinifyPrint(m.val, depth, fmt, depth', u);
    PrependMore(":", q, Minify(u));
    PrependMore(Quote(m.key), ":" + q, Minify(u));
    KeyGlue(Quote(m.key), q);
  }

  lemma KeyGlue(key: string, q: string)
    ensures "" + key + ":" + "" + q == key + (":" + q)
  {
    Group3(key, ":", q);
  }

  /** Minifying the formatted text gives the unformatted text, byte for byte. */
  lemma MinifyFormatted(j: Json)
    requires Printable(j)
    ensures Minify(Print(j, 0, true)) == Some(Print(j, 0, false))
  {
    MinifyPrint(j, 0, true, 0, "");
    assert Print(j, 0, true) + "" == Print(j, 0, true);
    assert Print(j, 0, false) + "" == Print(j, 0, false);
  }

  // ---------- parsing ----------

  /** The minified text. */
  function Min(t: string): string
    requires Minify(t).Some?
  {
    Minify(t).value
  }

  /** Minifying keeps a first character that starts neither a blank nor a comment. */
  lemma MinHead(t: string)
    requires Minify(t).Some? && t != "" && Plain(t[0])
    ensures Minify(t[1..]).Some? && Min(t) == [t[0]] + Min(t[1..])
  {
  }

  lemma {:induction false} MinSkip(t: string)
    requires Minify(t).Some?
    ensures Minify(Skip(t)).Some? && Skip(Min(t)) == Skip(Min(Skip(t)))
  {
    if t != "" && t[0] <= ' ' {
      MinSkip(t[1..]);
      if !Blank(t[0]) {
        MinHead(t);
        assert Min(t)[1..] == Min(t[1..]);
      }
    }
  }

  /** Blanks before a visible character that starts no comment. */
  lemma MinSkipTo(t: string)
    requires Minify(t).Some? && Skip(t) != "" && Skip(t)[0] != '/'
    ensures Minify(Skip(t)).Some? && Skip(Min(t)) == Min(Skip(t)) && At(Min(Skip(t)), 0) == Skip(t)[0] > ' '
  {
    MinSkip(t);
    SkipStops(t);
    var c := Skip(t)[0];
    if c != '"' {
      MinHead(Skip(t));
    }
  }

  lemma {:induction false} SkipStops(t: string)
    ensures Skip(t) != "" ==> Skip(t)[0] > ' '
  {
    if t != "" && t[0] <= ' ' {
      SkipStops(t[1..]);
    }
  }

  /** A value ends here: the next visible character closes it, or nothing is left. */
  predicate Ends(t: string) {
    Skip(t) == "" || Skip(t)[0] in [',', ']', '}']
  }

  lemma MinEnds(t: string)
    requires Minify(t).Some? && Ends(t)
    ensures At(Min(t), 0) <= ' ' || At(Min(t), 0) in [',', ']', '}']
  {
    MinSkip(t);
    if Skip(t) != "" {
      MinSkipTo(t);
    } else {
      assert Skip(Min(t)) == "";
    }
  }

  // strings

  lemma {:induction false} ScanClosed(t: string, u: string)
    requires Scan(t).Some? && Scan(t).value < |t|
    ensures Scan(t[..Scan(t).value + 1] + u) == Scan(t)
  {
    var n := Scan(t).value;
    var s := t[..n + 1] + u;
    if n > 0 {
      var m := if t[0] == '\\' then 2 else 1;
      ScanClosed(t[m..], u);
      TailSlices(t, m, n + 1, u);
    }
  }

  lemma TailSlices(t: string, m: nat, n: nat, u: string)
    requires 0 < m <= n <= |t|
    ensures (t[..n] + u)[m..] == t[m..][..n - m] + u && (t[..n] + u)[0] == t[0] && |t[..n] + u| == n + |u|
  {
  }

  lemma MinString(t: string)
    requires Minify(t).Some? && ParseString(t).Some?
    ensures var (s, rest) := ParseString(t).value;
      Minify(rest).Some? && ParseString(Min(t)) == Some((s, Min(rest)))
  {
    var n := Scan(t[1..]).value;
    MinLiteral(t, n);
    var u := Min(t[n + 2..]);
    LiteralSlices(t, n, u);
    ScanClosed(t[1..], u);
    Drop("\"", u);
  }

  /** A literal is kept, and minifying goes on behind it. */
  lemma MinLiteral(t: string, n: nat)
    requires Minify(t).Some? && At(t, 0) == '"' && Scan(t[1..]) == Some(n)
    ensures n + 2 <= |t| && t[n + 1] == '"' && Minify(t[n + 2..]).Some? && Min(t) == t[..n + 2] + Min(t[n + 2..])
  {
  }

  lemma LiteralSlices(t: string, n: nat, u: string)
    requires n + 2 <= |t| && t[n + 1] == '"'
    ensures t[1..][n..] == "\"" + t[n + 2..] && t[1..][n..][1..] == t[n + 2..]
    ensures (t[..n + 2] + u)[1..] == t[1..][..n + 1] + u && (t[..n + 2] + u)[1..][..n] == t[1..][..n]
    ensures (t[..n + 2] + u)[1..][n..] == "\"" + u
  {
  }

  // numbers: a number is read from its own characters, whatever follows them

  predicate NumberChar(c: char) {
    Digit(c) || c in ['-', '+', '.', 'e', 'E']
  }

  predicate Stops(t: string) {
    !NumberChar(At(t, 0))
  }

  predicate Suffix(v: string, w: string) {
    |v| <= |w| && v == w[|w| - |v|..]
  }

  lemma Heads(w: string, x: string)
    ensures w != "" ==> (w + x)[0] == w[0] && (w + x)[1..] == w[1..] + x
    ensures At(w + x, 0) == if w == "" then At(x, 0) else w[0]
    ensures At(w + x, 1) == if w == "" then At(x, 1) else if |w| == 1 then At(x, 0) else w[1]
    ensures w == "" ==> w + x == x
  {
  }

  lemma {:induction false} RunTwin(w: string, x: string, y: string, acc: nat) returns (n: nat, v: string)
    requires Stops(x) && Stops(y)
    ensures ReadDigits(w + x, acc) == (n, v + x) && ReadDigits(w + y, acc) == (n, v + y)
    ensures Suffix(v, w)
  {
    Heads(w, x);
    Heads(w, y);
    n, v := acc, w;
    if w != "" && Digit(w[0]) {
      n, v := RunTwin(w[1..], x, y, acc * 10 + (w[0] as int - 48));
    }
  }

  lemma WholeTwin(w: string, x: string, y: string) returns (n: nat, v: string)
    requires Stops(x) && Stops(y)
    ensures ParseWhole(w + x) == (n, v + x) && ParseWhole(w + y) == (n, v + y)
    ensures Suffix(v, w)
  {
    Heads(w, x);
    Heads(w, y);
    n, v := 0, w;
    if w != "" && '1' <= w[0] <= '9' {
      n, v := RunTwin(w, x, y, 0);
    }
  }

  lemma FractionTwin(w: string, x: string, y: string, acc: nat) returns (n: nat, scale: int, v: string)
    requires Stops(x) && Stops(y)
    ensures ParseFraction(w + x, acc) == (n, scale, v + x) && ParseFraction(w + y, acc) == (n, scale, v + y)
    ensures Suffix(v, w)
  {
    Heads(w, x);
    Heads(w, y);
    n, scale, v := acc, 0, w;
    if |w| > 1 && w[0] == '.' && Digit(w[1]) {
      n, v := RunTwin(w[1..], x, y, acc);
      scale := |v| - |w| + 1;
    }
  }

  lemma SignedTwin(w: string, x: string, y: string) returns (e: int, v: string)
    requires Stops(x) && Stops(y)
    ensures ParseSigned(w + x) == (e, v + x) && ParseSigned(w + y) == (e, v + y)
    ensures Suffix(v, w)
  {
    Heads(w, x);
    Heads(w, y);
    if w != "" && (w[0] == '+' || w[0] == '-') {
      e, v := RunTwin(w[1..], x, y, 0);
      e := if w[0] == '-' then 0 - e else e;
    } else {
      e, v := RunTwin(w, x, y, 0);
    }
  }

  lemma ExponentTwin(w: string, x: string, y: string) returns (e: int, v: string)
    requires Stops(x) && Stops(y)
    ensures ParseExponent(w + x) == (e, v + x) && ParseExponent(w + y) == (e, v + y)
    ensures Suffix(v, w)
  {
    Heads(w, x);
    Heads(w, y);
    e, v := 0, w;
    if w != "" && (w[0] == 'e' || w[0] == 'E') {
      e, v := SignedTwin(w[1..], x, y);
    }
  }

  lemma UnsignedTwin(w: string, x: string, y: string) returns (n: nat, e: int, v: string)
    requires Stops(x) && Stops(y)
    ensures ParseUnsigned(w + x) == (n, e, v + x) && ParseUnsigned(w + y) == (n, e, v + y)
    ensures Suffix(v, w)
  {
    Heads(w, x);
    Heads(w, y);
    var w1 := if w != "" && w[0] == '0' then w[1..] else w;
    var scale;
    n, v := WholeTwin(w1, x, y);
    n, scale, v := FractionTwin(v, x, y, n);
    e, v := ExponentTwin(v, x, y);
    e := scale + e;
  }

  lemma NumberTwin(w: string, x: string, y: string) returns (j: Json, v: string)
    requires Stops(x) && Stops(y)
    ensures ParseNumber(w + x) == (j, v + x) && ParseNumber(w + y) == (j, v + y)
    ensures Suffix(v, w)
  {
    Heads(w, x);
    Heads(w, y);
    var neg := w != "" && w[0] == '-';
    var n: int, e;
    n, e, v := UnsignedTwin(if neg then w[1..] else w, x, y);
    j := Num(if neg then -n else n, e);
  }

  /** The characters of a number at the front, and the rest. */
  lemma {:induction false} NumberRun(t: string) returns (w: string, x: string)
    ensures t == w + x && Stops(x) && forall i | 0 <= i < |w| :: NumberChar(w[i])
  {
    w, x := "", t;
    if t != "" && NumberChar(t[0]) {
      var v;
      v, x := NumberRun(t[1..]);
      w := [t[0]] + v;
      assert t == [t[0]] + t[1..];
    }
  }

  lemma SuffixChar(v: string, w: string)
    requires Suffix(v, w) && v != "" && forall i | 0 <= i < |w| :: NumberChar(w[i])
    ensures NumberChar(v[0])
  {
    assert NumberChar(w[|w| - |v|]);
  }

  lemma GoesOn(v: string, x: string)
    requires v != "" && NumberChar(v[0])
    ensures !Ends(v + x)
  {
    Heads(v, x);
  }

  /** A number that ends has used up its characters, and what comes next does not matter. */
  lemma NumberAlone(w: string, x: string, y: string) returns (j: Json)
    requires Stops(x) && Stops(y) && Ends(ParseNumber(w + x).1) && forall i | 0 <= i < |w| :: NumberChar(w[i])
    ensures ParseNumber(w + x) == (j, x) && ParseNumber(w + y) == (j, y)
  {
    var v;
    j, v := NumberTwin(w, x, y);
    if v != "" {
      SuffixChar(v, w);
      GoesOn(v, x);
    }
    assert "" + x == x && "" + y == y;
  }

  lemma MinStops(t: string)
    requires Minify(t).Some? && Ends(t)
    ensures Stops(Min(t))
  {
    MinEnds(t);
  }

  lemma MinRun(w: string, x: string)
    requires Minify(w + x).Some? && forall i | 0 <= i < |w| :: NumberChar(w[i])
    ensures Minify(x).Some? && Min(w + x) == w + Min(x)
  {
    forall i | 0 <= i < |w| ensures Plain(w[i]) {
      assert NumberChar(w[i]);
    }
    MinifyPlain(w, x);
  }

  lemma MinNumber(t: string)
    requires Minify(t).Some? && Ends(ParseNumber(t).1)
    ensures var (j, rest) := ParseNumber(t); Minify(rest).Some? && ParseNumber(Min(t)) == (j, Min(rest))
  {
    var w, x := NumberRun(t);
    MinRun(w, x);
    var j := NumberAlone(w, x, x);
    MinStops(x);
    j := NumberAlone(w, x, Min(x));
  }

  // values

  /** The rest of a parse, minified along with the text. */
  function MinRest<T>(r: Option<(T, string)>): Option<(T, string)>
    requires r.Some? && Minify(r.value.1).Some?
  {
    Some((r.value.0, Min(r.value.1)))
  }

  lemma ValueHead(t: string)
    requires ParseValue(t).Some?
    ensures t != "" && t[0] > ' ' && t[0] != '/'
  {
  }

  lemma MemberHead(t: string)
    requires ParseMember(t).Some?
    ensures t != "" && t[0] == '"'
  {
  }

  lemma MinWord(w: string, t: string)
    requires Minify(t).Some? && w <= t && forall i | 0 <= i < |w| :: Plain(w[i])
    ensures Minify(t[|w|..]).Some? && Min(t) == w + Min(t[|w|..])
  {
    assert t == w + t[|w|..];
    MinifyPlain(w, t[|w|..]);
  }

  /** A value that parses parses the same after minifying; a number has to end before a delimiter. */
  lemma {:induction false} MinValue(t: string)
    requires Minify(t).Some? && ParseValue(t).Some? && (t[0] == '-' || Digit(t[0]) ==> Ends(ParseValue(t).value.1))
    ensures Minify(ParseValue(t).value.1).Some? && ParseValue(Min(t)) == MinRest(ParseValue(t))
    decreases |t|, 1
  {
    if "null" <= t || "false" <= t || "true" <= t {
      MinConstant(t);
    } else if t[0] == '"' {
      MinString(t);
      assert Min(t)[0] == '"';
    } else if t[0] == '-' || Digit(t[0]) {
      MinHead(t);
      MinNumber(t);
    } else if t[0] == '[' {
      MinArray(t);
      MinHead(t);
      Bracket(t);
      Bracket(Min(t));
    } else {
      MinObject(t);
      MinHead(t);
      Bracket(t);
      Bracket(Min(t));
    }
  }

  lemma MinConstant(t: string)
    requires Minify(t).Some? && ("null" <= t || "false" <= t || "true" <= t)
    ensures ParseValue(t).Some? && Minify(ParseValue(t).value.1).Some? && ParseValue(Min(t)) == MinRest(ParseValue(t))
  {
    if "null" <= t {
      MinWord("null", t);
    } else if "false" <= t {
      MinWord("false", t);
      assert Min(t)[0] == 'f';
    } else {
      MinWord("true", t);
      assert Min(t)[0] == 't';
    }
  }

  lemma {:induction false} MinArray(t: string)
    requires t != "" && t[0] == '[' && Minify(t).Some? && ParseArray(t).Some?
    ensures Minify(ParseArray(t).value.1).Some? && Min(t) != "" && ParseArray(Min(t)) == MinRest(ParseArray(t))
    decreases |t|, 0
  {
    MinHead(t);
    var t1 := Skip(t[1..]);
    if At(t1, 0) != ']' {
      ItemsUnfold(t1);
      ValueHead(t1);
    }
    MinSkipTo(t[1..]);
    assert Min(t)[1..] == Min(t[1..]);
    if At(t1, 0) == ']' {
      MinHead(t1);
    } else {
      MinItems(t1);
    }
  }

  lemma {:induction false} MinItems(t: string)
    requires Minify(t).Some? && ParseItems(t).Some?
    ensures Minify(ParseItems(t).value.1).Some? && ParseItems(Min(t)) == MinRest(ParseItems(t))
    decreases |t|, 2
  {
    ItemsUnfold(t);
    var v, t1 := ParseValue(t).value.0, ParseValue(t).value.1;
    MinValue(t);
    MinSkipTo(t1);
    MinMoreItems(Skip(t1));
    ItemsUnfold(Min(t));
  }

  lemma {:induction false} MinMoreItems(t: string)
    requires Minify(t).Some? && MoreItems(t).Some?
    ensures Minify(MoreItems(t).value.1).Some? && MoreItems(Min(t)) == MinRest(MoreItems(t))
    decreases |t|, 3
  {
    MinHead(t);
    assert Min(t)[1..] == Min(t[1..]);
    if t[0] == ',' {
      ItemsUnfold(Skip(t[1..]));
      ValueHead(Skip(t[1..]));
      MinSkipTo(t[1..]);
      MinItems(Skip(t[1..]));
    }
  }

  lemma {:induction false} MinObject(t: string)
    requires t != "" && t[0] == '{' && Minify(t).Some? && ParseObject(t).Some?
    ensures Minify(ParseObject(t).value.1).Some? && Min(t) != "" && ParseObject(Min(t)) == MinRest(ParseObject(t))
    decreases |t|, 0
  {
    MinHead(t);
    var t1 := Skip(t[1..]);
    if At(t1, 0) != '}' {
      MembersUnfold(t1);
      MemberHead(t1);
    }
    MinSkipTo(t[1..]);
    assert Min(t)[1..] == Min(t[1..]);
    if At(t1, 0) == '}' {
      MinHead(t1);
    } else {
      MinMembers(t1);
    }
  }

  lemma {:induction false} MinMembers(t: string)
    requires Minify(t).Some? && ParseMembers(t).Some?
    ensures Minify(ParseMembers(t).value.1).Some? && ParseMembers(Min(t)) == MinRest(ParseMembers(t))
    decreases |t|, 2
  {
    MembersUnfold(t);
    var t1 := ParseMember(t).value.1;
    MinMember(t);
    MinSkipTo(t1);
    MinMoreMembers(Skip(t1));
    MembersUnfold(Min(t));
  }

  lemma {:induction false} MinMoreMembers(t: string)
    requires Minify(t).Some? && MoreMembers(t).Some?
    ensures Minify(MoreMembers(t).value.1).Some? && MoreMembers(Min(t)) == MinRest(MoreMembers(t))
    decreases |t|, 3
  {
    MinHead(t);
    assert Min(t)[1..] == Min(t[1..]);
    if t[0] == ',' {
      MembersUnfold(Skip(t[1..]));
      MemberHead(Skip(t[1..]));
      MinSkipTo(t[1..]);
      MinMembers(Skip(t[1..]));
    }
  }

  lemma {:induction false} MinMember(t: string)
    requires Minify(t).Some? && ParseMember(t).Some? && Ends(ParseMember(t).value.1)
    ensures Minify(ParseMember(t).value.1).Some? && ParseMember(Min(t)) == MinRest(ParseMember(t))
    decreases |t|, 0
  {
    MinString(t);
    var t1 := ParseString(t).value.1;
    var t2 := Skip(t1);
    MinSkipTo(t1);
    MinHead(t2);
    assert Min(t2)[1..] == Min(t2[1..]);
    ValueHead(Skip(t2[1..]));
    MinSkipTo(t2[1..]);
    MinValue(Skip(t2[1..]));
  }

  /** Minifying changes no document: a text that parses to its end parses to its end as the same tree. */
  lemma MinifyParses(t: string)
    requires Minify(t).Some? && Parse(t, true).Some?
    ensures Parse(Min(t), true) == Some((Parse(t, true).value.0, ""))
  {
    var t1 := Skip(t);
    ValueHead(t1);
    MinSkipTo(t);
    var rest := ParseValue(t1).value.1;
    assert Ends(rest);
    MinValue(t1);
    MinSkip(rest);
  }
}
