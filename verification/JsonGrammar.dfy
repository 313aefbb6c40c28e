/**
 The grammar of RFC 8259, written down by itself, and the parser: every text of the grammar is
 parsed, to the value it stands for.
 */
module JsonGrammar {
  import opened JsonStrings
  import opened JsonText
  import opened JsonEscapes
  import opened JsonFractions

  /** How a value is written. */
  datatype Form =
    | NullForm
    | FalseForm
    | TrueForm
    | NumberForm(neg: bool, whole: string, fraction: string, exponent: Exponent)
    | StringForm(parts: seq<Part>)
    | ArrayForm(blank: string, items: seq<Elem>)
    | ObjectForm(blank: string, fields: seq<Field>)

  /** A value with blanks on both sides. */
  datatype Elem = Elem(before: string, form: Form, after: string)

  /** A name with blanks on both sides, and its value. */
  datatype Field = Field(before: string, name: seq<Part>, after: string, elem: Elem)

  /** Blanks are all characters up to the space; the RFC has four of them. */
  predicate Blanks(s: string) {
    forall c <- s :: c <= ' '
  }

  predicate ValidParts(parts: seq<Part>) {
    forall p <- parts :: p.Valid()
  }

  predicate Valid(f: Form)
    decreases f
  {
    match f
    case NumberForm(_, whole, fraction, exponent) => WholePart(whole) && AllDigits(fraction) && exponent.Valid()
    case StringForm(parts) => ValidParts(parts)
    case ArrayForm(blank, items) => Blanks(blank) && forall e <- items :: ValidElem(e)
    case ObjectForm(blank, fields) => Blanks(blank) && forall d <- fields :: ValidField(d)
    case _ => true
  }

  predicate ValidElem(e: Elem)
    decreases e
  {
    Blanks(e.before) && Valid(e.form) && Blanks(e.after)
  }

  predicate ValidField(d: Field)
    decreases d
  {
    Blanks(d.before) && ValidParts(d.name) && Blanks(d.after) && ValidElem(d.elem)
  }

  // ---------- the text ----------

  function Text(f: Form): string
    decreases f, 2
  {
    match f
    case NullForm => "null"
    case FalseForm => "false"
    case TrueForm => "true"
    case NumberForm(neg, whole, fraction, exponent) =>
      (if neg then "-" else "") + (whole + (FractionText(fraction) + exponent.Text()))
    case StringForm(parts) => Quoted(parts)
    case ArrayForm(blank, items) => "[" + (if items == [] then blank else ItemsText(items)) + "]"
    case ObjectForm(blank, fields) => "{" + (if fields == [] then blank else FieldsText(fields)) + "}"
  }

  function Quoted(parts: seq<Part>): string {
    "\"" + Written(parts) + "\""
  }

  function ElemText(e: Elem): string
    decreases e, 3
  {
    e.before + Text(e.form) + e.after
  }

  function ItemsText(items: seq<Elem>): string
    decreases items, 0
  {
    if items == [] then ""
    else ElemText(items[0]) + if |items| == 1 then "" else "," + ItemsText(items[1..])
  }

  function FieldText(d: Field): string
    decreases d, 4
  {
    d.before + Quoted(d.name) + d.after + ":" + ElemText(d.elem)
  }

  function FieldsText(fields: seq<Field>): string
    decreases fields, 0
  {
    if fields == [] then ""
    else FieldText(fields[0]) + if |fields| == 1 then "" else "," + FieldsText(fields[1..])
  }

  // ---------- the value ----------

  /** The bytes that the parts of a literal stand for, one after the other. */
  ghost predicate Spells(parts: seq<Part>, s: string) {
    exists bytes: seq<string> ::
      |bytes| == |parts| && (forall i | 0 <= i < |parts| :: parts[i].Means(bytes[i])) && s == Joined(bytes)
  }

  ghost predicate Means(f: Form, j: Json)
    decreases f
  {
    match f
    case NullForm => j == Null
    case FalseForm => j == False
    case TrueForm => j == True
    case NumberForm(neg, whole, fraction, exponent) =>
      AllDigits(whole) && AllDigits(fraction) && exponent.Valid()
      && var n := Together(whole, fraction); j == Num(if neg then 0 - n else n, exponent.Value() - |fraction|)
    case StringForm(parts) => j.Str? && Spells(parts, j.s)
    case ArrayForm(_, items) => j.Arr? && ItemsMean(items, j.items)
    case ObjectForm(_, fields) => j.Obj? && FieldsMean(fields, j.members)
  }

  ghost predicate ItemsMean(items: seq<Elem>, js: seq<Json>)
    decreases items
  {
    |js| == |items| && forall i | 0 <= i < |items| :: Means(items[i].form, js[i])
  }

  ghost predicate FieldsMean(fields: seq<Field>, ms: seq<Member>)
    decreases fields
  {
    |ms| == |fields|
    && forall i | 0 <= i < |fields| :: Spells(fields[i].name, ms[i].key) && Means(fields[i].elem.form, ms[i].val)
  }

  // ---------- parsing ----------

  lemma {:induction false} BlanksSkipped(s: string, u: string)
    requires Blanks(s)
    ensures Skip(s + u) == Skip(u)
  {
    if s == "" {
      assert s + u == u;
    } else {
      assert (s + u)[1..] == s[1..] + u && s[0] in s && forall c <- s[1..] :: c in s;
      BlanksSkipped(s[1..], u);
    }
  }

  /** What a value begins with: nothing that would be skipped, and no closing bracket. */
  predicate Begins(t: string) {
    t != "" && t[0] > ' ' && t[0] != ']' && t[0] != '}'
  }

  lemma TextBegins(f: Form, u: string)
    requires Valid(f)
    ensures Begins(Text(f) + u)
  {
    if f.NumberForm? {
      assert Digit(f.whole[0]);
    }
  }

  /** What may follow a value inside of a text. */
  predicate Ends(u: string) {
    u != "" && u[0] in [',', ']', '}']
  }

  lemma BlanksEnd(s: string, u: string)
    requires Blanks(s) && Ends(u)
    ensures !Continues(s + u) && Skip(s + u) == u
  {
    BlanksSkipped(s, u);
    assert if s == "" then s + u == u else s[0] in s && (s + u)[0] == s[0];
  }

  lemma LiteralParsed(parts: seq<Part>, u: string) returns (s: string)
    requires ValidParts(parts)
    ensures Spells(parts, s) && ParseString(Quoted(parts) + u) == Some((s, u))
  {
    var bytes := LiteralMeans(parts, u);
    s := Joined(bytes);
  }

  /** Every text of the grammar is parsed, to the value it stands for, and what follows is left. */
  lemma {:induction false} GrammarParses(f: Form, u: string) returns (j: Json)
    requires Valid(f) && (f.NumberForm? ==> !Continues(u))
    ensures Means(f, j) && ParseValue(Text(f) + u) == Some((j, u))
    decreases f, 2
  {
    match f
    case NullForm =>
      j := Null;
      WordParsed(j, u);
    case FalseForm =>
      j := False;
      WordParsed(j, u);
    case TrueForm =>
      j := True;
      WordParsed(j, u);
    case NumberForm(neg, whole, fraction, exponent) => j := NumberParsed(f, u);
    case StringForm(parts) =>
      var s := LiteralParsed(parts, u);
      j := Str(s);
    case ArrayForm(blank, items) => j := ArrayParsed(blank, items, u);
    case ObjectForm(blank, fields) => j := ObjectParsed(blank, fields, u);
  }

  lemma WordParsed(j: Json, u: string)
    requires j in [Null, False, True]
    ensures ParseValue((if j.Null? then "null" else if j.False? then "false" else "true") + u) == Some((j, u))
  {
    RoundTrip(j, 0, false, u);
  }

  lemma NumberParsed(f: Form, u: string) returns (j: Json)
    requires f.NumberForm? && Valid(f) && !Continues(u)
    ensures Means(f, j) && ParseValue(Text(f) + u) == Some((j, u))
  {
    NumberMeans(f.neg, f.whole, f.fraction, f.exponent, u);
    NumberText(if f.neg then "-" else "", f.whole, FractionText(f.fraction), f.exponent.Text(), u);
    j := ParseNumber(Text(f) + u).0;
    NumberFirst(f, u);
    AsNumber(Text(f) + u);
  }

  lemma NumberText(sign: string, whole: string, fraction: string, exponent: string, u: string)
    ensures (sign + (whole + (fraction + exponent))) + u == sign + (whole + (fraction + (exponent + u)))
  {
    Group3(fraction, exponent, u);
    Group3(whole, fraction + exponent, u);
    Group3(sign, whole + (fraction + exponent), u);
  }

  lemma NumberFirst(f: Form, u: string)
    requires f.NumberForm? && Valid(f)
    ensures var t := Text(f) + u; t != "" && (t[0] == '-' || Digit(t[0]))
  {
    assert Digit(f.whole[0]);
  }

  lemma AsNumber(t: string)
    requires t != "" && (t[0] == '-' || Digit(t[0]))
    ensures ParseValue(t) == Some(ParseNumber(t))
  {
  }

  lemma {:induction false} ArrayParsed(blank: string, items: seq<Elem>, u: string) returns (j: Json)
    requires Valid(ArrayForm(blank, items))
    ensures Means(ArrayForm(blank, items), j) && ParseValue(Text(ArrayForm(blank, items)) + u) == Some((j, u))
    decreases items, 5
  {
    if items == [] {
      j := Arr([]);
      Closed("[", blank, "]", u);
    } else {
      var js := ItemsParsed(items, u);
      j := Arr(js);
      OpenBracket("[", ItemsText(items), "]", u);
      ItemsBegin(items, "]" + u);
    }
  }

  /** Brackets around blanks. */
  lemma Closed(open: string, blank: string, close: string, u: string)
    requires (open == "[" && close == "]") || (open == "{" && close == "}")
    requires Blanks(blank)
    ensures ParseValue(open + blank + close + u) == Some((if open == "[" then Arr([]) else Obj([]), u))
  {
    OpenBracket(open, blank, close, u);
    BlanksEnd(blank, close + u);
    Drop(close, u);
  }

  /** Brackets around a text. */
  lemma OpenBracket(open: string, text: string, close: string, u: string)
    requires |open| == 1 && |close| == 1
    ensures open + text + close + u == open + (text + (close + u))
    ensures (open + (text + (close + u)))[0] == open[0] && (open + (text + (close + u)))[1..] == text + (close + u)
    ensures var t := open + (text + (close + u));
      (open == "[" ==> ParseValue(t) == ParseArray(t)) && (open == "{" ==> ParseValue(t) == ParseObject(t))
  {
    Group4(open, text, close, u);
    Drop(open, text + (close + u));
    Bracket(open + (text + (close + u)));
  }

  lemma ItemsBegin(items: seq<Elem>, u: string)
    requires items != [] && forall e <- items :: ValidElem(e)
    ensures Begins(Skip(ItemsText(items) + u))
  {
    var e := items[0];
    var rest := if |items| == 1 then "" else "," + ItemsText(items[1..]);
    Group3(ElemText(e), rest, u);
    ElemBegins(e, rest + u);
  }

  lemma ElemBegins(e: Elem, u: string)
    requires ValidElem(e)
    ensures Skip(ElemText(e) + u) == Text(e.form) + (e.after + u) && Begins(Text(e.form) + (e.after + u))
  {
    Group4(e.before, Text(e.form), e.after, u);
    BlanksSkipped(e.before, Text(e.form) + (e.after + u));
    TextBegins(e.form, e.after + u);
  }

  /** An element and what ends it. */
  lemma {:induction false} ElemParsed(e: Elem, u: string) returns (j: Json)
    requires ValidElem(e) && Ends(u)
    ensures Means(e.form, j) && Stops(ParseValue(Skip(ElemText(e) + u)), j, u)
    decreases e, 3
  {
    ElemBegins(e, u);
    BlanksEnd(e.after, u);
    j := GrammarParses(e.form, e.after + u);
  }

  /** A value was parsed, and behind blanks `u` follows. */
  predicate Stops(r: Option<(Json, string)>, j: Json, u: string) {
    r.Some? && r.value.0 == j && Skip(r.value.1) == u
  }

  lemma {:induction false} ItemsParsed(items: seq<Elem>, u: string) returns (js: seq<Json>)
    requires items != [] && forall e <- items :: ValidElem(e)
    ensures ItemsMean(items, js) && ParseItems(Skip(ItemsText(items) + ("]" + u))) == Some((js, u))
    decreases items, 4
  {
    var e := items[0];
    if |items| == 1 {
      var j := ElemParsed(e, "]" + u);
      js := [j];
      assert ItemsText(items) == ElemText(e) + "" == ElemText(e);
      LastItem(Skip(ElemText(e) + ("]" + u)), j, u);
    } else {
      var more := ItemsText(items[1..]) + ("]" + u);
      var rest := ItemsParsed(items[1..], u);
      var j := ElemParsed(e, "," + more);
      js := [j] + rest;
      CommaText(ElemText(e), ItemsText(items[1..]), "]" + u);
      NextItem(Skip(ElemText(e) + ("," + more)), j, more, rest, u);
      MeanMore(items, j, rest);
    }
  }

  lemma CommaText(a: string, b: string, u: string)
    ensures (a + ("," + b)) + u == a + ("," + (b + u))
  {
    Group3(",", b, u);
    Group3(a, "," + b, u);
  }

  lemma MeanMore(items: seq<Elem>, j: Json, js: seq<Json>)
    requires items != [] && Means(items[0].form, j) && ItemsMean(items[1..], js)
    ensures ItemsMean(items, [j] + js)
  {
    assert forall i | 0 < i < |items| :: items[i] == items[1..][i - 1];
  }

  lemma LastItem(t: string, j: Json, u: string)
    requires Stops(ParseValue(t), j, "]" + u)
    ensures ParseItems(t) == Some(([j], u))
  {
    Drop("]", u);
  }

  lemma NextItem(t: string, j: Json, more: string, js: seq<Json>, u: string)
    requires Stops(ParseValue(t), j, "," + more) && ParseItems(Skip(more)) == Some((js, u))
    ensures ParseItems(t) == Some(([j] + js, u))
  {
    Drop(",", more);
  }

  lemma {:induction false} ObjectParsed(blank: string, fields: seq<Field>, u: string) returns (j: Json)
    requires Valid(ObjectForm(blank, fields))
    ensures Means(ObjectForm(blank, fields), j) && ParseValue(Text(ObjectForm(blank, fields)) + u) == Some((j, u))
    decreases fields, 5
  {
    if fields == [] {
      j := Obj([]);
      Closed("{", blank, "}", u);
    } else {
      var ms := FieldsParsed(fields, u);
      j := Obj(ms);
      OpenBracket("{", FieldsText(fields), "}", u);
      FieldsBegin(fields, "}" + u);
    }
  }

  lemma FieldsBegin(fields: seq<Field>, u: string)
    requires fields != [] && forall d <- fields :: ValidField(d)
    ensures Begins(Skip(FieldsText(fields) + u))
  {
    var d := fields[0];
    var rest := if |fields| == 1 then "" else "," + FieldsText(fields[1..]);
    Group3(FieldText(d), rest, u);
    FieldBegins(d, rest + u);
  }

  /** The text of a field from its name on. */
  function FromName(d: Field, u: string): string {
    Quoted(d.name) + (d.after + (":" + (ElemText(d.elem) + u)))
  }

  lemma FieldBegins(d: Field, u: string)
    requires ValidField(d)
    ensures Skip(FieldText(d) + u) == FromName(d, u) && Begins(FromName(d, u))
  {
    var e := ElemText(d.elem);
    Group6(d.before, Quoted(d.name), d.after, ":", e, u);
    BlanksSkipped(d.before, FromName(d, u));
  }

  lemma {:induction false} FieldParsed(d: Field, u: string) returns (m: Member)
    requires ValidField(d) && Ends(u)
    ensures Spells(d.name, m.key) && Means(d.elem.form, m.val) && StopsField(ParseMember(Skip(FieldText(d) + u)), m, u)
    decreases d, 4
  {
    FieldBegins(d, u);
    var rest := ":" + (ElemText(d.elem) + u);
    var key := LiteralParsed(d.name, d.after + rest);
    BlanksSkipped(d.after, rest);
    Drop(":", ElemText(d.elem) + u);
    var val := ElemParsed(d.elem, u);
    m := Member(key, val);
  }

  predicate StopsField(r: Option<(Member, string)>, m: Member, u: string) {
    r.Some? && r.value.0 == m && Skip(r.value.1) == u
  }

  lemma {:induction false} FieldsParsed(fields: seq<Field>, u: string) returns (ms: seq<Member>)
    requires fields != [] && forall d <- fields :: ValidField(d)
    ensures FieldsMean(fields, ms) && ParseMembers(Skip(FieldsText(fields) + ("}" + u))) == Some((ms, u))
    decreases fields, 4
  {
    var d := fields[0];
    if |fields| == 1 {
      var m := FieldParsed(d, "}" + u);
      MeanMoreFields(fields, m, []);
      ms := [m];
      assert [m] + [] == ms;
      OneField(fields);
      LastField(Skip(FieldText(d) + ("}" + u)), m, u);
    } else {
      var more := FieldsText(fields[1..]) + ("}" + u);
      var rest := FieldsParsed(fields[1..], u);
      var m := FieldParsed(d, "," + more);
      ms := [m] + rest;
      CommaText(FieldText(d), FieldsText(fields[1..]), "}" + u);
      NextField(Skip(FieldText(d) + ("," + more)), m, more, rest, u);
      MeanMoreFields(fields, m, rest);
    }
  }

  lemma OneField(fields: seq<Field>)
    requires |fields| == 1
    ensures FieldsText(fields) == FieldText(fields[0]) && FieldsMean(fields[1..], [])
  {
    assert FieldText(fields[0]) + "" == FieldText(fields[0]);
  }

  lemma MeanMoreFields(fields: seq<Field>, m: Member, ms: seq<Member>)
    requires fields != [] && Spells(fields[0].name, m.key) && Means(fields[0].elem.form, m.val)
    requires FieldsMean(fields[1..], ms)
    ensures FieldsMean(fields, [m] + ms)
  {
    assert forall i | 0 < i < |fields| :: fields[i] == fields[1..][i - 1];
  }

  lemma LastField(t: string, m: Member, u: string)
    requires StopsField(ParseMember(t), m, "}" + u)
    ensures ParseMembers(t) == Some(([m], u))
  {
    Drop("}", u);
  }

  lemma NextField(t: string, m: Member, more: string, ms: seq<Member>, u: string)
    requires StopsField(ParseMember(t), m, "," + more) && ParseMembers(Skip(more)) == Some((ms, u))
    ensures ParseMembers(t) == Some(([m] + ms, u))
  {
    Drop(",", more);
  }

  /** The entry point accepts a text of the grammar with blanks around it. */
  lemma DocumentParses(e: Elem) returns (j: Json)
    requires ValidElem(e)
    ensures Means(e.form, j) && Parse(ElemText(e), true) == Some((j, ""))
  {
    var t := Text(e.form) + e.after;
    Group3(e.before, Text(e.form), e.after);
    BlanksSkipped(e.before, t);
    TextBegins(e.form, e.after);
    BlanksSkipped(e.after, "");
    assert e.after + "" == e.after && !Continues(e.after) by {
      assert e.after != "" ==> e.after[0] in e.after;
    }
    j := GrammarParses(e.form, e.after);
  }
}
