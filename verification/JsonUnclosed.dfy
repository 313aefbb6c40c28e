/**
 When minifying goes astray on a text that parses: a text with one literal that is not closed is the
 only one, for a literal inside an array or an object has to be closed to parse.
 */
module JsonUnclosed {
  import opened JsonStrings
  import opened JsonText
  import opened JsonMinify
  import opened JsonParser
  import opened JsonMinified

  /** A visible character that starts neither a literal nor a comment. */
  lemma HeadIff(t: string)
    requires t != "" && Plain(t[0])
    ensures Minify(t).Some? <==> Minify(t[1..]).Some?
  {
  }

  lemma {:induction false} SkipIff(t: string)
    ensures Minify(t).Some? <==> Minify(Skip(t)).Some?
  {
    if t != "" && t[0] <= ' ' {
      SkipIff(t[1..]);
    }
  }

  lemma RunIff(w: string, x: string)
    requires forall i | 0 <= i < |w| :: Plain(w[i])
    ensures Minify(w + x).Some? <==> Minify(x).Some?
  {
    MinifyPlain(w, x);
  }

  /** A closed literal leaves what follows it, and one that is not closed leaves nothing. */
  lemma StringIff(t: string)
    requires ParseString(t).Some?
    ensures t != "" && t[0] == '"' && (Literal(t).None? ==> ParseString(t).value.1 == "")
    ensures Literal(t).Some? ==> (Minify(t).Some? <==> Minify(ParseString(t).value.1).Some?)
  {
    var n := Scan(t[1..]).value;
    assert Literal(t).Some? ==> t[1..][n..][1..] == t[n + 2..];
  }

  lemma NumberIff(t: string)
    requires t != "" && Ends(ParseNumber(t).1)
    ensures Minify(t).Some? <==> Minify(ParseNumber(t).1).Some?
  {
    var w, x := NumberRun(t);
    var j := NumberAlone(w, x, x);
    forall i | 0 <= i < |w| ensures Plain(w[i]) {
      assert NumberChar(w[i]);
    }
    RunIff(w, x);
  }

  lemma ConstantIff(t: string)
    requires "null" <= t || "false" <= t || "true" <= t
    ensures ParseValue(t).Some? && (Minify(t).Some? <==> Minify(ParseValue(t).value.1).Some?)
  {
    var w := if "null" <= t then "null" else if "false" <= t then "false" else "true";
    assert t == w + t[|w|..];
    RunIff(w, t[|w|..]);
  }

  /** A value that is not an open literal can be minified exactly when what follows it can. */
  lemma {:induction false} ValueIff(t: string)
    requires ParseValue(t).Some? && (t[0] == '-' || Digit(t[0]) ==> Ends(ParseValue(t).value.1))
    requires t[0] == '"' ==> Literal(t).Some?
    ensures Minify(t).Some? <==> Minify(ParseValue(t).value.1).Some?
    decreases |t|, 1
  {
    if "null" <= t || "false" <= t || "true" <= t {
      ConstantIff(t);
    } else if t[0] == '"' {
      StringIff(t);
    } else if t[0] == '-' || Digit(t[0]) {
      NumberIff(t);
    } else if t[0] == '[' {
      ArrayIff(t);
    } else {
      ObjectIff(t);
    }
  }

  lemma {:induction false} ArrayIff(t: string)
    requires t != "" && t[0] == '[' && ParseArray(t).Some?
    ensures Minify(t).Some? <==> Minify(ParseArray(t).value.1).Some?
    decreases |t|, 0
  {
    HeadIff(t);
    SkipIff(t[1..]);
    var t1 := Skip(t[1..]);
    if At(t1, 0) == ']' {
      HeadIff(t1);
    } else {
      ItemsIff(t1);
    }
  }

  lemma {:induction false} ItemsIff(t: string)
    requires ParseItems(t).Some?
    ensures Minify(t).Some? <==> Minify(ParseItems(t).value.1).Some?
    decreases |t|, 2
  {
    ItemsUnfold(t);
    var t1 := ParseValue(t).value.1;
    if t[0] == '"' {
      StringIff(t);
    }
    ValueIff(t);
    SkipIff(t1);
    MoreItemsIff(Skip(t1));
  }

  lemma {:induction false} MoreItemsIff(t: string)
    requires MoreItems(t).Some?
    ensures Minify(t).Some? <==> Minify(MoreItems(t).value.1).Some?
    decreases |t|, 3
  {
    HeadIff(t);
    if t[0] == ',' {
      SkipIff(t[1..]);
      ItemsIff(Skip(t[1..]));
    }
  }

  lemma {:induction false} ObjectIff(t: string)
    requires t != "" && t[0] == '{' && ParseObject(t).Some?
    ensures Minify(t).Some? <==> Minify(ParseObject(t).value.1).Some?
    decreases |t|, 0
  {
    HeadIff(t);
    SkipIff(t[1..]);
    var t1 := Skip(t[1..]);
    if At(t1, 0) == '}' {
      HeadIff(t1);
    } else {
      MembersIff(t1);
    }
  }

  lemma {:induction false} MembersIff(t: string)
    requires ParseMembers(t).Some?
    ensures Minify(t).Some? <==> Minify(ParseMembers(t).value.1).Some?
    decreases |t|, 2
  {
    MembersUnfold(t);
    var t1 := ParseMember(t).value.1;
    MemberIff(t);
    SkipIff(t1);
    MoreMembersIff(Skip(t1));
  }

  lemma {:induction false} MoreMembersIff(t: string)
    requires MoreMembers(t).Some?
    ensures Minify(t).Some? <==> Minify(MoreMembers(t).value.1).Some?
    decreases |t|, 3
  {
    HeadIff(t);
    if t[0] == ',' {
      SkipIff(t[1..]);
      MembersIff(Skip(t[1..]));
    }
  }

  lemma {:induction false} MemberIff(t: string)
    requires ParseMember(t).Some? && Skip(ParseMember(t).value.1) != "" && Ends(ParseMember(t).value.1)
    ensures Minify(t).Some? <==> Minify(ParseMember(t).value.1).Some?
    decreases |t|, 0
  {
    StringIff(t);
    var t1 := ParseString(t).value.1;
    var t2 := Skip(t1);
    SkipIff(t1);
    HeadIff(t2);
    SkipIff(t2[1..]);
    var t3 := Skip(t2[1..]);
    if t3[0] == '"' {
      StringIff(t3);
    }
    ValueIff(t3);
  }

  /** The text is blanks and a literal that is not closed. */
  predicate Unclosed(t: string) {
    At(Skip(t), 0) == '"' && Literal(Skip(t)).None?
  }

  /** Of the texts that parse to their end, minifying goes astray on exactly the unclosed literals. */
  lemma MinifyFails(t: string)
    requires Parse(t, true).Some?
    ensures Minify(t).None? <==> Unclosed(t)
  {
    var t1 := Skip(t);
    var rest := ParseValue(t1).value.1;
    SkipIff(t);
    SkipIff(rest);
    if !Unclosed(t) {
      ValueIff(t1);
    }
  }

  /** So every other text that parses to its end parses as the same tree after minifying. */
  lemma ClosedParses(t: string)
    requires Parse(t, true).Some? && !Unclosed(t)
    ensures Minify(t).Some? && Parse(Minify(t).value, true) == Some((Parse(t, true).value.0, ""))
  {
    MinifyFails(t);
    MinifyParses(t);
  }
}
