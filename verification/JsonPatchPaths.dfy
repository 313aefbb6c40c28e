/**
 The two ways in which a path is read: GetPointer follows all of its tokens, while the patch
 interpreter cuts off the last one, decodes it, and looks for a position or a name itself.
 */
module JsonPatchPaths {
  import opened JsonStrings
  import opened JsonText
  import opened JsonKeys
  import opened JsonPointer
  import opened JsonPatch
  import opened JsonPatchSteps

  // ---------- one token ----------

  predicate AllDigits(s: string) {
    forall i | 0 <= i < |s| :: Digit(s[i])
  }

  /** Every tilde is followed by 0 or 1, as an encoding has it. */
  predicate Coded(s: string) {
    forall i | 0 <= i < |s| && s[i] == '~' :: i + 1 < |s| && s[i + 1] in ['0', '1']
  }

  /** A token of an array is a position when it has digits only, and then both ways read the same one. */
  lemma {:induction false} DigitToken(tok: string, acc: nat)
    requires '/' !in tok
    ensures AllDigits(tok) <==> TokenEnd(ReadDigits(tok, acc).1)
    ensures AllDigits(tok) ==> ReadDigits(tok, acc).1 == ""
  {
    if tok != "" && Digit(tok[0]) {
      DigitToken(tok[1..], acc * 10 + (tok[0] as int - 48));
      assert forall i | 0 <= i < |tok| - 1 :: tok[1..][i] == tok[i + 1];
      assert AllDigits(tok) <==> AllDigits(tok[1..]);
    }
  }

  lemma DigitIndex(tok: string)
    requires AllDigits(tok)
    ensures Index(tok) == ReadDigits(tok, 0).0
  {
    assert tok != "" ==> Digit(tok[0]);
  }

  lemma CodedTail(s: string)
    requires s != ""
    ensures s[0] != '~' ==> (Coded(s) <==> Coded(s[1..]))
    ensures s[0] == '~' && |s| > 1 && s[1] in ['0', '1'] ==> (Coded(s) <==> Coded(s[2..]))
  {
    assert forall i | 0 <= i < |s| - 1 :: s[1..][i] == s[i + 1];
    if |s| > 1 {
      assert forall i | 0 <= i < |s| - 2 :: s[2..][i] == s[i + 2];
    }
    if s[0] != '~' {
      CodedShift(s, 1);
    } else if |s| > 1 && s[1] in ['0', '1'] {
      CodedShift(s, 2);
    }
  }

  lemma CodedShift(s: string, n: nat)
    requires n <= |s| && forall i | 0 <= i < n && s[i] == '~' :: i + 1 < |s| && s[i + 1] in ['0', '1']
    ensures Coded(s) <==> Coded(s[n..])
  {
    var t := s[n..];
    assert forall i | 0 <= i < |t| :: t[i] == s[i + n];
    if Coded(t) {
      forall i | 0 <= i < |s| && s[i] == '~' ensures i + 1 < |s| && s[i + 1] in ['0', '1'] {
        if i >= n {
          assert t[i - n] == '~';
        }
      }
    }
  }

  /** A token of an object matches the names equal to the decoded one, if it is an encoding, and else none. */
  lemma {:induction false} TokenDecoded(a: string, tok: string)
    requires '/' !in tok && DecodeToken(tok).Some?
    ensures TokenMatches(a, tok) <==> Coded(tok) && CaseCmp(a, DecodeToken(tok).value) == 0
  {
    if tok != "" {
      CodedTail(tok);
      var n := if tok[0] == '~' then 2 else 1;
      var name := DecodeToken(tok).value;
      assert name[1..] == DecodeToken(tok[n..]).value;
      if a != "" {
        TokenDecoded(a[1..], tok[n..]);
      }
    }
  }

  lemma {:induction false} FindDecoded(members: seq<Member>, tok: string)
    requires '/' !in tok && DecodeToken(tok).Some?
    ensures FindToken(members, tok) == if Coded(tok) then FindKey(members, DecodeToken(tok).value) else None
  {
    if members != [] {
      TokenDecoded(members[0].key, tok);
      FindDecoded(members[1..], tok);
    }
  }

  lemma {:induction false} AfterWhole(s: string)
    requires '/' !in s
    ensures AfterToken(s) == ""
  {
    if s != "" {
      AfterWhole(s[1..]);
    }
  }

  /** Where a decoded token leads the interpreter, if anywhere. */
  function Place(parent: Json, name: string): Option<nat> {
    if parent.Arr? then (if Index(name) < |parent.items| then Some(Index(name)) else None)
    else if parent.Obj? then FindKey(parent.members, name)
    else None
  }

  /** A token that GetPointer reads as the interpreter does. */
  predicate Exact(parent: Json, tok: string) {
    (parent.Arr? ==> AllDigits(tok)) && (parent.Obj? ==> Coded(tok))
  }

  /** One token at a node: GetPointer goes where the interpreter does, or nowhere. */
  lemma TokenPlace(parent: Json, tok: string)
    requires '/' !in tok && DecodeToken(tok).Some?
    ensures GetPointer(parent, "/" + tok) ==
      match Place(parent, DecodeToken(tok).value)
      case None => None
      case Some(i) => if Exact(parent, tok) then Some([i]) else None
  {
    var t := "/" + tok;
    assert t[1..] == tok && t[0] == '/';
    if parent.Arr? {
      ArrayToken(parent.items, tok);
    } else if parent.Obj? {
      FindDecoded(parent.members, tok);
      AfterWhole(tok);
    }
    if NextChild(parent, t).Some? {
      GetPointerStep(parent, t);
      assert [NextChild(parent, t).value.0] + [] == [NextChild(parent, t).value.0];
    }
  }

  lemma ArrayToken(items: seq<Json>, tok: string)
    requires '/' !in tok && DecodeToken(tok).Some?
    ensures var i := Index(DecodeToken(tok).value);
      NextChild(Arr(items), "/" + tok) == if AllDigits(tok) && i < |items| then Some((i, "")) else None
  {
    assert ("/" + tok)[1..] == tok;
    DigitToken(tok, 0);
    if AllDigits(tok) {
      DigitIndex(tok);
      assert !Digit('~');
      PlainDecode(tok);
    }
  }

  lemma {:induction false} PlainDecode(tok: string)
    requires '~' !in tok
    ensures DecodeToken(tok) == Some(tok)
  {
    if tok != "" {
      PlainDecode(tok[1..]);
      assert [tok[0]] + tok[1..] == tok;
    }
  }

  // ---------- the tokens before ----------

  lemma {:induction false} ReadDigitsOn(s: string, t: string, acc: nat)
    requires t != "" && t[0] == '/'
    ensures ReadDigits(s + t, acc) == (ReadDigits(s, acc).0, ReadDigits(s, acc).1 + t)
  {
    if s != "" {
      assert (s + t)[1..] == s[1..] + t;
      if Digit(s[0]) {
        ReadDigitsOn(s[1..], t, acc * 10 + (s[0] as int - 48));
      }
    } else {
      assert s + t == t;
    }
  }

  lemma {:induction false} TokenMatchesOn(a: string, s: string, t: string)
    requires t != "" && t[0] == '/'
    ensures TokenMatches(a, s + t) == TokenMatches(a, s)
  {
    if s == "" {
      assert s + t == t;
    } else if a != "" && s[0] != '/' {
      assert (s + t)[1..] == s[1..] + t;
      if s[0] != '~' {
        TokenMatchesOn(a[1..], s[1..], t);
      } else if |s| > 1 {
        assert (s + t)[2..] == s[2..] + t;
        TokenMatchesOn(a[1..], s[2..], t);
      } else {
        assert At(s + t, 1) == '/';
      }
    }
  }

  lemma {:induction false} FindTokenOn(members: seq<Member>, s: string, t: string)
    requires t != "" && t[0] == '/'
    ensures FindToken(members, s + t) == FindToken(members, s)
  {
    if members != [] {
      TokenMatchesOn(members[0].key, s, t);
      FindTokenOn(members[1..], s, t);
    }
  }

  lemma {:induction false} AfterTokenOn(s: string, t: string)
    requires t != "" && t[0] == '/'
    ensures AfterToken(s + t) == AfterToken(s) + t && TokenEnd(AfterToken(s))
  {
    if s == "" {
      assert s + t == t;
    } else if s[0] != '/' {
      assert (s + t)[1..] == s[1..] + t;
      AfterTokenOn(s[1..], t);
    }
  }

  lemma NextChildOn(j: Json, s: string, t: string)
    requires At(s, 0) == '/' && t != "" && t[0] == '/'
    ensures NextChild(j, s + t) ==
      match NextChild(j, s)
      case None => None
      case Some((i, rest)) => Some((i, rest + t))
    ensures NextChild(j, s).Some? ==> TokenEnd(NextChild(j, s).value.1)
  {
    assert (s + t)[1..] == s[1..] + t;
    if j.Arr? {
      ReadDigitsOn(s[1..], t, 0);
      var rest := ReadDigits(s[1..], 0).1;
      assert TokenEnd(rest + t) <==> TokenEnd(rest);
    } else if j.Obj? {
      FindTokenOn(j.members, s[1..], t);
      AfterTokenOn(s[1..], t);
    }
  }

  /** A pointer followed by more tokens. */
  lemma {:induction false} PointerOn(j: Json, s: string, t: string)
    requires TokenEnd(s) && t != "" && t[0] == '/'
    ensures GetPointer(j, s + t) ==
      match GetPointer(j, s)
      case None => None
      case Some(p) => Onto(p, GetPointer(Get(j, p), t))
    decreases |s|
  {
    if s == "" {
      assert s + t == t;
      OntoNone(GetPointer(j, t));
    } else {
      NextChildOn(j, s, t);
      if NextChild(j, s).Some? {
        var (i, rest) := NextChild(j, s).value;
        PointerOn(Child(j, i), rest, t);
        GetPointerStep(j, s);
        GetPointerStep(j, s + t);
        if GetPointer(j, s).Some? {
          OntoCons(GetPointer(j, s).value, GetPointer(Get(j, GetPointer(j, s).value), t));
        }
      }
    }
  }

  lemma {:induction false} SplitWhole(p: string)
    requires SplitLast(p).Some?
    ensures p == SplitLast(p).value.0 + ("/" + SplitLast(p).value.1) && '/' !in SplitLast(p).value.1
  {
    if SplitLast(p[1..]).Some? {
      SplitWhole(p[1..]);
      assert p == [p[0]] + p[1..];
    } else {
      NoSlash(p[1..]);
      assert p == "" + ("/" + p[1..]);
    }
  }

  lemma {:induction false} NoSlash(p: string)
    requires SplitLast(p).None?
    ensures '/' !in p
  {
    if p != "" {
      NoSlash(p[1..]);
    }
  }
}
