/**
 JSON Pointer in cJSON_Utils: reference tokens, the search for a node's pointer, and the walk
 along a pointer.

 A node of a tree is named by its path, the child positions from the root to it.
 */
module JsonPointer {
  import opened JsonStrings
  import opened JsonText
  import opened JsonKeys
  import JsonParser

  // ---------- reference tokens ----------

  function EncodeChar(c: char): string {
    if c == '/' then "~1" else if c == '~' then "~0" else [c]
  }

  function Encode(s: string): string {
    if s == "" then "" else EncodeChar(s[0]) + Encode(s[1..])
  }

  /** PointerEncodedstrlen */
  function EncodedLen(s: string): nat {
    if s == "" then 0 else (if s[0] == '~' || s[0] == '/' then 2 else 1) + EncodedLen(s[1..])
  }

  /** InplaceDecodePointerString: any character but '0' after a tilde gives a slash.  None when
      the tilde is the last character, where the code steps over the terminating NUL. */
  function DecodeToken(s: string): (r: Option<string>)
    ensures r.Some? ==> |r.value| <= |s|
  {
    if s == "" then Some("")
    else if s[0] != '~' then Prepend([s[0]], DecodeToken(s[1..]))
    else if |s| == 1 then None
    else Prepend([if s[1] == '0' then '~' else '/'], DecodeToken(s[2..]))
  }

  /** Decoding undoes encoding, the encoded length is exact, and an encoded name holds no slash. */
  lemma {:induction false} EncodeDecode(s: string)
    ensures DecodeToken(Encode(s)) == Some(s) && |Encode(s)| == EncodedLen(s) && '/' !in Encode(s)
  {
    if s != "" {
      EncodeDecode(s[1..]);
      var e := Encode(s);
      if s[0] == '/' || s[0] == '~' {
        assert e[2..] == Encode(s[1..]);
      } else {
        assert e[1..] == Encode(s[1..]);
      }
      assert [s[0]] + s[1..] == s;
    }
  }

  /** What a reference token is made of (section 3 of RFC 6901): `~0` is a tilde, `~1` is a slash, and
      any other character is itself. */
  predicate StandsFor(e: string, c: char) {
    (e == "~0" && c == '~') || (e == "~1" && c == '/') || (e == [c] && c != '~' && c != '/')
  }

  function Token(pieces: seq<string>): string {
    if pieces == [] then "" else pieces[0] + Token(pieces[1..])
  }

  /** Encoding and decoding go between a name and the pieces that stand for its characters. */
  lemma {:induction false} TokenMeans(pieces: seq<string>, s: string)
    requires |pieces| == |s| && forall i | 0 <= i < |s| :: StandsFor(pieces[i], s[i])
    ensures Encode(s) == Token(pieces) && DecodeToken(Token(pieces)) == Some(s)
  {
    if s != "" {
      assert forall i | 0 <= i < |s| - 1 :: pieces[1..][i] == pieces[i + 1] && s[1..][i] == s[i + 1];
      TokenMeans(pieces[1..], s[1..]);
      assert StandsFor(pieces[0], s[0]);
      EncodeDecode(s);
    }
  }

  method PutEncoded(d: array<char>, at: nat, c: char) returns (end: nat)
    requires at + |EncodeChar(c)| <= d.Length
    modifies d
    ensures end == at + |EncodeChar(c)| && d[..end] == old(d[..at]) + EncodeChar(c)
  {
    end := at + 1;
    if c == '/' {
      d[at], d[at + 1] := '~', '1';
      end := end + 1;
    } else if c == '~' {
      d[at], d[at + 1] := '~', '0';
      end := end + 1;
    } else {
      d[at] := c;
    }
  }

  method EncodeTo(d: array<char>, s: string) returns (end: nat)
    requires d.Length > EncodedLen(s)
    modifies d
    ensures end == EncodedLen(s) && d[..end] == Encode(s) && d[end] == '\0'
  {
    var i := 0;
    end := 0;
    EncodeDecode(s);
    assert s[0..] == s;
    while i < |s|
      invariant i <= |s| && end + EncodedLen(s[i..]) == EncodedLen(s)
      invariant d[..end] + Encode(s[i..]) == Encode(s)
    {
      assert s[i..][1..] == s[i + 1..];
      Group3(d[..end], EncodeChar(s[i]), Encode(s[i + 1..]));
      end := PutEncoded(d, end, s[i]);
      i := i + 1;
    }
    assert d[..end] + "" == d[..end];
    d[end] := '\0';
  }

  /** The decoded text is written over the encoded one; the write position stays behind. */
  method DecodeInPlace(a: array<char>, ghost s: string)
    requires Holds(a, s, 0) && '\0' !in s && DecodeToken(s).Some?
    modifies a
    ensures var r := DecodeToken(s).value; a[..|r|] == r && a[|r|] == '\0'
  {
    var i, k := 0, 0;
    assert s[0..] == s && a[..0] + DecodeToken(s).value == DecodeToken(s).value;
    HoldsEnd(a, s, 0);
    while a[i] != '\0'
      invariant 0 <= k <= i <= |s| && Holds(a, s, i) && (a[i] == '\0' <==> i == |s|)
      invariant DecodeToken(s[i..]).Some? && a[..k] + DecodeToken(s[i..]).value == DecodeToken(s).value
      decreases |s| - i
    {
      i, k := DecodeChar(a, i, k, s);
      HoldsEnd(a, s, i);
    }
    assert a[..k] + "" == a[..k];
    a[k] := '\0';
  }

  /** One decoded character: where the code is, and what it stands for. */
  method DecodeChar(a: array<char>, from: nat, into: nat, ghost s: string) returns (i: nat, k: nat)
    requires Holds(a, s, from) && into <= from < |s| && DecodeToken(s[from..]).Some?
    modifies a
    ensures from < i <= |s| && k == into + 1 <= i && Holds(a, s, i)
    ensures DecodeToken(s[i..]).Some?
    ensures a[..k] + DecodeToken(s[i..]).value == old(a[..into]) + DecodeToken(s[from..]).value
  {
    HoldsAt(a, s, from);
    DecodeStep(s, from);
    i := from;
    var c := a[i];
    if c == '~' {
      i := i + 1;
      c := if a[i] == '0' then '~' else '/';
    }
    HoldsLater(a, s, from, i + 1);
    Group3(a[..into], [c], DecodeToken(s[i + 1..]).value);
    PutBack(a, into, c, i + 1, s);
    i, k := i + 1, into + 1;
  }

  method PutBack(a: array<char>, into: nat, c: char, ghost from: nat, ghost s: string)
    requires Holds(a, s, from) && into < from
    modifies a
    ensures Holds(a, s, from) && a[..into + 1] == old(a[..into]) + [c]
  {
    a[into] := c;
  }

  lemma DecodeStep(s: string, from: nat)
    requires from < |s| && DecodeToken(s[from..]).Some?
    ensures var next := if s[from] == '~' then from + 2 else from + 1;
      next <= |s| && DecodeToken(s[next..]).Some?
      && DecodeToken(s[from..]).value
        == [if s[from] != '~' then s[from] else if s[from + 1] == '0' then '~' else '/'] + DecodeToken(s[next..]).value
  {
    assert s[from..][1..] == s[from + 1..];
    if s[from] == '~' {
      assert s[from..][2..] == s[from + 2..];
    }
  }

  // ---------- matching a token ----------

  /** Whether Pstrcasecmp gives 0: the name `a` is the first token of the pointer `e`. */
  function TokenMatches(a: string, e: string): bool {
    if a == "" || e == "" || e[0] == '/' then (e != "" && e[0] != '/') == (a != "")
    else if e[0] == '~' then
      ((At(e, 1) == '0' && a[0] == '~') || (At(e, 1) == '1' && a[0] == '/')) && TokenMatches(a[1..], e[2..])
    else Lower(a[0]) == Lower(e[0]) && TokenMatches(a[1..], e[1..])
  }

  method Pstrcasecmp(name: string, pointer: string) returns (r: int)
    ensures r == if TokenMatches(name, pointer) then 0 else 1
  {
    var a, e := name, pointer;
    while a != "" && e != "" && e[0] != '/'
      invariant TokenMatches(name, pointer) == TokenMatches(a, e)
      decreases |a|
    {
      if e[0] == '~' {
        if !(At(e, 1) == '0' && a[0] == '~') && !(At(e, 1) == '1' && a[0] == '/') {
          return 1;
        } else {
          e := e[1..];
        }
      } else if Lower(a[0]) != Lower(e[0]) {
        return 1;
      }
      a, e := a[1..], e[1..];
    }
    if (e != "" && e[0] != '/') != (a != "") {
      return 1;
    }
    return 0;
  }

  /** The pointer goes on after its first token. */
  function AfterToken(p: string): (r: string)
    ensures |r| <= |p|
  {
    if p == "" || p[0] == '/' then p else AfterToken(p[1..])
  }

  /** The end of a pointer, or of one of its tokens. */
  predicate TokenEnd(s: string) {
    s == "" || s[0] == '/'
  }

  /** A name matches the encoded token of exactly the names equal to it but for case. */
  lemma {:induction false} EncodedMatches(a: string, k: string, rest: string)
    requires TokenEnd(rest)
    ensures TokenMatches(a, Encode(k) + rest) <==> CaseCmp(a, k) == 0
  {
    var e := Encode(k) + rest;
    if k == "" {
      assert e == rest;
    } else {
      assert e[|EncodeChar(k[0])|..] == Encode(k[1..]) + rest;
      assert e[0] == EncodeChar(k[0])[0];
      if a != "" {
        EncodedMatches(a[1..], k[1..], rest);
      }
    }
  }

  lemma {:induction false} AfterEncoded(k: string, rest: string)
    requires TokenEnd(rest)
    ensures AfterToken(Encode(k) + rest) == rest
  {
    EncodeDecode(k);
    AfterPlain(Encode(k), rest);
  }

  lemma {:induction false} AfterPlain(s: string, rest: string)
    requires '/' !in s && TokenEnd(rest)
    ensures AfterToken(s + rest) == rest
  {
    if s == "" {
      assert s + rest == rest;
    } else {
      assert (s + rest)[1..] == s[1..] + rest;
      AfterPlain(s[1..], rest);
    }
  }

  // ---------- walking a pointer ----------

  type Path = seq<nat>

  function ChildCount(j: Json): nat {
    match j
    case Arr(items) => |items|
    case Obj(members) => |members|
    case _ => 0
  }

  function Child(j: Json, i: nat): (c: Json)
    requires i < ChildCount(j)
    decreases j, 0
    ensures c < j
  {
    if j.Arr? then j.items[i] else j.members[i].val
  }

  predicate ValidPath(j: Json, p: Path)
    decreases |p|
  {
    p == [] || (p[0] < ChildCount(j) && ValidPath(Child(j, p[0]), p[1..]))
  }

  /** The first member from `i` on whose name matches the token. */
  function FindToken(members: seq<Member>, e: string): (r: Option<nat>)
    ensures r.Some? ==> r.value < |members| && TokenMatches(members[r.value].key, e)
    ensures forall i | 0 <= i < (if r.Some? then r.value else |members|) :: !TokenMatches(members[i].key, e)
  {
    if members == [] then None
    else if TokenMatches(members[0].key, e) then Some(0)
    else
      match FindToken(members[1..], e)
      case None => None
      case Some(i) => Some(i + 1)
  }

  /** GetPointer: the path of the node a pointer leads to. */
  function GetPointer(j: Json, p: string): (r: Option<Path>)
    ensures r.Some? ==> ValidPath(j, r.value)
    decreases |p|
  {
    if At(p, 0) != '/' then Some([])
    else
      match NextChild(j, p)
      case None => None
      case Some((i, rest)) =>
        match GetPointer(Child(j, i), rest)
        case None => None
        case Some(path) =>
          assert ([i] + path)[1..] == path;
          Some([i] + path)
  }

  /** The child the first token of `p` names, and the rest of the pointer. */
  function NextChild(j: Json, p: string): (r: Option<(nat, string)>)
    requires At(p, 0) == '/'
    ensures r.Some? ==> r.value.0 < ChildCount(j) && |r.value.1| < |p|
  {
    if j.Arr? then
      var (which, rest) := ReadDigits(p[1..], 0);
      if TokenEnd(rest) && which < |j.items| then Some((which, rest)) else None
    else if j.Obj? then
      match FindToken(j.members, p[1..])
      case None => None
      case Some(i) => Some((i, AfterToken(p[1..])))
    else None
  }

  function Onto(path: Path, r: Option<Path>): Option<Path> {
    match r
    case None => None
    case Some(more) => Some(path + more)
  }

  lemma OntoNone(r: Option<Path>)
    ensures Onto([], r) == r
  {
    assert r.Some? ==> [] + r.value == r.value;
  }

  lemma OntoMore(path: Path, i: nat, r: Option<Path>)
    ensures Onto(path, Onto([i], r)) == Onto(path + [i], r)
  {
    if r.Some? {
      assert path + ([i] + r.value) == (path + [i]) + r.value;
    }
  }

  method SearchToken(members: seq<Member>, e: string) returns (r: Option<nat>)
    ensures r == FindToken(members, e)
  {
    var i := 0;
    while i < |members|
      invariant i <= |members| && forall k | 0 <= k < i :: !TokenMatches(members[k].key, e)
    {
      var c := Pstrcasecmp(members[i].key, e);
      if c == 0 {
        return Some(i);
      }
      i := i + 1;
    }
    return None;
  }

  method SkipToken(p: string) returns (rest: string)
    ensures rest == AfterToken(p)
  {
    rest := p;
    while rest != "" && rest[0] != '/'
      invariant AfterToken(rest) == AfterToken(p)
      decreases |rest|
    {
      rest := rest[1..];
    }
  }

  /** GetPointer as a loop; `path` records where `node` is. */
  method WalkPointer(root: Json, pointer: string) returns (r: Option<Path>)
    ensures r == GetPointer(root, pointer)
  {
    var node, p, path: Path := root, pointer, [];
    OntoNone(GetPointer(root, pointer));
    while At(p, 0) == '/'
      invariant GetPointer(root, pointer) == Onto(path, GetPointer(node, p))
      decreases |p|
    {
      var next: nat, rest;
      if node.Arr? {
        next, rest := JsonParser.ReadRun(p[1..], 0);
        if (rest != "" && rest[0] != '/') || next >= |node.items| {
          return None;
        }
      } else if node.Obj? {
        var found := SearchToken(node.members, p[1..]);
        if found.None? {
          return None;
        }
        next := found.value;
        rest := SkipToken(p[1..]);
      } else {
        return None;
      }
      OntoMore(path, next, GetPointer(Child(node, next), rest));
      node, p, path := Child(node, next), rest, path + [next];
    }
    assert path + [] == path;
    return Some(path);
  }

  // ---------- the pointer of a node ----------

  function Get(j: Json, p: Path): Json
    requires ValidPath(j, p)
    decreases |p|
  {
    if p == [] then j else Get(Child(j, p[0]), p[1..])
  }

  /** The token of the child at `i`. */
  function TokenText(j: Json, i: nat): string
    requires i < ChildCount(j)
  {
    "/" + if j.Arr? then Decimal(i) else Encode(j.members[i].key)
  }

  function PathText(j: Json, p: Path): string
    requires ValidPath(j, p)
    decreases |p|
  {
    if p == [] then "" else TokenText(j, p[0]) + PathText(Child(j, p[0]), p[1..])
  }

  /** FindPointerFromObjectTo: look for the node `target` from the node at `here` on, depth first. */
  function FindPointer(j: Json, here: Path, target: Path): Option<string>
    decreases j, ChildCount(j) + 1
  {
    if here == target then Some("") else FindBelow(j, 0, here, target)
  }

  function FindBelow(j: Json, c: nat, here: Path, target: Path): Option<string>
    requires c <= ChildCount(j)
    decreases j, ChildCount(j) - c
  {
    if c == ChildCount(j) then None
    else
      match FindPointer(Child(j, c), here + [c], target)
      case None => FindBelow(j, c + 1, here, target)
      case Some(found) => Some(TokenText(j, c) + found)
  }

  /** A node is not found below a place that is not on the way to it. */
  lemma {:induction false} FindElsewhere(j: Json, here: Path, target: Path)
    requires !(here <= target)
    ensures FindPointer(j, here, target).None?
    decreases j, ChildCount(j) + 1
  {
    BelowElsewhere(j, 0, here, target);
  }

  lemma {:induction false} BelowElsewhere(j: Json, c: nat, here: Path, target: Path)
    requires c <= ChildCount(j) && forall i | c <= i < ChildCount(j) :: !(here + [i] <= target)
    ensures FindBelow(j, c, here, target).None?
    decreases j, ChildCount(j) - c
  {
    if c < ChildCount(j) {
      FindElsewhere(Child(j, c), here + [c], target);
      BelowElsewhere(j, c + 1, here, target);
    }
  }

  /** Every node is found, and its pointer is the text of its path. */
  lemma {:induction false} FindsNode(j: Json, here: Path, p: Path)
    requires ValidPath(j, p)
    ensures FindPointer(j, here, here + p) == Some(PathText(j, p))
    decreases j, ChildCount(j) + 1
  {
    if p == [] {
      assert here + p == here;
    } else {
      FindsBelow(j, 0, here, p);
    }
  }

  lemma {:induction false} FindsBelow(j: Json, c: nat, here: Path, p: Path)
    requires ValidPath(j, p) && p != [] && c <= p[0]
    ensures FindBelow(j, c, here, here + p) == Some(PathText(j, p))
    decreases j, ChildCount(j) - c
  {
    if c == p[0] {
      assert here + [c] + p[1..] == here + p;
      FindsNode(Child(j, c), here + [c], p[1..]);
    } else {
      assert (here + p)[|here|] == p[0];
      FindElsewhere(Child(j, c), here + [c], here + p);
      FindsBelow(j, c + 1, here, p);
    }
  }

  /** On the way to the node no member is hidden by an earlier one with the same name but for case. */
  predicate Reachable(j: Json, p: Path)
    requires ValidPath(j, p)
    decreases |p|
  {
    p != [] ==>
      (j.Obj? ==> forall i | 0 <= i < p[0] :: CaseCmp(j.members[i].key, j.members[p[0]].key) != 0)
      && Reachable(Child(j, p[0]), p[1..])
  }

  /** The first token of a child's text leads to that child, unless an earlier member has its name. */
  lemma TokenLeads(j: Json, i: nat, rest: string)
    requires i < ChildCount(j) && TokenEnd(rest)
    ensures var n := NextChild(j, TokenText(j, i) + rest);
      n.Some? && n.value.1 == rest && n.value.0 <= i
      && (n.value.0 == i <==> (j.Obj? ==> forall k | 0 <= k < i :: CaseCmp(j.members[k].key, j.members[i].key) != 0))
  {
    var p := TokenText(j, i) + rest;
    if j.Arr? {
      assert p[1..] == Digits(i) + rest;
      ReadDigitsBack(i, rest);
    } else {
      var key := j.members[i].key;
      assert p[1..] == Encode(key) + rest;
      AfterEncoded(key, rest);
      CaseFold(key, key);
      forall k | 0 <= k <= i ensures TokenMatches(j.members[k].key, p[1..]) <==> CaseCmp(j.members[k].key, key) == 0 {
        EncodedMatches(j.members[k].key, key, rest);
      }
    }
  }

  lemma PathTextEnd(j: Json, p: Path, s: string)
    requires ValidPath(j, p) && TokenEnd(s)
    ensures TokenEnd(PathText(j, p) + s)
  {
    if p == [] {
      assert "" + s == s;
    }
  }

  /** Following the text of a path and then `s` is following `s` from the node. */
  lemma {:induction false} PointerFollows(j: Json, p: Path, s: string)
    requires ValidPath(j, p) && Reachable(j, p) && TokenEnd(s)
    ensures GetPointer(j, PathText(j, p) + s) == Onto(p, GetPointer(Get(j, p), s))
    decreases |p|
  {
    if p == [] {
      assert "" + s == s;
      OntoNone(GetPointer(j, s));
    } else {
      var c := Child(j, p[0]);
      var rest := PathText(c, p[1..]) + s;
      PathTextEnd(c, p[1..], s);
      Group3(TokenText(j, p[0]), PathText(c, p[1..]), s);
      TokenLeads(j, p[0], rest);
      GetPointerStep(j, TokenText(j, p[0]) + rest);
      PointerFollows(c, p[1..], s);
      OntoCons(p, GetPointer(Get(j, p), s));
    }
  }

  lemma GetPointerStep(j: Json, p: string)
    requires At(p, 0) == '/' && NextChild(j, p).Some?
    ensures var (i, rest) := NextChild(j, p).value; GetPointer(j, p) == Onto([i], GetPointer(Child(j, i), rest))
  {
  }

  lemma OntoCons(p: Path, r: Option<Path>)
    requires p != []
    ensures Onto([p[0]], Onto(p[1..], r)) == Onto(p, r)
  {
    assert r.Some? ==> [p[0]] + (p[1..] + r.value) == p + r.value;
  }

  /** GetPointer of a node's pointer is that node, exactly when no name on the way is hidden. */
  lemma PointerRoundTrip(root: Json, target: Path)
    requires ValidPath(root, target)
    ensures FindPointer(root, [], target) == Some(PathText(root, target))
    ensures GetPointer(root, PathText(root, target)) == Some(target) <==> Reachable(root, target)
  {
    assert [] + target == target;
    FindsNode(root, [], target);
    var t := PathText(root, target);
    assert t + "" == t;
    if Reachable(root, target) {
      PointerFollows(root, target, "");
      assert GetPointer(Get(root, target), "") == Some([]) && target + [] == target;
    } else {
      Hidden(root, target);
    }
  }

  lemma {:induction false} Hidden(j: Json, p: Path)
    requires ValidPath(j, p) && !Reachable(j, p)
    ensures GetPointer(j, PathText(j, p)) != Some(p)
    decreases |p|
  {
    var c := Child(j, p[0]);
    var rest := PathText(c, p[1..]);
    PathTextEnd(c, p[1..], "");
    assert rest + "" == rest;
    TokenLeads(j, p[0], rest);
    var n := NextChild(j, TokenText(j, p[0]) + rest).value.0;
    if n == p[0] {
      Hidden(c, p[1..]);
      var r := GetPointer(c, rest);
      assert r.Some? ==> ([n] + r.value)[1..] == r.value;
    }
  }

  /** The second of two members whose names differ in case only: its pointer leads to the first. */
  lemma HiddenMember(v: Json, w: Json)
    ensures var j := Obj([Member("a", v), Member("A", w)]);
      FindPointer(j, [], [1]) == Some("/A") && GetPointer(j, "/A") == Some([0])
  {
    var j := Obj([Member("a", v), Member("A", w)]);
    FindsNode(j, [], [1]);
    assert [] + [1] == [1];
    assert PathText(j, [1]) == "/" + Encode("A") + "";
    assert Encode("A") == "A" && "/" + "A" + "" == "/A";
    assert "/A"[1..] == "A" && "A" + "" == "A";
    assert CaseCmp("a", "A") == 0;
    EncodedMatches("a", "A", "");
    AfterEncoded("A", "");
    assert NextChild(j, "/A") == Some((0, ""));
    GetPointerStep(j, "/A");
    assert [0] + [] == [0];
  }
}
