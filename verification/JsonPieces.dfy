/**
 What minifying leaves out, said from the writer's side: a text is made of blanks, comments, string
 literals and other characters, and what is left are the literals and the other characters.
 */
module JsonPieces {
  import opened JsonStrings
  import opened JsonText
  import opened JsonMinify
  import opened JsonParser
  import opened JsonMinified

  datatype Piece =
    | Gap(c: char)
    | Line(comment: string)
    | Block(comment: string)
    | Quick
    | Quoted(body: string)
    | Other(c: char)
  {
    function Text(): string {
      match this
      case Gap(c) => [c]
      case Line(comment) => "//" + comment + "\n"
      case Block(comment) => "/*" + comment + "*/"
      case Quick => "/*/"
      case Quoted(body) => "\"" + body + "\""
      case Other(c) => [c]
    }

    /** Whether this is one piece when `next` follows. */
    predicate Valid(next: string) {
      match this
      case Gap(c) => c in [' ', '\t', '\r', '\n']
      case Line(comment) => '\n' !in comment
      case Block(comment) => Open("*" + comment)
      case Quick => true
      case Quoted(body) => Body(body)
      case Other(c) => c !in [' ', '\t', '\r', '\n', '"'] && (c == '/' ==> At(next, 0) !in ['/', '*'])
    }

    function Kept(): string {
      match this
      case Quoted(body) => "\"" + body + "\""
      case Other(c) => [c]
      case _ => ""
    }
  }

  /** No star is directly before a slash.  The star that opens a comment counts, so that a slash, a
      star and a slash are a comment already, the quick one. */
  predicate Open(s: string) {
    forall i | 0 <= i < |s| - 1 :: s[i] == '*' ==> s[i + 1] != '/'
  }

  /** Every quote has a backslash before it, and every backslash a character behind it. */
  predicate Body(s: string) {
    s == ""
    || (s[0] == '\\' && |s| > 1 && Body(s[2..]))
    || (s[0] != '\\' && s[0] != '"' && Body(s[1..]))
  }

  function Text(ps: seq<Piece>): string {
    if ps == [] then "" else ps[0].Text() + Text(ps[1..])
  }

  function Kept(ps: seq<Piece>): string {
    if ps == [] then "" else ps[0].Kept() + Kept(ps[1..])
  }

  predicate Valid(ps: seq<Piece>, next: string) {
    ps != [] ==> ps[0].Valid(Text(ps[1..]) + next) && Valid(ps[1..], next)
  }

  // ---------- one piece ----------

  lemma {:induction false} LineSkipped(comment: string, u: string)
    requires '\n' !in comment
    ensures SkipLine(comment + "\n" + u) == "\n" + u
  {
    var t := comment + "\n" + u;
    if comment != "" {
      assert t[1..] == comment[1..] + "\n" + u;
      LineSkipped(comment[1..], u);
    } else {
      assert t == "\n" + u;
    }
  }

  /** A line comment is left out with the end of its line. */
  lemma LineComment(comment: string, u: string)
    requires '\n' !in comment
    ensures Minify("//" + comment + "\n" + u) == Minify(u)
  {
    var t := "//" + comment + "\n" + u;
    assert t == ("//" + comment) + "\n" + u && '\n' !in "//" + comment;
    LineSkipped("//" + comment, u);
    Drop("\n", u);
  }

  lemma {:induction false} BlockSkipped(s: string, u: string)
    requires Open(s)
    ensures SkipBlock(s + "*/" + u) == Some(u)
  {
    var t := s + "*/" + u;
    if s == "" {
      assert t[2..] == u;
    } else {
      assert t[1..] == s[1..] + "*/" + u;
      OpenTail(s);
      BlockSkipped(s[1..], u);
      assert |s| > 1 ==> t[1] == s[1];
    }
  }

  lemma OpenTail(s: string)
    requires Open(s) && s != ""
    ensures Open(s[1..]) && (s[0] == '*' && |s| > 1 ==> s[1] != '/')
  {
    assert forall i | 0 <= i < |s| - 1 :: s[1..][i] == s[i + 1];
  }

  /** A block comment is left out, from its opening to the first place where it closes. */
  lemma BlockComment(comment: string, u: string)
    requires Open("*" + comment)
    ensures Minify("/*" + comment + "*/" + u) == Minify(u)
  {
    var t := "/*" + comment + "*/" + u;
    BlockSkipped("*" + comment, u);
    assert t[1..] == ("*" + comment) + "*/" + u;
    assert SkipBlock(t) == SkipBlock(t[1..]);
  }

  /** A slash, a star and a slash are left out as well. */
  lemma QuickComment(u: string)
    ensures Minify("/*/" + u) == Minify(u)
  {
    var t := "/*/" + u;
    BlockSkipped("", u);
    assert t[1..] == "" + "*/" + u;
    assert SkipBlock(t) == SkipBlock(t[1..]);
  }

  lemma {:induction false} BodyScanned(body: string, u: string)
    requires Body(body)
    ensures Scan(body + "\"" + u) == Some(|body|)
  {
    var t := body + "\"" + u;
    if body == "" {
      assert t == "\"" + u;
    } else {
      var n := if body[0] == '\\' then 2 else 1;
      assert t[n..] == body[n..] + "\"" + u;
      BodyScanned(body[n..], u);
    }
  }

  /** A literal stays as it is, whatever is in it. */
  lemma LiteralStays(body: string, u: string)
    requires Body(body)
    ensures Minify("\"" + body + "\"" + u) == Prepend("\"" + body + "\"", Minify(u))
  {
    var t, w := "\"" + body + "\"" + u, "\"" + body + "\"";
    BodyScanned(body, u);
    assert t[1..] == body + "\"" + u;
    assert t[..|w|] == w && t[|w|..] == u;
  }

  lemma PieceMinified(p: Piece, u: string)
    requires p.Valid(u)
    ensures Minify(p.Text() + u) == Prepend(p.Kept(), Minify(u))
  {
    PrependNone(Minify(u));
    match p
    case Gap(c) => Drop([c], u);
    case Line(comment) => LineComment(comment, u);
    case Block(comment) => BlockComment(comment, u);
    case Quick => QuickComment(u);
    case Quoted(body) => LiteralStays(body, u);
    case Other(c) => Drop([c], u);
  }

  // ---------- texts ----------

  /** Minifying leaves out the blanks and comments of a text and keeps everything else, in order,
      and goes on behind it. */
  lemma {:induction false} PiecesMinified(ps: seq<Piece>, u: string)
    requires Valid(ps, u)
    ensures Minify(Text(ps) + u) == Prepend(Kept(ps), Minify(u))
  {
    if ps == [] {
      assert Text(ps) + u == u;
      PrependNone(Minify(u));
    } else {
      Group3(ps[0].Text(), Text(ps[1..]), u);
      PieceMinified(ps[0], Text(ps[1..]) + u);
      PiecesMinified(ps[1..], u);
      PrependMore(ps[0].Kept(), Kept(ps[1..]), Minify(u));
    }
  }

  /** What may follow the pieces at the end of a text: a line comment without an end of line. */
  predicate Tail(t: string) {
    t == "" || (|t| >= 2 && t[..2] == "//" && '\n' !in t)
  }

  lemma {:induction false} LineOpen(t: string)
    requires '\n' !in t
    ensures SkipLine(t) == ""
  {
    if t != "" {
      LineOpen(t[1..]);
    }
  }

  /** A text is these pieces and the tail, and is minified to what they keep. */
  ghost predicate Cuts(t: string, ps: seq<Piece>, tail: string) {
    t == Text(ps) + tail && Tail(tail) && Valid(ps, tail) && Minify(t) == Some(Kept(ps))
  }

  /** Every text that can be minified is such pieces and perhaps a last comment, and what it is
      minified to is what the pieces keep. */
  lemma {:induction false} InPieces(t: string) returns (ps: seq<Piece>, tail: string)
    requires Minify(t).Some?
    ensures Cuts(t, ps, tail)
    decreases |t|
  {
    if Tail(t) {
      ps, tail := [], t;
      NoPieces(t);
    } else {
      var p, n := FirstPiece(t);
      ps, tail := InPieces(t[n..]);
      PieceFirst(t, n, p, ps, tail);
      ps := [p] + ps;
    }
  }

  lemma NoPieces(t: string)
    requires Tail(t)
    ensures Cuts(t, [], t)
  {
    if t != "" {
      assert t[0] == '/' && t[1] == '/';
      LineOpen(t);
    }
  }

  /** The first `n` characters are a piece. */
  ghost predicate Begins(t: string, n: nat, p: Piece) {
    0 < n <= |t| && p.Text() == t[..n] && p.Valid(t[n..]) && Minify(t[n..]).Some?
    && Minify(t) == Some(p.Kept() + Minify(t[n..]).value)
  }

  lemma PieceFirst(t: string, n: nat, p: Piece, ps: seq<Piece>, tail: string)
    requires Begins(t, n, p) && Cuts(t[n..], ps, tail)
    ensures Cuts(t, [p] + ps, tail)
  {
    assert ([p] + ps)[1..] == ps;
    PieceText(t, n, p.Text(), Text(ps), tail);
  }

  lemma PieceText(t: string, n: nat, a: string, b: string, c: string)
    requires n <= |t| && a == t[..n] && b + c == t[n..]
    ensures t == (a + b) + c
  {
    assert t == t[..n] + t[n..];
  }

  /** The piece a text begins with, if it is not a line comment to its end. */
  lemma FirstPiece(t: string) returns (p: Piece, n: nat)
    requires !Tail(t) && Minify(t).Some?
    ensures Begins(t, n, p)
  {
    p, n := PieceAt(t);
    assert t == p.Text() + t[n..];
    PieceMinified(p, t[n..]);
  }

  lemma PieceAt(t: string) returns (p: Piece, n: nat)
    requires !Tail(t) && Minify(t).Some?
    ensures 0 < n <= |t| && p.Text() == t[..n] && p.Valid(t[n..])
  {
    n := 1;
    if Blank(t[0]) {
      p := Gap(t[0]);
    } else if t[0] == '/' && At(t, 1) == '/' {
      p, n := FirstLine(t);
    } else if t[0] == '/' && At(t, 1) == '*' {
      p, n := FirstBlock(t);
    } else if t[0] == '"' {
      p, n := FirstLiteral(t);
    } else {
      p := Other(t[0]);
    }
  }

  lemma FirstLine(t: string) returns (p: Piece, n: nat)
    requires !Tail(t) && |t| >= 2 && t[0] == '/' && t[1] == '/'
    ensures 0 < n <= |t| && p.Text() == t[..n] && p.Valid(t[n..])
  {
    assert t[..2] == "//";
    var comment := LineCut(t[2..]);
    n := |comment| + 3;
    p := Line(comment);
    assert t[..n] == t[..2] + t[2..][..|comment| + 1];
  }

  lemma FirstBlock(t: string) returns (p: Piece, n: nat)
    requires |t| >= 2 && t[0] == '/' && t[1] == '*' && Minify(t).Some?
    ensures 0 < n <= |t| && p.Text() == t[..n] && p.Valid(t[n..])
  {
    assert SkipBlock(t) == SkipBlock(t[1..]);
    var s := BlockCut(t[1..]);
    n := |s| + 3;
    p := Opened(s);
    CutText(t, |s| + 2);
    OpenedText(s, t[n..]);
  }

  /** The comment that goes on with `s` after the slash, its first star included. */
  function Opened(s: string): Piece {
    if s == "" then Quick else Block(s[1..])
  }

  lemma OpenedText(s: string, next: string)
    requires (s != "" ==> s[0] == '*') && Open(s)
    ensures Opened(s).Text() == ['/'] + (s + "*/") && Opened(s).Valid(next)
  {
    if s != "" {
      assert s == "*" + s[1..];
      assert "/*" + s[1..] == "/" + s;
      Group3("/", s, "*/");
    }
  }

  lemma CutText(t: string, k: nat)
    requires k + 1 <= |t|
    ensures t[..k + 1] == [t[0]] + t[1..][..k]
  {
  }

  lemma FirstLiteral(t: string) returns (p: Piece, n: nat)
    requires t != "" && t[0] == '"' && Minify(t).Some?
    ensures 0 < n <= |t| && p.Text() == t[..n] && p.Valid(t[n..])
  {
    var body := BodyCut(t[1..]);
    n := |body| + 2;
    p := Quoted(body);
    assert t[..n] == [t[0]] + t[1..][..|body| + 1];
  }

  lemma {:induction false} LineCut(t: string) returns (comment: string)
    requires '\n' in t
    ensures '\n' !in comment && |comment| < |t| && t[..|comment| + 1] == comment + "\n"
  {
    if t[0] == '\n' {
      comment := "";
    } else {
      comment := LineCut(t[1..]);
      comment := [t[0]] + comment;
    }
  }

  lemma {:induction false} BlockCut(t: string) returns (s: string)
    requires SkipBlock(t).Some?
    ensures Open(s) && |s| + 2 <= |t| && t[..|s| + 2] == s + "*/" && (s != "" ==> s[0] == t[0])
  {
    if t[0] == '*' && At(t, 1) == '/' {
      s := "";
    } else {
      var rest := BlockCut(t[1..]);
      s := [t[0]] + rest;
      assert t[1..][..|rest| + 2] == rest + "*/";
      assert t[..|s| + 2] == [t[0]] + t[1..][..|rest| + 2];
      assert |rest| > 0 ==> t[1] == rest[0];
      assert forall i | 0 < i < |s| :: s[i] == rest[i - 1];
    }
  }

  lemma {:induction false} BodyCut(t: string) returns (body: string)
    requires Scan(t).Some? && Scan(t).value < |t|
    ensures Body(body) && |body| == Scan(t).value && t[..|body| + 1] == body + "\""
  {
    if t[0] == '"' {
      body := "";
    } else {
      var n := if t[0] == '\\' then 2 else 1;
      var rest := BodyCut(t[n..]);
      body := t[..n] + rest;
      assert body[n..] == rest;
      assert t[..|body| + 1] == t[..n] + t[n..][..|rest| + 1];
    }
  }
}
