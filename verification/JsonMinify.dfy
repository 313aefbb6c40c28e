/**
 cJSON_Minify: blanks and comments taken out of a text, in place.

 `Minify` is None for the texts whose last comment or string literal is not closed: there the
 code runs past the terminating NUL.
 */
module JsonMinify {
  import opened JsonStrings
  import opened JsonText

  predicate Blank(c: char) {
    c == ' ' || c == '\t' || c == '\r' || c == '\n'
  }

  /** From a line comment to the end of its line. */
  function SkipLine(t: string): (r: string)
    ensures |r| <= |t| && (t != "" && t[0] != '\n' ==> |r| < |t|)
  {
    if t == "" || t[0] == '\n' then t else SkipLine(t[1..])
  }

  /** From inside a comment to the text after it. */
  function SkipBlock(t: string): (r: Option<string>)
    ensures r.Some? ==> |r.value| < |t|
  {
    if t == "" then None
    else if t[0] == '*' && At(t, 1) == '/' then Some(t[2..])
    else SkipBlock(t[1..])
  }

  /** The length of the closed literal that starts `t`. */
  function Literal(t: string): (n: Option<nat>)
    requires t != "" && t[0] == '"'
    ensures n.Some? ==> 2 <= n.value <= |t|
  {
    match Scan(t[1..])
    case None => None
    case Some(n) => if n + 1 < |t| then Some(n + 2) else None
  }

  function Minify(t: string): (r: Option<string>)
    ensures r.Some? ==> |r.value| <= |t|
    decreases |t|
  {
    if t == "" then Some("")
    else if Blank(t[0]) then Minify(t[1..])
    else if t[0] == '/' && At(t, 1) == '/' then Minify(SkipLine(t))
    else if t[0] == '/' && At(t, 1) == '*' then
      match SkipBlock(t)
      case None => None
      case Some(rest) => Minify(rest)
    else if t[0] == '"' then
      match Literal(t)
      case None => None
      case Some(n) => Prepend(t[..n], Minify(t[n..]))
    else Prepend([t[0]], Minify(t[1..]))
  }

  // ---------- in place ----------

  /** The read position behind the blank or comment at `from`. */
  method SkipSpace(json: array<char>, from: nat, ghost text: string) returns (i: nat)
    requires Holds(json, text, from) && '\0' !in text && from < |text|
    requires Minify(text[from..]).Some?
    requires Blank(text[from]) || (text[from] == '/' && At(text[from..], 1) in ['/', '*'])
    ensures from < i <= |text| && Minify(text[from..]) == Minify(text[i..])
  {
    i := from;
    HoldsAt(json, text, i);
    ghost var t := text[from..];
    if Blank(json[i]) {
      i := i + 1;
      assert text[from..][1..] == text[i..];
    } else if json[i + 1] == '/' {
      while json[i] != '\0' && json[i] != '\n'
        invariant from <= i <= |text| && SkipLine(text[i..]) == SkipLine(t)
        decreases |text| - i
      {
        HoldsAt(json, text, i);
        assert text[i..][1..] == text[i + 1..];
        i := i + 1;
        HoldsLater(json, text, from, i);
        HoldsAt(json, text, i);
      }
      HoldsLater(json, text, from, i);
      HoldsAt(json, text, i);
      assert i < |text| ==> text[i] != '\0';
    } else {
      i := SkipComment(json, from, text);
    }
  }

  method SkipComment(json: array<char>, from: nat, ghost text: string) returns (i: nat)
    requires Holds(json, text, from) && '\0' !in text && from < |text|
    requires SkipBlock(text[from..]).Some?
    ensures from < i <= |text| && SkipBlock(text[from..]) == Some(text[i..])
  {
    i := from;
    HoldsAt(json, text, i);
    while json[i] != '\0' && !(json[i] == '*' && json[i + 1] == '/')
      invariant from <= i < |text| && SkipBlock(text[i..]) == SkipBlock(text[from..])
      invariant json[i] == text[i] && json[i + 1] == At(text[i..], 1)
      decreases |text| - i
    {
      assert text[i..][1..] == text[i + 1..];
      i := i + 1;
      HoldsLater(json, text, from, i);
      HoldsAt(json, text, i);
    }
    assert text[i..][2..] == text[i + 2..];
    i := i + 2;
  }

  /** `*into++ = *json++` */
  method Copy(json: array<char>, i: nat, into: nat, ghost text: string)
    requires Holds(json, text, i) && into <= i < |text|
    modifies json
    ensures Holds(json, text, i + 1) && json[..into + 1] == old(json[..into]) + [text[i]]
    ensures json[|text|..] == old(json[|text|..])
  {
    HoldsAt(json, text, i);
    ghost var tail := json[i + 1..|text|];
    assert tail == json[i..|text|][1..];
    json[into] := json[i];
  }

  /** Copy the closed literal at `from` to `into`. */
  method CopyLiteral(json: array<char>, from: nat, into: nat, ghost text: string) returns (i: nat, k: nat)
    requires Holds(json, text, from) && into <= from < |text| && '\0' !in text
    requires Scan(text[from + 1..]).Some? && from + 1 + Scan(text[from + 1..]).value < |text|
    modifies json
    ensures i == from + 2 + Scan(text[from + 1..]).value && k - into == i - from
    ensures Holds(json, text, i) && json[..k] == old(json[..into]) + text[from..i]
    ensures json[|text|..] == old(json[|text|..])
  {
    Copy(json, from, into, text);
    i, k := CopyClose(json, from + 1, into + 1, text);
    TextGlue(old(json[..into]), text, from, from + 1, i);
  }

  /** Copy the rest of a literal and its closing quote. */
  method CopyClose(json: array<char>, from: nat, into: nat, ghost text: string) returns (i: nat, k: nat)
    requires Holds(json, text, from) && into <= from && '\0' !in text
    requires Scan(text[from..]).Some? && from + Scan(text[from..]).value < |text|
    modifies json
    ensures i == from + 1 + Scan(text[from..]).value && k - into == i - from
    ensures Holds(json, text, i) && json[..k] == old(json[..into]) + text[from..i]
    ensures json[|text|..] == old(json[|text|..])
  {
    i, k := CopyBody(json, from, into, text);
    Copy(json, i, k, text);
    TextGlue(old(json[..into]), text, from, i, i + 1);
    i, k := i + 1, k + 1;
  }

  /** Two neighbouring parts of a text behind `b`; a part of one character is that character. */
  lemma TextGlue(b: string, text: string, from: nat, mid: nat, to: nat)
    requires from <= mid <= to <= |text|
    ensures b + text[from..mid] + text[mid..to] == b + text[from..to]
    ensures from + 1 == mid ==> [text[from]] == text[from..mid]
    ensures mid + 1 == to ==> [text[mid]] == text[mid..to]
  {
    assert text[from..to] == text[from..mid] + text[mid..to];
  }

  lemma LiteralScan(text: string, from: nat)
    requires from < |text| && text[from] == '"' && Literal(text[from..]).Some?
    ensures Scan(text[from + 1..]).Some?
    ensures from + 2 + Scan(text[from + 1..]).value == from + Literal(text[from..]).value <= |text|
  {
    assert text[from..][1..] == text[from + 1..];
  }

  /** Copy up to the closing quote. */
  method CopyBody(json: array<char>, from: nat, into: nat, ghost text: string) returns (i: nat, k: nat)
    requires Holds(json, text, from) && into <= from && '\0' !in text
    requires Scan(text[from..]).Some? && from + Scan(text[from..]).value < |text|
    modifies json
    ensures i == from + Scan(text[from..]).value && k - into == i - from
    ensures Holds(json, text, i) && json[..k] == old(json[..into]) + text[from..i]
    ensures json[|text|..] == old(json[|text|..])
  {
    i, k := from, into;
    ghost var end := from + Scan(text[from..]).value;
    assert text[from..from] == "";
    HoldsEnd(json, text, i);
    while json[i] != '\0' && json[i] != '"'
      invariant from <= i <= end < |text| && k - into == i - from && json[i] == text[i] != '\0'
      invariant Scan(text[i..]) == Some(end - i)
      invariant Holds(json, text, i) && json[..k] == old(json[..into]) + text[from..i]
      invariant json[|text|..] == old(json[|text|..])
      decreases |text| - i
    {
      ghost var j := i;
      i, k := CopyToken(json, i, k, text);
      Longer(old(json[..into]), text, from, j, i);
      HoldsEnd(json, text, i);
    }
    ScanStops(text, i);
  }

  lemma Longer(b: string, text: string, from: nat, j: nat, i: nat)
    requires from <= j <= i <= |text|
    ensures b + text[from..j] + text[j..i] == b + text[from..i]
  {
    assert text[from..i] == text[from..j] + text[j..i];
    Group3(b, text[from..j], text[j..i]);
  }

  lemma ScanStops(text: string, i: nat)
    requires i < |text| && text[i] == '"'
    ensures Scan(text[i..]) == Some(0)
  {
  }

  /** Copy a character of a literal, together with the backslash before it. */
  method CopyToken(json: array<char>, from: nat, into: nat, ghost text: string) returns (i: nat, k: nat)
    requires Holds(json, text, from) && into <= from < |text| && text[from] != '"' && Scan(text[from..]).Some?
    modifies json
    ensures from < i <= |text| && k == into + (i - from) && Holds(json, text, i)
    ensures Scan(text[i..]) == Some(Scan(text[from..]).value - (i - from)) && i - from <= Scan(text[from..]).value
    ensures json[..k] == old(json[..into]) + text[from..i] && json[|text|..] == old(json[|text|..])
  {
    HoldsAt(json, text, from);
    ScanToken(text, from);
    i, k := from, into;
    if json[i] == '\\' {
      Copy(json, i, k, text);
      i, k := i + 1, k + 1;
    }
    Copy(json, i, k, text);
    i, k := i + 1, k + 1;
    TextGlue(old(json[..into]), text, from, from + 1, i);
  }

  lemma ScanToken(text: string, i: nat)
    requires i < |text| && text[i] != '"' && Scan(text[i..]).Some?
    ensures var m := if text[i] == '\\' then 2 else 1;
      i + m <= |text| && Scan(text[i + m..]) == Some(Scan(text[i..]).value - m) && m <= Scan(text[i..]).value
  {
    assert text[i..][1..] == text[i + 1..];
    if text[i] == '\\' {
      assert text[i..][2..] == text[i + 2..];
    }
  }

  /** One round of the loop. */
  method Step(json: array<char>, from: nat, into: nat, ghost text: string) returns (i: nat, k: nat)
    requires Holds(json, text, from) && into <= from < |text| && '\0' !in text && Minify(text[from..]).Some?
    modifies json
    ensures from < i <= |text| && into <= k <= i && Holds(json, text, i)
    ensures json[|text|..] == old(json[|text|..])
    ensures Minify(text[i..]).Some?
    ensures json[..k] + Minify(text[i..]).value == old(json[..into]) + Minify(text[from..]).value
  {
    HoldsAt(json, text, from);
    var c, d := json[from], json[from + 1];
    if Blank(c) || (c == '/' && (d == '/' || d == '*')) {
      i := SkipSpace(json, from, text);
      k := into;
      HoldsLater(json, text, from, i);
    } else if c == '"' {
      LiteralScan(text, from);
      i, k := CopyLiteral(json, from, into, text);
      Rest(text, from, i);
      Group3(old(json[..into]), text[from..i], Minify(text[i..]).value);
    } else {
      Copy(json, from, into, text);
      i, k := from + 1, into + 1;
      Rest(text, from, i);
      Group3(old(json[..into]), [text[from]], Minify(text[i..]).value);
    }
  }

  lemma Rest(text: string, from: nat, i: nat)
    requires from < i <= |text|
    ensures text[from..][..i - from] == text[from..i] && text[from..][i - from..] == text[i..]
  {
  }

  /** cJSON_Minify: the write position never passes the read position, and nothing behind the
      terminating NUL changes. */
  method MinifyInPlace(json: array<char>, ghost text: string)
    requires Holds(json, text, 0) && '\0' !in text && Minify(text).Some?
    modifies json
    ensures var m := Minify(text).value; json[..|m|] == m && json[|m|] == '\0'
    ensures json[|text| + 1..] == old(json[|text| + 1..])
  {
    var i, into := 0, 0;
    ghost var last := json[|text|..];
    assert json[..0] + Minify(text).value == Minify(text).value && text[0..] == text;
    HoldsEnd(json, text, 0);
    while json[i] != '\0'
      invariant into <= i <= |text| && Holds(json, text, i) && json[|text|..] == last
      invariant Minify(text[i..]).Some? && json[..into] + Minify(text[i..]).value == Minify(text).value
      invariant json[i] == '\0' <==> i == |text|
      decreases |text| - i
    {
      i, into := Step(json, i, into, text);
      HoldsEnd(json, text, i);
    }
    assert json[..into] + "" == json[..into];
    Terminate(json, into, |text|);
  }

  method Terminate(json: array<char>, into: nat, ghost end: nat)
    requires into <= end < json.Length
    modifies json
    ensures json[..into] == old(json[..into]) && json[into] == '\0' && json[end + 1..] == old(json[end + 1..])
  {
    json[into] := '\0';
  }
}
