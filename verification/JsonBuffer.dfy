/**
 The buffered printer of cJSON: one growing buffer, and a write position that `update`
 finds again after every child by looking for the NUL.
 */
module JsonBuffer {
  import opened JsonStrings
  import opened JsonText
  import opened JsonPrinter

  /** The distance to the first NUL. */
  method StrLen(s: array<char>, at: nat, ghost text: string) returns (n: nat)
    requires at + |text| < s.Length && s[at..at + |text|] == text && '\0' !in text && s[at + |text|] == '\0'
    ensures n == |text|
  {
    n := 0;
    assert text != "" ==> s[at..at + |text|][0] in text;
    while s[at + n] != '\0'
      invariant n <= |text| && (n < |text| ==> s[at + n] != '\0')
      decreases |text| - n
    {
      n := n + 1;
      assert n < |text| ==> s[at..at + |text|][n] in text;
    }
  }

  class PrintBuffer {
    var buffer: array<char>
    var offset: nat

    constructor (prebuffer: nat)
      ensures fresh(buffer) && buffer.Length == prebuffer && offset == 0
    {
      buffer := new char[prebuffer];
      offset := 0;
    }

    /** What was written before `offset`. */
    ghost function Done(): string
      requires offset <= buffer.Length
      reads this, buffer
    {
      buffer[..offset]
    }

    /** Make room for `needed` bytes after `offset`; no byte already there is lost. */
    method Ensure(needed: nat) returns (ptr: nat)
      modifies this`buffer
      ensures ptr == offset && offset + needed <= buffer.Length
      ensures old(buffer.Length) <= buffer.Length && buffer[..old(buffer.Length)] == old(buffer[..])
      ensures buffer == old(buffer) || fresh(buffer)
    {
      var total := needed + offset;
      if total <= buffer.Length {
        return offset;
      }
      var newsize := Pow2Gt(total);
      var newbuffer := new char[newsize];
      var i := 0;
      while i < buffer.Length
        invariant i <= buffer.Length && newbuffer[..i] == buffer[..i]
        modifies newbuffer
      {
        newbuffer[i] := buffer[i];
        i := i + 1;
      }
      buffer := newbuffer;
      return offset;
    }

    /** Make room for `needed` bytes and write `s` there; `offset` stays. */
    method Emit(needed: nat, s: string)
      requires |s| <= needed && offset <= buffer.Length
      modifies this`buffer, buffer
      ensures offset + |s| <= buffer.Length && buffer[..offset + |s|] == old(Done()) + s
      ensures buffer == old(buffer) || fresh(buffer)
    {
      var ptr := Ensure(needed);
      assert buffer[..offset] == old(buffer[..])[..offset];
      var end := Put(buffer, ptr, s);
    }

    method EmitTabs(n: nat)
      requires offset <= buffer.Length
      modifies this`buffer, buffer
      ensures offset + n <= buffer.Length && buffer[..offset + n] == old(Done()) + Tabs(n)
      ensures buffer == old(buffer) || fresh(buffer)
    {
      var ptr := Ensure(n);
      assert buffer[..offset] == old(buffer[..])[..offset];
      var end := PutTabs(buffer, ptr, n);
    }

    /** update: move `offset` to the end of the text that starts at or before it. */
    method Update(ghost done: string, ghost text: string)
      requires |done| <= offset <= |done| + |text| < buffer.Length
      requires buffer[..|done| + |text| + 1] == done + text + "\0" && '\0' !in text
      modifies this`offset
      ensures offset == |done| + |text| && Done() == done + text
    {
      ghost var tail := text[offset - |done|..];
      ghost var all := done + text + "\0";
      assert buffer[offset..offset + |tail|] == tail by {
        assert buffer[offset..offset + |tail|] == buffer[..|all|][offset..offset + |tail|];
        assert all[offset..offset + |tail|] == tail;
      }
      assert buffer[offset + |tail|] == all[offset + |tail|];
      var n := StrLen(buffer, offset, tail);
      offset := offset + n;
      assert buffer[..offset] == buffer[..|all|][..offset];
    }

    /** print_string_ptr with a buffer */
    method PrintString(s: string) returns (out: nat)
      requires CString(s) && offset <= buffer.Length
      modifies this`buffer, buffer
      ensures out == offset && offset + |Quote(s)| + 1 <= buffer.Length
      ensures buffer[..offset + |Quote(s)| + 1] == old(Done()) + Quote(s) + "\0"
      ensures buffer == old(buffer) || fresh(buffer)
    {
      var plain, len := StringSize(s);
      out := Ensure(len + 3);
      assert buffer[..offset] == old(buffer[..])[..offset];
      PutString(buffer, out, s, plain);
    }

    /** Make room for `needed` bytes and write `s` and a NUL there; `offset` stays. */
    method EmitEnd(needed: nat, s: string)
      requires |s| < needed && offset <= buffer.Length
      modifies this`buffer, buffer
      ensures offset + |s| + 1 <= buffer.Length
      ensures buffer[..offset + |s| + 1] == old(Done()) + s + "\0" && buffer[..offset + |s|] == old(Done()) + s
      ensures buffer == old(buffer) || fresh(buffer)
    {
      Emit(needed, s + "\0");
      Group3(old(Done()), s, "\0");
      Cut(buffer[..offset + |s| + 1], old(Done()) + s);
    }

    /** print_value with a buffer.  The text is in place from where `offset` was, `offset` itself
        is somewhere in it, and `out` is the returned position. */
    method PrintValue(j: Json, depth: nat, fmt: bool) returns (out: nat)
      requires Printable(j) && offset <= buffer.Length
      modifies this, buffer
      ensures var text := Print(j, depth, fmt);
        old(offset) <= offset <= old(offset) + |text| < buffer.Length
        && buffer[..old(offset) + |text| + 1] == old(Done()) + text + "\0"
      ensures out == old(offset) || (fmt && j.Obj? && out == depth)
      ensures buffer == old(buffer) || fresh(buffer)
      decreases j, 3
    {
      out := offset;
      match j
      case Null => EmitEnd(5, "null");
      case False => EmitEnd(6, "false");
      case True => EmitEnd(5, "true");
      case Num(mant, _) =>
        DecimalFits(mant);
        EmitEnd(if mant == 0 then 2 else 21, Decimal(mant));
      case Str(s) => out := PrintString(s);
      case Arr(items) => out := PrintArray(items, depth, fmt);
      case Obj(members) => out := PrintObject(members, depth, fmt);
    }

    /** print_array with a buffer */
    method PrintArray(items: seq<Json>, depth: nat, fmt: bool) returns (out: nat)
      requires offset <= buffer.Length && forall v <- items :: Printable(v)
      modifies this, buffer
      ensures var text := Print(Arr(items), depth, fmt);
        old(offset) <= offset <= old(offset) + |text| < buffer.Length
        && buffer[..old(offset) + |text| + 1] == old(Done()) + text + "\0"
      ensures out == old(offset)
      ensures buffer == old(buffer) || fresh(buffer)
      decreases items, 2
    {
      if |items| == 0 {
        out := offset;
        EmitEnd(3, "[]");
        return;
      }
      var i := offset;
      Emit(1, "[");
      offset := offset + 1;
      PrintItemsOf(items, depth + 1, fmt);
      EmitEnd(2, "]");
      Group4(old(Done()), "[", PrintItems(items, depth + 1, fmt), "]");
      assert Print(Arr(items), depth, fmt) == "[" + (PrintItems(items, depth + 1, fmt) + "]");
      out := i;
    }

    method PrintItemsOf(items: seq<Json>, depth: nat, fmt: bool)
      requires offset <= buffer.Length && forall v <- items :: Printable(v)
      modifies this, buffer
      ensures old(offset) <= offset <= buffer.Length
      ensures Done() == old(Done()) + PrintItems(items, depth, fmt)
      ensures buffer == old(buffer) || fresh(buffer)
      decreases items, 1
    {
      ghost var whole := Done() + PrintItems(items, depth, fmt);
      var k := 0;
      while k < |items|
        invariant k <= |items| && old(offset) <= offset <= buffer.Length
        invariant Done() + PrintItems(items[k..], depth, fmt) == whole
        invariant buffer == old(buffer) || fresh(buffer)
      {
        ItemsNext(items, k, depth, fmt, Done());
        PrintElement(items, k, depth, fmt);
        k := k + 1;
      }
      assert Done() + "" == Done();
    }

    /** One element and its separator. */
    method PrintElement(items: seq<Json>, k: nat, depth: nat, fmt: bool)
      requires k < |items| && offset <= buffer.Length && forall v <- items :: Printable(v)
      modifies this, buffer
      ensures offset <= buffer.Length && old(offset) <= offset
      ensures Done() == old(Done()) + Print(items[k], depth, fmt) + Separator(k == |items| - 1, fmt)
      ensures buffer == old(buffer) || fresh(buffer)
      decreases items, 0
    {
      PrintChild(items[k], depth, fmt);
      if k + 1 < |items| {
        var len := if fmt then 2 else 1;
        EmitEnd(len + 1, Separator(false, fmt));
        offset := offset + len;
      }
    }

    /** Print a child and move `offset` behind it. */
    method PrintChild(j: Json, depth: nat, fmt: bool)
      requires Printable(j) && offset <= buffer.Length
      modifies this, buffer
      ensures offset <= buffer.Length && old(offset) <= offset
      ensures Done() == old(Done()) + Print(j, depth, fmt)
      ensures buffer == old(buffer) || fresh(buffer)
      decreases j, 4
    {
      PrintClean(j, depth, fmt);
      ghost var done := Done();
      var ret := PrintValue(j, depth, fmt);
      Update(done, Print(j, depth, fmt));
    }

    /** print_object with a buffer.  The position it returns is lost to the loop over the closing tabs. */
    method PrintObject(members: seq<Member>, depth: nat, fmt: bool) returns (out: nat)
      requires offset <= buffer.Length && forall m <- members :: CString(m.key) && Printable(m.val)
      modifies this, buffer
      ensures var text := Print(Obj(members), depth, fmt);
        old(offset) <= offset <= old(offset) + |text| < buffer.Length
        && buffer[..old(offset) + |text| + 1] == old(Done()) + text + "\0"
      ensures out == if fmt && members != [] then depth else old(offset)
      ensures buffer == old(buffer) || fresh(buffer)
      decreases members, 2
    {
      if |members| == 0 {
        out := PrintEmptyObject(depth, fmt);
        return;
      }
      var i := offset;
      PrintMembersOf(members, depth + 1, fmt);
      i := PrintClose(i, depth + 1, fmt);
      BufferGlue(old(Done()), Fmt(fmt, "\n"), PrintMembers(members, depth + 1, fmt), Fmt(fmt, Tabs(depth)));
      out := i;
    }

    method PrintEmptyObject(depth: nat, fmt: bool) returns (out: nat)
      requires offset <= buffer.Length
      modifies this, buffer
      ensures var text := Print(Obj([]), depth, fmt);
        offset == old(offset) && old(offset) + |text| < buffer.Length
        && buffer[..old(offset) + |text| + 1] == old(Done()) + text + "\0"
      ensures out == old(offset)
      ensures buffer == old(buffer) || fresh(buffer)
    {
      TabsClean(depth);
      EmitEnd(if fmt then depth + 4 else 3, "{" + Fmt(fmt, "\n") + "" + Fmt(fmt, Tabs(depth)) + "}");
      out := offset;
    }

    /** The opening brace and the members. */
    method PrintMembersOf(members: seq<Member>, depth: nat, fmt: bool)
      requires offset <= buffer.Length && forall m <- members :: CString(m.key) && Printable(m.val)
      modifies this, buffer
      ensures old(offset) <= offset <= buffer.Length
      ensures Done() == old(Done()) + ("{" + Fmt(fmt, "\n")) + PrintMembers(members, depth, fmt)
      ensures buffer == old(buffer) || fresh(buffer)
      decreases members, 1
    {
      var len := if fmt then 2 else 1;
      EmitEnd(len + 1, "{" + Fmt(fmt, "\n"));
      offset := offset + len;
      PrintLines(members, depth, fmt);
    }

    method PrintLines(members: seq<Member>, depth: nat, fmt: bool)
      requires offset <= buffer.Length && forall m <- members :: CString(m.key) && Printable(m.val)
      modifies this, buffer
      ensures old(offset) <= offset <= buffer.Length
      ensures Done() == old(Done()) + PrintMembers(members, depth, fmt)
      ensures buffer == old(buffer) || fresh(buffer)
      decreases members, 0
    {
      ghost var whole := Done() + PrintMembers(members, depth, fmt);
      var k := 0;
      while k < |members|
        invariant k <= |members| && old(offset) <= offset <= buffer.Length
        invariant Done() + PrintMembers(members[k..], depth, fmt) == whole
        invariant buffer == old(buffer) || fresh(buffer)
      {
        MembersNext(members, k, depth, fmt, Done());
        PrintLine(members[k], k == |members| - 1, depth, fmt);
        k := k + 1;
      }
      assert Done() + "" == Done();
    }

    /** One member: tabs, name, colon, value, comma, newline. */
    method PrintLine(m: Member, last: bool, depth: nat, fmt: bool)
      requires offset <= buffer.Length && CString(m.key) && Printable(m.val)
      modifies this, buffer
      ensures old(offset) <= offset <= buffer.Length
      ensures Done()
        == old(Done()) + Fmt(fmt, Tabs(depth)) + Quote(m.key) + (":" + Fmt(fmt, "\t")) + Print(m.val, depth, fmt)
          + MemberEnd(last, fmt)
      ensures buffer == old(buffer) || fresh(buffer)
      decreases m, 0
    {
      PrintName(m.key, depth, fmt);
      PrintChild(m.val, depth, fmt);
      var len := (if fmt then 1 else 0) + if last then 0 else 1;
      EmitEnd(len + 1, MemberEnd(last, fmt));
      offset := offset + len;
    }

    method PrintName(key: string, depth: nat, fmt: bool)
      requires offset <= buffer.Length && CString(key)
      modifies this, buffer
      ensures old(offset) <= offset <= buffer.Length
      ensures Done() == old(Done()) + Fmt(fmt, Tabs(depth)) + Quote(key) + (":" + Fmt(fmt, "\t"))
      ensures buffer == old(buffer) || fresh(buffer)
    {
      if fmt {
        EmitTabs(depth);
        offset := offset + depth;
      }
      assert Done() == old(Done()) + Fmt(fmt, Tabs(depth));
      EscapeClean(key);
      ghost var done := Done();
      var ret := PrintString(key);
      Update(done, Quote(key));
      assert Done() == old(Done()) + Fmt(fmt, Tabs(depth)) + Quote(key);
      PrintColon(fmt);
    }

    method PrintColon(fmt: bool)
      requires offset <= buffer.Length
      modifies this, buffer
      ensures old(offset) <= offset <= buffer.Length && Done() == old(Done()) + (":" + Fmt(fmt, "\t"))
      ensures buffer == old(buffer) || fresh(buffer)
    {
      var len := if fmt then 2 else 1;
      Emit(len, ":" + Fmt(fmt, "\t"));
      offset := offset + len;
    }

    /** The closing tabs and brace; `i` counts the tabs. */
    method PrintClose(i: nat, depth: nat, fmt: bool) returns (out: nat)
      requires depth > 0 && offset <= buffer.Length
      modifies this, buffer
      ensures var tabs := Fmt(fmt, Tabs(depth - 1));
        offset == old(offset) && offset + |tabs| + 2 <= buffer.Length
        && buffer[..offset + |tabs| + 2] == old(Done()) + tabs + "}" + "\0"
      ensures out == if fmt then depth - 1 else i
      ensures buffer == old(buffer) || fresh(buffer)
    {
      out := i;
      var ptr := Ensure(if fmt then depth + 1 else 2);
      assert buffer[..offset] == old(buffer[..])[..offset];
      if fmt {
        TabsClean(depth - 1);
        out := PutTabs(buffer, ptr, depth - 1);
        ptr := ptr + out;
      }
      assert buffer[..ptr] == old(Done()) + Fmt(fmt, Tabs(depth - 1));
      ptr := Put(buffer, ptr, "}\0");
      assert "}\0" == "}" + "\0";
      Group3(old(Done()) + Fmt(fmt, Tabs(depth - 1)), "}", "\0");
    }
  }

  lemma Cut(s: string, t: string)
    requires s == t + "\0"
    ensures s[..|t|] == t
  {
  }

  lemma BufferGlue(b: string, nl: string, body: string, tabs: string)
    ensures b + ("{" + nl) + body + tabs + "}" == b + ("{" + nl + body + tabs + "}")
  {
    Group4(b, "{" + nl, body, tabs + "}");
    Group3(b + ("{" + nl) + body, tabs, "}");
    Group4("{" + nl, body, tabs, "}");
  }

  /** cJSON_PrintBuffered gives the text of cJSON_Print or cJSON_PrintUnformatted, whatever the first size. */
  method PrintBuffered(j: Json, prebuffer: nat, fmt: bool) returns (text: string)
    requires Printable(j)
    ensures text == Print(j, 0, fmt)
  {
    var p := new PrintBuffer(prebuffer);
    var out := p.PrintValue(j, 0, fmt);
    ghost var t := Print(j, 0, fmt);
    PrintClean(j, 0, fmt);
    assert p.buffer[..|t| + 1] == t + "\0";
    TextOf(p.buffer[..], t);
    text := Text(p.buffer[out..]);
  }
}
