# agar2, verified

A Dafny model of the algorithmic parts of the agar2 game server, and proofs about them:

- the red-black tree and the splay tree of `uv/tree.h`, on the heap, with their parent links,
  colours, rotations and fix-up loops;
- the JSON engine: parser, both printers, minifier, the sibling lists and their merge sort, JSON
  Pointer and JSON Patch;
- the incremental view of a player: block windows, move and remove events, and the set of cells
  the client ends up with;
- the collision loops: eating, being eaten, being popped by a virus, splitting.

`dafny verify dfyconfig.toml` checks everything.

## How the model is built

**Trees** (`RedBlackShape`, `RedBlackHeight`, `RedBlackSplice`, `RedBlackTree`, `RedBlackQuery`,
`SplayShape`, `SplayTree`). A tree head is a class whose methods overwrite `left`, `right`, `parent`
and `color` fields. A ghost value tree says which nodes are linked where; a ghost context describes
the tree around the node that a loop has reached. The two mirror-image halves of the source's macros
are one method with a side parameter. Keys are integers and `Cmp` is their difference.

**JSON** (`Json*.dfy`). A tree is a value; a `char *` into a text is the text still ahead; a buffer is
an array with a NUL in it. `JsonText` gives the two text formats and the grammar of the parser as
functions. `JsonParser`, `JsonPrinter`, `JsonBuffer`, `JsonMinify` and `JsonPatchRun` are the loops of
the source, each proved to compute its function without leaving the block it allocated. `Bits` ties
their masks and shifts to arithmetic. `JsonSiblings` has the linked lists on the heap, and
`JsonChildren` shows that their operations do what the functions on values do. `JsonNumbers` says
when two decimal numbers are the same, `JsonMeaning` what two equal documents have in common,
`JsonPatchPaths` how the two ways of reading a path agree, `JsonPatchLaws` what holds of every patch,
`JsonPatchCodes` when each return code is given, `JsonPatchOrder` which members are left in order, and
`JsonPatchProof` what applying generated patches gives. `JsonMinified` and `JsonUnclosed` say what
minifying does to a text that parses.

Some files describe the texts from the writer's side, without the functions that read and print them:
`JsonEscapes` the parts of a string literal, `JsonFractions` the parts of a number, `JsonGrammar` the
grammar of RFC 8259 and the value of each text in it, `JsonPieces` the comments, blanks and literals
that minifying goes through, and `JsonLayout` where the formatted text has blanks.

**Game** (`GameMap`, `PlayerView`, `GameLoop`, `Balls`, `Meals`, `Collisions`). The map, the player and
the arena are classes. Messages to the client are a list whose replay is the client's set of
identifiers. The collision loops leave a ghost log of the comparisons they made; `Meals` says what such
a log leads to, and what holds of every log.

## What turned out

- JSON Patch: removals for an array that shrinks are generated at increasing positions, so every
  second element to be removed stays. The round trip holds exactly when no matched array loses
  more than one element (`JsonPatchProof.PatchRoundTrip`, counterexample `ShrinkByThree`).
- A patch of the whole document has the empty path, for which the interpreter has no child pointer:
  it crashes exactly when the roots differ in kind or are different scalars (`RootCrash`).
- Removing something that is not there returns 0, where section 4.2 of RFC 6902 asks for an error.
  Whatever the path, a remove that does not crash returns 0, and it changes the document exactly when
  the interpreter finds a child (`JsonPatchLaws.RemoveAlways`, `RemovePatch`, instance `RemoveMissing`).
- That child need not be the one the path names. In an array the interpreter takes the number that the
  last token begins with, cut off at 0, so that "-1", "-" and "foo" all find the first element; in an
  object it decodes any character behind a tilde but 0 to a slash. A pointer with such a token leads
  nowhere. A remove takes out exactly what its path names exactly when it finds nothing, or the token
  has digits only for an array, and for an object a 0 or 1 behind every tilde (`RemoveRight`,
  `RemoveNames`, `PointerOrNowhere`, counterexamples `RemoveMinusOne` and `RemoveTilde`). Likewise an
  addition can be read back at its path exactly under a name of an object or at a position of an array
  up to its end (`AddFound`).
- Names are matched without regard to case, so a pointer finds its node exactly when no earlier
  member on the way has the same name but for case (`JsonPointer.PointerRoundTrip`, counterexample
  `HiddenMember`).
- The sort leaves `prev` of the new first item as it was (`JsonSiblings.SortList`). Detaching the first
  item leaves a list exactly when that `prev` is not one of the other items, and else a ring
  (`JsonSiblings.Parent.Detach`). So sorting an object's members, as every comparison does, and then
  detaching the first one is right exactly when it was the first one before (`SortThenDetach`,
  counterexample `SortThenDetachRing`). This concerns patches for a document that was itself compared,
  and also a list of patches in which a `test` of an object, which sorts it, comes before a remove or
  replace of its new first member.
- A new player is never told of the cells in the first window. After any run the client's picture is
  exact if and only if every block that still has cells was outside the window some time since
  (`GameLoop.JoinAndRun`). A reported addition of a static cell would also have to be on the same side
  of the windows before and after (`PlayerView.StaticMirrorExact`).
- A centre inside a window implies an edge inside it, for all windows, exactly when the cell touches the
  map (`GameMap.CentreThenEdge`). The window test clamps the centre to the map and the edge test does
  not. `OffTheMap` is an instance. `Cell.MoveAbs` keeps every cell that was updated on the map. A cell
  just split or popped off another may be beside it, and if it is eaten at once, the edge test sees it
  there; that does no harm, because it is in no player's history yet.
- Minifying goes astray, of all texts that parse to their end, on exactly those that are one literal
  which is not closed (`JsonUnclosed.MinifyFails`).
- Being popped by a virus makes a player heavier, by half of what the cuts take off the size
  (`Collisions.Team.Pop`). The small cells take all of the cell they come out of unless there is room
  for fewer, each twice the least size, so a popped cell can be left with size 0 (`Balls.Leftover`).
- Whoever is eaten is smaller than the eater at that moment, so the largest cell in play is safe from the
  next meal (`Meals.LargestStays`), but not for a whole run: a smaller one can eat its way up first
  (`Meals.LargestEaten`). A cell that weighs as much as all others together is safe for good
  (`Meals.HeavySafe`). 1.3333 is less than four thirds, so between the two only the cell that is asked
  first can eat the other (`Meals.Mirror`).
- The sort turns members with equal names round (`JsonKeys.SortReverses`). So it changes what an object
  means exactly when the first and the last member with some name mean different things
  (`JsonMeaning.SortMeans`, instance `SortTwice`).
- A replace whose value is missing, and a replace or move whose new place has no parent, return 7 or 9
  and have removed what was there already (`JsonPatchCodes.ReplaceCodes`, `MoveCodes`).

## Model

| member | source | states |
|---|---|---|
| RedBlackTree.RBTree.Insert | agar2/include/uv/tree.h:597-626 | in every valid tree, inserting any node adds exactly that node and keeps order, parent links, colours and equal black heights; if a node has an equal key, the node itself included, it is returned instead and nothing at all changes; at most 2 lg(n + 1) comparisons, and half as many rounds of the fix-up |
| RedBlackTree.RBTree.InsertColor | agar2/include/uv/tree.h:407-449 | the recolouring loop, started with a red node under a possibly red parent anywhere in the tree, ends with all red-black properties and the same nodes, after at most half as many rounds as the node is deep |
| RedBlackTree.RBTree.Remove | agar2/include/uv/tree.h:530-595 | removing any node of a valid tree takes exactly that node out and leaves a valid tree: order, parent links, no red under red, equal black heights, black root; at most 2 lg(n + 1) rounds of the fix-up |
| RedBlackTree.RBTree.RemoveColor | agar2/include/uv/tree.h:451-528 | the fix-up loop repairs a subtree that is one black short, never meets a missing sibling, and ends after at most as many rounds as the subtree is deep |
| RedBlackTree.RBTree.SwapSuccessor | agar2/include/uv/tree.h:539-578 | the in-order successor, cut out of its place, takes over the place, links and colour of the removed node |
| RedBlackTree.RBTree.Rotate | agar2/include/uv/tree.h:342-381 | a rotation relinks the two nodes, the inner subtree and the parent or the root, and nothing else |
| RedBlackTree.RBTree.RemoveRedSibling | agar2/include/uv/tree.h:458-463 | a red sibling is rotated away: the short subtree then has a black sibling and a red parent |
| RedBlackTree.RBTree.RemoveBlackNephews | agar2/include/uv/tree.h:464-470 | with two black nephews the shortage moves up to the parent |
| RedBlackTree.RBTree.RemoveRedNephew | agar2/include/uv/tree.h:471-488 | with a red nephew one or two rotations end the shortage |
| RedBlackHeight.HeightBound | agar2/include/uv/tree.h:53-62 | two to the height is at most the square of the number of nodes plus one: the header's 2 lg(n + 1) |
| RedBlackHeight.BlackHeight | agar2/include/uv/tree.h:53-62 | height at most twice the black height, and at least 2^h - 1 nodes |
| RedBlackQuery.Find | agar2/include/uv/tree.h:628-644 | the node with the key or null if there is none, in at most 2 lg(n + 1) comparisons |
| RedBlackQuery.NFind | agar2/include/uv/tree.h:646-665 | the least node not below the key, null if there is none, within the same bound |
| RedBlackQuery.MinMax | agar2/include/uv/tree.h:709-724 | the outermost node on either side, null only for the empty tree |
| RedBlackQuery.Walk | agar2/include/uv/tree.h:667-707 | the next or previous node: no node of the tree lies between it and the start; at most 2 lg(n + 1) steps |
| RedBlackQuery.AdjacentInverse | agar2/include/uv/tree.h:667-707 | going back undoes going forth |
| RedBlackQuery.AdjacentInOrder | agar2/include/uv/tree.h:667-707 | the next node is the next one of the in-order list, and likewise backwards |
| RedBlackQuery.ForEach | agar2/include/uv/tree.h:738-741 | starting at the minimum and going on visits the in-order list: every node once, rising, and then ends |
| RedBlackQuery.ForEachReverse | agar2/include/uv/tree.h:753-756 | the same from the maximum downwards |
| RedBlackShape.BlackNephewsRB | agar2/include/uv/tree.h:464-470 | recolouring the sibling keeps black heights and leaves the parent's subtree one short |
| RedBlackShape.OuterNephewRB | agar2/include/uv/tree.h:481-487 | the final rotation restores the black height the subtree had before the removal |
| SplayTree.SplayTree.Splay | agar2/include/uv/tree.h:209-242 | ends, keeps the in-order list of nodes exactly, and puts at the root the key or a nearest neighbour |
| SplayTree.SplayedNearest | agar2/include/uv/tree.h:39-44 | what the root is after a splay: the key if it is in the tree, else the closest node on one side |
| SplayTree.SplayTree.Insert | agar2/include/uv/tree.h:163-187 | adds exactly the new node, or returns the node with that key, which may be the node itself, and keeps the set |
| SplayTree.SplayTree.Remove | agar2/include/uv/tree.h:189-207 | takes out exactly the node with the key, rejoining by a second splay, or reports that there is none |
| SplayTree.SplayTree.Find | agar2/include/uv/tree.h:127-137 | finds the key if and only if it is in the tree, which keeps its nodes |
| SplayTree.SplayTree.Next | agar2/include/uv/tree.h:139-152 | the successor, null only for the last node |
| SplayTree.SplayTree.MinOrMax | agar2/include/uv/tree.h:244-291 | the extreme node on either side |
| SplayTree.SplayTree.ForEach | agar2/include/uv/tree.h:292-295 | visits the in-order list although every step splays the tree |
| SplayTree.Cut.WholeSplayed | agar2/include/uv/tree.h:112-119 | assembling the three parts of the split gives a tree whose root is the key or nearest to it |
| SplayTree.Cut.WholeBst | agar2/include/uv/tree.h:112-119 | assembling keeps order and loses no node |
| SplayShape.InOrderUnique | agar2/include/uv/tree.h:209-242 | two search trees over the same nodes have the same in-order list |
| JsonStrings.EscapeCounted | agar2/include/cjson/cJSON.c:282-308 | the escaped text fills exactly the bytes the first pass counted |
| JsonStrings.QuoteRoundTrip | agar2/include/cjson/cJSON.c:193-311 | parsing a printed string gives the string back and stops behind its closing quote |
| JsonStrings.Utf8RoundTrip | agar2/include/cjson/cJSON.c:234-242 | the bytes written for a code point are well-formed UTF-8 for it (section 3 of RFC 3629) |
| JsonStrings.CodePointScalar | agar2/include/cjson/cJSON.c:219-232 | an accepted escape or surrogate pair never names half a pair (section 7 of RFC 8259) |
| JsonEscapes.HexWritten | agar2/include/cjson/cJSON.c:178-189 | four characters are read as a value other than 0 exactly when they write it in hexadecimal digits of either case |
| JsonEscapes.EscapeExact | agar2/include/cjson/cJSON.c:219-232 | an escape is accepted, with a code point and a length, exactly when it is one of the ways to write that scalar value: four digits, or from 10000 (hexadecimal) on a pair for the upper and the lower ten bits (section 7 of RFC 8259) |
| JsonEscapes.ShortMeant | agar2/include/cjson/cJSON.c:212-218 | the short escapes stand for the characters of RFC 8259 |
| JsonEscapes.CharPrinted | agar2/include/cjson/cJSON.c:282-308 | a character is printed as its short escape if it has one, the slash apart, as an escape of its code if it is another control character, and else as itself |
| JsonEscapes.LiteralMeans | agar2/include/cjson/cJSON.c:193-252 | every literal of characters, short escapes and escaped code points, however written, parses to their bytes, code points in UTF-8, one after the other |
| JsonEscapes.LiteralOnly | agar2/include/cjson/cJSON.c:193-252 | a literal that parses is made of such parts, and at most its closing quote is missing, at the end of the text |
| JsonStrings.ReadDigitsBack | agar2/include/cjson/cJSON.c:96-115 | digits read back give the number they print |
| JsonText.RoundTrip | agar2/include/cjson/cJSON.c:359-661 | parsing the text of any printable value at any depth, formatted or not, followed by anything, gives the value and stops exactly behind its text |
| JsonText.ParsePrint | agar2/include/cjson/cJSON.c:327-347 | cJSON_Parse undoes both printers and consumes the whole text |
| JsonText.ParseValue | agar2/include/cjson/cJSON.c:360-372 | every successful parse consumes input, which is why the recursion ends |
| JsonText.MembersRoundTrip | agar2/include/cjson/cJSON.c:517-550 | the members of an object, printed at any depth, are read back in order |
| JsonText.NumberRoundTrip | agar2/include/cjson/cJSON.c:96-115 | an integer followed by anything that does not continue it is read back |
| JsonFractions.NumberMeans | agar2/include/cjson/cJSON.c:96-115 | every number of section 6 of RFC 8259, with or without fraction and exponent, parses to the number it denotes, and what follows is left |
| JsonFractions.DigitsVal | agar2/include/cjson/cJSON.c:157-162 | printed digits stand, place by place, for the number that is printed |
| JsonGrammar.GrammarParses | agar2/include/cjson/cJSON.c:96-550 | every text of the grammar of RFC 8259, with blanks wherever they may be, is parsed to the value it stands for, and what follows is left |
| JsonGrammar.DocumentParses | agar2/include/cjson/cJSON.c:327-343 | and so is a whole document with blanks around it, with the check for trailing text |
| JsonLayout.IndentPrint | agar2/include/cjson/cJSON.c:436-661 | the formatted text, at any depth, is the unformatted one with a blank behind commas in arrays, a tab behind colons, and in objects a line for each member that begins with a tab for every open bracket |
| JsonLayout.IndentFormats | agar2/include/cjson/cJSON.c:346-347 | the same of whole documents |
| JsonParser.ReadValue | agar2/include/cjson/cJSON.c:360-372 | the dispatching parser computes the grammar |
| JsonParser.ReadArray | agar2/include/cjson/cJSON.c:409-434 | the loop over elements computes the grammar, failures included |
| JsonParser.ReadObject | agar2/include/cjson/cJSON.c:517-550 | the loop over members computes the grammar, failures included |
| JsonParser.ReadString | agar2/include/cjson/cJSON.c:193-252 | both passes of the string parser compute the decoding, within the block the first pass sized |
| JsonParser.DecodeString | agar2/include/cjson/cJSON.c:205-249 | decoding, valid or not, writes only inside the block and terminates it |
| JsonParser.DecodeFits | agar2/include/cjson/cJSON.c:198-200 | for every accepted literal the decoded bytes fit the first-pass count |
| JsonParser.TokenStep | agar2/include/cjson/cJSON.c:198-248 | each token of the decoder takes no more bytes than the scan counted for it |
| JsonParser.PutUtf8 | agar2/include/cjson/cJSON.c:234-242 | writing from the last byte to the first gives the UTF-8 bytes in order |
| JsonParser.TailOf | agar2/include/cjson/cJSON.c:237-239 | the masks and the shift give the marked lowest six bits and the rest |
| JsonParser.LeadOf | agar2/include/cjson/cJSON.c:240-240 | joining the mark on gives the first byte for each length |
| JsonParser.ReadHex4 | agar2/include/cjson/cJSON.c:178-189 | shifting four digits in gives the number they write, or 0 |
| JsonParser.ReadCodePoint | agar2/include/cjson/cJSON.c:219-232 | the checks and the masks on both halves give the code point of the escape or pair, or none |
| JsonParser.ReadNumber | agar2/include/cjson/cJSON.c:96-115 | sign, digits, fraction and exponent loops compute mantissa and exponent |
| JsonParser.ParseText | agar2/include/cjson/cJSON.c:327-343 | the entry point, with and without the check for trailing text |
| JsonPrinter.PrintText | agar2/include/cjson/cJSON.c:346-347 | the printers that concatenate give the text of the format |
| JsonPrinter.PrintArray | agar2/include/cjson/cJSON.c:470-513 | the array is composed within the size that was added up |
| JsonPrinter.PrintObject | agar2/include/cjson/cJSON.c:611-660 | the object is composed within the size that was added up |
| JsonPrinter.PutString | agar2/include/cjson/cJSON.c:255-311 | the string is written with its quotes and terminator inside the counted size, and only behind `at` |
| JsonPrinter.StringSize | agar2/include/cjson/cJSON.c:268-282 | the counting pass gives the exact size and whether nothing needs escaping |
| JsonPrinter.Pow2Gt | agar2/include/cjson/cJSON.c:117-117 | the shifts and ors give a power of two, at least the argument and less than twice it |
| Bits.ToppedTwice | agar2/include/cjson/cJSON.c:117-117 | one shift and or makes twice as many ones at the top of a number, until all its bits are ones |
| JsonPrinter.DecimalFits | agar2/include/cjson/cJSON.c:157-162 | a number in the range of int fits the 21 bytes allocated for it |
| JsonPrinter.PrintClean | agar2/include/cjson/cJSON.c:375-406 | printed text never holds a NUL, so string lengths are the lengths of the texts |
| JsonBuffer.PrintBuffered | agar2/include/cjson/cJSON.c:349-356 | the buffered printer gives the same bytes as the others for every value, format and first buffer size |
| JsonBuffer.PrintBuffer.Ensure | agar2/include/cjson/cJSON.c:121-136 | after growing there is room and no byte written so far is lost |
| JsonBuffer.PrintBuffer.Update | agar2/include/cjson/cJSON.c:138-144 | the write position moves exactly behind the text of the child |
| JsonBuffer.PrintBuffer.PrintValue | agar2/include/cjson/cJSON.c:379-391 | the text appears where the write position was, what precedes it is kept, and it is terminated |
| JsonBuffer.PrintBuffer.PrintArray | agar2/include/cjson/cJSON.c:456-471 | elements and separators appended in place, the returned position where the array starts |
| JsonBuffer.PrintBuffer.PrintObject | agar2/include/cjson/cJSON.c:573-610 | the same for objects; the returned position is overwritten by the loop over the closing tabs |
| JsonMinify.MinifyInPlace | agar2/include/cjson/cJSON.c:739-754 | the array ends up with the minified text; writing never overtakes reading, and nothing behind the terminator changes |
| JsonMinify.CopyLiteral | agar2/include/cjson/cJSON.c:750-750 | a string literal is copied unchanged, escapes included |
| JsonPieces.LineComment | agar2/include/cjson/cJSON.c:748-748 | a line comment is left out with the end of its line, whatever follows |
| JsonPieces.BlockComment | agar2/include/cjson/cJSON.c:749-749 | a comment between slash-star and star-slash is left out, up to the first place where it closes |
| JsonPieces.QuickComment | agar2/include/cjson/cJSON.c:749-749 | a slash, a star and a slash are a comment already |
| JsonPieces.PiecesMinified | agar2/include/cjson/cJSON.c:739-754 | of any sequence of blanks, comments, literals and other characters the literals and the other characters are kept, in order, in front of any text |
| JsonPieces.InPieces | agar2/include/cjson/cJSON.c:739-754 | every text that can be minified is such a sequence, perhaps with a last comment, and is minified to what it keeps |
| JsonMinified.MinifyFormatted | agar2/include/cjson/cJSON.c:739-754 | minifying the formatted text gives the unformatted text, byte for byte |
| JsonMinified.MinifyPrint | agar2/include/cjson/cJSON.c:739-754 | the same for every value at any depth, in front of any text |
| JsonMinified.MinifyParses | agar2/include/cjson/cJSON.c:739-754 | a text that parses to its end, with whatever blanks, still parses to its end after minifying, as the same tree |
| JsonUnclosed.MinifyFails | agar2/include/cjson/cJSON.c:739-754 | of the texts that parse to their end, minifying runs past the end on exactly the ones that are one unclosed literal |
| JsonUnclosed.ClosedParses | agar2/include/cjson/cJSON.c:739-754 | every other text that parses to its end parses as the same tree after minifying |
| JsonUnclosed.ValueIff | agar2/include/cjson/cJSON.c:360-372 | a value inside a text never keeps minifying from reaching its end |
| JsonMinified.MinValue | agar2/include/cjson/cJSON.c:360-372 | inside a text, a value that parses parses the same after minifying |
| JsonMinified.NumberAlone | agar2/include/cjson/cJSON.c:96-115 | what follows a number that has ended does not change its value |
| JsonKeys.CaseFold | agar2/include/cjson/cJSON_Utils.c:7-12 | the comparison gives 0 exactly for names equal but for case |
| JsonKeys.CaseTrans | agar2/include/cjson/cJSON_Utils.c:7-12 | the comparison is transitive |
| JsonKeys.CaseBefore | agar2/include/cjson/cJSON_Utils.c:7-12 | a name comes before another exactly when there is a first place where they differ, capitals taken as small letters, and there it ends or has the lower character |
| JsonKeys.LowerSmall | agar2/include/cjson/cJSON_Utils.c:10-11 | the case mapping takes A to Z to a to z, one by one, and nothing else |
| JsonKeys.SortSorts | agar2/include/cjson/cJSON_Utils.c:306-342 | the sort gives the same elements in nondecreasing order and leaves a strictly increasing list untouched |
| JsonKeys.SortReverses | agar2/include/cjson/cJSON_Utils.c:323-337 | elements with equal names come out of the sort in the opposite order, whatever the name |
| JsonSiblings.SortList | agar2/include/cjson/cJSON_Utils.c:306-342 | on the heap: the items relinked in sorted order, next chain ended, every prev but the first right, the first one's prev what it was; a strictly increasing list has no field written |
| JsonSiblings.MergeLists | agar2/include/cjson/cJSON_Utils.c:323-339 | merging relinks the items of both lists into one, the second list first on a tie |
| JsonSiblings.Middle | agar2/include/cjson/cJSON_Utils.c:316-316 | two pointers at different speeds find the middle |
| JsonSiblings.Parent.Add | agar2/include/cjson/cJSON.c:675-675 | appends to every list, whatever the first item's prev, which stays |
| JsonSiblings.Parent.Insert | agar2/include/cjson/cJSON.c:688-689 | inserts before a position, or appends past the end, whatever the first item's prev, which the new first item has |
| JsonSiblings.Parent.Detach | agar2/include/cjson/cJSON.c:681-682 | behind the first place takes exactly one item out of every list; at the first place does so if and only if that item's prev is not one of the others, and else leaves a ring |
| JsonSiblings.CirclesEndless | agar2/include/cjson/cJSON.c:675-675 | on such a ring no walk along next comes to an end |
| JsonSiblings.SortThenDetach | agar2/include/cjson/cJSON_Utils.c:125-126 | the sort and then the removal of the first item leave a list if and only if that item was first before |
| JsonSiblings.SortThenDetachRing | agar2/include/cjson/cJSON_Utils.c:125-126 | of two items in the wrong order the one that is left follows itself |
| JsonChildren.DetachFromArray | agar2/include/cjson/cJSON.c:681-682 | for every list, sorted ones included, the surgery takes out the element and leaves the items that the function on values gives, as a list or a ring |
| JsonChildren.DetachFromObject | agar2/include/cjson/cJSON.c:684-684 | the same for the first member with the name, case aside |
| JsonChildren.AddToArray | agar2/include/cjson/cJSON_Utils.c:190-194 | for every list the surgery gives the array that the function on values gives |
| JsonChildren.AddToObject | agar2/include/cjson/cJSON_Utils.c:195-199 | the same for an object, where the member with the name goes and the new one comes last, unless removing that member leaves a ring |
| JsonChildren.SortObject | agar2/include/cjson/cJSON_Utils.c:344-344 | the sort on the heap gives the members in the order the function on values gives |
| JsonPointer.EncodeDecode | agar2/include/cjson/cJSON_Utils.c:26-37 | decoding undoes encoding, the length function is exact, an encoded name holds no slash (section 3 of RFC 6901) |
| JsonPointer.TokenMeans | agar2/include/cjson/cJSON_Utils.c:26-98 | encoding and decoding go between a name and the pieces that stand for its characters: ~0 for a tilde, ~1 for a slash (section 3 of RFC 6901) |
| JsonPointer.DecodeInPlace | agar2/include/cjson/cJSON_Utils.c:93-98 | decoding in place gives the decoded text, the write position behind the read position |
| JsonPointer.EncodeTo | agar2/include/cjson/cJSON_Utils.c:28-37 | the copy is the encoding, within the computed length |
| JsonPointer.EncodedMatches | agar2/include/cjson/cJSON_Utils.c:15-24 | a name matches the encoded token of exactly the names equal to it but for case |
| JsonPointer.Pstrcasecmp | agar2/include/cjson/cJSON_Utils.c:15-24 | the loop decides whether a name is the first token of a pointer |
| JsonPointer.WalkPointer | agar2/include/cjson/cJSON_Utils.c:72-90 | the loop over tokens leads to the node of the tree that the tokens name |
| JsonPointer.FindsNode | agar2/include/cjson/cJSON_Utils.c:39-70 | the depth-first search finds every node, and its pointer is the text of its path |
| JsonPointer.PointerRoundTrip | agar2/include/cjson/cJSON_Utils.c:39-90 | following a node's pointer leads back to the node if and only if no name on the way is hidden |
| JsonPointer.HiddenMember | agar2/include/cjson/cJSON_Utils.c:72-90 | of members "a" and "A" the pointer of the second leads to the first |
| JsonPointer.PointerFollows | agar2/include/cjson/cJSON_Utils.c:72-90 | a node's pointer followed by more is more followed from the node (section 4 of RFC 6901) |
| JsonMeaning.PointerOfNode | agar2/include/cjson/cJSON_Utils.c:39-90 | with names distinct but for case, every node's pointer leads back to it |
| JsonMeaning.CompareSame | agar2/include/cjson/cJSON_Utils.c:115-140 | Compare gives 0 exactly when the documents mean the same: numbers by value, arrays as sequences, objects as maps from names |
| JsonMeaning.CompareNumbers | agar2/include/cjson/cJSON_Utils.c:120-120 | numbers compare equal exactly when their values are, however they are written |
| JsonMeaning.SortKeepsMeaning | agar2/include/cjson/cJSON_Utils.c:344-344 | sorting an object's members does not change what it means |
| JsonMeaning.SortMeans | agar2/include/cjson/cJSON_Utils.c:344-344 | sorting any object keeps its meaning if and only if for every name the first and the last member with it mean the same |
| JsonMeaning.SortTwice | agar2/include/cjson/cJSON_Utils.c:344-344 | an instance that sorting changes |
| JsonPatchRun.CompareTrees | agar2/include/cjson/cJSON_Utils.c:115-140 | the loops give the code of the first difference, and leave sorted in both trees the objects they came to |
| JsonPatchRun.PatchArray.CompareToPatch | agar2/include/cjson/cJSON_Utils.c:240-295 | the generator appends exactly the edits of the difference, and leaves sorted in both trees the objects it compared |
| JsonPatchRun.PatchArray.CompareMembersToPatch | agar2/include/cjson/cJSON_Utils.c:268-291 | the merge over sorted members appends the edits of the difference |
| JsonPatchRun.Document.ApplyPatches | agar2/include/cjson/cJSON_Utils.c:209-220 | the document after the patches up to the first code that is not 0 |
| JsonPatchLaws.RemoveAlways | agar2/include/cjson/cJSON_Utils.c:158-162 | for every document and path: a remove crashes exactly when the path has no parent part or ends in a tilde, else returns 0, and changes the document exactly when the interpreter finds a child for it |
| JsonPatchLaws.RemovePatch | agar2/include/cjson/cJSON_Utils.c:142-162 | the same for every patch with the operation remove, and when it removes what its path names |
| JsonPatchLaws.PointerOrNowhere | agar2/include/cjson/cJSON_Utils.c:72-113 | for every document and path: the pointer leads to the child the interpreter finds for it, exactly when the last token is digits for an array and an encoded name for an object, and else nowhere |
| JsonPatchLaws.RemoveNames | agar2/include/cjson/cJSON_Utils.c:100-113 | what is detached is the node at the place found, which is the one the path names exactly under that condition |
| JsonPatchLaws.RemoveCuts | agar2/include/cjson/cJSON_Utils.c:158-162 | a remove takes out that node and nothing else |
| JsonPatchLaws.RemoveRight | agar2/include/cjson/cJSON_Utils.c:158-162 | a remove takes out what its path names, and nothing if it names nothing, if and only if it finds nothing or the last token is read alike both ways |
| JsonPatchLaws.RemoveMinusOne | agar2/include/cjson/cJSON_Utils.c:109-109 | "/-1" names nothing in an array of one and removes it |
| JsonPatchLaws.RemoveTilde | agar2/include/cjson/cJSON_Utils.c:93-98 | "/~x" names nothing in an object and removes the member "/" |
| JsonPatchPaths.PointerOn | agar2/include/cjson/cJSON_Utils.c:72-90 | a pointer followed by more tokens is those tokens followed from where it leads |
| JsonPatchPaths.TokenPlace | agar2/include/cjson/cJSON_Utils.c:74-88 | one token leads GetPointer where the decoded token leads the interpreter, or nowhere |
| JsonPatchPaths.TokenDecoded | agar2/include/cjson/cJSON_Utils.c:15-24 | a token matches the names equal to its decoding if it is an encoding, and else no name |
| JsonPatchLaws.RemoveMissing | agar2/include/cjson/cJSON_Utils.c:158-162 | removing an absent name returns 0 and changes nothing |
| JsonPatchLaws.MoveIsRemoveAdd | agar2/include/cjson/cJSON_Utils.c:164-172 | a move is a remove followed by an add of the removed value, code and document alike (section 4.4 of RFC 6902); code 5 and nothing changed when there is nothing to move |
| JsonPatchLaws.CopyIsAdd | agar2/include/cjson/cJSON_Utils.c:164-172 | a copy is an add of the value the other path leads to, or code 5 (section 4.5 of RFC 6902) |
| JsonPatchLaws.TestTells | agar2/include/cjson/cJSON_Utils.c:155-155 | a test returns 0 exactly when the node and the value mean the same, and the document means the same after it |
| JsonPatchLaws.AddFound | agar2/include/cjson/cJSON_Utils.c:186-205 | after an addition at any node, which returns 0, the path leads to the value exactly when the node is an object or an array with that position, and else nowhere |
| JsonPatchLaws.AddThenTest | agar2/include/cjson/cJSON_Utils.c:142-206 | adding and then testing for the value at the same path succeeds exactly then, and else crashes |
| JsonPatchLaws.CopyThenTest | agar2/include/cjson/cJSON_Utils.c:142-206 | the same of copying a node and testing for it at the new path |
| JsonPatchLaws.ComparedKeeps | agar2/include/cjson/cJSON_Utils.c:115-140 | both documents mean after a comparison what they meant before |
| JsonPatchLaws.DiffedKeeps | agar2/include/cjson/cJSON_Utils.c:240-295 | and after generating patches, so that the patches fit the document they were made from |
| JsonPatchOrder.ComparedInOrder | agar2/include/cjson/cJSON_Utils.c:124-127 | two objects that were compared have their members in order afterwards, whatever the outcome |
| JsonPatchOrder.EqualInOrder | agar2/include/cjson/cJSON_Utils.c:115-140 | after a comparison that gives 0 both trees are in order all the way down |
| JsonPatchOrder.DiffedInOrder | agar2/include/cjson/cJSON_Utils.c:268-291 | two objects that patches were generated for have their members in order |
| JsonPatchOrder.DiffedEqual | agar2/include/cjson/cJSON_Utils.c:240-295 | without a difference generating leaves the trees as comparing does |
| JsonPatchCodes.AtomCodes | agar2/include/cjson/cJSON_Utils.c:117-121 | -1 for different kinds, -2 exactly for numbers of different value, -3 exactly for different strings |
| JsonPatchCodes.ArrayCode | agar2/include/cjson/cJSON_Utils.c:122-123 | the first elements that differ give the code of two arrays, and -4 says that one of them ends before |
| JsonPatchCodes.ObjectCode | agar2/include/cjson/cJSON_Utils.c:124-135 | of the members in the order of their names, the first that differ give the code: -6 for the names, -5 if one object ends there, else the code of the values |
| JsonPatchCodes.CompareRange | agar2/include/cjson/cJSON_Utils.c:115-140 | there is no other code |
| JsonPatchCodes.MalformedCodes | agar2/include/cjson/cJSON_Utils.c:146-156 | 2 exactly without operation or path, 3 exactly for an operation that is none of the six; nothing changes |
| JsonPatchCodes.AddCodes | agar2/include/cjson/cJSON_Utils.c:174-189 | an add returns 7 exactly without a value, else 9 exactly when its path has no parent; the document then stays as it is |
| JsonPatchCodes.ReplaceCodes | agar2/include/cjson/cJSON_Utils.c:158-189 | the same of a replace, which has removed by then what was there |
| JsonPatchCodes.CopyCodes | agar2/include/cjson/cJSON_Utils.c:164-189 | a copy returns 4 exactly without a "from", 5 exactly when that leads nowhere, else 9 exactly without a parent; the document then stays as it is |
| JsonPatchCodes.MoveCodes | agar2/include/cjson/cJSON_Utils.c:164-189 | a move returns 4 and 5 likewise and changes nothing then; with 9, what was detached is lost |
| JsonPatchCodes.TestCodes | agar2/include/cjson/cJSON_Utils.c:155-155 | a test returns the code of the comparison |
| JsonPatchCodes.StopsAt | agar2/include/cjson/cJSON_Utils.c:214-219 | the first code that is not 0 ends the patches |
| JsonPatchCodes.NoEdits | agar2/include/cjson/cJSON_Utils.c:240-295 | no patch is generated exactly when the comparison finds no difference |
| JsonPatchCodes.AtoiMeans | agar2/include/cjson/cJSON_Utils.c:109-109 | a position is read behind blanks and a sign as the number its digits stand for |
| JsonPatchSteps.Applies | agar2/include/cjson/cJSON_Utils.c:142-206 | what the interpreter makes of a generated add, remove or replace |
| JsonPatchSteps.StepInside | agar2/include/cjson/cJSON_Utils.c:100-113 | a patch whose path leads through a child does to the child what the shorter patch does |
| JsonPatchSteps.RunItem | agar2/include/cjson/cJSON_Utils.c:259-261 | edits under a position change exactly that element |
| JsonPatchSteps.RunField | agar2/include/cjson/cJSON_Utils.c:278-286 | edits under a name change exactly that field, wherever the member moves |
| JsonPatchProof.PatchRoundTrip | agar2/include/cjson/cJSON_Utils.c:115-303 | applying the generated patches to any document that means the first one: crash exactly for a replaced root, else code 0 and a result that compares equal to the second exactly when no matched array loses more than one element |
| JsonPatchProof.GentleSame | agar2/include/cjson/cJSON_Utils.c:256-266 | the outcome of the patches is the goal exactly for such changes, all the way down |
| JsonPatchProof.RunRemovals | agar2/include/cjson/cJSON_Utils.c:262-262 | removals at increasing positions take away every other element |
| JsonPatchProof.RunMembers | agar2/include/cjson/cJSON_Utils.c:268-291 | the edits of the merge remove, add and change exactly the fields they should |
| JsonPatchProof.DiffUnder | agar2/include/cjson/cJSON_Utils.c:222-236 | the edits generated for a path are those for the root with the path in front |
| JsonPatchProof.RootCrash | agar2/include/cjson/cJSON_Utils.c:184-186 | a patch of the whole document crashes the interpreter |
| JsonPatchProof.ShrinkByThree | agar2/include/cjson/cJSON_Utils.c:262-262 | an array of three that should become empty keeps its second element |
| GameMap.InsideView | agar2/Map.cpp:155-165 | a point is inside a window exactly when its block is |
| GameMap.EdgeTouches | agar2/Map.cpp:139-152 | for radius 0 or more: a cell is in the window by its edge exactly when some point within the radius in each coordinate is in the closed rectangle of the window |
| GameMap.InsideRectangle | agar2/Map.cpp:155-165 | a point is inside exactly when, moved onto the map, it is in the rectangle of the window, which is open on its far sides |
| GameMap.CentreThenEdge | agar2/Map.cpp:139-165 | for every centre and radius: a centre inside a window implies an edge inside it, whatever the window, if and only if the cell touches the map |
| GameMap.OffTheMap | agar2/Map.cpp:8-11 | an instance that does not touch the map, and a window |
| GameMap.Cell.MoveAbs | agar2/Cell.cpp:86-90 | wherever it is moved to, a cell ends up on the map, as close to it as it can get, and touches the map whatever its radius |
| GameMap.World.AddStatic | agar2/Map.cpp:25-39 | a cell is added to the block of its centre, unless its identifier is there |
| GameMap.World.RemoveStatic | agar2/Map.cpp:52-67 | exactly the cell with the identifier leaves its block |
| GameMap.World.EatStatic | agar2/Player.cpp:106-114 | an eaten cell is reported and off the map, so that map and reports account for the map before |
| GameMap.World.SettleStatic | agar2/Game.cpp:181-194 | at the end of a tick every block has what was added and not what was removed |
| GameMap.World.SettleDynamic | agar2/Game.cpp:196-202 | the dynamic list gains what was added and loses what was removed |
| GameMap.World.RemoveDynamic | agar2/Map.cpp:86-98 | the last occurrence of a cell is taken out |
| PlayerView.SetDifference | agar2/Player.cpp:476-489 | on increasing lists, exactly the elements of the first that are not in the second, increasing |
| PlayerView.ListBlocks | agar2/Player.cpp:514-523 | the nested loops list exactly the blocks of the window, in increasing order |
| PlayerView.Player.UpdateView | agar2/Player.cpp:503-524 | the window reaches from the camera as far as the view on either side and 1.6 times as far across, and its block list is complete and increasing |
| PlayerView.NearInView | agar2/Player.cpp:503-511 | whatever the cells, all within 1600 by 1000 of the camera is in the window |
| PlayerView.EqualCells | agar2/Player.cpp:503-511 | the view of n cells of one radius r reaches (3 n + 4) r + 1000 |
| PlayerView.Player.UpdateBlocks | agar2/Player.cpp:451-501 | the client's static cells become those of the new window; what was never told and stayed in sight stays untold |
| PlayerView.Turned | agar2/Player.cpp:476-499 | the two differences turn what was visible into what is |
| PlayerView.Player.FilterHistory | agar2/Player.cpp:410-424 | the erasing loop forgets exactly the cells whose centre left the window, and tells the client |
| PlayerView.Player.ParseMove | agar2/Player.cpp:585-615 | a cell that reaches into the window is added once with one message; a known one is not added again, and is told to move if it is a player or moving |
| PlayerView.Player.ParseEvents | agar2/Player.cpp:572-669 | after the events the history has what moved into the window and nothing that was eaten, and the client has the static cells that are left |
| PlayerView.Player.DeleteDynamic | agar2/Player.cpp:676-695 | exactly one cell leaves the history, with one message |
| PlayerView.Player.Update | agar2/Player.cpp:410-430 | one tick: the client has exactly the expected static cells and the history; it was told nothing twice, and to move nothing it did not have; no eaten cell is remembered; it is told to move, in order, exactly the reported cells that are a player's or moving, reach into the window, and were known or reported before |
| PlayerView.FollowedIff | agar2/Player.cpp:585-600 | which cells those are, said without recursion |
| PlayerView.Visible | agar2/Player.cpp:626-631 | what was visible before a tick is what still is and what was eaten inside the window |
| PlayerView.StaticMirrorExact | agar2/Player.cpp:45-55 | the picture is exact if and only if nothing untold stays in sight and additions are on the same side of both windows |
| GameLoop.PlayTick | agar2/Game.cpp:46-165 | a tick keeps the relation between map, history and client, whatever is eaten, moved, resized and looked at; what is missing after it is what was missing, still is on the map and was in the window; the history is given exactly |
| GameLoop.Run | agar2/Game.cpp:46-165 | over any run, what is missing at the end are the cells missing at first that were in every window since; the client shows exactly the window and the history if and only if none of them is in sight; no cell that was eaten is remembered unless it moved later, and if all others move, the history is exactly those that reach into the window |
| GameLoop.Join | agar2/Player.cpp:45-55 | a new player misses exactly the first window |
| GameLoop.JoinAndRun | agar2/Player.cpp:45-55 | of a player who joined and stayed for any number of ticks: the picture is exact if and only if every block that still has cells was outside some window |
| Collisions.Team.CollideDynamic | agar2/Player.cpp:122-224 | ends whatever overlaps; the log of comparisons is a run in which each gives what sizes and distance say and which leads from the cells there were to the cells there are, in which no two cells left over were passed over; at most sixteen cells, everything that disappears reported once, mass never lost and kept exactly while no virus is met |
| Collisions.Team.CollideCell | agar2/Player.cpp:127-222 | one pass over the dynamic cells goes on with that run and makes the outer measure smaller although it erases, steps back and adds cells |
| Collisions.Team.Pop | agar2/Player.cpp:145-209 | the exact cells after a pop: as many big parts as size and room allow, up to four, each a cut of the one before, then the small cells, all with fresh identifiers, the others untouched; the mass grows by half of what the cuts take off |
| Balls.SmallFair | agar2/Player.cpp:181-184 | a small cell has at least the least size and at most twice that |
| Balls.Leftover | agar2/Player.cpp:181-206 | what the small cells leave of the popped one: nothing, unless there is room for fewer than it could make of twice the least size |
| Collisions.Team.PopSmall | agar2/Player.cpp:181-206 | as many small cells as fit, which together weigh what the popped cell gives up |
| Collisions.Team.CollideTeam | agar2/Player.cpp:307-339 | the log is such a run between the two players, complete; total mass is kept, and every cell stays with one of them or is reported, once |
| Collisions.CollideOtherPlayer | agar2/Player.cpp:302-341 | against all later players: one complete run with each, in order, leads from all cells there were to all there are; the mass of all players is kept, and so is every identifier |
| Meals.CollidedSizes | agar2/Cell.cpp:93-135 | one cell can eat another exactly when they overlap by more than three quarters of the smaller diameter and it is over 1.3333 times as large, or the other under 0.75 of it |
| Meals.Mirror | agar2/Cell.cpp:117-130 | turned around, the smaller one is always the bigger one, and the other way round exactly above four thirds |
| Meals.EachMeal | agar2/Player.cpp:122-341 | in every run, whoever is eaten was by then under 0.75 of the size of the eater, or the eater over 1.3333 times as large, and is the one that is reported |
| Meals.MealSizes | agar2/Player.cpp:135-219 | an eater is larger than what it eats, and food and viruses in the arena never eat |
| Meals.MealTable | agar2/Player.cpp:135-219 | after a meal the cells in play are those before without the eaten one, and the eater has its size in addition |
| Meals.LargestStays | agar2/Player.cpp:302-341 | a cell at least as large as all others in play is not the next to be eaten |
| Meals.HeavySafe | agar2/Player.cpp:302-341 | a cell that weighs at least as much as all others together is never eaten in a whole run |
| Meals.LargestEaten | agar2/Player.cpp:307-337 | a run in which the largest cell is eaten |
| Meals.VirusPops | agar2/Player.cpp:145-209 | eating a virus with less than sixteen cells gives a new cell exactly when the eater has the least size by then, and if there are less than sixteen afterwards the eater is left with less than that |
| Meals.RunKeeps | agar2/Player.cpp:122-341 | every run keeps mass and identifiers if no virus can be met |
| Meals.RoundsKeep | agar2/Player.cpp:302-341 | and all runs of one player against the later ones keep the mass of all and every identifier |
| Collisions.Team.Split | agar2/Player.cpp:352-382 | splitting keeps the mass, halves cells in place from the front, one new cell for each that is big enough, and ends early only at sixteen cells |
| Balls.SplitsRadius | agar2/Player.cpp:361-361 | big enough to split is a radius over 42 |

## Left out

- The trees: keys are integers ordered by their difference; `RB_AUGMENT` is empty as in the source; `RB_FOREACH_SAFE` and `_FROM` are the same walk from another start; the amortised cost of splaying.
- JsonParser.ReadNumber: gives mantissa and decimal exponent; the double they make, its cast to int, and so `pow`, `%e`, `%f` and rounding, are not modelled. Numbers are compared by exact value.
- Allocation failure, `cJSON_Delete`, references, constant strings and the error pointer.
- Integer overflow: texts, buffers and array positions of 2^30 bytes or elements and more.
- JsonMinify.MinifyInPlace: texts whose last comment or literal is not closed, where the code runs past the terminating NUL.
- JsonParser.ScanString: a text that ends in a lone backslash inside a literal, where the code runs past the terminating NUL, counts as a failure.
- JSON trees as heap structures: parsing, printing and patching build and take values; a step that sorts in place gives the changed trees back. Pointers are modelled for sibling lists, in `JsonSiblings` and `JsonChildren`, and there the stale `prev` of a sorted list shows, which values do not have.
- JsonMeaning.CompareNumbers: compares exact values, where the source compares the doubles they are rounded to and their casts to int.
- JsonPatchRun.Document.ApplyPatches: documents are values, which have no stale `prev`; so after a `test` that sorted an object, removing its first member gives a proper object here and a ring in the code.
- JsonChildren.AddToObject: does not cover an item that the first `prev` still points to. The item has its name from the start, where the source frees the old name and copies the new one.
- `cJSON_Duplicate` on values is the identity; the round trip is stated for every document that means the first one.
- Merge patch, array helpers and the constructors of basic types: easy members only.
- PlayerView.Player.UpdateView: the camera position is a parameter; smoothing and weighting of the cells' centres are real-valued physics.
- PlayerView.Player.ParseMove: MoveCell messages carry no position here; the layout of messages and their sending are left out.
- Identifiers that wrap around after 2^32 cells, and players who disconnect during a run.
- Collisions.Collide: the distance of two cells and the radius that goes with a size are parameters, so velocities, angles and the positions of new cells are not modelled; sizes are exact reals.
- CollideSelf goes on using a cell it has erased and is not modelled; neither is feeding.
- Networking, timers, compression and their headers.
