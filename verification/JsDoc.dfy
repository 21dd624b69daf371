/** Parsing a JSDoc block into description prose and an optional dispatch mode. */
module JsDoc {
  import opened JsText
  import opened Results

  // ---------------------------------------------------------------- lines of the comment

  /** A line without its leading white space, star and one space, and without trailing white space. */
  function Undecorated(line: string): string {
    var a := TrimStart(line);
    var b := if a != "" && a[0] == '*' then a[1..] else a;
    TrimEnd(if b != "" && IsSpace(b[0]) then b[1..] else b)
  }

  /** The comment's inner lines, without delimiters and decoration. */
  function InnerLines(raw: string): seq<string> {
    var a := if "/**" <= raw then raw[3..] else raw;
    var b := if |a| >= 2 && a[|a| - 2..] == "*/" then a[..|a| - 2] else a;
    UndecoratedAll(Split(b, '\n'))
  }

  function UndecoratedAll(lines: seq<string>): seq<string> {
    seq(|lines|, i requires 0 <= i < |lines| => Undecorated(lines[i]))
  }

  predicate Blank(line: string) {
    Trim(line) == ""
  }

  /** A dash followed by white space starts a list item. */
  predicate Bullet(line: string) {
    |line| > 1 && line[0] == '-' && IsSpace(line[1])
  }

  predicate TagLine(line: string) {
    var t := TrimStart(line);
    t != "" && t[0] == '@'
  }

  datatype Mode = Emit | Waterfall | Parallel | Serial | Bail

  function ModeOf(word: string): Option<Mode> {
    if word == "emit" then Some(Emit)
    else if word == "waterfall" then Some(Waterfall)
    else if word == "parallel" then Some(Parallel)
    else if word == "serial" then Some(Serial)
    else if word == "bail" then Some(Bail)
    else None
  }

  predicate WordChar(c: char) {
    'a' <= c <= 'z' || 'A' <= c <= 'Z' || '0' <= c <= '9' || c == '_'
  }

  /** `@mode`, not continued as a longer tag name. */
  predicate ModeTag(line: string) {
    var t := TrimStart(line);
    "@mode" <= t && (|t| > 5 ==> !WordChar(t[5]))
  }

  /** A line that is exactly `@mode` and one of the mode words. */
  function ValidMode(line: string): (m: Option<Mode>)
    ensures m.Some? ==> ModeTag(line)
  {
    var words := Words(TrimStart(line));
    if |words| == 2 && words[0] == "@mode" && ModeTag(line) then ModeOf(words[1]) else None
  }

  /** A bullet is a dash, white space and any text. */
  lemma BulletIff(line: string)
    ensures Bullet(line) <==> exists space, text :: space != "" && AllSpace(space) && line == "-" + space + text
  {
    if Bullet(line) {
      assert line == "-" + line[1..2] + line[2..] && AllSpace(line[1..2]);
    }
  }

  /** The line is white space, the mark and the rest. */
  ghost predicate Marked(line: string, mark: string, indent: string, rest: string) {
    AllSpace(indent) && line == indent + (mark + rest)
  }

  lemma MarkFound(line: string, mark: string, indent: string, rest: string)
    requires mark != "" && !IsSpace(mark[0]) && Marked(line, mark, indent, rest)
    ensures TrimStart(line) == mark + rest
  {
    TrimStartSpace(indent, mark + rest);
  }

  lemma MarkAt(line: string, mark: string)
    requires mark <= TrimStart(line)
    ensures exists indent :: Marked(line, mark, indent, TrimStart(line)[|mark|..])
  {
    var indent := TrimStartCuts(line);
    assert TrimStart(line) == mark + TrimStart(line)[|mark|..];
    assert Marked(line, mark, indent, TrimStart(line)[|mark|..]);
  }

  /** A tag line starts with an at sign, however indented. */
  lemma TagIff(line: string)
    ensures TagLine(line) <==> exists indent, rest :: Marked(line, "@", indent, rest)
  {
    hide Marked, TrimStart;
    if TagLine(line) {
      MarkAt(line, "@");
    }
    if indent, rest :| Marked(line, "@", indent, rest) {
      MarkFound(line, "@", indent, rest);
    }
  }

  /** A mode tag is not continued by a word character. */
  lemma ModeTagIff(line: string)
    ensures ModeTag(line) <==>
            exists indent, rest :: Marked(line, "@mode", indent, rest) && (rest == "" || !WordChar(rest[0]))
  {
    hide Marked, TrimStart;
    if ModeTag(line) {
      MarkAt(line, "@mode");
    }
    if indent, rest :| Marked(line, "@mode", indent, rest) && (rest == "" || !WordChar(rest[0])) {
      MarkFound(line, "@mode", indent, rest);
    }
  }

  /** A blank line is white space only. */
  lemma BlankIff(line: string)
    ensures Blank(line) <==> AllSpace(line)
  {
    hide TrimStart, TrimEnd;
    var indent := TrimStartCuts(line);
    var t := TrimStart(line);
    if t == "" {
      assert line == indent;
      TrimEndSpace("", "");
      assert "" + "" == "";
    } else {
      TrimEndAfter("", t);
      TrimEndKeepsStart(t);
      assert line[|indent|] == t[0];
    }
  }

  lemma {:induction false} TrimStartCuts(s: string) returns (space: string)
    ensures s == space + TrimStart(s) && AllSpace(space)
  {
    hide IsSpace;
    if s != "" && IsSpace(s[0]) {
      var rest := TrimStartCuts(s[1..]);
      space := [s[0]] + rest;
      assert s == [s[0]] + s[1..] && TrimStart(s) == TrimStart(s[1..]);
    } else {
      space := "";
    }
  }

  lemma {:induction false} TrimEndKeepsStart(s: string)
    requires s != "" && !IsSpace(s[0])
    ensures TrimEnd(s) != ""
  {
    if IsSpace(s[|s| - 1]) {
      TrimEndKeepsStart(s[..|s| - 1]);
    }
  }

  // ---------------------------------------------------------------- written comments

  /** A line's text: no line break in it, and no white space at its end. */
  predicate LineText(text: string) {
    '\n' !in text && (text == "" || !IsSpace(text[|text| - 1]))
  }

  /** Indentation, a star, one space and white space at the end are removed; further indentation of the text stays. */
  lemma StarRemoved(indent: string, text: string, trail: string)
    requires AllSpace(indent) && AllSpace(trail) && LineText(text)
    ensures Undecorated(indent + ("* " + text + trail)) == text
  {
    hide TrimStart, TrimEnd;
    var line := "* " + text + trail;
    assert !IsSpace(line[0]) && IsSpace(line[1..][0]);
    TrimStartSpace(indent, line);
    assert line[1..][1..] == text + trail;
    TrimEndSpace(text, trail);
  }

  /** A line without a star loses its indentation. */
  lemma PlainLineKept(indent: string, text: string, trail: string)
    requires AllSpace(indent) && AllSpace(trail) && LineText(text)
    requires text != "" && !IsSpace(text[0]) && text[0] != '*'
    ensures Undecorated(indent + (text + trail)) == text
  {
    hide TrimStart, TrimEnd;
    TrimStartSpace(indent, text + trail);
    TrimEndSpace(text, trail);
  }

  function Decorated(texts: seq<string>): (lines: seq<string>)
    ensures |lines| == |texts|
  {
    seq(|texts|, i requires 0 <= i < |texts| => " * " + texts[i])
  }

  /** A comment as it is authored: every line starred, the delimiters on lines of their own. */
  function Authored(texts: seq<string>): string {
    "/**\n" + JoinWith(Decorated(texts), "\n") + "\n */"
  }

  /** The inner lines of an authored comment are the texts that were written, with an empty line at either end. */
  lemma AuthoredCommentRead(texts: seq<string>)
    requires texts != [] && forall text | text in texts :: LineText(text)
    ensures InnerLines(Authored(texts)) == [""] + texts + [""]
  {
    hide JoinWith, Split, LineText, Undecorated;
    var lines := Decorated(texts);
    var all := [""] + lines + [" "];
    JoinAround(lines);
    assert forall i | 0 <= i < |all| :: '\n' !in all[i] by {
      forall i | 0 <= i < |texts| ensures '\n' !in lines[i] {
        assert LineText(texts[i]);
        NoBreaks(texts[i]);
      }
    }
    JoinThenSplit(all, '\n');
    Delimiters(JoinWith(lines, "\n"));
    forall i | 0 <= i < |texts| ensures Undecorated(lines[i]) == texts[i] {
      assert LineText(texts[i]);
      assert lines[i] == " " + ("* " + texts[i] + "");
      StarRemoved(" ", texts[i], "");
    }
    EmptyLines();
    assert UndecoratedAll(all) == [""] + texts + [""];
  }

  lemma NoBreaks(text: string)
    requires LineText(text)
    ensures '\n' !in " * " + text
  {
  }

  lemma EmptyLines()
    ensures Undecorated("") == "" && Undecorated(" ") == ""
  {
  }

  lemma JoinAround(lines: seq<string>)
    requires lines != []
    ensures JoinWith([""] + lines + [" "], "\n") == "\n" + JoinWith(lines, "\n") + "\n "
  {
    var all := [""] + lines + [" "];
    JoinFirst("", lines, "\n");
    assert all[..|all| - 1] == [""] + lines;
    assert JoinWith(all, "\n") == JoinWith([""] + lines, "\n") + "\n" + " ";
    hide JoinWith;
    assert "" + ("\n" + JoinWith(lines, "\n")) == "\n" + JoinWith(lines, "\n");
  }

  lemma Delimiters(body: string)
    ensures InnerLines("/**\n" + body + "\n */") == UndecoratedAll(Split("\n" + body + "\n ", '\n'))
  {
    hide Split;
    var raw := "/**\n" + body + "\n */";
    assert "/**" <= raw && raw[3..] == "\n" + body + "\n */";
    var a := raw[3..];
    assert a[|a| - 2..] == "*/" && a[..|a| - 2] == "\n" + body + "\n ";
  }

  function ModeName(mode: Mode): string {
    match mode
    case Emit => "emit"
    case Waterfall => "waterfall"
    case Parallel => "parallel"
    case Serial => "serial"
    case Bail => "bail"
  }

  /** A line states a mode exactly when its words are the tag and the mode's name. */
  lemma ValidModeIff(line: string, mode: Mode)
    ensures ValidMode(line) == Some(mode) <==> Words(line) == ["@mode", ModeName(mode)]
  {
    hide Words;
    var t := TrimStart(line);
    TrimStartShrinks(line);
    if Words(line) == ["@mode", ModeName(mode)] {
      NoWords();
      FirstWord(t);
      assert ModeTag(line);
    }
    NamedModes(mode);
  }

  lemma NoWords()
    ensures Words("") == []
  {
  }

  lemma NamedModes(mode: Mode)
    ensures forall word :: ModeOf(word) == Some(mode) <==> word == ModeName(mode)
  {
    assert |"emit"| == 4 && |"waterfall"| == 9 && |"parallel"| == 8 && |"serial"| == 6;
  }

  // ---------------------------------------------------------------- what the prose is

  /** The lines before the first block tag. */
  function ProseLines(lines: seq<string>): seq<string> {
    if lines == [] || TagLine(lines[0]) then [] else [lines[0]] + ProseLines(lines[1..])
  }

  datatype Block = Paragraph(lines: seq<string>) | Bullets(items: seq<seq<string>>)

  /** The length of the leading run of paragraph lines, or of list lines. */
  function RunLength(lines: seq<string>, inList: bool): (n: nat)
    ensures n <= |lines|
    ensures forall i | 0 <= i < n :: !Blank(lines[i]) && (inList || !Bullet(lines[i]))
    ensures n < |lines| ==> Blank(lines[n]) || (!inList && Bullet(lines[n]))
  {
    if lines == [] || Blank(lines[0]) || (!inList && Bullet(lines[0])) then 0 else RunLength(lines[1..], inList) + 1
  }

  /** A list's lines as items: each bullet starts one, other lines continue the last. */
  function SplitItems(lines: seq<string>): (items: seq<seq<string>>)
    ensures lines != [] && Bullet(lines[0]) ==> items != []
  {
    if lines == [] then []
    else
      var k := |lines| - 1;
      var front := SplitItems(lines[..k]);
      if Bullet(lines[k]) || front == [] then front + [[lines[k]]]
      else front[..|front| - 1] + [front[|front| - 1] + [lines[k]]]
  }

  /** Prose lines as blocks: blank lines separate, a bullet ends a paragraph, a list runs to a blank line. */
  function Group(lines: seq<string>): seq<Block>
    decreases |lines|
  {
    if lines == [] then []
    else if Blank(lines[0]) then Group(lines[1..])
    else if Bullet(lines[0]) then
      var n := RunLength(lines, true);
      [Bullets(SplitItems(lines[..n]))] + Group(lines[n..])
    else
      var n := RunLength(lines, false);
      [Paragraph(lines[..n])] + Group(lines[n..])
  }

  function RenderItems(items: seq<seq<string>>): (list: seq<string>)
    ensures |list| == |items|
  {
    seq(|items|, i requires 0 <= i < |items| => JoinLines(items[i]))
  }

  /** A paragraph becomes one line, a list one line an item. */
  function Render(block: Block): string {
    match block
    case Paragraph(lines) => JoinLines(lines)
    case Bullets(items) => JoinWith(RenderItems(items), "\n")
  }

  function RenderBlocks(blocks: seq<Block>): (texts: seq<string>)
    ensures |texts| == |blocks|
  {
    seq(|blocks|, i requires 0 <= i < |blocks| => Render(blocks[i]))
  }

  /** The last valid mode line decides; any mode tag counts as having one. */
  function LastMode(lines: seq<string>): Option<Mode> {
    if lines == [] then None
    else
      var k := |lines| - 1;
      if ValidMode(lines[k]).Some? then ValidMode(lines[k]) else LastMode(lines[..k])
  }

  /** The mode is the one that some line states and no later line overrides. */
  lemma {:induction false} LastModeIs(lines: seq<string>, mode: Mode)
    ensures LastMode(lines) == Some(mode) <==>
            exists i :: 0 <= i < |lines| && ValidMode(lines[i]) == Some(mode)
                        && forall j | i < j < |lines| :: ValidMode(lines[j]) == None
  {
    hide ValidMode;
    if lines != [] {
      var k := |lines| - 1;
      LastModeIs(lines[..k], mode);
      assert forall j | 0 <= j < k :: lines[..k][j] == lines[j];
    }
  }

  // ---------------------------------------------------------------- grouping pending lines

  ghost predicate ParagraphRun(lines: seq<string>) {
    lines != [] && forall i | 0 <= i < |lines| :: !Blank(lines[i]) && !Bullet(lines[i])
  }

  ghost predicate ListRun(lines: seq<string>) {
    lines != [] && Bullet(lines[0]) && forall i | 0 <= i < |lines| :: !Blank(lines[i])
  }

  lemma {:induction false} RunLengthIs(lines: seq<string>, inList: bool, n: nat)
    requires n <= |lines| && forall i | 0 <= i < n :: !Blank(lines[i]) && (inList || !Bullet(lines[i]))
    requires n < |lines| ==> Blank(lines[n]) || (!inList && Bullet(lines[n]))
    ensures RunLength(lines, inList) == n
  {
    if n > 0 {
      RunLengthIs(lines[1..], inList, n - 1);
    }
  }

  /** A run of lines that is over forms a block of its own. */
  lemma GroupRun(run: seq<string>, rest: seq<string>)
    requires ParagraphRun(run) || ListRun(run)
    requires rest != [] ==> Blank(rest[0]) || (ParagraphRun(run) && Bullet(rest[0]))
    ensures Group(run + rest) ==
            [if ParagraphRun(run) then Paragraph(run) else Bullets(SplitItems(run))] + Group(rest)
  {
    hide Blank, Bullet, SplitItems;
    var all, n := run + rest, |run|;
    RunLengthIs(all, ListRun(run), n);
    assert all[..n] == run && all[n..] == rest;
  }

  // ---------------------------------------------------------------- the parser's buffers

  /** The buffers the line loop and its flush closures share. */
  class Buffers {
    var blocks: seq<string>
    var para: seq<string>
    var list: seq<string>
    var item: seq<string>
    ghost var done: seq<Block>
    ghost var items: seq<seq<string>>

    /** A pending paragraph and a pending list never coexist, and a pending list has a pending item. */
    ghost predicate Valid()
      reads this
    {
      && blocks == RenderBlocks(done) && list == RenderItems(items)
      && (para != [] ==> item == [] && list == [] && ParagraphRun(para))
      && (item == [] ==> list == [])
      && (item != [] ==> ListRun(Pending()) && SplitItems(Pending()) == items + [item])
    }

    /** The lines not yet in a block. */
    ghost function Pending(): seq<string>
      reads this
    {
      if item != [] then Flat(items) + item else para
    }

    constructor ()
      ensures Valid() && done == [] && Pending() == []
    {
      blocks, para, list, item, done, items := [], [], [], [], [], [];
    }

    method FlushItem()
      modifies this`list, this`item, this`items
      ensures item == [] && items == (if old(item) == [] then old(items) else old(items) + [old(item)])
      ensures old(list == RenderItems(items)) ==> list == RenderItems(items)
    {
      hide JoinLines;
      if |item| > 0 {
        list := list + [JoinLines(item)];
        items := items + [item];
      }
      item := [];
    }

    method FlushList()
      requires Valid()
      modifies this`blocks, this`list, this`item, this`items, this`done
      ensures Valid() && item == [] && para == old(para) && items == []
      ensures done == old(done) + if old(item) == [] then [] else [Bullets(SplitItems(old(Pending())))]
    {
      hide JoinLines, RenderBlocks, Blank, Bullet, SplitItems;
      FlushItem();
      if |list| > 0 {
        RenderMore(done, Bullets(items));
        blocks := blocks + [JoinWith(list, "\n")];
        done := done + [Bullets(items)];
      }
      list, items := [], [];
    }

    /** The pending paragraph becomes a block. */
    method PushPara()
      requires Valid() && item == []
      modifies this`blocks, this`para, this`done
      ensures Valid() && para == [] && done == old(done) + if old(para) == [] then [] else [Paragraph(old(para))]
    {
      hide JoinLines, RenderBlocks, Blank, Bullet, SplitItems;
      if |para| > 0 {
        RenderMore(done, Paragraph(para));
        blocks := blocks + [JoinLines(para)];
        done := done + [Paragraph(para)];
      }
      para := [];
    }

    method FlushPara()
      requires Valid()
      modifies this
      ensures Valid() && Pending() == [] && done == old(done) + Group(old(Pending()))
    {
      hide JoinLines, RenderBlocks, Blank, Bullet, SplitItems;
      GroupPending(para, Pending(), item);
      FlushList();
      PushPara();
    }

    /** A bullet: the running item is complete, and a pending paragraph goes ahead of the list. */
    method AddBullet(line: string, ghost rest: seq<string>)
      requires Valid() && Bullet(line) && !Blank(line)
      modifies this
      ensures Valid() && done + Group(Pending() + rest) == old(done) + Group(old(Pending()) + ([line] + rest))
    {
      hide JoinLines, RenderBlocks, Blank, Bullet, SplitItems, Group;
      ghost var pending, inList := Pending(), item != [];
      if inList {
        StartItem(pending, line);
      } else {
        StartItem([], line);
        assert items == [];
      }
      FlushItem();
      assert list == RenderItems(items);
      if |para| > 0 {
        GroupBullet(pending, line, rest);
        PushPara();
      }
      item := item + [line];
      assert Pending() == if inList then pending + [line] else [line];
      assert pending + ([line] + rest) == pending + [line] + rest;
      assert item == [line];
      assert items + [item] == if inList then old(items + [item]) + [[line]] else [[line]];
      if !inList && pending == [] {
        assert pending + ([line] + rest) == [line] + rest;
      } else if !inList {
        assert done + Group([line] + rest) == old(done) + ([Paragraph(pending)] + Group([line] + rest));
      }
    }

    /** One prose line: blank, bullet, continuation of an item, or paragraph text. */
    method AddLine(line: string, ghost rest: seq<string>)
      requires Valid()
      modifies this
      ensures Valid() && done + Group(Pending() + rest) == old(done) + Group(old(Pending()) + ([line] + rest))
    {
      hide JoinLines, RenderBlocks, Blank, Bullet, SplitItems, Group;
      ghost var pending := Pending();
      if Blank(line) {
        GroupBlank(pending, line, rest);
        FlushPara();
        assert Pending() + rest == rest;
      } else if Bullet(line) {
        AddBullet(line, rest);
      } else {
        assert pending + ([line] + rest) == pending + [line] + rest;
        if |item| > 0 {
          ContinueItem(pending, items, item, line);
          item := item + [line];
          assert Pending() == pending + [line];
        } else {
          para := para + [line];
        }
      }
    }
  }

  lemma RenderMore(done: seq<Block>, block: Block)
    ensures RenderBlocks(done + [block]) == RenderBlocks(done) + [Render(block)]
  {
  }

  function Flat(items: seq<seq<string>>): seq<string> {
    if items == [] then [] else Flat(items[..|items| - 1]) + items[|items| - 1]
  }

  lemma GroupPending(para: seq<string>, pending: seq<string>, item: seq<string>)
    requires item != [] ==> ListRun(pending)
    requires item == [] ==> pending == para && (para != [] ==> ParagraphRun(para))
    ensures Group(pending) ==
            if item != [] then [Bullets(SplitItems(pending))] else if para != [] then [Paragraph(para)] else []
  {
    hide Blank, Bullet, SplitItems;
    if pending != [] {
      GroupRun(pending, []);
      assert pending + [] == pending;
    }
  }

  lemma GroupBlank(pending: seq<string>, line: string, rest: seq<string>)
    requires Blank(line) && (pending == [] || ParagraphRun(pending) || ListRun(pending))
    ensures Group(pending + ([line] + rest)) == Group(pending) + Group(rest)
  {
    hide Blank, Bullet, SplitItems;
    assert ([line] + rest)[1..] == rest;
    if pending == [] {
      assert pending + ([line] + rest) == [line] + rest;
    } else {
      GroupRun(pending, [line] + rest);
      GroupRun(pending, []);
      assert pending + [] == pending;
    }
  }

  lemma GroupBullet(para: seq<string>, line: string, rest: seq<string>)
    requires ParagraphRun(para) && Bullet(line)
    ensures Group(para + ([line] + rest)) == [Paragraph(para)] + Group([line] + rest)
  {
    GroupRun(para, [line] + rest);
  }

  /** A bullet starts a new item. */
  lemma StartItem(pending: seq<string>, line: string)
    requires Bullet(line) && !Blank(line) && (pending == [] || ListRun(pending))
    ensures ListRun(pending + [line]) && SplitItems(pending + [line]) == SplitItems(pending) + [[line]]
    ensures ListRun([line]) && SplitItems([line]) == [[line]]
  {
    hide Blank, Bullet;
    assert (pending + [line])[..|pending|] == pending;
    assert [line][..0] == [];
  }

  /** Any other line continues the running item. */
  lemma ContinueItem(pending: seq<string>, items: seq<seq<string>>, item: seq<string>, line: string)
    requires !Bullet(line) && !Blank(line) && ListRun(pending) && SplitItems(pending) == items + [item]
    ensures ListRun(pending + [line]) && SplitItems(pending + [line]) == items + [item + [line]]
  {
    hide Blank, Bullet;
    assert (pending + [line])[..|pending|] == pending;
  }

  // ---------------------------------------------------------------- the line loop

  /** The parsed block; `prose` is the text before link tags are rewritten. */
  datatype Parsed = Parsed(prose: string, mode: Option<Mode>, hasMode: bool)

  /** What is in blocks, pending and still to come makes up the prose; after a tag, nothing more does. */
  ghost predicate Awaiting(all: seq<string>, done: seq<Block>, pending: seq<string>, rest: seq<string>, inTags: bool) {
    if inTags then pending == [] && done == Group(ProseLines(all))
    else done + Group(pending + ProseLines(rest)) == Group(ProseLines(all))
  }

  lemma AwaitingStarts(all: seq<string>)
    ensures Awaiting(all, [], [], all, false)
  {
    assert [] + ProseLines(all) == ProseLines(all);
    assert [] + Group(ProseLines(all)) == Group(ProseLines(all));
  }

  lemma TagEndsProse(all: seq<string>, done: seq<Block>, pending: seq<string>, line: string, rest: seq<string>,
                     inTags: bool)
    requires Awaiting(all, done, pending, [line] + rest, inTags) && TagLine(line)
    ensures Awaiting(all, done + Group(pending), [], rest, true)
  {
    assert inTags || pending + ProseLines([line] + rest) == pending;
  }

  lemma ProseGoesOn(all: seq<string>, done: seq<Block>, pending: seq<string>, line: string, rest: seq<string>)
    requires Awaiting(all, done, pending, [line] + rest, false) && !TagLine(line)
    ensures done + Group(pending + ([line] + ProseLines(rest))) == Group(ProseLines(all))
  {
    assert ([line] + rest)[1..] == rest;
  }

  lemma ProseEnds(all: seq<string>, done: seq<Block>, pending: seq<string>, inTags: bool)
    requires Awaiting(all, done, pending, [], inTags)
    ensures done + Group(pending) == Group(ProseLines(all))
  {
    assert pending + [] == pending;
  }

  /** Parse the comment's lines: prose up to the first tag, and the mode wherever it stands. */
  method ParseLines(lines: seq<string>) returns (r: Parsed)
    ensures r.prose == JoinWith(RenderBlocks(Group(ProseLines(lines))), "\n\n")
    ensures r.mode == LastMode(lines)
    ensures r.hasMode <==> exists line :: line in lines && ModeTag(line)
  {
    hide Group, RenderBlocks, Blank, Bullet, ValidMode, ModeTag, TagLine, ProseLines, JoinWith;
    var mode: Option<Mode>, hasMode, inTags := None, false, false;
    var buffers := new Buffers();
    AwaitingStarts(lines);
    assert lines[0..] == lines;
    for k := 0 to |lines|
      invariant fresh(buffers) && buffers.Valid()
      invariant Awaiting(lines, buffers.done, buffers.Pending(), lines[k..], inTags)
      invariant mode == LastMode(lines[..k])
      invariant hasMode <==> exists line :: line in lines[..k] && ModeTag(line)
    {
      var line := lines[k];
      assert lines[..k + 1][..k] == lines[..k] && lines[..k + 1] == lines[..k] + [line];
      assert lines[k..] == [line] + lines[k + 1..];
      TagCases(line);
      var m := ValidMode(line);
      if m.Some? || ModeTag(line) || TagLine(line) {
        TagEndsProse(lines, buffers.done, buffers.Pending(), line, lines[k + 1..], inTags);
        if m.Some? {
          mode := m;
        }
        hasMode := hasMode || ModeTag(line);
        buffers.FlushPara();
        inTags := true;
      } else if !inTags {
        ProseGoesOn(lines, buffers.done, buffers.Pending(), line, lines[k + 1..]);
        buffers.AddLine(line, ProseLines(lines[k + 1..]));
      }
    }
    assert lines[|lines|..] == [] && lines[..|lines|] == lines;
    ProseEnds(lines, buffers.done, buffers.Pending(), inTags);
    buffers.FlushPara();
    r := Parsed(JoinWith(buffers.blocks, "\n\n"), mode, hasMode);
  }

  /** Mode lines are tag lines. */
  lemma TagCases(line: string)
    ensures ModeTag(line) ==> TagLine(line)
    ensures ValidMode(line).Some? ==> ModeTag(line)
  {
  }

  /** Parse a raw comment. */
  method ParseJsDoc(raw: string) returns (r: Parsed)
    ensures r.prose == JoinWith(RenderBlocks(Group(ProseLines(InnerLines(raw)))), "\n\n")
    ensures r.mode == LastMode(InnerLines(raw))
    ensures r.hasMode <==> exists line :: line in InnerLines(raw) && ModeTag(line)
  {
    r := ParseLines(InnerLines(raw));
  }

  // ---------------------------------------------------------------- prose is conserved

  lemma {:induction false} ItemsKeepLines(lines: seq<string>)
    ensures Flat(SplitItems(lines)) == lines
  {
    if lines != [] {
      var k := |lines| - 1;
      var front := SplitItems(lines[..k]);
      ItemsKeepLines(lines[..k]);
      assert lines == lines[..k] + [lines[k]];
      if Bullet(lines[k]) || front == [] {
        assert (front + [[lines[k]]])[..|front|] == front;
      } else {
        var m := |front| - 1;
        assert (front[..m] + [front[m] + [lines[k]]])[..m] == front[..m];
      }
    }
  }

  lemma {:induction false} ItemsKeepWords(items: seq<seq<string>>)
    ensures AllWords(RenderItems(items)) == AllWords(Flat(items))
  {
    if items != [] {
      var k := |items| - 1;
      ItemsKeepWords(items[..k]);
      JoinLinesKeepsWords(items[k]);
      AllWordsAppend(Flat(items[..k]), items[k]);
      assert RenderItems(items)[..k] == RenderItems(items[..k]);
    }
  }

  function LinesOf(block: Block): seq<string> {
    match block
    case Paragraph(lines) => lines
    case Bullets(items) => Flat(items)
  }

  /** Rendering a block keeps the words of its lines. */
  lemma BlockKeepsWords(block: Block)
    ensures Words(Render(block)) == AllWords(LinesOf(block))
  {
    match block
    case Paragraph(lines) => JoinLinesKeepsWords(lines);
    case Bullets(items) =>
      JoinKeepsWords(RenderItems(items), "\n");
      ItemsKeepWords(items);
  }

  lemma AllWordsNone()
    ensures AllWords([]) == [] && AllWords(RenderBlocks([])) == []
  {
  }

  lemma BlankHasNoWords(line: string)
    requires Blank(line)
    ensures Words(line) == []
  {
    TrimKeepsWords(line);
  }

  lemma AllWordsFirst(first: string, rest: seq<string>)
    ensures AllWords([first] + rest) == Words(first) + AllWords(rest)
  {
    AllWordsAppend([first], rest);
    AllWordsOne(first);
  }

  lemma RenderFirst(block: Block, rest: seq<Block>)
    ensures RenderBlocks([block] + rest) == [Render(block)] + RenderBlocks(rest)
  {
  }

  /** Grouping and rendering keep every word of every line, in order. */
  lemma {:induction false} GroupKeepsWords(lines: seq<string>)
    ensures AllWords(RenderBlocks(Group(lines))) == AllWords(lines)
    decreases |lines|
  {
    hide Words, Blank, Bullet, Render, SplitItems, RenderBlocks, AllWords, Flat;
    AllWordsNone();
    if lines != [] {
      if Blank(lines[0]) {
        BlankHasNoWords(lines[0]);
        GroupKeepsWords(lines[1..]);
        AllWordsFirst(lines[0], lines[1..]);
        assert lines == [lines[0]] + lines[1..];
      } else {
        var inList := Bullet(lines[0]);
        var n := RunLength(lines, inList);
        var block := if inList then Bullets(SplitItems(lines[..n])) else Paragraph(lines[..n]);
        BlockKeepsWords(block);
        ItemsKeepLines(lines[..n]);
        GroupKeepsWords(lines[n..]);
        AllWordsFirst(Render(block), RenderBlocks(Group(lines[n..])));
        assert Group(lines) == [block] + Group(lines[n..]);
        RenderFirst(block, Group(lines[n..]));
        AllWordsAppend(lines[..n], lines[n..]);
        assert lines == lines[..n] + lines[n..];
      }
    }
  }

  /** A paragraph is rendered as its words, and a list as one line of words an item. */
  lemma RenderedWords(block: Block)
    ensures match block
            case Paragraph(lines) => Render(block) == JoinWith(AllWords(lines), " ")
            case Bullets(items) =>
              exists texts :: && |texts| == |items| && Render(block) == JoinWith(texts, "\n")
                              && forall i | 0 <= i < |items| :: texts[i] == JoinWith(AllWords(items[i]), " ")
  {
    hide JoinLines, JoinWith, AllWords;
    match block
    case Paragraph(lines) => JoinLinesIsWords(lines);
    case Bullets(items) =>
      var texts := RenderItems(items);
      forall i | 0 <= i < |items| ensures texts[i] == JoinWith(AllWords(items[i]), " ") {
        JoinLinesIsWords(items[i]);
      }
  }

  /** The prose holds exactly the words of the lines before the first block tag, in order. */
  lemma ProseIsConserved(lines: seq<string>)
    ensures Words(JoinWith(RenderBlocks(Group(ProseLines(lines))), "\n\n")) == AllWords(ProseLines(lines))
  {
    JoinKeepsWords(RenderBlocks(Group(ProseLines(lines))), "\n\n");
    GroupKeepsWords(ProseLines(lines));
  }
}
