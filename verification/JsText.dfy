/** White space and words, as the host's regular expressions and trimming count them. */
module JsText {

  /** What `\s` matches, and `trim` removes. */
  predicate IsSpace(c: char) {
    var n := c as int;
    || 9 <= n <= 13 || n == 32 || n == 0xA0 || n == 0x1680 || 0x2000 <= n <= 0x200A
    || n == 0x2028 || n == 0x2029 || n == 0x202F || n == 0x205F || n == 0x3000 || n == 0xFEFF
  }

  predicate AllSpace(s: string) {
    forall i | 0 <= i < |s| :: IsSpace(s[i])
  }

  /** Put a character before a text's words; `glued` says that the text starts with a word. */
  function Prepend(c: char, glued: bool, words: seq<string>): seq<string> {
    if IsSpace(c) then words
    else if glued && words != [] then [[c] + words[0]] + words[1..]
    else [[c]] + words
  }

  predicate StartsWord(s: string) {
    s != "" && !IsSpace(s[0])
  }

  /** The maximal runs of characters that are not white space. */
  function Words(s: string): (words: seq<string>)
    ensures StartsWord(s) ==> words != []
  {
    if s == "" then [] else Prepend(s[0], StartsWord(s[1..]), Words(s[1..]))
  }

  lemma PrependApart(c: char, glued: bool, words: seq<string>, more: seq<string>)
    requires glued ==> words != []
    ensures Prepend(c, glued, words + more) == Prepend(c, glued, words) + more
  {
  }

  lemma {:induction false} WordsOfSpace(s: string, rest: string)
    requires AllSpace(s)
    ensures Words(s + rest) == Words(rest) && Words(s) == []
  {
    if s == "" {
      assert s + rest == rest;
    } else {
      WordsOfSpace(s[1..], rest);
      assert (s + rest)[1..] == s[1..] + rest;
    }
  }

  /** White space between two texts keeps their words apart. */
  lemma {:induction false} WordsApart(a: string, space: string, b: string)
    requires space != "" && AllSpace(space)
    ensures Words(a + space + b) == Words(a) + Words(b)
  {
    if a == "" {
      WordsOfSpace(space, b);
      assert a + space + b == space + b;
    } else {
      WordsApart(a[1..], space, b);
      var whole := a[1..] + space + b;
      assert (a + space + b)[1..] == whole;
      assert StartsWord(whole) == StartsWord(a[1..]);
      PrependApart(a[0], StartsWord(a[1..]), Words(a[1..]), Words(b));
    }
  }

  lemma WordsThenSpace(a: string, space: string)
    requires AllSpace(space)
    ensures Words(a + space) == Words(a)
  {
    if space == "" {
      assert a + space == a;
    } else {
      WordsApart(a, space, "");
      assert a + space + "" == a + space;
    }
  }

  // ---------------------------------------------------------------- trimming and collapsing

  function TrimStart(s: string): (r: string)
    ensures r == "" || !IsSpace(r[0])
  {
    if s != "" && IsSpace(s[0]) then TrimStart(s[1..]) else s
  }

  function TrimEnd(s: string): string {
    if s != "" && IsSpace(s[|s| - 1]) then TrimEnd(s[..|s| - 1]) else s
  }

  function Trim(s: string): string {
    TrimEnd(TrimStart(s))
  }

  /** Every run of white space becomes one space. */
  function Collapse(s: string): string
    decreases |s|
  {
    if s == "" then ""
    else if IsSpace(s[0]) then
      TrimStartShrinks(s);
      " " + Collapse(TrimStart(s))
    else [s[0]] + Collapse(s[1..])
  }

  lemma {:induction false} TrimStartShrinks(s: string)
    ensures |TrimStart(s)| <= |s|
    ensures s != "" && IsSpace(s[0]) ==> |TrimStart(s)| < |s|
    ensures Words(TrimStart(s)) == Words(s)
  {
    if s != "" && IsSpace(s[0]) {
      TrimStartShrinks(s[1..]);
    }
  }

  lemma {:induction false} TrimEndKeepsWords(s: string)
    ensures Words(TrimEnd(s)) == Words(s)
  {
    if s != "" && IsSpace(s[|s| - 1]) {
      var k := |s| - 1;
      TrimEndKeepsWords(s[..k]);
      WordsThenSpace(s[..k], s[k..]);
      assert s == s[..k] + s[k..];
    }
  }

  lemma TrimKeepsWords(s: string)
    ensures Words(Trim(s)) == Words(s)
  {
    TrimStartShrinks(s);
    TrimEndKeepsWords(TrimStart(s));
  }

  lemma {:induction false} CollapseKeepsWords(s: string)
    ensures Words(Collapse(s)) == Words(s)
    ensures s != "" ==> Collapse(s) != "" && IsSpace(Collapse(s)[0]) == IsSpace(s[0])
    ensures s == "" ==> Collapse(s) == ""
    decreases |s|
  {
    if s != "" {
      if IsSpace(s[0]) {
        TrimStartShrinks(s);
        CollapseKeepsWords(TrimStart(s));
        WordsOfSpace(" ", Collapse(TrimStart(s)));
      } else {
        CollapseKeepsWords(s[1..]);
        assert Collapse(s)[1..] == Collapse(s[1..]);
      }
    }
  }

  // ---------------------------------------------------------------- joining

  function JoinWith(parts: seq<string>, separator: string): string {
    if parts == [] then ""
    else if |parts| == 1 then parts[0]
    else JoinWith(parts[..|parts| - 1], separator) + separator + parts[|parts| - 1]
  }

  function AllWords(parts: seq<string>): seq<string> {
    if parts == [] then [] else AllWords(parts[..|parts| - 1]) + Words(parts[|parts| - 1])
  }

  lemma {:induction false} JoinKeepsWords(parts: seq<string>, separator: string)
    requires separator != "" && AllSpace(separator)
    ensures Words(JoinWith(parts, separator)) == AllWords(parts)
  {
    if |parts| == 1 {
      assert parts[..0] == [];
    } else if parts != [] {
      var k := |parts| - 1;
      JoinKeepsWords(parts[..k], separator);
      WordsApart(JoinWith(parts[..k], separator), separator, parts[k]);
    }
  }

  lemma {:induction false} AllWordsAppend(a: seq<string>, b: seq<string>)
    ensures AllWords(a + b) == AllWords(a) + AllWords(b)
  {
    hide Words, AllWords;
    if b == [] {
      assert a + b == a;
      AllWordsNothing();
    } else {
      var k := |b| - 1;
      AllWordsAppend(a, b[..k]);
      assert a + b == (a + b[..k]) + [b[k]] && b == b[..k] + [b[k]];
      AllWordsLast(a + b[..k], b[k]);
      AllWordsLast(b[..k], b[k]);
    }
  }

  lemma AllWordsNothing()
    ensures AllWords([]) == []
  {
  }

  lemma AllWordsLast(parts: seq<string>, last: string)
    ensures AllWords(parts + [last]) == AllWords(parts) + Words(last)
  {
    assert (parts + [last])[..|parts|] == parts;
  }

  lemma AllWordsOne(part: string)
    ensures AllWords([part]) == Words(part)
  {
    assert [part][..0] == [];
  }

  /** Lines joined into one: white space collapsed and trimmed. */
  function JoinLines(parts: seq<string>): string {
    Trim(Collapse(JoinWith(parts, " ")))
  }

  /** Joining lines keeps their words. */
  lemma JoinLinesKeepsWords(parts: seq<string>)
    ensures Words(JoinLines(parts)) == AllWords(parts)
  {
    JoinKeepsWords(parts, " ");
    CollapseKeepsWords(JoinWith(parts, " "));
    TrimKeepsWords(Collapse(JoinWith(parts, " ")));
  }

  /** Trimming the end leaves what stands before a character that is not white space. */
  lemma {:induction false} TrimEndAfter(a: string, s: string)
    requires s != "" && !IsSpace(s[0])
    ensures TrimEnd(a + s) == a + TrimEnd(s)
  {
    if IsSpace(s[|s| - 1]) {
      assert (a + s)[..|a| + |s| - 1] == a + s[..|s| - 1];
      TrimEndAfter(a, s[..|s| - 1]);
    }
  }

  lemma {:induction false} TrimEndSpace(s: string, space: string)
    requires AllSpace(space) && (s == "" || !IsSpace(s[|s| - 1]))
    ensures TrimEnd(s + space) == s
  {
    if space != "" {
      assert (s + space)[..|s| + |space| - 1] == s + space[..|space| - 1];
      TrimEndSpace(s, space[..|space| - 1]);
    } else {
      assert s + space == s;
    }
  }

  lemma {:induction false} TrimStartSpace(space: string, s: string)
    requires AllSpace(space) && (s == "" || !IsSpace(s[0]))
    ensures TrimStart(space + s) == s
  {
    if space != "" {
      assert (space + s)[1..] == space[1..] + s;
      TrimStartSpace(space[1..], s);
    } else {
      assert space + s == s;
    }
  }

  /** A text that starts with a word, collapsed and trimmed, is its words with single spaces between them. */
  lemma {:induction false} CollapsedWords(s: string)
    requires s == "" || !IsSpace(s[0])
    ensures TrimEnd(Collapse(s)) == JoinWith(Words(s), " ")
    decreases |s|
  {
    hide JoinWith, Words, TrimEnd, TrimStart;
    WordsAt(s);
    JoinNothing(" ");
    if s != "" {
      var c, t := [s[0]], s[1..];
      var u := TrimStart(t);
      TrimStartShrinks(t);
      CollapsedWords(u);
      CollapseKeepsWords(u);
      if u == "" {
        WordsAt(t);
        CollapseStart(t);
        WordsAt(u);
        assert Collapse(u) == "";
        assert Collapse(t) == "" || Collapse(t) == " ";
        assert AllSpace(Collapse(t));
        assert Collapse(s) == c + Collapse(t);
        TrimEndSpace(c, Collapse(t));
        assert Words(s) == [c];
        JoinSingle(c, " ");
      } else {
        assert Words(u) != [];
        if IsSpace(t[0]) {
          TrimEndAfter(c + " ", Collapse(u));
          assert c + (" " + Collapse(u)) == c + " " + Collapse(u);
          JoinFirst(c, Words(u), " ");
        } else {
          WordsAt(t);
          assert Collapse(s) == c + Collapse(t);
          TrimEndAfter(c, Collapse(t));
          JoinLonger(c, Words(t), " ");
        }
      }
    }
  }

  lemma WordsAt(s: string)
    ensures s == "" ==> Words(s) == [] && TrimEnd(s) == "" && TrimStart(s) == ""
    ensures StartsWord(s) ==> Words(s) != [] && TrimStart(s) == s
    ensures StartsWord(s) ==>
              Words(s) == if StartsWord(s[1..]) then [[s[0]] + Words(s[1..])[0]] + Words(s[1..])[1..]
                          else [[s[0]]] + Words(TrimStart(s[1..]))
  {
    if s != "" {
      TrimStartShrinks(s[1..]);
    }
  }

  lemma JoinNothing(separator: string)
    ensures JoinWith([], separator) == ""
  {
  }

  /** Joined lines are the words of all lines, in order, with single spaces between them. */
  lemma JoinLinesIsWords(parts: seq<string>)
    ensures JoinLines(parts) == JoinWith(AllWords(parts), " ")
  {
    hide TrimEnd, TrimStart, Collapse, JoinWith, Words, AllWords;
    var s := JoinWith(parts, " ");
    var t := TrimStart(s);
    JoinKeepsWords(parts, " ");
    TrimStartShrinks(s);
    CollapsedWords(t);
    CollapseKeepsWords(t);
    CollapseStart(s);
    TrimStartSpace("", Collapse(t));
    assert "" + Collapse(t) == Collapse(t);
    TrimStartSpace(" ", Collapse(t));
  }

  lemma CollapseStart(s: string)
    ensures Collapse(s) == Collapse(TrimStart(s)) || Collapse(s) == " " + Collapse(TrimStart(s))
  {
    if s != "" && IsSpace(s[0]) {
      TrimStartShrinks(s);
    }
  }

  /** The first word of a text that starts with one is a prefix that the text's end or white space ends. */
  lemma {:induction false} FirstWord(s: string)
    requires StartsWord(s)
    ensures Words(s) != [] && Words(s)[0] <= s && (|s| > |Words(s)[0]| ==> IsSpace(s[|Words(s)[0]|]))
  {
    if StartsWord(s[1..]) {
      FirstWord(s[1..]);
    }
  }

  // ---------------------------------------------------------------- splitting

  /** The text between separators: never an empty list. */
  function Split(s: string, separator: char): (parts: seq<string>)
    ensures parts != []
  {
    if s == "" then [""]
    else
      var rest := Split(s[1..], separator);
      if s[0] == separator then [""] + rest else [[s[0]] + rest[0]] + rest[1..]
  }

  /** A part without the separator stays one part. */
  lemma {:induction false} SplitPlain(part: string, rest: string, separator: char)
    requires separator !in part
    ensures Split(part, separator) == [part]
    ensures Split(part + [separator] + rest, separator) == [part] + Split(rest, separator)
  {
    if part != "" {
      SplitPlain(part[1..], rest, separator);
      assert part == [part[0]] + part[1..];
      var whole := part + [separator] + rest;
      assert whole[1..] == part[1..] + [separator] + rest;
      assert Split(whole[1..], separator)[0] == part[1..];
    } else {
      assert (part + [separator] + rest)[1..] == rest;
    }
  }

  /** A separator and a part without it append that part. */
  lemma {:induction false} SplitMore(text: string, part: string, separator: char)
    requires separator !in part
    ensures Split(text + [separator] + part, separator) == Split(text, separator) + [part]
  {
    var whole := text + [separator] + part;
    if text == "" {
      SplitPlain(part, "", separator);
      assert whole[1..] == part;
    } else {
      SplitMore(text[1..], part, separator);
      assert whole[1..] == text[1..] + [separator] + part;
    }
  }

  /** Splitting joined parts gives the parts back. */
  lemma {:induction false} JoinThenSplit(parts: seq<string>, separator: char)
    requires parts != [] && forall i | 0 <= i < |parts| :: separator !in parts[i]
    ensures Split(JoinWith(parts, [separator]), separator) == parts
  {
    var k := |parts| - 1;
    if k == 0 {
      SplitPlain(parts[0], "", separator);
    } else {
      JoinThenSplit(parts[..k], separator);
      SplitMore(JoinWith(parts[..k], [separator]), parts[k], separator);
      assert parts == parts[..k] + [parts[k]];
    }
  }

  lemma {:induction false} JoinFirst(first: string, rest: seq<string>, separator: string)
    requires rest != []
    ensures JoinWith([first] + rest, separator) == first + (separator + JoinWith(rest, separator))
  {
    var k := |rest| - 1;
    assert ([first] + rest)[..|rest|] == [first] + rest[..k];
    if k == 0 {
      assert JoinWith([first] + rest, separator) == first + separator + rest[0];
    } else {
      JoinFirst(first, rest[..k], separator);
      var front := JoinWith(rest[..k], separator);
      assert first + (separator + front) + separator + rest[k] == first + (separator + (front + separator + rest[k]));
    }
  }

  lemma JoinSingle(part: string, separator: string)
    ensures JoinWith([part], separator) == part
  {
  }

  /** Joining split parts gives the text back. */
  lemma {:induction false} SplitThenJoin(text: string, separator: char)
    ensures JoinWith(Split(text, separator), [separator]) == text
  {
    hide JoinWith;
    if text == "" {
      JoinSingle("", [separator]);
    } else {
      var rest := Split(text[1..], separator);
      SplitThenJoin(text[1..], separator);
      assert text == [text[0]] + text[1..];
      if text[0] == separator {
        JoinFirst("", rest, [separator]);
        assert "" + ([separator] + text[1..]) == text;
      } else {
        JoinLonger([text[0]], rest, [separator]);
      }
    }
  }

  /** Text put before the first part goes before the joined text. */
  lemma JoinLonger(text: string, rest: seq<string>, separator: string)
    requires rest != []
    ensures JoinWith([text + rest[0]] + rest[1..], separator) == text + JoinWith(rest, separator)
  {
    hide JoinWith;
    assert rest == [rest[0]] + rest[1..];
    if |rest| > 1 {
      JoinFirst(text + rest[0], rest[1..], separator);
      JoinFirst(rest[0], rest[1..], separator);
      var tail := separator + JoinWith(rest[1..], separator);
      assert (text + rest[0]) + tail == text + (rest[0] + tail);
    } else {
      assert rest[1..] == [] && [text + rest[0]] + [] == [text + rest[0]] && [rest[0]] + [] == [rest[0]];
      JoinSingle(text + rest[0], separator);
      JoinSingle(rest[0], separator);
    }
  }
}
