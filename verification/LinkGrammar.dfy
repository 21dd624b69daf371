/**
 * Links written from a grammar, and when scanning a written link gives the destination's offsets
 * back. The grammar of destinations is section 6.3 of CommonMark 0.31.2.
 */
module LinkGrammar {
  import opened Results
  import opened JsText
  import opened LinkScanner

  /**
   * Bracketed text: a plain character, a backslash with the character after it (an escape, or a
   * literal backslash before a character that cannot be escaped), or a bracket pair.
   */
  datatype Piece = Plain(c: char) | Backslash(c: char) | Group(inner: seq<Piece>)

  /** A kind of brackets. */
  datatype Brackets = Brackets(open: char, close: char)

  const SQUARE := Brackets('[', ']')
  const ROUND := Brackets('(', ')')
  const POINTY := Brackets('<', '>')

  function Write(pieces: seq<Piece>, b: Brackets): string
    decreases pieces
  {
    if pieces == [] then "" else WriteOne(pieces[0], b) + Write(pieces[1..], b)
  }

  function WriteOne(piece: Piece, b: Brackets): string
    decreases piece
  {
    match piece
    case Plain(c) => [c]
    case Backslash(c) => ['\\', c]
    case Group(inner) => [b.open] + Write(inner, b) + [b.close]
  }

  /** Plain characters are neither brackets nor backslashes, at every depth. */
  predicate Balanced(pieces: seq<Piece>, b: Brackets)
    decreases pieces
  {
    forall i | 0 <= i < |pieces| :: BalancedOne(pieces[i], b)
  }

  predicate BalancedOne(piece: Piece, b: Brackets)
    decreases piece
  {
    match piece
    case Plain(c) => c != b.open && c != b.close && c != '\\'
    case Backslash(_) => true
    case Group(inner) => Balanced(inner, b)
  }

  // ---------------------------------------------------------------- text at a position

  predicate At(s: string, i: nat, w: string) {
    i + |w| <= |s| && s[i..i + |w|] == w
  }

  lemma AtBoth(s: string, i: nat, a: string, b: string)
    requires At(s, i, a + b)
    ensures At(s, i, a) && At(s, i + |a|, b)
  {
    assert s[i..i + |a|] == (a + b)[..|a|];
    assert s[i + |a|..i + |a| + |b|] == (a + b)[|a|..];
  }

  lemma AtChar(s: string, i: nat, w: string, k: nat)
    requires At(s, i, w) && k < |w|
    ensures s[i + k] == w[k]
  {
    assert s[i..i + |w|][k] == w[k];
  }

  // ---------------------------------------------------------------- scanning over written text

  /** The label scan passes over balanced text without changing its depth. */
  lemma {:induction false} LabelPasses(s: string, i: nat, depth: nat, pieces: seq<Piece>)
    requires At(s, i, Write(pieces, SQUARE)) && Balanced(pieces, SQUARE) && depth > 0
    ensures LabelScan(s, i, depth) == LabelScan(s, i + |Write(pieces, SQUARE)|, depth)
    decreases pieces
  {
    if pieces != [] {
      var one := WriteOne(pieces[0], SQUARE);
      AtBoth(s, i, one, Write(pieces[1..], SQUARE));
      assert BalancedOne(pieces[0], SQUARE);
      LabelPassesOne(s, i, depth, pieces[0]);
      LabelPasses(s, i + |one|, depth, pieces[1..]);
    }
  }

  lemma {:induction false} LabelPassesOne(s: string, i: nat, depth: nat, piece: Piece)
    requires At(s, i, WriteOne(piece, SQUARE)) && BalancedOne(piece, SQUARE) && depth > 0
    ensures LabelScan(s, i, depth) == LabelScan(s, i + |WriteOne(piece, SQUARE)|, depth)
    decreases piece
  {
    AtChar(s, i, WriteOne(piece, SQUARE), 0);
    if piece.Group? {
      var inner := Write(piece.inner, SQUARE);
      AtBoth(s, i, ['['] + inner, [']']);
      AtBoth(s, i, ['['], inner);
      AtChar(s, i + 1 + |inner|, [']'], 0);
      LabelPasses(s, i + 1, depth + 1, piece.inner);
    }
  }

  /** No white space outside brackets and backslash pairs. */
  predicate NoBreak(pieces: seq<Piece>) {
    forall i | 0 <= i < |pieces| && pieces[i].Plain? :: !IsSpace(pieces[i].c)
  }

  /** Inside brackets, or without breaks, the destination scan passes over balanced text. */
  lemma {:induction false} PlainPasses(s: string, i: nat, depth: nat, pieces: seq<Piece>)
    requires At(s, i, Write(pieces, ROUND)) && Balanced(pieces, ROUND) && (depth > 0 || NoBreak(pieces))
    ensures PlainScan(s, i, depth) == PlainScan(s, i + |Write(pieces, ROUND)|, depth)
    decreases pieces
  {
    if pieces != [] {
      var one := WriteOne(pieces[0], ROUND);
      AtBoth(s, i, one, Write(pieces[1..], ROUND));
      assert BalancedOne(pieces[0], ROUND);
      PlainPassesOne(s, i, depth, pieces[0]);
      PlainPasses(s, i + |one|, depth, pieces[1..]);
    }
  }

  lemma {:induction false} PlainPassesOne(s: string, i: nat, depth: nat, piece: Piece)
    requires At(s, i, WriteOne(piece, ROUND)) && BalancedOne(piece, ROUND)
    requires depth > 0 || (piece.Plain? ==> !IsSpace(piece.c))
    ensures PlainScan(s, i, depth) == PlainScan(s, i + |WriteOne(piece, ROUND)|, depth)
    decreases piece
  {
    AtChar(s, i, WriteOne(piece, ROUND), 0);
    if piece.Group? {
      var inner := Write(piece.inner, ROUND);
      AtBoth(s, i, ['('] + inner, [')']);
      AtBoth(s, i, ['('], inner);
      AtChar(s, i + 1 + |inner|, [')'], 0);
      PlainPasses(s, i + 1, depth + 1, piece.inner);
    }
  }

  /** A break outside brackets stops the destination scan short of the end. */
  lemma {:induction false} BreakStops(s: string, i: nat, pieces: seq<Piece>)
    requires At(s, i, Write(pieces, ROUND)) && Balanced(pieces, ROUND) && !NoBreak(pieces)
    ensures PlainScan(s, i, 0) < i + |Write(pieces, ROUND)|
    decreases pieces
  {
    var one := WriteOne(pieces[0], ROUND);
    AtBoth(s, i, one, Write(pieces[1..], ROUND));
    assert BalancedOne(pieces[0], ROUND);
    if pieces[0].Plain? && IsSpace(pieces[0].c) {
      AtChar(s, i, one, 0);
    } else {
      PlainPassesOne(s, i, 0, pieces[0]);
      assert pieces == [pieces[0]] + pieces[1..];
      assert !NoBreak(pieces[1..]) by {
        var k :| 0 <= k < |pieces| && pieces[k].Plain? && IsSpace(pieces[k].c);
        assert pieces[1..][k - 1] == pieces[k];
      }
      BreakStops(s, i + |one|, pieces[1..]);
    }
  }

  // ---------------------------------------------------------------- destinations

  /** Neither an ASCII control character nor the space. */
  predicate Allowed(c: char) {
    c as int > 32 && c as int != 127
  }

  predicate AllowedAll(pieces: seq<Piece>)
    decreases pieces
  {
    forall i | 0 <= i < |pieces| :: AllowedOne(pieces[i])
  }

  predicate AllowedOne(piece: Piece)
    decreases piece
  {
    match piece
    case Plain(c) => Allowed(c)
    case Backslash(c) => Allowed(c)
    case Group(inner) => AllowedAll(inner)
  }

  /** A destination: pieces, possibly followed by a literal backslash before the white space that ends it. */
  datatype Destination = Destination(pieces: seq<Piece>, dangling: bool)

  function Dangle(d: Destination): string {
    if d.dangling then "\\" else ""
  }

  function Text(d: Destination): string {
    Write(d.pieces, ROUND) + Dangle(d)
  }

  /** Section 6.3: no control characters or spaces, parentheses escaped or balanced, no leading `<`. */
  predicate ValidDestination(d: Destination) {
    && Balanced(d.pieces, ROUND) && AllowedAll(d.pieces)
    && (d.pieces != [] && d.pieces[0].Plain? ==> d.pieces[0].c != '<')
  }

  /** Pointy destinations: no line ending and no bracket but an escaped one. */
  predicate ValidPointy(pieces: seq<Piece>) {
    forall i | 0 <= i < |pieces| ::
      && !pieces[i].Group?
      && pieces[i].c != '\n' && pieces[i].c != '\r'
      && (pieces[i].Plain? ==> pieces[i].c != '<' && pieces[i].c != '>' && pieces[i].c != '\\')
  }

  /** White space between the separator and the destination. */
  predicate Blank(s: string) {
    forall i | 0 <= i < |s| :: s[i] == ' ' || s[i] == '\t' || s[i] == '\n' || s[i] == '\r'
  }

  function Separator(kind: NodeKind): string {
    match kind
    case Inline => "("
    case Definition => ":"
  }

  /** The authored node up to the end of its label. */
  function Head(prefix: string, caption: seq<Piece>): string {
    prefix + "[" + Write(caption, SQUARE) + "]"
  }

  /** Everything of the authored node before its destination. */
  function Lead(prefix: string, caption: seq<Piece>, kind: NodeKind, blank: string): string {
    Head(prefix, caption) + Separator(kind) + blank
  }

  /**
   * What may follow a destination: a closing parenthesis or white space in an inline link, white
   * space or nothing in a definition. A backslash dangles only before white space or the end.
   */
  predicate ValidTail(d: Destination, kind: NodeKind, tail: string) {
    && (tail == "" ==> kind == Definition)
    && (tail != "" ==> Blank(tail[..1]) || (kind == Inline && tail[0] == ')' && !d.dangling))
    && (d.pieces == [] && !d.dangling ==> kind == Inline && tail != "" && tail[0] == ')')
  }

  predicate ValidLead(prefix: string, caption: seq<Piece>, blank: string) {
    '[' !in prefix && Balanced(caption, SQUARE) && Blank(blank)
  }

  // ---------------------------------------------------------------- the label and the separator

  lemma {:induction false} IndexAt(s: string, c: char, i: nat, k: nat)
    requires i <= k < |s| && s[k] == c && forall j | i <= j < k :: s[j] != c
    ensures IndexFrom(s, c, i) == k
    decreases k - i
  {
    if i < k {
      IndexAt(s, c, i + 1, k);
    }
  }

  /** Skipping white space passes over blanks, and stops there unless what follows is white space too. */
  lemma {:induction false} SpacesOver(s: string, i: nat, blank: string, after: string)
    requires At(s, i, blank + after) && |s| == i + |blank + after| && Blank(blank)
    ensures after == "" || !IsSpace(after[0]) ==> SpacesEnd(s, i) == i + |blank|
    ensures after != "" && IsSpace(after[0]) ==> SpacesEnd(s, i) > i + |blank|
    decreases |blank|
  {
    if blank == "" {
      if after != "" {
        AtChar(s, i, blank + after, 0);
      }
    } else {
      AtChar(s, i, blank + after, 0);
      assert blank + after == blank[..1] + (blank[1..] + after);
      AtBoth(s, i, blank[..1], blank[1..] + after);
      SpacesOver(s, i + 1, blank[1..], after);
    }
  }

  /** The label ends at its own closing bracket. */
  lemma LabelFound(prefix: string, caption: seq<Piece>, rest: string)
    requires '[' !in prefix && Balanced(caption, SQUARE)
    ensures LabelEndOf(Head(prefix, caption) + rest) == |Head(prefix, caption)| - 1
  {
    hide Balanced;
    var s := Head(prefix, caption) + rest;
    var first, inner := |prefix|, Write(caption, SQUARE);
    assert s[first] == '[' && forall j | 0 <= j < first :: s[j] == prefix[j];
    IndexAt(s, '[', 0, first);
    assert At(s, first + 1, inner);
    LabelPasses(s, first + 1, 1, caption);
    assert s[first + 1 + |inner|] == ']';
  }

  lemma SeparatorFound(prefix: string, caption: seq<Piece>, kind: NodeKind, blank: string, after: string)
    requires ValidLead(prefix, caption, blank)
    ensures var s, h := Lead(prefix, caption, kind, blank) + after, |Head(prefix, caption)|;
            && h + 1 <= |s| && StartOf(s, kind) == Success(SpacesEnd(s, h + 1))
            && At(s, h + 1, blank + after) && |s| == h + 1 + |blank + after|
            && |Lead(prefix, caption, kind, blank)| == h + 1 + |blank|
  {
    var head := Head(prefix, caption);
    assert |head| > 0;
    hide Head, Balanced, LabelEndOf, At, SpacesEnd;
    var s, h := Lead(prefix, caption, kind, blank) + after, |head|;
    LabelFound(prefix, caption, Separator(kind) + blank + after);
    SeparatorLayout(head, Separator(kind), blank, after);
    if kind == Definition {
      IndexAt(s, ':', h, h);
    }
  }

  lemma SeparatorLayout(head: string, separator: string, blank: string, after: string)
    requires |separator| == 1
    ensures var s, h := head + separator + blank + after, |head|;
            && s == head + (separator + blank + after) && |s| == h + 1 + |blank + after| && s[h] == separator[0]
            && At(s, h + 1, blank + after)
  {
    var s := head + separator + blank + after;
    assert s == (head + separator) + (blank + after);
  }

  /** The scan skips exactly the blanks before a destination, and further into one that starts with white space. */
  lemma StartFound(prefix: string, caption: seq<Piece>, kind: NodeKind, blank: string, after: string)
    requires ValidLead(prefix, caption, blank)
    ensures var r, lead := StartOf(Lead(prefix, caption, kind, blank) + after, kind), Lead(prefix, caption, kind, blank);
            && (after == "" || !IsSpace(after[0]) ==> r == Success(|lead|))
            && (after != "" && IsSpace(after[0]) ==> r.Success? && r.value > |lead|)
  {
    hide Head, Lead, Balanced;
    SeparatorFound(prefix, caption, kind, blank, after);
    SpacesOver(Lead(prefix, caption, kind, blank) + after, |Head(prefix, caption)| + 1, blank, after);
  }

  // ---------------------------------------------------------------- the inverse

  /** The scan reports exactly the destination that was written. */
  ghost predicate Recovers(prefix: string, caption: seq<Piece>, kind: NodeKind, blank: string, d: Destination,
                           tail: string) {
    var lead := Lead(prefix, caption, kind, blank);
    RangeOf(lead + Text(d) + tail, kind) == Success(Range(|lead|, |lead| + |Text(d)|))
  }

  /** When the scan gives a written destination back. */
  predicate Recoverable(d: Destination, tail: string) {
    NoBreak(d.pieces) && (d.dangling ==> tail == "")
  }

  lemma TextStart(d: Destination, kind: NodeKind, tail: string)
    requires ValidDestination(d) && ValidTail(d, kind, tail) && NoBreak(d.pieces)
    ensures var after := Text(d) + tail; after != "" && !IsSpace(after[0]) && after[0] != '<'
  {
    if d.pieces != [] {
      assert BalancedOne(d.pieces[0], ROUND);
      assert (Text(d) + tail)[0] == WriteOne(d.pieces[0], ROUND)[0];
    }
  }

  lemma EndFound(s: string, start: nat, d: Destination, kind: NodeKind, tail: string)
    requires At(s, start, Text(d)) && At(s, start + |Text(d)|, tail) && |s| == start + |Text(d)| + |tail|
    requires ValidDestination(d) && ValidTail(d, kind, tail) && NoBreak(d.pieces)
    ensures d.dangling && tail != "" ==> PlainScan(s, start, 0) > start + |Text(d)|
    ensures !d.dangling || tail == "" ==> PlainScan(s, start, 0) == start + |Text(d)|
  {
    hide Balanced, AllowedAll, Write, BalancedOne, NoBreak;
    var w := Write(d.pieces, ROUND);
    AtBoth(s, start, w, Dangle(d));
    PlainPasses(s, start, 0, d.pieces);
    if d.dangling {
      AtChar(s, start + |w|, Dangle(d), 0);
    } else if tail != "" {
      AtChar(s, start + |w|, tail, 0);
      assert tail[..1][0] == tail[0];
    }
  }

  /**
   * Scanning a written link gives the destination's offsets back exactly when no white space (as the
   * host's `\s` counts it) stands outside the destination's parentheses and backslash pairs, and no
   * literal backslash ends the destination before white space.
   */
  lemma RecoversIff(prefix: string, caption: seq<Piece>, kind: NodeKind, blank: string, d: Destination, tail: string)
    requires ValidLead(prefix, caption, blank) && ValidDestination(d) && ValidTail(d, kind, tail)
    ensures Recovers(prefix, caption, kind, blank, d, tail) <==> Recoverable(d, tail)
  {
    if NoBreak(d.pieces) {
      Unbroken(prefix, caption, kind, blank, d, tail);
    } else {
      Broken(prefix, caption, kind, blank, d, tail);
    }
  }

  lemma Unbroken(prefix: string, caption: seq<Piece>, kind: NodeKind, blank: string, d: Destination, tail: string)
    requires ValidLead(prefix, caption, blank) && ValidDestination(d) && ValidTail(d, kind, tail) && NoBreak(d.pieces)
    ensures Recovers(prefix, caption, kind, blank, d, tail) <==> (d.dangling ==> tail == "")
  {
    hide Lead, Text, NoBreak, ValidLead, ValidDestination, ValidTail, IsSpace, StartOf, PlainScan, PointyScan, At;
    var lead, text := Lead(prefix, caption, kind, blank), Text(d);
    var s, start := lead + text + tail, |lead|;
    TextStart(d, kind, tail);
    StartFound(prefix, caption, kind, blank, text + tail);
    Layout(lead, text, tail);
    EndFound(s, start, d, kind, tail);
  }

  lemma Layout(lead: string, text: string, tail: string)
    ensures var s := lead + text + tail;
            && s == lead + (text + tail) && At(s, |lead|, text) && At(s, |lead| + |text|, tail)
            && (text + tail != "" ==> |lead| < |s| && s[|lead|] == (text + tail)[0])
  {
  }

  lemma Broken(prefix: string, caption: seq<Piece>, kind: NodeKind, blank: string, d: Destination, tail: string)
    requires ValidLead(prefix, caption, blank) && ValidDestination(d) && !NoBreak(d.pieces)
    ensures !Recovers(prefix, caption, kind, blank, d, tail)
  {
    hide Lead, Text, NoBreak, ValidLead, ValidDestination, IsSpace, StartOf, PlainScan, PointyScan, At;
    var lead, text := Lead(prefix, caption, kind, blank), Text(d);
    StartFound(prefix, caption, kind, blank, text + tail);
    Layout(lead, text, tail);
    BrokenText(lead + text + tail, |lead|, d);
  }

  /** The scan of a destination with a break stops before its end, and the destination is not taken for a pointy one. */
  lemma BrokenText(s: string, start: nat, d: Destination)
    requires At(s, start, Text(d)) && ValidDestination(d) && !NoBreak(d.pieces)
    ensures Text(d) != "" && Text(d)[0] != '<' && PlainScan(s, start, 0) < start + |Text(d)|
  {
    hide AllowedAll, PlainScan;
    assert |WriteOne(d.pieces[0], ROUND)| > 0;
    assert Text(d)[0] == WriteOne(d.pieces[0], ROUND)[0];
    AtBoth(s, start, Write(d.pieces, ROUND), Dangle(d));
    BreakStops(s, start, d.pieces);
    assert BalancedOne(d.pieces[0], ROUND);
  }

  // ---------------------------------------------------------------- pointy destinations

  lemma {:induction false} PointyPasses(s: string, i: nat, pieces: seq<Piece>)
    requires At(s, i, Write(pieces, POINTY)) && ValidPointy(pieces)
    ensures PointyScan(s, i) == PointyScan(s, i + |Write(pieces, POINTY)|)
    decreases pieces
  {
    if pieces != [] {
      var one := WriteOne(pieces[0], POINTY);
      AtBoth(s, i, one, Write(pieces[1..], POINTY));
      AtChar(s, i, one, 0);
      PointyPasses(s, i + |one|, pieces[1..]);
    }
  }

  /** A pointy destination is always given back, without its brackets. */
  lemma PointyRecovered(prefix: string, caption: seq<Piece>, kind: NodeKind, blank: string, pieces: seq<Piece>,
                        tail: string)
    requires ValidLead(prefix, caption, blank) && ValidPointy(pieces)
    ensures var lead, text := Lead(prefix, caption, kind, blank), Write(pieces, POINTY);
            RangeOf(lead + "<" + text + ">" + tail, kind) == Success(Range(|lead| + 1, |lead| + 1 + |text|))
  {
    var lead, text := Lead(prefix, caption, kind, blank), Write(pieces, POINTY);
    hide Lead, Write, ValidLead, ValidPointy, IsSpace, At, RangeOf, Pointed;
    PointyLayout(lead, text, tail);
    PointyFrom(lead + "<" + text + ">" + tail, prefix, caption, kind, blank, pieces, tail);
  }

  lemma PointyFrom(s: string, prefix: string, caption: seq<Piece>, kind: NodeKind, blank: string, pieces: seq<Piece>,
                   tail: string)
    requires ValidLead(prefix, caption, blank) && ValidPointy(pieces)
    requires var lead, text := Lead(prefix, caption, kind, blank), Write(pieces, POINTY);
             && s == lead + Pointed(text, tail) && |s| == |lead| + |text| + 2 + |tail|
             && s[|lead|] == '<' && At(s, |lead| + 1, text) && s[|lead| + 1 + |text|] == '>'
    ensures var lead, text := |Lead(prefix, caption, kind, blank)|, |Write(pieces, POINTY)|;
            RangeOf(s, kind) == Success(Range(lead + 1, lead + 1 + text))
  {
    hide Lead, Write, ValidLead, ValidPointy, IsSpace, StartOf, At, RangeOf, Pointed;
    PointedStart(Write(pieces, POINTY), tail);
    StartFound(prefix, caption, kind, blank, Pointed(Write(pieces, POINTY), tail));
    PointyRange(s, |Lead(prefix, caption, kind, blank)|, kind, pieces);
  }

  lemma PointedStart(text: string, tail: string)
    ensures Pointed(text, tail) != "" && !IsSpace(Pointed(text, tail)[0])
  {
  }

  lemma PointyRange(s: string, start: nat, kind: NodeKind, pieces: seq<Piece>)
    requires StartOf(s, kind) == Success(start) && start < |s| && s[start] == '<'
    requires At(s, start + 1, Write(pieces, POINTY)) && ValidPointy(pieces)
    requires start + 1 + |Write(pieces, POINTY)| < |s| && s[start + 1 + |Write(pieces, POINTY)|] == '>'
    ensures RangeOf(s, kind) == Success(Range(start + 1, start + 1 + |Write(pieces, POINTY)|))
  {
    PointyEnd(s, start + 1, pieces);
  }

  /** A destination in angle brackets, and what follows it. */
  function Pointed(text: string, tail: string): string {
    "<" + text + ">" + tail
  }

  lemma PointyLayout(lead: string, text: string, tail: string)
    ensures var s := lead + "<" + text + ">" + tail;
            && s == lead + Pointed(text, tail) && Pointed(text, tail) != "" && Pointed(text, tail)[0] == '<'
            && |s| == |lead| + |text| + 2 + |tail|
            && s[|lead|] == '<' && At(s, |lead| + 1, text) && s[|lead| + 1 + |text|] == '>'
  {
  }

  lemma PointyEnd(s: string, i: nat, pieces: seq<Piece>)
    requires At(s, i, Write(pieces, POINTY)) && ValidPointy(pieces)
    requires i + |Write(pieces, POINTY)| < |s| && s[i + |Write(pieces, POINTY)|] == '>'
    ensures PointyScan(s, i) == i + |Write(pieces, POINTY)|
  {
    PointyPasses(s, i, pieces);
  }

  // ---------------------------------------------------------------- what is refused

  lemma {:induction false} NoIndex(s: string, c: char, i: nat)
    requires i <= |s| && forall j | i <= j < |s| :: s[j] != c
    ensures IndexFrom(s, c, i) == -1
    decreases |s| - i
  {
    if i < |s| {
      NoIndex(s, c, i + 1);
    }
  }

  /** Without an opening bracket, or with a label that is never closed, there is no label. */
  lemma UnclosedLabelRefused(prefix: string, caption: seq<Piece>, kind: NodeKind)
    requires '[' !in prefix && Balanced(caption, SQUARE)
    ensures RangeOf(prefix, kind) == Failure(NoLabelEnd)
    ensures RangeOf(prefix + "[" + Write(caption, SQUARE), kind) == Failure(NoLabelEnd)
  {
    hide Balanced, Write;
    NoIndex(prefix, '[', 0);
    var s := prefix + "[" + Write(caption, SQUARE);
    assert s[|prefix|] == '[' && forall j | 0 <= j < |prefix| :: s[j] == prefix[j];
    IndexAt(s, '[', 0, |prefix|);
    assert At(s, |prefix| + 1, Write(caption, SQUARE));
    LabelPasses(s, |prefix| + 1, 1, caption);
  }

  /** A definition needs a colon somewhere after its label, a link or image an opening parenthesis right after it. */
  lemma SeparatorRefused(prefix: string, caption: seq<Piece>, rest: string)
    requires '[' !in prefix && Balanced(caption, SQUARE)
    ensures ':' !in rest ==> RangeOf(Head(prefix, caption) + rest, Definition) == Failure(NoSeparator)
    ensures rest == "" || rest[0] != '(' ==> RangeOf(Head(prefix, caption) + rest, Inline) == Failure(NoInlineDestination)
  {
    hide Balanced;
    LabelFound(prefix, caption, rest);
    hide LabelEndOf, Head;
    var s, h := Head(prefix, caption) + rest, |Head(prefix, caption)|;
    assert forall j | h <= j < |s| :: s[j] == rest[j - h];
    if ':' !in rest {
      NoIndex(s, ':', h);
    }
  }

  /** The first colon after a definition's label separates, wherever it stands. */
  lemma LateColon(prefix: string, caption: seq<Piece>, between: string, rest: string)
    requires '[' !in prefix && Balanced(caption, SQUARE) && ':' !in between
    ensures var head := Head(prefix, caption) + between;
            StartOf(head + ":" + rest, Definition) == Success(SpacesEnd(head + ":" + rest, |head| + 1))
  {
    hide Balanced;
    var head := Head(prefix, caption) + between;
    var s, h := head + ":" + rest, |Head(prefix, caption)|;
    LabelFound(prefix, caption, between + ":" + rest);
    assert s == Head(prefix, caption) + (between + ":" + rest);
    hide LabelEndOf, Head;
    assert forall j | h <= j < |head| :: s[j] == between[j - h];
    IndexAt(s, ':', h, |head|);
  }

  /** An angle bracket that is never closed is refused. */
  lemma UnclosedAngleRefused(prefix: string, caption: seq<Piece>, kind: NodeKind, blank: string, pieces: seq<Piece>)
    requires ValidLead(prefix, caption, blank) && ValidPointy(pieces)
    ensures RangeOf(Lead(prefix, caption, kind, blank) + ("<" + Write(pieces, POINTY)), kind) == Failure(NoAngleEnd)
  {
    var lead, text := Lead(prefix, caption, kind, blank), "<" + Write(pieces, POINTY);
    assert !IsSpace(text[0]);
    hide Lead, ValidLead, ValidPointy, IsSpace, StartOf, Write, At;
    StartFound(prefix, caption, kind, blank, text);
    UnclosedAngle(lead, pieces);
  }

  lemma UnclosedAngle(lead: string, pieces: seq<Piece>)
    requires ValidPointy(pieces)
    ensures var s := lead + ("<" + Write(pieces, POINTY));
            |lead| < |s| && s[|lead|] == '<' && PointyScan(s, |lead| + 1) == -1
  {
    var s := lead + ("<" + Write(pieces, POINTY));
    assert At(s, |lead| + 1, Write(pieces, POINTY));
    PointyPasses(s, |lead| + 1, pieces);
  }

  // ---------------------------------------------------------------- where the scan misses

  const NO_BREAK_SPACE := 0xA0 as char

  /** A no-break space is allowed in a destination, but the scan stops there: `[a](b\u00A0c)`. */
  lemma NoBreakSpaceMissed()
    ensures var d := Destination([Plain('b'), Plain(NO_BREAK_SPACE), Plain('c')], false);
            ValidDestination(d) && !Recovers("", [Plain('a')], Inline, "", d, ")")
  {
    var d := Destination([Plain('b'), Plain(NO_BREAK_SPACE), Plain('c')], false);
    assert d.pieces[1] == Plain(NO_BREAK_SPACE) && IsSpace(d.pieces[1].c);
    RecoversIff("", [Plain('a')], Inline, "", d, ")");
  }

  /** A literal backslash before the space ahead of a title is read as hiding that space: `[a](b\ "t")`. */
  lemma DanglingBackslashMissed()
    ensures var d := Destination([Plain('b')], true);
            ValidDestination(d) && !Recovers("", [Plain('a')], Inline, "", d, " \"t\")")
  {
    RecoversIff("", [Plain('a')], Inline, "", Destination([Plain('b')], true), " \"t\")");
  }

  // ---------------------------------------------------------------- offsets in the whole document

  /** A destination's absolute offsets and its text. */
  datatype Located = Located(start: nat, end: nat, url: string)

  /** The node is a written link whose destination the scan gives back. */
  ghost predicate Written(node: string, prefix: string, caption: seq<Piece>, kind: NodeKind, blank: string, d: Destination,
                          tail: string) {
    && ValidLead(prefix, caption, blank) && ValidDestination(d) && ValidTail(d, kind, tail) && Recoverable(d, tail)
    && node == Lead(prefix, caption, kind, blank) + Text(d) + tail
  }

  /** The node is a written link with this destination in angle brackets. */
  ghost predicate WrittenPointy(node: string, prefix: string, caption: seq<Piece>, kind: NodeKind, blank: string,
                                pieces: seq<Piece>, tail: string) {
    && ValidLead(prefix, caption, blank) && ValidPointy(pieces)
    && node == Lead(prefix, caption, kind, blank) + "<" + Write(pieces, POINTY) + ">" + tail
  }

  /**
   * Locate the destination of the node that occupies `source[start..end]`. For a node written from the
   * grammar it is the destination that was written, at its offsets in the document.
   */
  method MarkdownDestination(source: string, start: nat, end: nat, kind: NodeKind) returns (r: Result<Located, ScanError>)
    requires start <= end <= |source|
    ensures r.Failure? <==> RangeOf(source[start..end], kind).Failure?
    ensures r.Failure? ==> r.error == RangeOf(source[start..end], kind).error
    ensures r.Success? ==>
              && start <= r.value.start <= r.value.end <= end && r.value.url == source[r.value.start..r.value.end]
              && RangeOf(source[start..end], kind) == Success(Range(r.value.start - start, r.value.end - start))
    ensures forall prefix, caption, blank, d, tail | Written(source[start..end], prefix, caption, kind, blank, d, tail) ::
              var lead := |Lead(prefix, caption, kind, blank)|;
              r == Success(Located(start + lead, start + lead + |Text(d)|, Text(d)))
    ensures forall prefix, caption, blank, pieces, tail |
              WrittenPointy(source[start..end], prefix, caption, kind, blank, pieces, tail) ::
              var lead, text := |Lead(prefix, caption, kind, blank)|, Write(pieces, POINTY);
              r == Success(Located(start + lead + 1, start + lead + 1 + |text|, text))
  {
    hide RangeOf, Written, WrittenPointy, Lead, Text, Write;
    var node := source[start..end];
    var range := DestinationRange(node, kind);
    forall prefix, caption, blank, d, tail | Written(node, prefix, caption, kind, blank, d, tail)
      ensures var lead := |Lead(prefix, caption, kind, blank)|;
              lead + |Text(d)| <= |node| && range == Success(Range(lead, lead + |Text(d)|))
              && source[start + lead..start + lead + |Text(d)|] == Text(d)
    {
      WrittenRecovered(node, prefix, caption, kind, blank, d, tail);
      SliceOfSlice(source, start, end, |Lead(prefix, caption, kind, blank)|, Text(d));
    }
    forall prefix, caption, blank, pieces, tail | WrittenPointy(node, prefix, caption, kind, blank, pieces, tail)
      ensures var lead, text := |Lead(prefix, caption, kind, blank)| + 1, Write(pieces, POINTY);
              lead + |text| <= |node| && range == Success(Range(lead, lead + |text|))
              && source[start + lead..start + lead + |text|] == text
    {
      WrittenPointyRecovered(node, prefix, caption, kind, blank, pieces, tail);
      SliceOfSlice(source, start, end, |Lead(prefix, caption, kind, blank)| + 1, Write(pieces, POINTY));
    }
    match range
    case Failure(e) => r := Failure(e);
    case Success(found) =>
      r := Success(Located(start + found.start, start + found.end, source[start + found.start..start + found.end]));
  }

  lemma WrittenRecovered(node: string, prefix: string, caption: seq<Piece>, kind: NodeKind, blank: string, d: Destination,
                         tail: string)
    requires Written(node, prefix, caption, kind, blank, d, tail)
    ensures var lead := |Lead(prefix, caption, kind, blank)|;
            && lead + |Text(d)| <= |node| && node[lead..lead + |Text(d)|] == Text(d)
            && RangeOf(node, kind) == Success(Range(lead, lead + |Text(d)|))
  {
    hide RangeOf, Lead, Text, ValidLead, ValidDestination, ValidTail, Recoverable;
    RecoversIff(prefix, caption, kind, blank, d, tail);
    MiddleOf(Lead(prefix, caption, kind, blank), Text(d), tail);
  }

  lemma MiddleOf(lead: string, text: string, tail: string)
    ensures (lead + text + tail)[|lead|..|lead| + |text|] == text
  {
  }

  lemma WrittenPointyRecovered(node: string, prefix: string, caption: seq<Piece>, kind: NodeKind, blank: string,
                               pieces: seq<Piece>, tail: string)
    requires WrittenPointy(node, prefix, caption, kind, blank, pieces, tail)
    ensures var lead, text := |Lead(prefix, caption, kind, blank)| + 1, Write(pieces, POINTY);
            && lead + |text| <= |node| && node[lead..lead + |text|] == text
            && RangeOf(node, kind) == Success(Range(lead, lead + |text|))
  {
    PointyRecovered(prefix, caption, kind, blank, pieces, tail);
    var lead := Lead(prefix, caption, kind, blank);
    hide RangeOf, Lead, Write;
    PointyLayout(lead, Write(pieces, POINTY), tail);
  }

  lemma SliceOfSlice(source: string, start: nat, end: nat, from: nat, text: string)
    requires start <= end <= |source| && from + |text| <= end - start && source[start..end][from..from + |text|] == text
    ensures source[start + from..start + from + |text|] == text
  {
    var inner := source[start..end];
    forall k | 0 <= k < |text| ensures source[start + from + k] == text[k] {
      assert inner[from..from + |text|][k] == inner[from + k] == source[start + from + k];
    }
  }

  /** In a document, a recoverable destination is cut out verbatim. */
  lemma DocumentRecovers(before: string, prefix: string, caption: seq<Piece>, kind: NodeKind, blank: string,
                         d: Destination, tail: string, later: string)
    requires ValidLead(prefix, caption, blank) && ValidDestination(d) && ValidTail(d, kind, tail) && Recoverable(d, tail)
    ensures var node := Lead(prefix, caption, kind, blank) + Text(d) + tail;
            var source, start := before + node + later, |before|;
            && source[start..start + |node|] == node && Written(node, prefix, caption, kind, blank, d, tail)
            && RangeOf(node, kind).Success?
            && var range := RangeOf(node, kind).value;
               source[start + range.start..start + range.end] == Text(d)
  {
    var lead := Lead(prefix, caption, kind, blank);
    var node := lead + Text(d) + tail;
    WrittenRecovered(node, prefix, caption, kind, blank, d, tail);
    hide Lead, Text, RangeOf;
    CutOut(before, lead, Text(d), tail, later);
  }

  lemma CutOut(before: string, lead: string, text: string, tail: string, later: string)
    ensures var node := lead + text + tail;
            var source := before + node + later;
            && source[|before|..|before| + |node|] == node
            && source[|before| + |lead|..|before| + |lead| + |text|] == text
  {
    var node := lead + text + tail;
    assert node[|lead|..|lead| + |text|] == text;
    assert (before + node + later)[|before|..|before| + |node|] == node;
    assert (before + node + later)[|before| + |lead|..|before| + |lead| + |text|] == node[|lead|..|lead| + |text|];
  }
}
