/** Locating the destination inside an authored Markdown link, image or definition. */
module LinkScanner {
  import opened Results
  import opened JsText

  datatype NodeKind = Inline | Definition

  datatype Range = Range(start: nat, end: nat)

  datatype ScanError = NoLabelEnd | NoSeparator | NoInlineDestination | NoAngleEnd

  // ---------------------------------------------------------------- the scans as functions

  function SpacesEnd(s: string, i: nat): (k: nat)
    requires i <= |s|
    ensures i <= k <= |s| && forall j | i <= j < k :: IsSpace(s[j])
    ensures k < |s| ==> !IsSpace(s[k])
    decreases |s| - i
  {
    if i < |s| && IsSpace(s[i]) then SpacesEnd(s, i + 1) else i
  }

  function IndexFrom(s: string, c: char, i: nat): (k: int)
    requires i <= |s|
    ensures k == -1 || i <= k < |s|
    decreases |s| - i
  {
    if i == |s| then -1 else if s[i] == c then i else IndexFrom(s, c, i + 1)
  }

  /** The bracket that closes the label, scanning from `i` at `depth` open brackets. */
  function LabelScan(s: string, i: nat, depth: int): (k: int)
    ensures k == -1 || i <= k < |s|
    decreases |s| - i
  {
    if i >= |s| then -1
    else if s[i] == '\\' then LabelScan(s, i + 2, depth)
    else if s[i] == '[' then LabelScan(s, i + 1, depth + 1)
    else if s[i] == ']' then if depth == 1 then i else LabelScan(s, i + 1, depth - 1)
    else LabelScan(s, i + 1, depth)
  }

  /** The bracket that closes a pointy destination. */
  function PointyScan(s: string, i: nat): (k: int)
    ensures k == -1 || i <= k < |s|
    decreases |s| - i
  {
    if i >= |s| then -1
    else if s[i] == '\\' then PointyScan(s, i + 2)
    else if s[i] == '>' then i
    else PointyScan(s, i + 1)
  }

  /** The end of a plain destination, scanning from `i` at `depth` open parentheses. */
  function PlainScan(s: string, i: nat, depth: nat): (k: nat)
    ensures k <= |s| && (i <= |s| ==> i <= k)
    decreases |s| - i
  {
    if i >= |s| then |s|
    else if s[i] == '\\' then PlainScan(s, i + 2, depth)
    else if s[i] == '(' then PlainScan(s, i + 1, depth + 1)
    else if s[i] == ')' then if depth == 0 then i else PlainScan(s, i + 1, depth - 1)
    else if IsSpace(s[i]) && depth == 0 then i
    else PlainScan(s, i + 1, depth)
  }

  function LabelEndOf(s: string): (k: int)
    ensures k == -1 || 0 <= k < |s|
  {
    var first := IndexFrom(s, '[', 0);
    if first == -1 then -1 else LabelScan(s, first, 0)
  }

  /** Where the destination starts, after the separator and white space. */
  function StartOf(s: string, kind: NodeKind): (r: Result<nat, ScanError>)
    ensures r.Success? ==> r.value <= |s|
  {
    var end := LabelEndOf(s);
    if end == -1 then Failure(NoLabelEnd)
    else match kind
      case Definition =>
        var colon := IndexFrom(s, ':', end + 1);
        if colon == -1 then Failure(NoSeparator) else Success(SpacesEnd(s, colon + 1))
      case Inline =>
        if end + 1 < |s| && s[end + 1] == '(' then Success(SpacesEnd(s, end + 2)) else Failure(NoInlineDestination)
  }

  function RangeOf(s: string, kind: NodeKind): (r: Result<Range, ScanError>)
    ensures r.Success? ==> r.value.start <= r.value.end <= |s|
  {
    match StartOf(s, kind)
    case Failure(e) => Failure(e)
    case Success(start) =>
      if start < |s| && s[start] == '<' then
        var end := PointyScan(s, start + 1);
        if end == -1 then Failure(NoAngleEnd) else Success(Range(start + 1, end))
      else Success(Range(start, PlainScan(s, start, 0)))
  }

  // ---------------------------------------------------------------- the scans as the loops they are

  method SkipWhitespace(source: string, start: nat) returns (index: nat)
    requires start <= |source|
    ensures index == SpacesEnd(source, start)
    ensures start <= index <= |source| && forall j | start <= j < index :: IsSpace(source[j])
    ensures index < |source| ==> !IsSpace(source[index])
  {
    index := start;
    while index < |source| && IsSpace(source[index])
      invariant start <= index <= |source| && SpacesEnd(source, index) == SpacesEnd(source, start)
    {
      index := index + 1;
    }
  }

  method LabelEnd(source: string) returns (end: int)
    ensures end == LabelEndOf(source)
  {
    var first := IndexFrom(source, '[', 0);
    if first == -1 {
      return -1;
    }
    var depth, index: nat := 0, first;
    while index < |source|
      invariant LabelScan(source, index, depth) == LabelScan(source, first, 0)
      decreases |source| - index
    {
      var c := source[index];
      if c == '\\' {
        index := index + 1;
      } else if c == '[' {
        depth := depth + 1;
      } else if c == ']' {
        depth := depth - 1;
        if depth == 0 {
          return index;
        }
      }
      index := index + 1;
    }
    end := -1;
  }

  /** Where the destination starts: after the label, its separator and white space. */
  method ScanStart(rawNode: string, kind: NodeKind) returns (r: Result<nat, ScanError>)
    ensures r == StartOf(rawNode, kind)
  {
    hide LabelEndOf, IndexFrom, SpacesEnd;
    var endOfLabel := LabelEnd(rawNode);
    if endOfLabel == -1 {
      return Failure(NoLabelEnd);
    }
    var start: nat;
    if kind == Definition {
      var colon := IndexFrom(rawNode, ':', endOfLabel + 1);
      if colon == -1 {
        return Failure(NoSeparator);
      }
      start := SkipWhitespace(rawNode, colon + 1);
    } else {
      if endOfLabel + 1 >= |rawNode| || rawNode[endOfLabel + 1] != '(' {
        return Failure(NoInlineDestination);
      }
      start := SkipWhitespace(rawNode, endOfLabel + 2);
    }
    r := Success(start);
  }

  /** The angle bracket that closes a destination, from `start`. */
  method ScanPointy(rawNode: string, start: nat) returns (end: int)
    ensures end == PointyScan(rawNode, start)
  {
    var index := start;
    while index < |rawNode|
      invariant PointyScan(rawNode, index) == PointyScan(rawNode, start)
      decreases |rawNode| - index
    {
      if rawNode[index] == '\\' {
        index := index + 1;
      } else if rawNode[index] == '>' {
        return index;
      }
      index := index + 1;
    }
    end := -1;
  }

  /** The end of a destination without angle brackets, from `start`. */
  method ScanPlain(rawNode: string, start: nat) returns (end: nat)
    ensures end == PlainScan(rawNode, start, 0)
  {
    var depth, index := 0, start;
    while index < |rawNode|
      invariant PlainScan(rawNode, index, depth) == PlainScan(rawNode, start, 0)
      decreases |rawNode| - index
    {
      var c := rawNode[index];
      if c == '\\' {
        index := index + 1;
      } else if c == '(' {
        depth := depth + 1;
      } else if c == ')' {
        if depth == 0 {
          return index;
        }
        depth := depth - 1;
      } else if IsSpace(c) && depth == 0 {
        return index;
      }
      index := index + 1;
    }
    end := |rawNode|;
  }

  method DestinationRange(rawNode: string, kind: NodeKind) returns (r: Result<Range, ScanError>)
    ensures r == RangeOf(rawNode, kind)
  {
    hide StartOf, PointyScan, PlainScan;
    var found := ScanStart(rawNode, kind);
    if found.Failure? {
      return Failure(found.error);
    }
    var start := found.value;
    if start < |rawNode| && rawNode[start] == '<' {
      var end := ScanPointy(rawNode, start + 1);
      if end == -1 {
        return Failure(NoAngleEnd);
      }
      return Success(Range(start + 1, end));
    }
    var end := ScanPlain(rawNode, start);
    r := Success(Range(start, end));
  }
}
