/** The macOS deployment-target check: versions read from load commands against a wheel's claim. */
module DeploymentTarget {
  import opened Results
  import opened JsText

  /** A dot-separated version. */
  type Version = seq<nat>

  // ---------------------------------------------------------------- two orders on versions

  /** Tuple order: the first difference decides, and a proper prefix is smaller. */
  predicate TupleLess(a: Version, b: Version) {
    if b == [] then false
    else if a == [] then true
    else if a[0] != b[0] then a[0] < b[0]
    else TupleLess(a[1..], b[1..])
  }

  function Pad(v: Version, width: nat): Version
    requires |v| <= width
  {
    v + seq(width - |v|, i => 0)
  }

  function Max(a: nat, b: nat): nat {
    if a >= b then a else b
  }

  /** The check's comparison: both versions zero-padded to the longer one's width. */
  predicate PaddedExceeds(actual: Version, claimed: Version) {
    var width := Max(|actual|, |claimed|);
    TupleLess(Pad(claimed, width), Pad(actual, width))
  }

  /** A missing component counts as zero. */
  function Component(v: Version, i: nat): nat {
    if i < |v| then v[i] else 0
  }

  /** Numeric order: at the first differing component, `a` is smaller. */
  ghost predicate NumericLess(a: Version, b: Version) {
    exists i: nat :: Component(a, i) < Component(b, i) && forall j: nat | j < i :: Component(a, j) == Component(b, j)
  }

  lemma PadComponent(v: Version, width: nat, i: nat)
    requires |v| <= width
    ensures Component(Pad(v, width), i) == Component(v, i)
  {
  }

  /** On versions of one width, tuple order is numeric order. */
  lemma {:induction false} TupleIsNumeric(a: Version, b: Version)
    requires |a| == |b|
    ensures TupleLess(a, b) <==> NumericLess(a, b)
  {
    if a == [] {
      assert forall i: nat :: Component(a, i) == Component(b, i);
    } else {
      TupleIsNumeric(a[1..], b[1..]);
      forall i: nat ensures Component(a, i + 1) == Component(a[1..], i) && Component(b, i + 1) == Component(b[1..], i) {
      }
      if a[0] != b[0] {
        assert Component(a, 0) != Component(b, 0);
        if a[0] < b[0] {
          assert NumericLess(a, b);
        }
      } else {
        NumericTail(a, b);
      }
    }
  }

  lemma NumericTail(a: Version, b: Version)
    requires a != [] && b != [] && a[0] == b[0]
    ensures NumericLess(a, b) <==> NumericLess(a[1..], b[1..])
  {
    var ta, tb := a[1..], b[1..];
    forall i: nat ensures Component(a, i + 1) == Component(ta, i) && Component(b, i + 1) == Component(tb, i) {
    }
    if i: nat :| Component(a, i) < Component(b, i) && forall j: nat | j < i :: Component(a, j) == Component(b, j) {
      assert i > 0;
      forall j: nat | j < i - 1 ensures Component(ta, j) == Component(tb, j) {
        assert Component(a, j + 1) == Component(b, j + 1);
      }
      assert Component(ta, i - 1) < Component(tb, i - 1);
    }
    if i: nat :| Component(ta, i) < Component(tb, i) && forall j: nat | j < i :: Component(ta, j) == Component(tb, j) {
      forall j: nat | j < i + 1 ensures Component(a, j) == Component(b, j) {
        if j > 0 {
          assert Component(ta, j - 1) == Component(tb, j - 1);
        }
      }
      assert Component(a, i + 1) < Component(b, i + 1);
    }
  }

  /** Padding turns the comparison into numeric order. */
  lemma PaddedIsNumeric(actual: Version, claimed: Version)
    ensures PaddedExceeds(actual, claimed) <==> NumericLess(claimed, actual)
  {
    var width := Max(|actual|, |claimed|);
    TupleIsNumeric(Pad(claimed, width), Pad(actual, width));
    forall i: nat
      ensures Component(Pad(claimed, width), i) == Component(claimed, i)
      ensures Component(Pad(actual, width), i) == Component(actual, i)
    {
      PadComponent(claimed, width, i);
      PadComponent(actual, width, i);
    }
  }

  lemma NumericTransitive(a: Version, b: Version, c: Version)
    requires NumericLess(a, b) && !NumericLess(c, b)
    ensures NumericLess(a, c)
  {
    var i: nat :| Component(a, i) < Component(b, i) && forall j: nat | j < i :: Component(a, j) == Component(b, j);
    if k :| 0 <= k <= i && Component(b, k) != Component(c, k) && forall j: nat | j < k ::
              Component(b, j) == Component(c, j) {
      assert Component(b, k) < Component(c, k);
      assert Component(a, k) < Component(c, k);
    } else {
      NoDifference(b, c, i);
    }
  }

  /** Without a first difference up to `n`, two versions agree up to there. */
  lemma {:induction false} NoDifference(b: Version, c: Version, n: nat)
    requires !exists k :: 0 <= k <= n && Component(b, k) != Component(c, k) && forall j: nat | j < k ::
             Component(b, j) == Component(c, j)
    ensures forall j: nat | j <= n :: Component(b, j) == Component(c, j)
  {
    if n > 0 {
      NoDifference(b, c, n - 1);
    }
    assert Component(b, n) == Component(c, n);
  }

  /** What is not above `m` in tuple order is not above it numerically either. */
  lemma {:induction false} TupleBoundsNumeric(v: Version, m: Version)
    requires !TupleLess(m, v)
    ensures !NumericLess(m, v)
  {
    if v == [] {
    } else if m[0] == v[0] {
      TupleBoundsNumeric(v[1..], m[1..]);
      NumericTail(m, v);
    } else {
      assert Component(m, 0) > Component(v, 0);
    }
  }

  lemma {:induction false} TupleOrder(a: Version, b: Version, c: Version)
    ensures !TupleLess(a, a)
    ensures TupleLess(a, b) ==> !TupleLess(b, a)
    ensures TupleLess(a, b) && !TupleLess(c, b) ==> TupleLess(a, c)
    decreases |a| + |b| + |c|
  {
    if a != [] {
      TupleOrder(a[1..], if b == [] then [] else b[1..], if c == [] then [] else c[1..]);
    }
  }

  /** The first greatest version in tuple order. */
  function MaxOf(versions: seq<Version>): (m: Version)
    requires versions != []
    ensures m in versions && forall v | v in versions :: !TupleLess(m, v)
  {
    var k := |versions| - 1;
    if k == 0 then
      TupleOrder(versions[0], [], []);
      versions[0]
    else
      var m := MaxOf(versions[..k]);
      MaxStep(versions, m);
      if TupleLess(m, versions[k]) then versions[k] else m
  }

  lemma MaxStep(versions: seq<Version>, m: Version)
    requires |versions| > 1 && m in versions[..|versions| - 1]
    requires forall v | v in versions[..|versions| - 1] :: !TupleLess(m, v)
    ensures var last := versions[|versions| - 1];
            TupleLess(m, last) ==> forall v | v in versions :: !TupleLess(last, v)
  {
    var k := |versions| - 1;
    var last := versions[k];
    assert versions == versions[..k] + [last];
    forall v | v in versions && TupleLess(m, last) ensures !TupleLess(last, v) {
      TupleOrder(last, v, m);
      TupleOrder(m, last, v);
    }
  }

  /** The unpadded maximum exceeds the claim exactly when some version does. */
  lemma MaxDecides(versions: seq<Version>, claimed: Version)
    requires versions != []
    ensures PaddedExceeds(MaxOf(versions), claimed) <==> exists v :: v in versions && PaddedExceeds(v, claimed)
  {
    var m := MaxOf(versions);
    if v :| v in versions && PaddedExceeds(v, claimed) {
      PaddedIsNumeric(v, claimed);
      PaddedIsNumeric(m, claimed);
      TupleBoundsNumeric(v, m);
      NumericTransitive(claimed, v, m);
    }
  }

  // ---------------------------------------------------------------- reading versions

  predicate Digit(c: char) {
    '0' <= c <= '9'
  }

  predicate Number(s: string) {
    s != "" && forall i | 0 <= i < |s| :: Digit(s[i])
  }

  function NumberValue(s: string): nat
    requires forall i | 0 <= i < |s| :: Digit(s[i])
  {
    if s == "" then 0
    else
      assert Digit(s[|s| - 1]);
      NumberValue(s[..|s| - 1]) * 10 + (s[|s| - 1] as int - '0' as int)
  }

  predicate Numbers(parts: seq<string>) {
    forall i | 0 <= i < |parts| :: Number(parts[i])
  }

  function NumberValues(parts: seq<string>): (v: Version)
    requires Numbers(parts)
    ensures |v| == |parts|
  {
    seq(|parts|, i requires 0 <= i < |parts| => NumberValue(parts[i]))
  }

  /** A dot-separated numeric version, if the text is one. */
  function ParseVersion(value: string): (v: Option<Version>)
    ensures v.Some? ==> v.value != []
  {
    var parts := Split(value, '.');
    if Numbers(parts) then Some(NumberValues(parts)) else None
  }

  /** What Python's `strip` removes and `\s` matches. */
  predicate PythonSpace(c: char) {
    var n := c as int;
    || 9 <= n <= 13 || 28 <= n <= 32 || n == 0x85 || n == 0xA0 || n == 0x1680 || 0x2000 <= n <= 0x200A
    || n == 0x2028 || n == 0x2029 || n == 0x202F || n == 0x205F || n == 0x3000
  }

  function StripLeft(s: string): string {
    if s != "" && PythonSpace(s[0]) then StripLeft(s[1..]) else s
  }

  function StripRight(s: string): string {
    if s != "" && PythonSpace(s[|s| - 1]) then StripRight(s[..|s| - 1]) else s
  }

  function Strip(s: string): string {
    StripRight(StripLeft(s))
  }

  /** The version after a keyword and white space, when the line holds nothing else. */
  function VersionAfter(keyword: string, line: string): (v: Option<Version>)
    ensures v.Some? ==> v.value != []
  {
    if keyword <= line && |line| > |keyword| && PythonSpace(line[|keyword|])
    then ParseVersion(StripLeft(line[|keyword|..]))
    else None
  }

  // ---------------------------------------------------------------- writing versions

  function Digits(n: nat): (digits: string)
    ensures Number(digits)
  {
    if n < 10 then [('0' as int + n) as char] else Digits(n / 10) + [('0' as int + n % 10) as char]
  }

  /** The version as the error message writes it: components joined with dots. */
  function RenderVersion(v: Version): string
    requires v != []
  {
    if |v| == 1 then Digits(v[0]) else Digits(v[0]) + "." + RenderVersion(v[1..])
  }

  lemma {:induction false} DigitsValue(n: nat)
    ensures NumberValue(Digits(n)) == n
  {
    if n >= 10 {
      DigitsValue(n / 10);
      assert Digits(n)[..|Digits(n)| - 1] == Digits(n / 10);
    } else {
      assert Digits(n)[..0] == "";
    }
  }

  lemma NumberHasNo(s: string, c: char)
    requires Number(s) && !Digit(c)
    ensures c !in s
  {
  }

  /** Parsing a written version gives its components back. */
  lemma {:induction false} WrittenVersionRead(v: Version)
    requires v != []
    ensures ParseVersion(RenderVersion(v)) == Some(v)
  {
    hide Number, Digit, NumberValue, Digits;
    assert !Digit('.') by { NoDigits(); }
    NumberHasNo(Digits(v[0]), '.');
    DigitsValue(v[0]);
    if |v| == 1 {
      SplitPlain(Digits(v[0]), "", '.');
      FirstNumber(Digits(v[0]), []);
      assert [Digits(v[0])] + [] == [Digits(v[0])];
      assert v == [v[0]] + NumberValues([]);
    } else {
      WrittenVersionRead(v[1..]);
      SplitPlain(Digits(v[0]), RenderVersion(v[1..]), '.');
      assert Digits(v[0]) + "." + RenderVersion(v[1..]) == Digits(v[0]) + ['.'] + RenderVersion(v[1..]);
      var parts, rest := Split(RenderVersion(v), '.'), Split(RenderVersion(v[1..]), '.');
      assert parts == [Digits(v[0])] + rest;
      FirstNumber(Digits(v[0]), rest);
      assert v == [v[0]] + v[1..];
    }
  }

  /** The text is these numbers, joined with dots. */
  predicate DottedNumbers(value: string, parts: seq<string>) {
    parts != [] && Numbers(parts) && value == JoinWith(parts, ".")
  }

  /** A text parses exactly when it is numbers joined with dots, and then to the values of those numbers. */
  lemma ParsedIff(value: string)
    ensures ParseVersion(value).Some? <==> exists parts :: DottedNumbers(value, parts)
    ensures forall parts | DottedNumbers(value, parts) :: ParseVersion(value) == Some(NumberValues(parts))
  {
    hide Split, JoinWith, Number, NumberValue;
    SplitThenJoin(value, '.');
    if ParseVersion(value).Some? {
      assert DottedNumbers(value, Split(value, '.'));
    }
    forall parts | DottedNumbers(value, parts) ensures ParseVersion(value) == Some(NumberValues(parts)) {
      forall i | 0 <= i < |parts| ensures '.' !in parts[i] {
        NoDigits();
        NumberHasNo(parts[i], '.');
      }
      JoinThenSplit(parts, '.');
    }
  }

  lemma NoDigits()
    ensures !Digit('.') && !Digit('_')
  {
  }

  lemma FirstNumber(first: string, rest: seq<string>)
    requires Number(first) && Numbers(rest)
    ensures Numbers([first] + rest) && NumberValues([first] + rest) == [NumberValue(first)] + NumberValues(rest)
  {
  }

  // ---------------------------------------------------------------- load commands

  datatype Command = NoCommand | BuildVersion | VersionMinimum

  const LOAD_COMMAND := "Load command "

  /** What a stripped line makes the current load command, if it speaks of one. */
  function CommandOf(stripped: string): Option<Command> {
    if LOAD_COMMAND <= stripped && Number(stripped[|LOAD_COMMAND|..]) then Some(NoCommand)
    else if stripped == "cmd LC_BUILD_VERSION" then Some(BuildVersion)
    else if stripped == "cmd LC_VERSION_MIN_MACOSX" then Some(VersionMinimum)
    else None
  }

  /** The load command in force before line `i`: the last one named. */
  function CommandBefore(lines: seq<string>, i: nat): Command
    requires i <= |lines|
  {
    if i == 0 then NoCommand
    else
      var named := CommandOf(Strip(lines[i - 1]));
      if named.Some? then named.value else CommandBefore(lines, i - 1)
  }

  /** The slice version that line `i` states, if any. */
  function SliceVersion(lines: seq<string>, i: nat): (v: Option<Version>)
    requires i < |lines|
    ensures v.Some? ==> v.value != []
  {
    var stripped := Strip(lines[i]);
    if CommandOf(stripped).Some? then None
    else match CommandBefore(lines, i)
      case NoCommand => None
      case BuildVersion => VersionAfter("minos", stripped)
      case VersionMinimum => VersionAfter("version", stripped)
  }

  function SliceVersions(lines: seq<string>, n: nat): (versions: seq<Version>)
    requires n <= |lines|
    ensures forall v :: v in versions <==> exists i :: 0 <= i < n && SliceVersion(lines, i) == Some(v)
  {
    if n == 0 then []
    else
      var front := SliceVersions(lines, n - 1);
      var v := SliceVersion(lines, n - 1);
      if v.Some? then front + [v.value] else front
  }

  datatype TargetError =
    | NoDeploymentTarget(executable: nat)
    | UnsupportedPlatform(tag: string)
    | ExceedsClaim(executable: nat, actual: Version)

  /** The newest deployment target of all slices, or nothing. */
  method ParseOtoolDeploymentTarget(lines: seq<string>) returns (r: Option<Version>)
    ensures r == if SliceVersions(lines, |lines|) == [] then None else Some(MaxOf(SliceVersions(lines, |lines|)))
  {
    hide Strip, CommandOf, VersionAfter, MaxOf;
    var versions, command := [], NoCommand;
    for k := 0 to |lines|
      invariant command == CommandBefore(lines, k) && versions == SliceVersions(lines, k)
    {
      var stripped := Strip(lines[k]);
      var named := CommandOf(stripped);
      if named.Some? {
        command := named.value;
      } else if command == BuildVersion {
        var v := VersionAfter("minos", stripped);
        if v.Some? {
          versions := versions + [v.value];
        }
      } else if command == VersionMinimum {
        var v := VersionAfter("version", stripped);
        if v.Some? {
          versions := versions + [v.value];
        }
      }
    }
    r := if versions == [] then None else Some(MaxOf(versions));
  }

  // ---------------------------------------------------------------- written load commands

  predicate AllPythonSpace(s: string) {
    forall i | 0 <= i < |s| :: PythonSpace(s[i])
  }

  predicate Solid(s: string) {
    s != "" && !PythonSpace(s[0]) && !PythonSpace(s[|s| - 1])
  }

  lemma {:induction false} StripLeftSpace(blank: string, s: string)
    requires AllPythonSpace(blank) && (s == "" || !PythonSpace(s[0]))
    ensures StripLeft(blank + s) == s
  {
    if blank != "" {
      assert (blank + s)[1..] == blank[1..] + s;
      StripLeftSpace(blank[1..], s);
    } else {
      assert blank + s == s;
    }
  }

  lemma {:induction false} StripRightSpace(s: string, blank: string)
    requires AllPythonSpace(blank) && (s == "" || !PythonSpace(s[|s| - 1]))
    ensures StripRight(s + blank) == s
  {
    if blank != "" {
      var k := |blank| - 1;
      assert (s + blank)[..|s| + k] == s + blank[..k];
      StripRightSpace(s, blank[..k]);
    } else {
      assert s + blank == s;
    }
  }

  /** Stripping takes exactly the white space around a solid text. */
  lemma StripSolid(before: string, s: string, after: string)
    requires AllPythonSpace(before) && AllPythonSpace(after) && Solid(s)
    ensures Strip(before + s + after) == s
  {
    assert before + s + after == before + (s + after) && (s + after)[0] == s[0];
    StripLeftSpace(before, s + after);
    StripRightSpace(s, after);
  }

  lemma {:induction false} RenderSolid(v: Version)
    requires v != []
    ensures Solid(RenderVersion(v))
  {
    hide Digits;
    assert forall c | Digit(c) :: !PythonSpace(c);
    if |v| > 1 {
      RenderSolid(v[1..]);
    }
  }

  /** The keyword whose version a load command carries. */
  function Keyword(command: Command): string {
    match command
    case NoCommand => ""
    case BuildVersion => "minos"
    case VersionMinimum => "version"
  }

  lemma WrittenAfterKeyword(keyword: string, space: string, v: Version)
    requires v != [] && space != "" && AllPythonSpace(space)
    ensures VersionAfter(keyword, keyword + space + RenderVersion(v)) == Some(v)
  {
    hide ParseVersion, RenderVersion, StripLeft;
    var line := keyword + space + RenderVersion(v);
    assert line[|keyword|..] == space + RenderVersion(v) && line[|keyword|] == space[0];
    RenderSolid(v);
    StripLeftSpace(space, RenderVersion(v));
    WrittenVersionRead(v);
  }

  /** No written version line is itself taken for a load command. */
  lemma NotACommand(command: Command, rest: string)
    requires command != NoCommand
    ensures CommandOf(Keyword(command) + rest) == None
  {
    var line := Keyword(command) + rest;
    assert line[0] == Keyword(command)[0];
    assert LOAD_COMMAND[0] == 'L' && "cmd LC_BUILD_VERSION"[0] == 'c' && "cmd LC_VERSION_MIN_MACOSX"[0] == 'c';
  }

  /** A version line written under its load command, however indented, states its version. */
  lemma WrittenLineRead(lines: seq<string>, i: nat, before: string, space: string, v: Version, after: string)
    requires i < |lines| && CommandBefore(lines, i) != NoCommand && v != []
    requires space != "" && AllPythonSpace(before) && AllPythonSpace(space) && AllPythonSpace(after)
    requires lines[i] == before + (Keyword(CommandBefore(lines, i)) + space + RenderVersion(v)) + after
    ensures SliceVersion(lines, i) == Some(v)
  {
    hide Strip, CommandOf, VersionAfter, RenderVersion, CommandBefore, AllPythonSpace;
    var command := CommandBefore(lines, i);
    var core := Keyword(command) + space + RenderVersion(v);
    RenderSolid(v);
    assert core[0] == Keyword(command)[0] && core[|core| - 1] == RenderVersion(v)[|RenderVersion(v)| - 1];
    StripSolid(before, core, after);
    NotACommand(command, space + RenderVersion(v));
    assert core == Keyword(command) + (space + RenderVersion(v));
    WrittenAfterKeyword(Keyword(command), space, v);
  }

  // ---------------------------------------------------------------- what a line states

  /** The stripped line starts another load command or names one of the two that carry a version. */
  predicate SpeaksOfCommand(stripped: string) {
    || stripped == "cmd LC_BUILD_VERSION" || stripped == "cmd LC_VERSION_MIN_MACOSX"
    || ("Load command " <= stripped && Number(stripped[|"Load command "|..]))
  }

  /** The last such line before line `i` is `named`. */
  ghost predicate Under(lines: seq<string>, i: nat, named: string)
    requires i <= |lines|
  {
    exists j :: 0 <= j < i && Strip(lines[j]) == named && forall k | j < k < i :: !SpeaksOfCommand(Strip(lines[k]))
  }

  /** The stripped line is the keyword, white space, and a text that parses to `v`. */
  ghost predicate Spells(stripped: string, keyword: string, v: Version) {
    exists space, text :: space != "" && AllPythonSpace(space) && ParseVersion(text) == Some(v)
                          && stripped == keyword + space + text
  }

  /** A line states a version under the load command that carries it, by that command's keyword. */
  ghost predicate States(lines: seq<string>, i: nat, v: Version)
    requires i < |lines|
  {
    || (Under(lines, i, "cmd LC_BUILD_VERSION") && Spells(Strip(lines[i]), "minos", v))
    || (Under(lines, i, "cmd LC_VERSION_MIN_MACOSX") && Spells(Strip(lines[i]), "version", v))
  }

  lemma {:induction false} CommandIsUnder(lines: seq<string>, i: nat)
    requires i <= |lines|
    ensures CommandBefore(lines, i) == BuildVersion <==> Under(lines, i, "cmd LC_BUILD_VERSION")
    ensures CommandBefore(lines, i) == VersionMinimum <==> Under(lines, i, "cmd LC_VERSION_MIN_MACOSX")
  {
    hide Strip, Number;
    if i > 0 {
      CommandIsUnder(lines, i - 1);
      var stripped := Strip(lines[i - 1]);
      CommandsDiffer();
      assert SpeaksOfCommand(stripped) <==> CommandOf(stripped).Some?;
      forall named: string | SpeaksOfCommand(named)
        ensures Under(lines, i, named) <==>
                if SpeaksOfCommand(stripped) then stripped == named else Under(lines, i - 1, named)
      {
        UnderStep(lines, i, named);
      }
    }
  }

  lemma UnderStep(lines: seq<string>, i: nat, named: string)
    requires 0 < i <= |lines| && SpeaksOfCommand(named)
    ensures Under(lines, i, named) <==>
            if SpeaksOfCommand(Strip(lines[i - 1])) then Strip(lines[i - 1]) == named else Under(lines, i - 1, named)
  {
    hide Strip, SpeaksOfCommand;
    if Strip(lines[i - 1]) == named {
      assert Under(lines, i, named);
    }
    if j :| 0 <= j < i && Strip(lines[j]) == named && forall k | j < k < i :: !SpeaksOfCommand(Strip(lines[k])) {
      assert j < i - 1 ==> !SpeaksOfCommand(Strip(lines[i - 1]));
    }
  }

  lemma CommandsDiffer()
    ensures !("Load command " <= "cmd LC_BUILD_VERSION") && !("Load command " <= "cmd LC_VERSION_MIN_MACOSX")
    ensures "cmd LC_BUILD_VERSION" != "cmd LC_VERSION_MIN_MACOSX"
  {
    assert "Load command "[0] == 'L' && "cmd LC_BUILD_VERSION"[0] == 'c' && "cmd LC_VERSION_MIN_MACOSX"[0] == 'c';
    assert "cmd LC_BUILD_VERSION"[7] == 'B' && "cmd LC_VERSION_MIN_MACOSX"[7] == 'V';
  }

  lemma {:induction false} StripLeftCuts(s: string) returns (space: string)
    ensures s == space + StripLeft(s) && AllPythonSpace(space)
    ensures s != "" && PythonSpace(s[0]) ==> space != ""
  {
    hide PythonSpace;
    if s != "" && PythonSpace(s[0]) {
      var rest := StripLeftCuts(s[1..]);
      space := [s[0]] + rest;
      assert s == [s[0]] + s[1..] && StripLeft(s) == StripLeft(s[1..]);
    } else {
      space := "";
    }
  }

  lemma SpelledAfter(keyword: string, stripped: string, v: Version)
    ensures VersionAfter(keyword, stripped) == Some(v) <==> Spells(stripped, keyword, v)
  {
    hide ParseVersion;
    if VersionAfter(keyword, stripped) == Some(v) {
      var space := StripLeftCuts(stripped[|keyword|..]);
      assert stripped == keyword + stripped[|keyword|..];
      assert stripped == keyword + space + StripLeft(stripped[|keyword|..]);
    }
    if space, text :| space != "" && AllPythonSpace(space) && ParseVersion(text) == Some(v)
                      && stripped == keyword + space + text {
      assert stripped[|keyword|..] == space + text && stripped[|keyword|] == space[0];
      ParsedStart(text);
      StripLeftSpace(space, text);
    }
  }

  /** A version starts with a digit. */
  lemma ParsedStart(text: string)
    requires ParseVersion(text).Some?
    ensures text != "" && Digit(text[0]) && !PythonSpace(text[0])
  {
    hide JoinWith;
    var parts := Split(text, '.');
    SplitThenJoin(text, '.');
    assert Number(parts[0]);
    JoinStarts(parts, ".");
  }

  lemma {:induction false} JoinStarts(parts: seq<string>, separator: string)
    requires parts != [] && parts[0] != ""
    ensures JoinWith(parts, separator) != "" && JoinWith(parts, separator)[0] == parts[0][0]
  {
    if |parts| > 1 {
      JoinStarts(parts[..|parts| - 1], separator);
    }
  }

  /** A slice version is read from a line exactly when the line states it under the load command that carries it. */
  lemma SliceVersionIff(lines: seq<string>, i: nat, v: Version)
    requires i < |lines|
    ensures SliceVersion(lines, i) == Some(v) <==> States(lines, i, v)
  {
    hide Strip, VersionAfter, Spells, Under, Number;
    var stripped := Strip(lines[i]);
    CommandIsUnder(lines, i);
    SpelledAfter("minos", stripped, v);
    SpelledAfter("version", stripped, v);
    if CommandOf(stripped).Some? {
      NoCommandSpells(stripped, "minos", v);
      NoCommandSpells(stripped, "version", v);
    }
  }

  lemma NoCommandSpells(stripped: string, keyword: string, v: Version)
    requires CommandOf(stripped).Some? && (keyword == "minos" || keyword == "version")
    ensures !Spells(stripped, keyword, v)
  {
    assert LOAD_COMMAND[0] == 'L' && "cmd LC_BUILD_VERSION"[0] == 'c' && "cmd LC_VERSION_MIN_MACOSX"[0] == 'c';
    assert stripped[0] == 'L' || stripped[0] == 'c';
    if space, text :| space != "" && AllPythonSpace(space) && ParseVersion(text) == Some(v)
                      && stripped == keyword + space + text {
      assert stripped[0] == keyword[0];
    }
  }

  // ---------------------------------------------------------------- the claim and the check

  /** The version a wheel platform tag claims: `macosx_<major>_<minor>_` and a known architecture. */
  function ClaimedVersion(tag: string): Option<Version> {
    var parts := Split(tag, '_');
    if |parts| == 4 && parts[0] == "macosx" && Number(parts[1]) && Number(parts[2]) && parts[3] == "arm64"
    then Some([NumberValue(parts[1]), NumberValue(parts[2])])
    else if |parts| == 5 && parts[0] == "macosx" && Number(parts[1]) && Number(parts[2]) && parts[3] == "x86" &&
        parts[4] == "64"
    then Some([NumberValue(parts[1]), NumberValue(parts[2])])
    else None
  }

  /** A written platform tag claims the version it spells. */
  lemma WrittenClaimRead(major: nat, minor: nat, arch: string)
    requires arch == "arm64" || arch == "x86_64"
    ensures ClaimedVersion("macosx_" + Digits(major) + "_" + Digits(minor) + "_" + arch) == Some([major, minor])
  {
    hide Number, NumberValue, Digits, Digit, Split;
    var a, b := Digits(major), Digits(minor);
    assert !Digit('_') by { NoDigits(); }
    NumberHasNo(a, '_');
    NumberHasNo(b, '_');
    DigitsValue(major);
    DigitsValue(minor);
    SplitTag(a, b, arch);
    SplitArch(arch);
  }

  /** The tag is `macosx`, two numbers and a known architecture, joined with underscores. */
  ghost predicate ClaimText(tag: string, major: string, minor: string, arch: string) {
    && Number(major) && Number(minor) && (arch == "arm64" || arch == "x86_64")
    && tag == "macosx_" + major + "_" + minor + "_" + arch
  }

  /** Exactly the tags of known architectures claim a version, and then the two numbers they spell. */
  lemma ClaimedIff(tag: string)
    ensures ClaimedVersion(tag).Some? <==> exists major, minor, arch :: ClaimText(tag, major, minor, arch)
    ensures forall major, minor, arch | ClaimText(tag, major, minor, arch) ::
              ClaimedVersion(tag) == Some([NumberValue(major), NumberValue(minor)])
  {
    hide ClaimedVersion;
    forall major, minor, arch | ClaimText(tag, major, minor, arch)
      ensures ClaimedVersion(tag) == Some([NumberValue(major), NumberValue(minor)])
    {
      ClaimRead(tag, major, minor, arch);
    }
    if ClaimedVersion(tag).Some? {
      ClaimSpelled(tag);
    }
  }

  lemma ClaimRead(tag: string, major: string, minor: string, arch: string)
    requires ClaimText(tag, major, minor, arch)
    ensures ClaimedVersion(tag) == Some([NumberValue(major), NumberValue(minor)])
  {
    hide NumberValue, Split;
    NoDigits();
    NumberHasNo(major, '_');
    NumberHasNo(minor, '_');
    SplitTag(major, minor, arch);
    SplitArch(arch);
  }

  lemma ClaimSpelled(tag: string)
    requires ClaimedVersion(tag).Some?
    ensures exists major, minor, arch :: ClaimText(tag, major, minor, arch)
  {
    hide NumberValue, Split, JoinWith, Number;
    var parts := Split(tag, '_');
    SplitThenJoin(tag, '_');
    JoinedTag(parts);
    assert "x86" + ("_" + "64") == "x86_64";
    var head := "macosx_" + parts[1] + "_" + parts[2] + "_";
    if |parts| == 5 {
      assert head + "x86" + ("_" + "64") == head + "x86_64";
    }
    assert "macosx" + "_" == "macosx_";
    assert ClaimText(tag, parts[1], parts[2], if |parts| == 4 then "arm64" else "x86_64");
  }

  lemma JoinedTag(parts: seq<string>)
    requires |parts| == 4 || |parts| == 5
    ensures JoinWith(parts, "_") == parts[0] + "_" + parts[1] + "_" + parts[2] + "_" + parts[3]
                                    + if |parts| == 5 then "_" + parts[4] else ""
  {
    assert parts[..4][..3] == parts[..3] && parts[..3][..2] == parts[..2] && parts[..2][..1] == parts[..1];
    assert JoinWith(parts[..2], "_") == parts[0] + "_" + parts[1];
    assert JoinWith(parts[..3], "_") == parts[0] + "_" + parts[1] + "_" + parts[2];
    var four := parts[0] + "_" + parts[1] + "_" + parts[2] + "_" + parts[3];
    assert JoinWith(parts[..4], "_") == four;
    if |parts| == 5 {
      assert four + "_" + parts[4] == four + ("_" + parts[4]);
    } else {
      assert parts[..4] == parts;
    }
  }

  lemma SplitTag(a: string, b: string, arch: string)
    requires '_' !in a && '_' !in b
    ensures Split("macosx_" + a + "_" + b + "_" + arch, '_') == ["macosx", a, b] + Split(arch, '_')
  {
    hide Split;
    var third := b + ['_'] + arch;
    var second := a + ['_'] + third;
    assert "macosx_" + a + "_" + b + "_" + arch == "macosx" + ['_'] + second;
    SplitPlain("macosx", second, '_');
    SplitPlain(a, third, '_');
    SplitPlain(b, arch, '_');
  }

  lemma SplitArch(arch: string)
    ensures arch == "arm64" ==> Split(arch, '_') == ["arm64"]
    ensures arch == "x86_64" ==> Split(arch, '_') == ["x86", "64"]
  {
    hide Split;
    assert "x86_64" == "x86" + ['_'] + "64";
    SplitPlain("arm64", "", '_');
    SplitPlain("x86", "64", '_');
    SplitPlain("64", "", '_');
  }

  /** Some line states a version, and none states one that is numerically above the claim. */
  ghost predicate Compatible(lines: seq<string>, claimed: Version) {
    && (exists i, v :: 0 <= i < |lines| && States(lines, i, v))
    && forall i, v | 0 <= i < |lines| && States(lines, i, v) :: !NumericLess(claimed, v)
  }

  /** A version is among the slice versions exactly when some line states it. */
  lemma StatedIff(lines: seq<string>, v: Version)
    ensures v in SliceVersions(lines, |lines|) <==> exists i :: 0 <= i < |lines| && States(lines, i, v)
  {
    hide SliceVersion, States;
    if v in SliceVersions(lines, |lines|) {
      var i :| 0 <= i < |lines| && SliceVersion(lines, i) == Some(v);
      SliceVersionIff(lines, i, v);
    }
    if i :| 0 <= i < |lines| && States(lines, i, v) {
      SliceVersionIff(lines, i, v);
    }
  }

  lemma CompatibleIff(lines: seq<string>, claimed: Version)
    ensures Compatible(lines, claimed) <==>
            SliceVersions(lines, |lines|) != [] && !PaddedExceeds(MaxOf(SliceVersions(lines, |lines|)), claimed)
  {
    hide SliceVersions, States, NumericLess, PaddedExceeds, MaxOf;
    var versions := SliceVersions(lines, |lines|);
    forall v ensures v in versions <==> exists i :: 0 <= i < |lines| && States(lines, i, v) {
      StatedIff(lines, v);
    }
    forall v ensures PaddedExceeds(v, claimed) <==> NumericLess(claimed, v) {
      PaddedIsNumeric(v, claimed);
    }
    if versions != [] {
      assert versions[0] in versions;
      MaxDecides(versions, claimed);
      if v :| v in versions && PaddedExceeds(v, claimed) {
        var i :| 0 <= i < |lines| && States(lines, i, v);
        assert !Compatible(lines, claimed);
      }
    } else {
      forall i, v | 0 <= i < |lines| ensures !States(lines, i, v) {
        assert v !in versions;
      }
    }
  }

  /** The newest version an executable states, in tuple order. */
  ghost predicate Newest(lines: seq<string>, v: Version) {
    && (exists i :: 0 <= i < |lines| && States(lines, i, v))
    && forall i, u | 0 <= i < |lines| && States(lines, i, u) :: !TupleLess(v, u)
  }

  ghost predicate StatesNothing(lines: seq<string>) {
    forall i, v | 0 <= i < |lines| :: !States(lines, i, v)
  }

  lemma MeasuredIff(lines: seq<string>)
    ensures SliceVersions(lines, |lines|) == [] <==> StatesNothing(lines)
    ensures SliceVersions(lines, |lines|) != [] ==> Newest(lines, MaxOf(SliceVersions(lines, |lines|)))
  {
    hide SliceVersions, States, TupleLess, MaxOf;
    var versions := SliceVersions(lines, |lines|);
    forall v ensures v in versions <==> exists i :: 0 <= i < |lines| && States(lines, i, v) {
      StatedIff(lines, v);
    }
    if versions != [] {
      assert versions[0] in versions;
    } else {
      forall i, v | 0 <= i < |lines| ensures !States(lines, i, v) {
        assert v !in versions;
      }
    }
  }

  /** The version is the newest stated one, as the maximum of all slice versions. */
  ghost predicate MeasuredAs(lines: seq<string>, v: Version) {
    Newest(lines, v) && SliceVersions(lines, |lines|) != [] && v == MaxOf(SliceVersions(lines, |lines|))
  }

  ghost predicate Measured(outputs: seq<seq<string>>, values: seq<Version>) {
    |values| == |outputs| && forall k | 0 <= k < |outputs| :: MeasuredAs(outputs[k], values[k])
  }

  lemma MeasuredOne(lines: seq<string>, v: Version)
    requires SliceVersions(lines, |lines|) != [] && v == MaxOf(SliceVersions(lines, |lines|))
    ensures MeasuredAs(lines, v)
  {
    MeasuredIff(lines);
  }

  /** Comparing the measured version decides whether an executable is within the claim. */
  lemma MeasuredDecides(outputs: seq<seq<string>>, values: seq<Version>, k: nat, claimed: Version)
    requires Measured(outputs, values) && k < |outputs|
    ensures Compatible(outputs[k], claimed) <==> !PaddedExceeds(values[k], claimed)
  {
    hide Compatible, PaddedExceeds, SliceVersions, MaxOf, Newest;
    CompatibleIff(outputs[k], claimed);
  }

  /** Measure every executable in turn; the first without a deployment target is reported. */
  method MeasureTargets(outputs: seq<seq<string>>) returns (r: Result<seq<Version>, TargetError>)
    ensures r.Success? ==> |r.value| == |outputs| && Measured(outputs, r.value)
    ensures r.Failure? ==>
              && r.error.NoDeploymentTarget? && r.error.executable < |outputs|
              && StatesNothing(outputs[r.error.executable])
              && forall k | 0 <= k < r.error.executable :: !StatesNothing(outputs[k])
  {
    hide MaxOf, SliceVersions, StatesNothing, Newest, MeasuredAs;
    var measured: seq<Version> := [];
    for k := 0 to |outputs|
      invariant |measured| == k
      invariant forall j | 0 <= j < k :: !StatesNothing(outputs[j]) && MeasuredAs(outputs[j], measured[j])
    {
      var actual := ParseOtoolDeploymentTarget(outputs[k]);
      MeasuredIff(outputs[k]);
      if actual.None? {
        return Failure(NoDeploymentTarget(k));
      }
      MeasuredOne(outputs[k], actual.value);
      measured := measured + [actual.value];
    }
    r := Success(measured);
  }

  /** The platform is known, and every executable is within its claim. */
  ghost predicate AllWithin(outputs: seq<seq<string>>, tag: string) {
    ClaimedVersion(tag).Some? && forall k | 0 <= k < |outputs| :: Compatible(outputs[k], ClaimedVersion(tag).value)
  }

  /**
   * What is reported: the first executable that states nothing; else an unknown platform; else the first
   * executable whose newest version is above the claim.
   */
  ghost predicate FirstProblem(outputs: seq<seq<string>>, tag: string, e: TargetError) {
    match e
    case NoDeploymentTarget(k) =>
      k < |outputs| && StatesNothing(outputs[k]) && forall j | 0 <= j < k :: !StatesNothing(outputs[j])
    case UnsupportedPlatform(t) =>
      t == tag && outputs != [] && ClaimedVersion(tag).None? && forall j | 0 <= j < |outputs| :: !StatesNothing(outputs[j])
    case ExceedsClaim(k, actual) =>
      && k < |outputs| && Newest(outputs[k], actual)
      && ClaimedVersion(tag).Some? && NumericLess(ClaimedVersion(tag).value, actual)
      && (forall j | 0 <= j < k :: Compatible(outputs[j], ClaimedVersion(tag).value))
      && forall j | 0 <= j < |outputs| :: !StatesNothing(outputs[j])
  }

  /** A reported problem is one: not every executable is within the claim. */
  lemma ProblemRefutes(outputs: seq<seq<string>>, tag: string, e: TargetError)
    requires FirstProblem(outputs, tag, e)
    ensures outputs != [] && !AllWithin(outputs, tag)
  {
    hide States, NumericLess, ClaimedVersion;
  }

  lemma NothingStated(outputs: seq<seq<string>>, tag: string, k: nat)
    requires k < |outputs| && StatesNothing(outputs[k]) && forall j | 0 <= j < k :: !StatesNothing(outputs[j])
    ensures FirstProblem(outputs, tag, NoDeploymentTarget(k))
  {
  }

  lemma MeasuredStates(outputs: seq<seq<string>>, values: seq<Version>)
    requires Measured(outputs, values)
    ensures forall j | 0 <= j < |outputs| :: !StatesNothing(outputs[j]) && Newest(outputs[j], values[j])
  {
    hide SliceVersions, States, MaxOf, TupleLess;
    forall j | 0 <= j < |outputs| ensures !StatesNothing(outputs[j]) && Newest(outputs[j], values[j]) {
      assert MeasuredAs(outputs[j], values[j]);
    }
  }

  lemma UnknownPlatform(outputs: seq<seq<string>>, values: seq<Version>, tag: string)
    requires Measured(outputs, values) && outputs != [] && ClaimedVersion(tag).None?
    ensures FirstProblem(outputs, tag, UnsupportedPlatform(tag))
  {
    hide Measured, StatesNothing, Newest;
    MeasuredStates(outputs, values);
  }

  lemma AboveClaim(outputs: seq<seq<string>>, values: seq<Version>, tag: string, k: nat)
    requires Measured(outputs, values) && k < |outputs|
    requires ClaimedVersion(tag).Some? && PaddedExceeds(values[k], ClaimedVersion(tag).value)
    requires forall j | 0 <= j < k :: Compatible(outputs[j], ClaimedVersion(tag).value)
    ensures FirstProblem(outputs, tag, ExceedsClaim(k, values[k]))
  {
    hide ClaimedVersion, Compatible, PaddedExceeds, NumericLess, StatesNothing, Newest, MeasuredAs;
    MeasuredStates(outputs, values);
    PaddedIsNumeric(values[k], ClaimedVersion(tag).value);
  }

  lemma NoProblem(outputs: seq<seq<string>>, tag: string)
    requires outputs == [] || ClaimedVersion(tag).Some?
    requires forall k | 0 <= k < |outputs| :: Compatible(outputs[k], ClaimedVersion(tag).value)
    ensures outputs == [] || AllWithin(outputs, tag)
  {
  }

  /** Measure every executable, then hold each against the claim; the first problem is reported. */
  method ValidateDeploymentTargets(outputs: seq<seq<string>>, tag: string) returns (r: Result<seq<Version>, TargetError>)
    ensures r.Success? <==> outputs == [] || AllWithin(outputs, tag)
    ensures r.Success? ==> |r.value| == |outputs| && forall k | 0 <= k < |outputs| :: Newest(outputs[k], r.value[k])
    ensures r.Failure? ==> FirstProblem(outputs, tag, r.error)
  {
    hide ClaimedVersion, Compatible, PaddedExceeds, NumericLess, MaxOf, SliceVersions, StatesNothing, Newest;
    hide FirstProblem, AllWithin, Measured;
    var measure := MeasureTargets(outputs);
    if measure.Failure? {
      NothingStated(outputs, tag, measure.error.executable);
      ProblemRefutes(outputs, tag, measure.error);
      return measure;
    }
    var measured := measure.value;
    for k := 0 to |outputs|
      invariant k == 0 || ClaimedVersion(tag).Some?
      invariant forall j | 0 <= j < k :: Compatible(outputs[j], ClaimedVersion(tag).value)
    {
      var claimed := ClaimedVersion(tag);
      if claimed.None? {
        UnknownPlatform(outputs, measured, tag);
        ProblemRefutes(outputs, tag, UnsupportedPlatform(tag));
        return Failure(UnsupportedPlatform(tag));
      }
      MeasuredDecides(outputs, measured, k, claimed.value);
      if PaddedExceeds(measured[k], claimed.value) {
        AboveClaim(outputs, measured, tag, k);
        ProblemRefutes(outputs, tag, ExceedsClaim(k, measured[k]));
        return Failure(ExceedsClaim(k, measured[k]));
      }
    }
    NoProblem(outputs, tag);
    MeasuredStates(outputs, measured);
    r := Success(measured);
  }
}
