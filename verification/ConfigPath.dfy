/** Key paths such as `agents[].id`: parsing into steps, and writing steps back. */
module ConfigPath {
  import opened ConfigTypes
  import opened JsText

  predicate EndsInBrackets(name: string) {
    |name| >= 2 && name[|name| - 2..] == "[]"
  }

  /** The segment without its trailing bracket pairs. */
  function BaseName(segment: string): (name: string)
    ensures !EndsInBrackets(name)
  {
    if EndsInBrackets(segment) then BaseName(segment[..|segment| - 2]) else segment
  }

  function ArrayDepth(segment: string): nat {
    if EndsInBrackets(segment) then ArrayDepth(segment[..|segment| - 2]) + 1 else 0
  }

  function Elements(n: nat): (steps: seq<Step>)
    ensures |steps| == n && forall i | 0 <= i < n :: steps[i] == Element
  {
    seq(n, i => Element)
  }

  function SegmentSteps(segment: string): seq<Step> {
    [Member(BaseName(segment))] + Elements(ArrayDepth(segment))
  }

  function AllSteps(segments: seq<string>): seq<Step> {
    if segments == [] then [] else AllSteps(segments[..|segments| - 1]) + SegmentSteps(segments[|segments| - 1])
  }

  /** Parse a key path into member and array steps. */
  method ParsePath(path: string) returns (steps: seq<Step>)
    ensures steps == AllSteps(Split(path, '.'))
  {
    var segments := Split(path, '.');
    steps := [];
    for k := 0 to |segments|
      invariant steps == AllSteps(segments[..k])
    {
      var name, arrays := segments[k], 0;
      while EndsInBrackets(name)
        invariant BaseName(name) == BaseName(segments[k])
        invariant arrays + ArrayDepth(name) == ArrayDepth(segments[k])
        decreases |name|
      {
        name := name[..|name| - 2];
        arrays := arrays + 1;
      }
      steps := steps + [Member(name)];
      for i := 0 to arrays
        invariant steps == AllSteps(segments[..k]) + [Member(name)] + Elements(i)
      {
        steps := steps + [Element];
      }
      assert segments[..k + 1][..k] == segments[..k];
    }
    assert segments[..|segments|] == segments;
  }

  // ---------------------------------------------------------------- writing paths

  function RenderStep(step: Step): string {
    match step
    case Member(name) => "." + name
    case Element => "[]"
  }

  /** Every member with a leading dot. */
  function RenderSteps(steps: seq<Step>): string {
    if steps == [] then "" else RenderSteps(steps[..|steps| - 1]) + RenderStep(steps[|steps| - 1])
  }

  /** The path text of a step list that starts with a member. */
  function Render(steps: seq<Step>): string
    requires steps != [] && steps[0].Member?
  {
    RenderStartsWithDot(steps);
    RenderSteps(steps)[1..]
  }

  lemma {:induction false} RenderStartsWithDot(steps: seq<Step>)
    requires steps != [] && steps[0].Member?
    ensures |RenderSteps(steps)| > 0 && RenderSteps(steps)[0] == '.'
  {
    if |steps| > 1 {
      RenderStartsWithDot(steps[..|steps| - 1]);
    } else {
      assert RenderSteps(steps[..0]) == "";
    }
  }

  lemma {:induction false} RenderAppend(a: seq<Step>, b: seq<Step>)
    ensures RenderSteps(a + b) == RenderSteps(a) + RenderSteps(b)
  {
    hide RenderStep, RenderSteps;
    if b == [] {
      assert a + b == a;
      RenderNothing();
    } else {
      var k := |b| - 1;
      RenderAppend(a, b[..k]);
      assert b == b[..k] + [b[k]] && a + b == (a + b[..k]) + [b[k]];
      RenderExtend(a + b[..k], b[k]);
      RenderExtend(b[..k], b[k]);
      Reassociate(RenderSteps(a), RenderSteps(b[..k]), RenderStep(b[k]));
    }
  }

  lemma RenderExtend(steps: seq<Step>, step: Step)
    ensures RenderSteps(steps + [step]) == RenderSteps(steps) + RenderStep(step)
  {
    assert (steps + [step])[..|steps|] == steps;
  }

  function Join(segments: seq<string>): string {
    if segments == [] then "" else "." + segments[0] + Join(segments[1..])
  }

  lemma {:induction false} JoinAppend(segments: seq<string>, segment: string)
    ensures Join(segments + [segment]) == Join(segments) + "." + segment
  {
    if segments != [] {
      assert (segments + [segment])[1..] == segments[1..] + [segment];
      JoinAppend(segments[1..], segment);
    }
  }

  /** Splitting at dots loses nothing. */
  lemma {:induction false} JoinSplit(path: string)
    ensures Join(Split(path, '.')) == "." + path
  {
    hide Join;
    if path != "" {
      JoinSplit(path[1..]);
      var rest := Split(path[1..], '.');
      assert path == [path[0]] + path[1..];
      if path[0] == '.' {
        JoinDot(rest);
      } else {
        JoinFirst(path[0], rest);
      }
    } else {
      JoinDot([]);
      assert [""] + [] == [""];
    }
  }

  lemma JoinDot(rest: seq<string>)
    ensures Join([]) == "" && Join([""] + rest) == "." + Join(rest)
  {
    assert ([""] + rest)[1..] == rest;
  }

  lemma JoinFirst(c: char, rest: seq<string>)
    requires rest != [] && c != '.'
    ensures Join([[c] + rest[0]] + rest[1..]) == "." + [c] + Join(rest)[1..]
  {
    assert Join(rest)[1..] == rest[0] + Join(rest[1..]);
  }

  function Brackets(n: nat): string {
    if n == 0 then "" else Brackets(n - 1) + "[]"
  }

  lemma {:induction false} BaseAndBrackets(segment: string)
    ensures segment == BaseName(segment) + Brackets(ArrayDepth(segment))
  {
    if EndsInBrackets(segment) {
      var inner := segment[..|segment| - 2];
      BaseAndBrackets(inner);
      assert segment == inner + "[]";
    }
  }

  lemma {:induction false} RenderElements(n: nat)
    ensures RenderSteps(Elements(n)) == Brackets(n)
  {
    if n > 0 {
      assert Elements(n)[..n - 1] == Elements(n - 1);
      RenderElements(n - 1);
    }
  }

  lemma RenderSegment(segment: string)
    ensures RenderSteps(SegmentSteps(segment)) == "." + segment
  {
    hide BaseName, ArrayDepth, EndsInBrackets, Brackets, Elements, RenderSteps;
    var name := BaseName(segment);
    RenderAppend([Member(name)], Elements(ArrayDepth(segment)));
    RenderMember(name);
    RenderElements(ArrayDepth(segment));
    BaseAndBrackets(segment);
    Reassociate(".", name, Brackets(ArrayDepth(segment)));
  }

  lemma RenderMember(name: string)
    ensures RenderSteps([Member(name)]) == "." + name
  {
    assert [Member(name)][..0] == [];
  }

  lemma Reassociate(a: string, b: string, c: string)
    ensures (a + b) + c == a + (b + c)
  {
  }

  lemma RenderNothing()
    ensures RenderSteps([]) == "" && Join([]) == ""
  {
  }

  lemma {:induction false} RenderSegments(segments: seq<string>)
    ensures RenderSteps(AllSteps(segments)) == Join(segments)
  {
    hide SegmentSteps, RenderSteps, Join;
    if segments == [] {
      RenderNothing();
    } else {
      var k := |segments| - 1;
      RenderSegments(segments[..k]);
      RenderSegment(segments[k]);
      RenderAppend(AllSteps(segments[..k]), SegmentSteps(segments[k]));
      JoinAppend(segments[..k], segments[k]);
      assert segments == segments[..k] + [segments[k]];
    }
  }

  lemma {:induction false} StartsWithMember(segments: seq<string>)
    requires segments != []
    ensures AllSteps(segments) != [] && AllSteps(segments)[0].Member?
  {
    if |segments| > 1 {
      StartsWithMember(segments[..|segments| - 1]);
    } else {
      assert AllSteps(segments[..0]) == [];
    }
  }

  /** Writing a parsed path gives the path back: parsing forgets nothing. */
  lemma ParseThenRender(path: string)
    ensures var steps := AllSteps(Split(path, '.'));
            steps != [] && steps[0].Member? && Render(steps) == path
  {
    StartsWithMember(Split(path, '.'));
    RenderSegments(Split(path, '.'));
    JoinSplit(path);
  }

  // ---------------------------------------------------------------- the other direction

  predicate PlainName(name: string) {
    '.' !in name && !EndsInBrackets(name)
  }

  /** Steps that some path denotes. */
  ghost predicate Denotable(steps: seq<Step>) {
    && steps != [] && steps[0].Member?
    && forall i | 0 <= i < |steps| && steps[i].Member? :: PlainName(steps[i].name)
  }

  ghost function ExtendLast(segments: seq<string>, tail: string): seq<string>
    requires segments != []
  {
    segments[..|segments| - 1] + [segments[|segments| - 1] + tail]
  }

  /** Adding text without dots extends the last segment. */
  lemma {:induction false} SplitExtend(path: string, tail: string)
    requires '.' !in tail
    ensures Split(path + tail, '.') == ExtendLast(Split(path, '.'), tail)
  {
    if path == "" {
      SplitPlain(tail, "", '.');
      assert path + tail == tail;
    } else {
      SplitExtend(path[1..], tail);
      assert (path + tail)[1..] == path[1..] + tail;
      var rest := Split(path[1..], '.');
      if path[0] == '.' {
        assert ExtendLast([""] + rest, tail) == [""] + ExtendLast(rest, tail);
      } else {
        FirstOfExtended(rest, tail, [path[0]]);
      }
    }
  }

  lemma FirstOfExtended(rest: seq<string>, tail: string, head: string)
    requires rest != []
    ensures ExtendLast([head + rest[0]] + rest[1..], tail) ==
            [head + ExtendLast(rest, tail)[0]] + ExtendLast(rest, tail)[1..]
  {
    if |rest| == 1 {
      assert head + rest[0] + tail == head + (rest[0] + tail);
    }
  }

  lemma LastSegment(segments: seq<string>, last: string)
    requires segments != []
    ensures AllSteps(segments[..|segments| - 1] + [last]) == AllSteps(segments[..|segments| - 1]) + SegmentSteps(last)
  {
    var front := segments[..|segments| - 1];
    assert (front + [last])[..|front|] == front;
  }

  lemma MoreBrackets(segment: string)
    ensures BaseName(segment + "[]") == BaseName(segment) && ArrayDepth(segment + "[]") == ArrayDepth(segment) + 1
  {
    assert (segment + "[]")[..|segment|] == segment;
  }

  lemma RenderLast(front: seq<Step>, last: Step)
    requires front != [] && front[0].Member?
    ensures Render(front + [last]) == Render(front) + RenderStep(last)
  {
    hide RenderStep;
    RenderStartsWithDot(front);
    RenderStartsWithDot(front + [last]);
    assert (front + [last])[..|front|] == front;
  }

  lemma ParseMoreMember(path: string, name: string)
    requires PlainName(name)
    ensures AllSteps(Split(path + "." + name, '.')) == AllSteps(Split(path, '.')) + [Member(name)]
  {
    var segments := Split(path, '.');
    SplitMore(path, name, '.');
    assert (segments + [name])[..|segments|] == segments;
  }

  lemma BracketsStep(segment: string)
    ensures SegmentSteps(segment + "[]") == SegmentSteps(segment) + [Element]
  {
    MoreBrackets(segment);
    assert Elements(ArrayDepth(segment) + 1) == Elements(ArrayDepth(segment)) + [Element];
  }

  lemma ParseMoreBrackets(path: string)
    ensures AllSteps(Split(path + "[]", '.')) == AllSteps(Split(path, '.')) + [Element]
  {
    hide Split, SegmentSteps, AllSteps;
    var segments := Split(path, '.');
    var n := |segments| - 1;
    SplitExtend(path, "[]");
    LastSegment(segments, segments[n] + "[]");
    LastSegment(segments, segments[n]);
    BracketsStep(segments[n]);
    assert segments == segments[..n] + [segments[n]];
  }

  lemma ParseSingle(name: string)
    requires PlainName(name)
    ensures Render([Member(name)]) == name && AllSteps(Split(name, '.')) == [Member(name)]
  {
    assert [Member(name)][..0] == [] && [name][..0] == [];
    assert RenderSteps([Member(name)]) == "." + name;
    SplitPlain(name, "", '.');
  }

  /** Parsing a written step list gives the list back. */
  lemma {:induction false} RenderThenParse(steps: seq<Step>)
    requires Denotable(steps)
    ensures AllSteps(Split(Render(steps), '.')) == steps
  {
    hide Split, AllSteps, Render, EndsInBrackets;
    var k := |steps| - 1;
    var front, last := steps[..k], steps[k];
    assert steps == front + [last];
    if k == 0 {
      assert steps == [last];
      ParseSingle(last.name);
    } else {
      RenderThenParse(front);
      RenderLast(front, last);
      match last
      case Member(name) =>
        assert Render(front) + ("." + name) == Render(front) + "." + name;
        ParseMoreMember(Render(front), name);
      case Element => ParseMoreBrackets(Render(front));
    }
  }
}
