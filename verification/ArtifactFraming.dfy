/** The byte stream fed to the client artifact digest: length-prefixed paths and contents. */
module ArtifactFraming {
  import opened Results

  newtype byte = b: int | 0 <= b < 256

  type Bytes = seq<byte>

  /** One artifact: the encoded bytes of its path, and its content. */
  datatype Artifact = Artifact(path: Bytes, content: Bytes)

  const COLON: byte := 58
  const ZERO: byte := 48

  predicate AreDigits(s: Bytes) {
    forall i | 0 <= i < |s| :: ZERO <= s[i] <= ZERO + 9
  }

  /** Decimal digits, most significant first. */
  function Decimal(n: nat): (digits: Bytes)
    ensures digits != [] && AreDigits(digits)
  {
    if n < 10 then [ZERO + n as byte] else Decimal(n / 10) + [ZERO + (n % 10) as byte]
  }

  function Frame(bytes: Bytes): Bytes {
    Decimal(|bytes|) + [COLON] + bytes
  }

  function Frames(parts: seq<Bytes>): Bytes {
    if parts == [] then [] else Frame(parts[0]) + Frames(parts[1..])
  }

  /** Path and content of every artifact, in list order. */
  function Parts(artifacts: seq<Artifact>): seq<Bytes> {
    if artifacts == [] then [] else [artifacts[0].path, artifacts[0].content] + Parts(artifacts[1..])
  }

  function Stream(artifacts: seq<Artifact>): Bytes {
    Frames(Parts(artifacts))
  }

  // ---------------------------------------------------------------- the digest loop

  datatype DigestError = NoArtifacts

  /** What a hash object has been fed. */
  class Hash {
    var fed: Bytes

    constructor ()
      ensures fed == []
    {
      fed := [];
    }

    method Update(bytes: Bytes)
      modifies this
      ensures fed == old(fed) + bytes
    {
      fed := fed + bytes;
    }
  }

  /** Feed every artifact to the hash; an empty build is refused. */
  method FeedArtifacts(digest: Hash, artifacts: seq<Artifact>) returns (r: Result<nat, DigestError>)
    modifies digest
    ensures r == if artifacts == [] then Failure(NoArtifacts) else Success(|artifacts|)
    ensures digest.fed == old(digest.fed) + Stream(artifacts)
  {
    StreamNothing();
    if |artifacts| == 0 {
      return Failure(NoArtifacts);
    }
    hide Stream, Frame, Decimal;
    for k := 0 to |artifacts|
      invariant digest.fed == old(digest.fed) + Stream(artifacts[..k])
    {
      var path, content := artifacts[k].path, artifacts[k].content;
      digest.Update(Decimal(|path|) + [COLON]);
      digest.Update(path);
      digest.Update(Decimal(|content|) + [COLON]);
      digest.Update(content);
      StreamAppend(artifacts[..k], artifacts[k]);
      assert artifacts[..k + 1] == artifacts[..k] + [artifacts[k]];
      FourUpdates(old(digest.fed), Stream(artifacts[..k]), path, content);
    }
    assert artifacts[..|artifacts|] == artifacts;
    r := Success(|artifacts|);
  }

  lemma StreamNothing()
    ensures Stream([]) == []
  {
  }

  lemma FourUpdates(before: Bytes, fed: Bytes, path: Bytes, content: Bytes)
    ensures before + fed + (Decimal(|path|) + [COLON]) + path + (Decimal(|content|) + [COLON]) + content ==
            before + (fed + (Frame(path) + Frame(content)))
  {
    hide Decimal;
    var first, second := Decimal(|path|) + [COLON], Decimal(|content|) + [COLON];
    Associative(before + fed + first + path, second, content);
    Associative(before + fed, first, path);
    Associative(before + fed, Frame(path), Frame(content));
    Associative(before, fed, Frame(path) + Frame(content));
  }

  lemma Associative(a: Bytes, b: Bytes, c: Bytes)
    ensures (a + b) + c == a + (b + c)
  {
  }

  lemma {:induction false} StreamAppend(artifacts: seq<Artifact>, last: Artifact)
    ensures Stream(artifacts + [last]) == Stream(artifacts) + (Frame(last.path) + Frame(last.content))
  {
    if artifacts == [] {
      TwoFrames(last, []);
      assert artifacts + [last] == [last] + [];
      assert Frame(last.content) + Stream([]) == Frame(last.content);
    } else {
      StreamAppend(artifacts[1..], last);
      assert (artifacts + [last])[1..] == artifacts[1..] + [last];
      TwoFrames(artifacts[0], artifacts[1..]);
      TwoFrames(artifacts[0], artifacts[1..] + [last]);
      assert artifacts == [artifacts[0]] + artifacts[1..];
      assert artifacts + [last] == [artifacts[0]] + (artifacts[1..] + [last]);
    }
  }

  lemma TwoFrames(first: Artifact, rest: seq<Artifact>)
    ensures Stream([first] + rest) == Frame(first.path) + (Frame(first.content) + Stream(rest))
  {
    assert ([first] + rest)[1..] == rest && ([first] + rest)[0] == first;
    assert Parts([first] + rest) == [first.path, first.content] + Parts(rest);
    var parts := [first.path, first.content] + Parts(rest);
    assert parts[1..] == [first.content] + Parts(rest) && parts[1..][1..] == Parts(rest);
    assert Frames(parts) == Frame(first.path) + Frames(parts[1..]);
    assert Frames(parts[1..]) == Frame(first.content) + Frames(Parts(rest));
  }

  // ---------------------------------------------------------------- unique decoding

  function Value(digits: Bytes): nat
    requires AreDigits(digits)
  {
    if digits == [] then 0 else Value(digits[..|digits| - 1]) * 10 + (digits[|digits| - 1] - ZERO) as nat
  }

  lemma {:induction false} ValueOfDecimal(n: nat)
    ensures Value(Decimal(n)) == n
  {
    if n >= 10 {
      ValueOfDecimal(n / 10);
      assert Decimal(n)[..|Decimal(n)| - 1] == Decimal(n / 10);
    } else {
      assert Decimal(n)[..0] == [];
    }
  }

  /** The position of the first colon, or the length. */
  function FirstColon(s: Bytes): (k: nat)
    ensures k <= |s| && (k < |s| ==> s[k] == COLON) && COLON !in s[..k]
  {
    if s == [] || s[0] == COLON then 0
    else
      var k := FirstColon(s[1..]) + 1;
      assert s[..k] == [s[0]] + s[1..][..k - 1];
      k
  }

  /** Read one frame off the front, if there is one. */
  function ReadFrame(s: Bytes): (r: Option<(Bytes, Bytes)>)
    ensures r.Some? ==> |r.value.1| < |s|
  {
    var k := FirstColon(s);
    if k == |s| || k == 0 || !AreDigits(s[..k]) then None
    else
      var n := Value(s[..k]);
      if k + 1 + n > |s| then None else Some((s[k + 1..k + 1 + n], s[k + 1 + n..]))
  }

  /** Read frames to the end of the stream. */
  function ReadFrames(s: Bytes): Option<seq<Bytes>>
    decreases |s|
  {
    if s == [] then Some([])
    else match ReadFrame(s)
      case None => None
      case Some((part, rest)) =>
        match ReadFrames(rest)
        case None => None
        case Some(parts) => Some([part] + parts)
  }

  lemma ReadWrittenFrame(bytes: Bytes, rest: Bytes)
    ensures ReadFrame(Frame(bytes) + rest) == Some((bytes, rest))
  {
    var s, digits := Frame(bytes) + rest, Decimal(|bytes|);
    var k := |digits|;
    assert s[..k] == digits && s[k] == COLON;
    ColonAt(s, k);
    ValueOfDecimal(|bytes|);
    assert s[k + 1..k + 1 + |bytes|] == bytes && s[k + 1 + |bytes|..] == rest;
  }

  lemma {:induction false} ColonAt(s: Bytes, k: nat)
    requires k < |s| && s[k] == COLON && AreDigits(s[..k])
    ensures FirstColon(s) == k
  {
    if k > 0 {
      assert s[..k][0] == s[0];
      assert s[1..][..k - 1] == s[..k][1..];
      ColonAt(s[1..], k - 1);
    }
  }

  /** Reading a written stream gives its parts back. */
  lemma {:induction false} ReadWrittenFrames(parts: seq<Bytes>)
    ensures ReadFrames(Frames(parts)) == Some(parts)
  {
    if parts != [] {
      ReadWrittenFrames(parts[1..]);
      ReadWrittenFrame(parts[0], Frames(parts[1..]));
      assert parts == [parts[0]] + parts[1..];
    }
  }

  lemma {:induction false} PartsInjective(a: seq<Artifact>, b: seq<Artifact>)
    requires Parts(a) == Parts(b)
    ensures a == b
  {
    PartsLength(a);
    PartsLength(b);
    if a != [] {
      assert Parts(a)[0] == Parts(b)[0] && Parts(a)[1] == Parts(b)[1];
      assert Parts(a)[2..] == Parts(a[1..]) && Parts(b)[2..] == Parts(b[1..]);
      PartsInjective(a[1..], b[1..]);
      assert a == [a[0]] + a[1..] && b == [b[0]] + b[1..];
    }
  }

  /** Each artifact's path comes right before its content, in list order. */
  lemma {:induction false} PathThenContent(artifacts: seq<Artifact>, k: nat)
    requires k < |artifacts|
    ensures |Parts(artifacts)| == 2 * |artifacts|
    ensures Parts(artifacts)[2 * k] == artifacts[k].path && Parts(artifacts)[2 * k + 1] == artifacts[k].content
  {
    PartsLength(artifacts);
    if k > 0 {
      PathThenContent(artifacts[1..], k - 1);
    }
  }

  lemma {:induction false} PartsLength(a: seq<Artifact>)
    ensures |Parts(a)| == 2 * |a|
  {
    if a != [] {
      PartsLength(a[1..]);
    }
  }

  /** Equal streams come from equal lists of paths and contents. */
  lemma StreamInjective(a: seq<Artifact>, b: seq<Artifact>)
    requires Stream(a) == Stream(b)
    ensures a == b
  {
    ReadWrittenFrames(Parts(a));
    ReadWrittenFrames(Parts(b));
    PartsInjective(a, b);
  }
}
