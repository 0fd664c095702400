/** The server-version gate of the test fixtures: `checkVersion(major, minor,
    patch=0)` and its fixed use `is_redis_2_6`. The reply of `info("server")`
    is taken as an input map from field names to their string values. */
module RedisVersion {
  import opened PyStr

  const VersionKey: string := "redis_version"
  const Separator: char := '.'

  /** What the deferred of `checkVersion` fires with: a boolean answer, or the
      ValueError that `int()` raised on the named segment. */
  datatype Outcome = Answer(satisfied: bool) | ValueError(segment: string)

  /** The list comprehension's result: every segment's number, or the
      position of the first segment that `int()` rejected. */
  datatype Segments = Numbers(values: seq<int>) | BadSegment(at: nat)

  /** `f` applied to every element, in order. */
  function Map<A, B>(f: A -> B, xs: seq<A>): (ys: seq<B>)
    ensures |ys| == |xs| && forall i :: 0 <= i < |xs| ==> ys[i] == f(xs[i])
  {
    seq(|xs|, i requires 0 <= i < |xs| => f(xs[i]))
  }

  lemma MapAppend<A, B>(f: A -> B, xs: seq<A>, ys: seq<A>)
    ensures Map(f, xs + ys) == Map(f, xs) + Map(f, ys)
  {
    forall i | 0 <= i < |xs| + |ys|
      ensures Map(f, xs + ys)[i] == (Map(f, xs) + Map(f, ys))[i]
    {
      if i < |xs| {
        assert (xs + ys)[i] == xs[i];
      } else {
        assert (xs + ys)[i] == ys[i - |xs|];
      }
    }
  }

  /** The value `int()` gives each segment, in order; None where it raises. */
  function Conversions(parts: seq<string>): (cs: seq<Option<int>>)
    ensures |cs| == |parts| && forall i :: 0 <= i < |parts| ==> cs[i] == ParseInt(parts[i])
  {
    Map(ParseInt, parts)
  }

  /** Walks the conversions left to right and stops at the first that raised. */
  function FirstFailure(cs: seq<Option<int>>): (r: Segments)
    ensures r.Numbers? ==>
      && |r.values| == |cs|
      && forall i :: 0 <= i < |cs| ==> cs[i] == Some(r.values[i])
    ensures r.BadSegment? ==>
      && r.at < |cs| && cs[r.at] == None
      && forall j :: 0 <= j < r.at ==> cs[j].Some?
  {
    if cs == [] then Numbers([])
    else
      match cs[0]
      case None => BadSegment(0)
      case Some(n) =>
        match FirstFailure(cs[1..])
        case BadSegment(k) =>
          assert forall j :: 1 <= j <= k ==> cs[j] == cs[1..][j - 1];
          BadSegment(k + 1)
        case Numbers(vs) =>
          assert forall i :: 1 <= i < |cs| ==> cs[i] == cs[1..][i - 1];
          Numbers([n] + vs)
  }

  /** `[int(x) for x in parts]`, evaluated left to right: every segment's
      number, or the position of the first segment `int()` raised on. */
  function ParseSegments(parts: seq<string>): (r: Segments)
    ensures r.Numbers? ==>
      && |r.values| == |parts|
      && forall i :: 0 <= i < |parts| ==> ParseInt(parts[i]) == Some(r.values[i])
    ensures r.BadSegment? ==>
      && r.at < |parts| && ParseInt(parts[r.at]) == None
      && forall j :: 0 <= j < r.at ==> ParseInt(parts[j]).Some?
  {
    FirstFailure(Conversions(parts))
  }

  /** Stopping at the first failure of a concatenation: the left half's
      failure wins, then the right half's, shifted past the left. */
  lemma {:induction false} FirstFailureAppend(c: seq<Option<int>>, d: seq<Option<int>>)
    ensures FirstFailure(c + d) ==
      match FirstFailure(c)
      case BadSegment(k) => BadSegment(k)
      case Numbers(a) =>
        match FirstFailure(d)
        case BadSegment(k) => BadSegment(|c| + k)
        case Numbers(b) => Numbers(a + b)
  {
    if c == [] {
      assert c + d == d;
    } else {
      assert (c + d)[0] == c[0] && (c + d)[1..] == c[1..] + d;
      FirstFailureAppend(c[1..], d);
      match FirstFailure(c[1..])
      case BadSegment(_) =>
      case Numbers(a) =>
        match FirstFailure(d)
        case BadSegment(_) =>
        case Numbers(b) =>
          if c[0].Some? {
            assert [c[0].value] + (a + b) == ([c[0].value] + a) + b;
          }
    }
  }

  /** Converting a concatenation converts each half, the left one first. */
  lemma ParseSegmentsAppend(p: seq<string>, q: seq<string>)
    ensures ParseSegments(p + q) ==
      match ParseSegments(p)
      case BadSegment(k) => BadSegment(k)
      case Numbers(a) =>
        match ParseSegments(q)
        case BadSegment(k) => BadSegment(|p| + k)
        case Numbers(b) => Numbers(a + b)
  {
    ConversionsAppend(p, q);
    FirstFailureAppend(Conversions(p), Conversions(q));
  }

  lemma ConversionsAppend(p: seq<string>, q: seq<string>)
    ensures Conversions(p + q) == Conversions(p) + Conversions(q)
  {
    MapAppend(ParseInt, p, q);
  }


  /** The standard lexicographic strict order on integer sequences of one
      length: the first position where they differ decides. */
  predicate LexLess(a: seq<int>, b: seq<int>)
    requires |a| == |b|
  {
    a != [] && (a[0] < b[0] || (a[0] == b[0] && LexLess(a[1..], b[1..])))
  }

  lemma {:induction false} LexLessIrreflexive(a: seq<int>)
    ensures !LexLess(a, a)
  {
    if a != [] {
      LexLessIrreflexive(a[1..]);
    }
  }

  lemma {:induction false} LexLessTransitive(a: seq<int>, b: seq<int>, c: seq<int>)
    requires |a| == |b| == |c|
    requires LexLess(a, b) && LexLess(b, c)
    ensures LexLess(a, c)
  {
    if a[0] == b[0] == c[0] {
      LexLessTransitive(a[1..], b[1..], c[1..]);
    }
  }

  /** Any two versions compare: the order is total. */
  lemma {:induction false} LexLessTotal(a: seq<int>, b: seq<int>)
    requires |a| == |b|
    ensures a == b || LexLess(a, b) || LexLess(b, a)
  {
    if a != [] && a[0] == b[0] {
      LexLessTotal(a[1..], b[1..]);
      if a[1..] == b[1..] {
        assert a == [a[0]] + a[1..] && b == [b[0]] + b[1..];
      }
    }
  }

  /** On triples the order is the one spelled out position by position. */
  lemma LexLessTriple(a: seq<int>, b: seq<int>)
    requires |a| == |b| == 3
    ensures LexLess(a, b) <==>
      a[0] < b[0] || (a[0] == b[0] && (a[1] < b[1] || (a[1] == b[1] && a[2] < b[2])))
  {
    assert a[1..][0] == a[1] && b[1..][0] == b[1];
    assert a[1..][1..] == a[2..] && b[1..][1..] == b[2..];
    assert a[2..][0] == a[2] && b[2..][0] == b[2];
    assert !LexLess(a[2..][1..], b[2..][1..]);
    assert LexLess(a[2..], b[2..]) <==> a[2] < b[2];
    assert LexLess(a[1..], b[1..]) <==> a[1] < b[1] || (a[1] == b[1] && a[2] < b[2]);
  }

  /** The nested comparison of `checkVersion` on the first three numbers: it
      holds exactly when they are at least `(major, minor, patch)`. */
  function MeetsMinimum(ver: seq<int>, major: int, minor: int, patch: int): (r: bool)
    requires |ver| >= 3
    ensures r <==> !LexLess(ver[..3], [major, minor, patch])
  {
    LexLessTriple(ver[..3], [major, minor, patch]);
    if ver[0] > major then true
    else if ver[0] == major then
      if ver[1] > minor then true
      else if ver[1] == minor then ver[2] >= patch
      else false
    else false
  }

  /** `ver_list` after a two-number version was padded with patch 0. */
  function Padded(vs: seq<int>): (p: seq<int>)
    requires |vs| >= 2
    ensures |p| >= 3 && p[..2] == vs[..2]
    ensures p[2] == if |vs| == 2 then 0 else vs[2]
    ensures |vs| == 2 ==> |p| == 3
    ensures |vs| > 2 ==> p == vs
  {
    if |vs| == 2 then vs + [0] else vs
  }

  /** `checkVersion` once the version string is split into `parts`: convert
      every segment, answer false below two numbers, pad, compare. */
  function CompareSegments(parts: seq<string>, major: int, minor: int, patch: int): (r: Outcome)
    ensures r.ValueError? ==> r.segment in parts && ParseInt(r.segment) == None
    ensures r.ValueError? ==>
      exists k :: 0 <= k < |parts| && r.segment == parts[k] && ParseInt(parts[k]) == None
        && (forall j :: 0 <= j < k ==> ParseInt(parts[j]).Some?)
  {
    match ParseSegments(parts)
    case BadSegment(k) => ValueError(parts[k])
    case Numbers(verList) =>
      if |verList| < 2 then Answer(false)
      else Answer(MeetsMinimum(Padded(verList), major, minor, patch))
  }

  /** The outcome of `checkVersion(major, minor, patch)` against the fields
      `info` of the server's reply. */
  function VersionAtLeast(info: map<string, string>, major: int, minor: int, patch: int := 0): (r: Outcome)
    ensures VersionKey !in info ==> r == Answer(false)
    ensures r.ValueError? ==>
      VersionKey in info && r.segment in Split(info[VersionKey], Separator) && ParseInt(r.segment) == None
    ensures r.ValueError? ==>
      var parts := Split(info[VersionKey], Separator);
      exists k :: 0 <= k < |parts| && r.segment == parts[k] && ParseInt(parts[k]) == None
        && (forall j :: 0 <= j < k ==> ParseInt(parts[j]).Some?)
  {
    if VersionKey !in info then Answer(false)
    else CompareSegments(Split(info[VersionKey], Separator), major, minor, patch)
  }

  /** The reply to `info("server")` holding only the given version string. */
  function ServerInfo(version: string): map<string, string> {
    map[VersionKey := version]
  }

  /** Only the version field of the reply matters: every reply holding the
      same version string has the same outcome. */
  lemma OnlyVersionFieldMatters(info: map<string, string>, major: int, minor: int, patch: int)
    requires VersionKey in info
    ensures VersionAtLeast(info, major, minor, patch) ==
            VersionAtLeast(ServerInfo(info[VersionKey]), major, minor, patch)
  {
    assert VersionKey in ServerInfo(info[VersionKey]);
  }

  /** A version string written as dot-separated segments is judged on exactly
      those segments. */
  lemma VersionOfSegments(parts: seq<string>, major: int, minor: int, patch: int)
    requires |parts| >= 1
    requires forall i :: 0 <= i < |parts| ==> Separator !in parts[i]
    ensures VersionAtLeast(ServerInfo(Join(parts, Separator)), major, minor, patch) ==
            CompareSegments(parts, major, minor, patch)
  {
    SplitJoin(parts, Separator);
  }

  /** A version string is an error exactly when one of its segments is not an
      integer literal; when every segment is one, the answer is true exactly
      when the (padded) first three numbers are at least the requested ones. */
  lemma MalformedIsError(parts: seq<string>, major: int, minor: int, patch: int)
    ensures CompareSegments(parts, major, minor, patch).ValueError? <==>
      exists i :: 0 <= i < |parts| && ParseInt(parts[i]) == None
    ensures ParseSegments(parts).Numbers? && |parts| >= 2 ==>
      CompareSegments(parts, major, minor, patch) ==
        Answer(!LexLess(Padded(ParseSegments(parts).values)[..3], [major, minor, patch]))
  {
    if ParseSegments(parts).Numbers? {
      assert forall i :: 0 <= i < |parts| ==> ParseInt(parts[i]).Some?;
    }
  }

  /** A version without a dot is one segment, which is too short: false when it
      is a number, the ValueError otherwise. */
  lemma OneSegmentIsFalse(version: string, major: int, minor: int, patch: int)
    requires Separator !in version
    ensures VersionAtLeast(ServerInfo(version), major, minor, patch) ==
      if ParseInt(version).Some? then Answer(false) else ValueError(version)
  {
    SplitNoSeparator(version, Separator);
  }

  /** `a.b` behaves as `a.b.0` against every requested version. */
  lemma TwoSegmentsPadded(a: string, b: string, major: int, minor: int, patch: int)
    requires Separator !in a && Separator !in b
    ensures VersionAtLeast(ServerInfo(a + "." + b), major, minor, patch) ==
            VersionAtLeast(ServerInfo(a + "." + b + ".0"), major, minor, patch)
  {
    JoinPair(a, b, Separator);
    assert Join([a, b], Separator) == a + "." + b;
    JoinTriple(a, b, "0", Separator);
    assert Join([a, b, "0"], Separator) == a + "." + b + ".0";
    VersionOfSegments([a, b], major, minor, patch);
    VersionOfSegments([a, b, "0"], major, minor, patch);
    PatchZeroPadding(a, b, major, minor, patch);
  }

  /** Segments `[a, b]` and `[a, b, "0"]` have the same outcome. */
  lemma PatchZeroPadding(a: string, b: string, major: int, minor: int, patch: int)
    ensures CompareSegments([a, b], major, minor, patch) == CompareSegments([a, b, "0"], major, minor, patch)
  {
    ParseShowNat(0);
    assert ShowNat(0) == "0";
    assert ParseSegments(["0"]) == Numbers([0]) by {
      assert ["0"][1..] == [];
    }
    ParseSegmentsAppend([a, b], ["0"]);
    assert [a, b] + ["0"] == [a, b, "0"];
    match ParseSegments([a, b])
    case BadSegment(k) =>
      assert [a, b, "0"][k] == [a, b][k];
    case Numbers(vs) =>
      assert ParseSegments([a, b, "0"]) == Numbers(vs + [0]);
  }

  /** Segments past the third do not take part in the comparison; they still
      have to be integer literals. */
  lemma ExtraSegmentsIgnored(version: string, extra: string, major: int, minor: int, patch: int)
    requires |Split(version, Separator)| >= 3
    requires ParseSegments(Split(version, Separator)).Numbers?
    requires Separator !in extra
    ensures VersionAtLeast(ServerInfo(version + "." + extra), major, minor, patch) ==
      if ParseInt(extra).Some? then VersionAtLeast(ServerInfo(version), major, minor, patch)
      else ValueError(extra)
  {
    var parts := Split(version, Separator);
    SplitAppend(version, Separator, extra);
    SplitNoSeparator(extra, Separator);
    assert version + "." + extra == version + [Separator] + extra;
    ParseSegmentsAppend(parts, [extra]);
    var vs := ParseSegments(parts).values;
    if ParseInt(extra).Some? {
      var all := ParseSegments(parts + [extra]).values;
      assert all[..3] == vs[..3];
    }
  }

  /** No printed integer contains the separator. */
  lemma ShowIntHasNoSeparator(i: int)
    ensures Separator !in ShowInt(i)
  {
    var s := ShowInt(i);
    if i < 0 {
      assert s == "-" + ShowNat(-i);
      assert forall k :: 1 <= k < |s| ==> s[k] == ShowNat(-i)[k - 1];
    }
  }

  /** The printed form of the version `(x, y, z)`. */
  function Show(x: int, y: int, z: int): string {
    ShowInt(x) + "." + ShowInt(y) + "." + ShowInt(z)
  }

  /** For a printed three-part version the answer is true exactly when
      `(x, y, z)` is at least `(major, minor, patch)` lexicographically. */
  lemma PrintedVersionOrder(x: int, y: int, z: int, major: int, minor: int, patch: int)
    ensures VersionAtLeast(ServerInfo(Show(x, y, z)), major, minor, patch) ==
            Answer(!LexLess([x, y, z], [major, minor, patch]))
  {
    ShowIntHasNoSeparator(x);
    ShowIntHasNoSeparator(y);
    ShowIntHasNoSeparator(z);
    var parts := [ShowInt(x), ShowInt(y), ShowInt(z)];
    JoinTriple(ShowInt(x), ShowInt(y), ShowInt(z), Separator);
    VersionOfSegments(parts, major, minor, patch);
    PrintedSegments(x, y, z);
    assert Padded([x, y, z])[..3] == [x, y, z];
  }

  /** The segments of a printed three-part version convert back to its numbers. */
  lemma PrintedSegments(x: int, y: int, z: int)
    ensures ParseSegments([ShowInt(x), ShowInt(y), ShowInt(z)]) == Numbers([x, y, z])
  {
    PrintedConversions(x, y, z);
    var r := FirstFailure([Some(x), Some(y), Some(z)]);
    assert r.Numbers?;
    assert r.values == [x, y, z];
  }

  lemma PrintedConversions(x: int, y: int, z: int)
    ensures Conversions([ShowInt(x), ShowInt(y), ShowInt(z)]) == [Some(x), Some(y), Some(z)]
  {
    PrintedConversion(x);
    PrintedConversion(y);
    PrintedConversion(z);
    assert [ShowInt(x), ShowInt(y), ShowInt(z)] == [ShowInt(x)] + [ShowInt(y)] + [ShowInt(z)];
    MapAppend(ParseInt, [ShowInt(x)] + [ShowInt(y)], [ShowInt(z)]);
    MapAppend(ParseInt, [ShowInt(x)], [ShowInt(y)]);
  }

  lemma PrintedConversion(x: int)
    ensures Conversions([ShowInt(x)]) == [Some(x)]
  {
    ParseShowInt(x);
  }



  /** Reflexivity: a server exactly at the requested version satisfies it. */
  lemma SameVersionSatisfies(x: int, y: int, z: int)
    ensures VersionAtLeast(ServerInfo(Show(x, y, z)), x, y, z) == Answer(true)
  {
    PrintedVersionOrder(x, y, z, x, y, z);
    LexLessIrreflexive([x, y, z]);
  }

  /** A server that satisfies a requested version satisfies every lower one. */
  lemma LowerRequestSatisfied(info: map<string, string>, major: int, minor: int, patch: int,
                              major': int, minor': int, patch': int)
    requires VersionAtLeast(info, major, minor, patch) == Answer(true)
    requires !LexLess([major, minor, patch], [major', minor', patch'])
    ensures VersionAtLeast(info, major', minor', patch') == Answer(true)
  {
    var vs := ParseSegments(Split(info[VersionKey], Separator)).values;
    var v := Padded(vs)[..3];
    if LexLess(v, [major', minor', patch']) {
      LexLessTotal([major, minor, patch], [major', minor', patch']);
      if [major, minor, patch] != [major', minor', patch'] {
        LexLessTransitive(v, [major', minor', patch'], [major, minor, patch]);
      }
    }
  }

  /** `is_redis_2_6` on a printed version: true from 2.6.0 on (a negative
      patch, which `int()` accepts, falls below it). */
  lemma Redis26Threshold(x: int, y: int, z: int)
    ensures VersionAtLeast(ServerInfo(Show(x, y, z)), 2, 6) ==
            Answer(x > 2 || (x == 2 && (y > 6 || (y == 6 && z >= 0))))
  {
    PrintedVersionOrder(x, y, z, 2, 6, 0);
    LexLessTriple([x, y, z], [2, 6, 0]);
  }

  /** The versions 2.6.0 and 2.5.9 against the 2.6 minimum. */
  lemma ThreePartExamples()
    ensures VersionAtLeast(ServerInfo("2.6.0"), 2, 6) == Answer(true)
    ensures VersionAtLeast(ServerInfo("2.5.9"), 2, 6) == Answer(false)
  {
    assert Show(2, 6, 0) == "2.6.0" && Show(2, 5, 9) == "2.5.9";
    Redis26Threshold(2, 6, 0);
    Redis26Threshold(2, 5, 9);
  }

  /** The version 2.6 meets 2.6 and 2.6.0 but not 2.6.1. */
  lemma TwoPartExamples()
    ensures VersionAtLeast(ServerInfo("2.6"), 2, 6) == Answer(true)
    ensures VersionAtLeast(ServerInfo("2.6"), 2, 6, 1) == Answer(false)
  {
    var two, three := "2" + "." + "6", "2" + "." + "6" + ".0";
    assert two == "2.6" && three == "2.6.0" == Show(2, 6, 0);
    TwoSegmentsPadded("2", "6", 2, 6, 0);
    TwoSegmentsPadded("2", "6", 2, 6, 1);
    PrintedVersionOrder(2, 6, 0, 2, 6, 0);
    PrintedVersionOrder(2, 6, 0, 2, 6, 1);
    LexLessTriple([2, 6, 0], [2, 6, 0]);
    LexLessTriple([2, 6, 0], [2, 6, 1]);
  }

  /** A one-number version, and a reply without the field, answer false. */
  lemma TooShortExamples()
    ensures VersionAtLeast(ServerInfo("7"), 2, 6) == Answer(false)
    ensures VersionAtLeast(map[], 2, 6) == Answer(false)
  {
    ParseShowNat(7);
    assert ShowNat(7) == "7";
    OneSegmentIsFalse("7", 2, 6, 0);
  }

  /** An empty or non-numeric segment raises instead of answering. */
  lemma MalformedExamples()
    ensures VersionAtLeast(ServerInfo("2..6"), 2, 6) == ValueError("")
    ensures VersionAtLeast(ServerInfo("2.x"), 2, 6) == ValueError("x")
  {
    EmptySegmentExample();
    LetterSegmentExample();
  }

  /** "2..6" raises on its empty middle segment. */
  lemma EmptySegmentExample()
    ensures VersionAtLeast(ServerInfo("2..6"), 2, 6) == ValueError("")
  {
    ParseShowNat(2);
    assert ShowNat(2) == "2";
    ParseIntNeedsDigit("");
    JoinTriple("2", "", "6", Separator);
    assert Join(["2", "", "6"], Separator) == "2..6";
    VersionOfSegments(["2", "", "6"], 2, 6, 0);
    var cs := Conversions(["2", "", "6"]);
    assert cs[0] == Some(2) && cs[1] == None;
    assert cs[1..][0] == None;
  }

  /** "2.x" raises on its segment "x". */
  lemma LetterSegmentExample()
    ensures VersionAtLeast(ServerInfo("2.x"), 2, 6) == ValueError("x")
  {
    ParseShowNat(2);
    assert ShowNat(2) == "2";
    ParseIntNeedsDigit("x");
    JoinPair("2", "x", Separator);
    assert Join(["2", "x"], Separator) == "2.x";
    VersionOfSegments(["2", "x"], 2, 6, 0);
    var cs := Conversions(["2", "x"]);
    assert cs[0] == Some(2) && cs[1] == None;
    assert cs[1..][0] == None;
  }


  /** The fixture's state that `checkVersion` writes: the raw version string
      of the last reply that had one, None while `self.redis_version` is unset. */
  class VersionChecker {
    var redisVersion: Option<string>

    constructor()
      ensures redisVersion == None
    {
      redisVersion := None;
    }

    /** `checkVersion`: the version string is recorded before it is parsed,
        so it stays recorded when the parse raises. */
    method CheckVersion(info: map<string, string>, major: int, minor: int, patch: int := 0) returns (r: Outcome)
      modifies this
      ensures r == VersionAtLeast(info, major, minor, patch)
      ensures redisVersion == if VersionKey in info then Some(info[VersionKey]) else old(redisVersion)
    {
      if VersionKey !in info {
        return Answer(false);
      }
      var ver := info[VersionKey];
      redisVersion := Some(ver);
      var parsed := ParseSegments(Split(ver, Separator));
      if parsed.BadSegment? {
        return ValueError(Split(ver, Separator)[parsed.at]);
      }
      var verList := parsed.values;
      if |verList| < 2 {
        return Answer(false);
      }
      if |verList| == 2 {
        verList := verList + [0];
      }
      return Answer(MeetsMinimum(verList, major, minor, patch));
    }

    /** `is_redis_2_6`: the check against 2.6 (patch 0). */
    method IsRedis26(info: map<string, string>) returns (r: Outcome)
      modifies this
      ensures r == VersionAtLeast(info, 2, 6, 0)
      ensures redisVersion == if VersionKey in info then Some(info[VersionKey]) else old(redisVersion)
    {
      r := CheckVersion(info, 2, 6);
    }
  }
}
