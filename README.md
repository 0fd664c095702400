# txredisapi server-version gate

This project models the server-version gate that the txredisapi test fixtures use to skip tests on older Redis servers. It proves properties of that model in Dafny. The gate is `RedisVersionCheckMixin.checkVersion(major, minor, patch=0)`, and `Redis26CheckMixin.is_redis_2_6` is its fixed use against 2.6.

`checkVersion` reads the fields of the server's `INFO server` reply. If the field `redis_version` is missing, the answer is false. Otherwise it records the raw string on the fixture as `redis_version`. It then splits the string on `.` and converts every segment with Python's `int()`. A segment that `int()` rejects raises `ValueError`. Fewer than two numbers answer false. Two numbers are padded with patch 0. The first three numbers are then compared with `(major, minor, patch)` by a nested if-chain.

The model is split into two modules:

- `PyStr` (pystr.dfy) models the two Python built-ins the gate uses. `Split` is `str.split` with a one-character separator, proved to round-trip with `Join`. `ParseInt` is `int()` on a `str` in base 10: surrounding whitespace is skipped, one sign is allowed, and digits may be separated by single underscores. Its partner is `ShowInt`, Python's `str()` on integers, and `int(str(i)) == i` is proved.
- `RedisVersion` (version_check.dfy) holds the gate itself:
  - `ParseSegments` is the list comprehension: `Conversions` applies `int()` to every segment and `FirstFailure` stops at the first one that raised.
  - `MeetsMinimum` is the if-chain. It is proved to hold exactly when the first three numbers are not below `(major, minor, patch)` in the standard lexicographic order `LexLess`, that is, lexicographic "at least". `LexLess` is proved irreflexive, transitive and total.
  - `Padded` is the `append(0)` padding.
  - `VersionAtLeast` is the whole decision as a pure function.
  - The class `VersionChecker` holds the fixture field `redisVersion`. Its methods `CheckVersion` and `IsRedis26` write that field the way the source does and return exactly what `VersionAtLeast` gives.

The result is `Outcome = Answer(bool) | ValueError(segment)`. A version string with a non-numeric segment therefore raises an error; it is not treated as "version absent". The code raises the `ValueError` out of the deferred, so the model follows the code.

The `INFO` round trip is an input: a `map<string, string>` from field names to values. The lemmas below are stated for `ServerInfo(v)`, a reply holding only the version field; `OnlyVersionFieldMatters` carries each of them over to every reply whose `redis_version` is `v`.

## Model

| member | source | states |
|---|---|---|
| `PyStr.Split` | tests/mixins.py:40 | `ver.split('.')` always returns at least one piece, so the list is never empty. |
| `PyStr.SplitCount` | tests/mixins.py:40 | There is one more piece than there are dots, so a dot-free string is a single piece. |
| `PyStr.SplitPiecesFree` | tests/mixins.py:40 | No piece contains a dot. |
| `PyStr.JoinSplit` | tests/mixins.py:40 | Joining the pieces of a split with the separator gives back the original string. |
| `PyStr.SplitJoin` | tests/mixins.py:40 | Splitting a join of dot-free pieces gives back exactly those pieces, so empty pieces are kept. |
| `PyStr.SplitAppend` | tests/mixins.py:40 | Splitting `a + "." + b` gives the pieces of `a` followed by the pieces of `b`. |
| `PyStr.StripSlice` | tests/mixins.py:40 | The whitespace strip done by `int()` keeps one contiguous part of the segment. |
| `PyStr.StripLeftSpaces` | tests/mixins.py:40 | The leading part that `int()` skips is all whitespace, and what remains does not start with whitespace. |
| `PyStr.StripRightSpaces` | tests/mixins.py:40 | The trailing part that `int()` skips is all whitespace, and what remains does not end with whitespace. |
| `PyStr.ParseDigitsPrinted` | tests/mixins.py:40 | A digit literal has the value `n` exactly when it is a non-empty run of digits with each underscore between two digits, and removing its underscores leaves the decimal digits of `n` after some leading zeros. |
| `PyStr.ParseDigitsShowNat` | tests/mixins.py:40 | The printed digits of any natural number `n` are a digit literal worth `n`. |
| `PyStr.ParseInt` | tests/mixins.py:40 | `int()` on a segment gives a negative number only when the segment, after its surrounding whitespace, starts with a minus sign. Its value is characterised by `ParseIntPrinted`, and `int(str(i)) == i` by `ParseShowInt`. |
| `PyStr.ParseIntPrinted` | tests/mixins.py:40 | `int()` on a segment gives `v` exactly when the segment, after its surrounding whitespace and one optional sign, is a digit literal whose digits print `abs(v)` after some leading zeros, and a minus sign goes with a value of at most 0. |
| `PyStr.ParseIntNeedsDigit` | tests/mixins.py:40 | `int()` raises on any segment without a digit: the empty segment, a lone sign, or letters. |
| `PyStr.ParseShowNat` | tests/mixins.py:40 | `int(str(n)) == n` for every natural number `n`. |
| `PyStr.ParseShowInt` | tests/mixins.py:40 | `int(str(i)) == i` for every integer `i`, negative ones included. |
| `RedisVersion.ParseSegments` | tests/mixins.py:40 | If every segment converts, there is one number per segment and each number is that segment's `int()`. Otherwise the result is the position of the first segment `int()` rejects. |
| `RedisVersion.FirstFailure` | tests/mixins.py:40 | Walking the conversions left to right gives either every value, each equal to its conversion, or the position of the first conversion that raised, every earlier one having succeeded. |
| `RedisVersion.ParseSegmentsAppend` | tests/mixins.py:40 | Converting a concatenation of segment lists converts the left list first. Its first failure wins; if it has none, the two results are concatenated. |
| `RedisVersion.LexLessIrreflexive` | tests/mixins.py:45-53 | No version is strictly below itself in lexicographic order. |
| `RedisVersion.LexLessTransitive` | tests/mixins.py:45-53 | The lexicographic order on versions is transitive. |
| `RedisVersion.LexLessTotal` | tests/mixins.py:45-53 | Any two distinct versions of the same length are ordered one way or the other. |
| `RedisVersion.LexLessTriple` | tests/mixins.py:45-53 | On triples, the order is decided by the first position where the two triples differ. |
| `RedisVersion.MeetsMinimum` | tests/mixins.py:45-53 | The nested if-chain holds exactly when the first three numbers are not lexicographically below `(major, minor, patch)`. |
| `RedisVersion.Padded` | tests/mixins.py:43-44 | A two-number list gets patch 0 and becomes exactly those three numbers. A longer list is unchanged. The first two numbers are always kept. |
| `RedisVersion.CompareSegments` | tests/mixins.py:40-53 | Once the version is split, the only error is a `ValueError` naming the first segment, from the left, that `int()` rejects. |
| `RedisVersion.VersionAtLeast` | tests/mixins.py:34-53 | A reply without `redis_version` answers false. A `ValueError` happens only when the field is present, and it names the first of its segments that is not an integer literal. |
| `RedisVersion.OnlyVersionFieldMatters` | tests/mixins.py:36-40 | Any reply that holds a `redis_version` field has the same outcome as a reply holding only that field, so the other `INFO` fields never matter. |
| `RedisVersion.VersionOfSegments` | tests/mixins.py:38-40 | A version string written as dot-joined segments is judged on exactly those segments. |
| `RedisVersion.MalformedIsError` | tests/mixins.py:40-53 | The outcome is an error exactly when some segment is not an integer literal. When every segment converts and there are at least two, the answer is true exactly when the padded first three numbers are not below the requested triple. |
| `RedisVersion.OneSegmentIsFalse` | tests/mixins.py:40-42 | A version without a dot answers false if it is a number. If it is not a number, it raises. |
| `RedisVersion.TwoSegmentsPadded` | tests/mixins.py:43-44 | `a.b` has the same outcome as `a.b.0` against every requested version, errors included. |
| `RedisVersion.PatchZeroPadding` | tests/mixins.py:43-44 | The segment lists `[a, b]` and `[a, b, "0"]` have the same outcome. |
| `RedisVersion.ExtraSegmentsIgnored` | tests/mixins.py:45-51 | Appending a fourth or later segment to a well-formed version leaves the answer unchanged if that segment is an integer literal. Otherwise the appended segment raises. |
| `RedisVersion.PrintedVersionOrder` | tests/mixins.py:45-53 | For the printed version `x.y.z` of any integers, the answer is true exactly when `(x, y, z)` is at least `(major, minor, patch)` lexicographically. |
| `RedisVersion.SameVersionSatisfies` | tests/mixins.py:51 | A server at exactly the requested version satisfies the request. |
| `RedisVersion.LowerRequestSatisfied` | tests/mixins.py:45-53 | A server that satisfies a requested version also satisfies every lower request. |
| `RedisVersion.Redis26Threshold` | tests/mixins.py:57-61 | `is_redis_2_6` on a printed `x.y.z` is true exactly when `(x, y, z)` is at least `(2, 6, 0)`. |
| `RedisVersion.ThreePartExamples` | tests/mixins.py:45-53 | "2.6.0" meets 2.6; "2.5.9" does not. |
| `RedisVersion.TwoPartExamples` | tests/mixins.py:43-53 | "2.6" meets 2.6 (that is, 2.6.0) but not 2.6.1. |
| `RedisVersion.TooShortExamples` | tests/mixins.py:36-42 | "7" answers false, and a reply without the field answers false. |
| `RedisVersion.MalformedExamples` | tests/mixins.py:40 | "2..6" raises on the empty segment, and "2.x" raises on "x". |
| `RedisVersion.VersionChecker.CheckVersion` | tests/mixins.py:34-53 | The method returns `VersionAtLeast` of its inputs. When the field is present, the raw version string is recorded before parsing, whatever the outcome. When the field is absent, the recorded version is unchanged. |
| `RedisVersion.VersionChecker.IsRedis26` | tests/mixins.py:57-61 | Same as `checkVersion(2, 6)`, with patch 0: the same outcome and the same recording of the version. |

## Left out

- `PyStr.ParseInt`: non-ASCII whitespace around the literal and non-ASCII decimal digits are accepted by Python's `int()` but are errors in the model.
- `PyStr.ParseInt`: literals longer than the 4300-digit limit of recent Python versions are accepted by the model, but Python raises on them.
- `PyStr.ParseInt` follows Python 3 (3.6 and later), which accepts underscores between digits. Python 2's `int()` rejects underscores.
- The `info("server")` call, its parsing of the reply into a dictionary, and the Twisted `Deferred`/`inlineCallbacks` plumbing are not modelled. The reply is an input map from field names to string values. A failure of the call itself, such as a lost connection, is not modelled.
- `RedisGeoCheckMixin.has_geo` (tests/mixins.py:71-83) is not modelled. It is a live GEOADD probe against the server whose result depends on catching a server `ResponseError`. That is I/O and exception handling, with no client-side logic.
- The `_skipCheck` methods (tests/mixins.py:63-66, 85-88) are not modelled. They are test-framework skip plumbing.
- The host selection from an environment variable (tests/mixins.py:22-29) is not modelled. It is configuration.
- tests/test_geo.py is not modelled. It holds integration tests against a live server, and its assertions are about coordinates and distances that the server computes in floating point.
- The wire codec, the connection, and the geo command implementations are not part of this model.
