/** The two Python built-ins the version gate relies on, on `str` values:
    `s.split(sep)` with a one-character separator, and `int(s)` in base 10. */
module PyStr {

  datatype Option<+T> = None | Some(value: T)

  /** Number of occurrences of `c` in `s`. */
  function Count(s: string, c: char): (n: nat)
    ensures n <= |s|
    ensures n == 0 <==> c !in s
  {
    if s == [] then 0 else (if s[0] == c then 1 else 0) + Count(s[1..], c)
  }

  /** `sep.join(parts)`: the inverse of Split. */
  function Join(parts: seq<string>, sep: char): string
    requires |parts| >= 1
  {
    if |parts| == 1 then parts[0] else parts[0] + [sep] + Join(parts[1..], sep)
  }

  /** Python's `s.split(sep)`: the maximal pieces of `s` between occurrences of
      `sep`, empty pieces included; never an empty list. */
  function Split(s: string, sep: char): (parts: seq<string>)
    ensures |parts| >= 1
  {
    if s == [] then [""]
    else
      var rest := Split(s[1..], sep);
      if s[0] == sep then [""] + rest
      else [[s[0]] + rest[0]] + rest[1..]
  }

  /** No piece contains the separator. */
  lemma {:induction false} SplitPiecesFree(s: string, sep: char)
    ensures forall i :: 0 <= i < |Split(s, sep)| ==> sep !in Split(s, sep)[i]
  {
    if s != [] {
      SplitPiecesFree(s[1..], sep);
      var rest := Split(s[1..], sep);
      var parts := Split(s, sep);
      if s[0] != sep {
        assert sep !in [s[0]] + rest[0];
        assert forall i :: 1 <= i < |parts| ==> parts[i] == rest[i];
      } else {
        assert forall i :: 1 <= i < |parts| ==> parts[i] == rest[i - 1];
      }
    }
  }

  /** There is one more piece than there are separators. */
  lemma {:induction false} SplitCount(s: string, sep: char)
    ensures |Split(s, sep)| == 1 + Count(s, sep)
  {
    if s != [] {
      SplitCount(s[1..], sep);
    }
  }

  /** Joining the pieces back with the separator gives the original string. */
  lemma {:induction false} JoinSplit(s: string, sep: char)
    ensures Join(Split(s, sep), sep) == s
  {
    if s != [] {
      var rest := Split(s[1..], sep);
      JoinSplit(s[1..], sep);
      var parts := Split(s, sep);
      if s[0] == sep {
        assert parts == [""] + rest;
        assert parts[1..] == rest;
        assert s == [sep] + s[1..];
      } else {
        assert parts == [[s[0]] + rest[0]] + rest[1..];
        JoinPrepend([s[0]], rest, sep);
        assert s == [s[0]] + s[1..];
      }
    }
  }

  /** Prepending to the first piece prepends to the join. */
  lemma JoinPrepend(x: string, parts: seq<string>, sep: char)
    requires |parts| >= 1
    ensures Join([x + parts[0]] + parts[1..], sep) == x + Join(parts, sep)
  {
    var q := [x + parts[0]] + parts[1..];
    assert q[1..] == parts[1..];
  }

  lemma JoinPair(a: string, b: string, sep: char)
    ensures Join([a, b], sep) == a + [sep] + b
  {
    assert [a, b][1..] == [b];
  }

  lemma JoinTriple(a: string, b: string, c: string, sep: char)
    ensures Join([a, b, c], sep) == a + [sep] + b + [sep] + c
  {
    assert [a, b, c][1..] == [b, c];
    JoinPair(b, c, sep);
  }

  /** Splitting at one occurrence of the separator splits the pieces there. */
  lemma {:induction false} SplitAppend(a: string, sep: char, b: string)
    ensures Split(a + [sep] + b, sep) == Split(a, sep) + Split(b, sep)
  {
    if a == [] {
      assert a + [sep] + b == [sep] + b;
      SplitCons(sep, b, sep);
    } else {
      var t := a[1..] + [sep] + b;
      SplitAppend(a[1..], sep, b);
      assert a + [sep] + b == [a[0]] + t;
      assert a == [a[0]] + a[1..];
      SplitCons(a[0], t, sep);
      SplitCons(a[0], a[1..], sep);
      SplitConsAppend(a[0], Split(t, sep), Split(a[1..], sep), Split(b, sep));
    }
  }

  /** Split's step on the first character commutes with appending pieces. */
  lemma SplitConsAppend(c: char, rt: seq<string>, ra: seq<string>, rb: seq<string>)
    requires |ra| >= 1 && rt == ra + rb
    ensures [[c] + rt[0]] + rt[1..] == ([[c] + ra[0]] + ra[1..]) + rb
    ensures [""] + rt == ([""] + ra) + rb
  {
    assert rt[0] == ra[0] && rt[1..] == ra[1..] + rb;
  }

  /** Split on a string with a known first character. */
  lemma SplitCons(c: char, t: string, sep: char)
    ensures Split([c] + t, sep) ==
      if c == sep then [""] + Split(t, sep) else [[c] + Split(t, sep)[0]] + Split(t, sep)[1..]
  {
    assert ([c] + t)[1..] == t;
  }

  /** A string free of the separator is a single piece. */
  lemma SplitNoSeparator(s: string, sep: char)
    requires sep !in s
    ensures Split(s, sep) == [s]
  {
    JoinSplit(s, sep);
    SplitCount(s, sep);
  }

  /** Splitting a join of separator-free pieces gives the pieces back. */
  lemma {:induction false} SplitJoin(parts: seq<string>, sep: char)
    requires |parts| >= 1
    requires forall i :: 0 <= i < |parts| ==> sep !in parts[i]
    ensures Split(Join(parts, sep), sep) == parts
  {
    if |parts| == 1 {
      SplitNoSeparator(parts[0], sep);
    } else {
      SplitJoin(parts[1..], sep);
      SplitAppend(parts[0], sep, Join(parts[1..], sep));
      SplitNoSeparator(parts[0], sep);
    }
  }

  predicate IsDigit(c: char) {
    '0' <= c <= '9'
  }

  /** The ASCII characters `int()` skips around its literal: space, and tab
      through carriage return. */
  predicate IsSpace(c: char) {
    c == ' ' || '\t' <= c <= '\r'
  }

  /** `s` without its leading whitespace. */
  function StripLeft(s: string): string {
    if s != [] && IsSpace(s[0]) then StripLeft(s[1..]) else s
  }

  /** `s` without its trailing whitespace. */
  function StripRight(s: string): string {
    if s != [] && IsSpace(s[|s| - 1]) then StripRight(s[..|s| - 1]) else s
  }

  /** Python's `s.strip()` restricted to the whitespace `int()` skips. */
  function Strip(s: string): string {
    StripRight(StripLeft(s))
  }

  /** StripLeft removes a prefix of `s`. */
  lemma {:induction false} StripLeftSuffix(s: string)
    ensures |StripLeft(s)| <= |s| && StripLeft(s) == s[|s| - |StripLeft(s)|..]
  {
    if s != [] && IsSpace(s[0]) {
      StripLeftSuffix(s[1..]);
      assert s[1..][|s| - 1 - |StripLeft(s)|..] == s[|s| - |StripLeft(s)|..];
    }
  }

  /** The prefix StripLeft removes is whitespace, and what is left does not
      start with whitespace. */
  lemma {:induction false} StripLeftSpaces(s: string)
    ensures |StripLeft(s)| <= |s|
    ensures forall k :: 0 <= k < |s| - |StripLeft(s)| ==> IsSpace(s[k])
    ensures StripLeft(s) == [] || !IsSpace(StripLeft(s)[0])
  {
    if s != [] && IsSpace(s[0]) {
      StripLeftSpaces(s[1..]);
      assert forall k :: 1 <= k < |s| - |StripLeft(s)| ==> s[k] == s[1..][k - 1];
    }
  }

  /** StripRight removes a suffix of `s`. */
  lemma {:induction false} StripRightPrefix(s: string)
    ensures |StripRight(s)| <= |s| && StripRight(s) == s[..|StripRight(s)|]
  {
    if s != [] && IsSpace(s[|s| - 1]) {
      StripRightPrefix(s[..|s| - 1]);
      assert s[..|s| - 1][..|StripRight(s)|] == s[..|StripRight(s)|];
    }
  }

  /** The suffix StripRight removes is whitespace, and what is left does not
      end with whitespace. */
  lemma {:induction false} StripRightSpaces(s: string)
    ensures |StripRight(s)| <= |s|
    ensures forall k :: |StripRight(s)| <= k < |s| ==> IsSpace(s[k])
    ensures StripRight(s) == [] || !IsSpace(StripRight(s)[|StripRight(s)| - 1])
  {
    if s != [] && IsSpace(s[|s| - 1]) {
      StripRightSpaces(s[..|s| - 1]);
      assert forall k :: |StripRight(s)| <= k < |s| - 1 ==> s[k] == s[..|s| - 1][k];
    }
  }

  /** Strip keeps a contiguous part of `s`. */
  lemma StripSlice(s: string)
    ensures |StripLeft(s)| <= |s| && |s| - |StripLeft(s)| + |Strip(s)| <= |s|
    ensures Strip(s) == s[|s| - |StripLeft(s)|..|s| - |StripLeft(s)| + |Strip(s)|]
  {
    StripLeftSuffix(s);
    StripRightPrefix(StripLeft(s));
  }

  /** The digits of a base-10 literal as Python 3 writes them: at least one
      digit, and each underscore stands alone between two digits. */
  predicate IsDigitRun(d: string) {
    && d != []
    && (forall i :: 0 <= i < |d| ==> IsDigit(d[i]) || d[i] == '_')
    && (forall i :: 0 <= i < |d| && d[i] == '_' ==> 0 < i < |d| - 1 && IsDigit(d[i - 1]) && IsDigit(d[i + 1]))
  }

  /** `d` with its underscores removed. */
  function Digits(d: string): (r: string)
    requires forall i :: 0 <= i < |d| ==> IsDigit(d[i]) || d[i] == '_'
    ensures forall i :: 0 <= i < |r| ==> IsDigit(r[i])
    ensures |r| == |d| - Count(d, '_')
  {
    if d == [] then []
    else if d[0] == '_' then Digits(d[1..])
    else [d[0]] + Digits(d[1..])
  }

  /** The number a string of decimal digits denotes, most significant first. */
  function DecimalValue(ds: string): nat
    requires forall i :: 0 <= i < |ds| ==> IsDigit(ds[i])
  {
    if ds == [] then 0
    else 10 * DecimalValue(ds[..|ds| - 1]) + DigitValue(ds[|ds| - 1])
  }

  function DigitValue(c: char): (d: nat)
    requires IsDigit(c)
    ensures d < 10
  {
    c as int - '0' as int
  }

  /** The value of a digit run, or None when `d` is not one. */
  function ParseDigits(d: string): (r: Option<nat>)
    ensures r.Some? <==> IsDigitRun(d)
  {
    if IsDigitRun(d) then Some(DecimalValue(Digits(d))) else None
  }

  /** `k` zero digits. */
  function Zeros(k: nat): (z: string)
    ensures |z| == k
    ensures forall i :: 0 <= i < k ==> z[i] == '0'
  {
    if k == 0 then [] else Zeros(k - 1) + "0"
  }

  lemma {:induction false} DecimalValueOfZeros(k: nat)
    ensures DecimalValue(Zeros(k)) == 0
  {
    if k > 0 {
      DecimalValueOfZeros(k - 1);
      assert Zeros(k)[..k - 1] == Zeros(k - 1);
    }
  }

  /** Leading zeros do not change the value of a digit string. */
  lemma {:induction false} DecimalValueLeadingZeros(k: nat, ds: string)
    requires forall i :: 0 <= i < |ds| ==> IsDigit(ds[i])
    ensures forall i :: 0 <= i < |Zeros(k) + ds| ==> IsDigit((Zeros(k) + ds)[i])
    ensures DecimalValue(Zeros(k) + ds) == DecimalValue(ds)
  {
    var w := Zeros(k) + ds;
    assert forall i :: 0 <= i < |w| ==> IsDigit(w[i]) by {
      forall i | 0 <= i < |w|
        ensures IsDigit(w[i])
      {
        if i < k {
          assert w[i] == Zeros(k)[i];
        } else {
          assert w[i] == ds[i - k];
        }
      }
    }
    if ds == [] {
      assert w == Zeros(k);
      DecimalValueOfZeros(k);
    } else {
      var p := ds[..|ds| - 1];
      DecimalValueLeadingZeros(k, p);
      assert w[..|w| - 1] == Zeros(k) + p;
      assert w[|w| - 1] == ds[|ds| - 1];
    }
  }

  /** A single digit prints as itself. */
  lemma ShowNatDigit(c: char)
    requires IsDigit(c)
    ensures ShowNat(DigitValue(c)) == [c]
  {
    assert DigitChar(DigitValue(c)) == c;
  }

  /** Appending a digit to a positive number appends it to the printed form. */
  lemma ShowNatStep(m: nat, c: char)
    requires m > 0 && IsDigit(c)
    ensures ShowNat(10 * m + DigitValue(c)) == ShowNat(m) + [c]
  {
    var v := 10 * m + DigitValue(c);
    assert v / 10 == m && v % 10 == DigitValue(c);
    assert DigitChar(DigitValue(c)) == c;
  }

  /** A non-empty digit string is the printed form of its value after some
      leading zeros. */
  lemma {:induction false} DigitStringShape(ds: string) returns (k: nat)
    requires ds != [] && forall i :: 0 <= i < |ds| ==> IsDigit(ds[i])
    ensures ds == Zeros(k) + ShowNat(DecimalValue(ds))
  {
    var p := ds[..|ds| - 1];
    var c := ds[|ds| - 1];
    assert ds == p + [c];
    ShowNatDigit(c);
    if p == [] {
      k := 0;
      assert DecimalValue(ds) == DigitValue(c);
    } else {
      var j := DigitStringShape(p);
      var m := DecimalValue(p);
      assert DecimalValue(ds) == 10 * m + DigitValue(c);
      if m == 0 {
        k := j + 1;
        assert ShowNat(0) == "0";
        assert Zeros(j + 1) == Zeros(j) + "0";
      } else {
        k := j;
        ShowNatStep(m, c);
      }
    }
  }

  /** A digit run keeps at least one digit once its underscores are removed. */
  lemma DigitRunDigits(d: string)
    requires IsDigitRun(d)
    ensures Digits(d) != []
  {
    assert IsDigit(d[0]);
  }

  /** A digit run is accepted with value `n` exactly when, with its
      underscores removed, it is the printed `n` after some leading zeros. */
  lemma ParseDigitsPrinted(d: string, n: nat)
    ensures ParseDigits(d) == Some(n) <==>
      IsDigitRun(d) && exists k :: Digits(d) == Zeros(k) + ShowNat(n)
  {
    if IsDigitRun(d) {
      DigitRunDigits(d);
      var k := DigitStringShape(Digits(d));
      if exists j :: Digits(d) == Zeros(j) + ShowNat(n) {
        var j :| Digits(d) == Zeros(j) + ShowNat(n);
        DecimalValueLeadingZeros(j, ShowNat(n));
        DecimalValueShowNat(n);
      }
    }
  }

  /** `t` without one leading sign. */
  function Unsigned(t: string): string {
    if t != [] && (t[0] == '+' || t[0] == '-') then t[1..] else t
  }

  /** Python's `int(s)` for a `str` in base 10: surrounding whitespace is
      skipped, one optional sign is allowed, and anything else makes it raise
      ValueError, which is None here. */
  function ParseInt(s: string): (r: Option<int>)
    ensures r.Some? && r.value < 0 ==> Strip(s) != [] && Strip(s)[0] == '-'
  {
    var t := Strip(s);
    if t != [] && (t[0] == '+' || t[0] == '-') then
      match ParseDigits(t[1..])
      case None => None
      case Some(n) => Some(if t[0] == '-' then -(n as int) else n as int)
    else
      match ParseDigits(t)
      case None => None
      case Some(n) => Some(n)
  }

  /** `int(s)` is `v` exactly when the stripped segment is an optional sign
      followed by a digit run that, without underscores, prints `|v|` after
      some leading zeros, and a minus sign goes with a value at most 0. */
  lemma ParseIntPrinted(s: string, v: int)
    ensures ParseInt(s) == Some(v) <==>
      && IsDigitRun(Unsigned(Strip(s)))
      && (exists k :: Digits(Unsigned(Strip(s))) == Zeros(k) + ShowNat(if v < 0 then -v else v))
      && (if Strip(s) != [] && Strip(s)[0] == '-' then v <= 0 else v >= 0)
  {
    var t := Strip(s);
    var m: nat := if v < 0 then -v else v;
    ParseDigitsPrinted(Unsigned(t), m);
    if t != [] && (t[0] == '+' || t[0] == '-') {
      assert Unsigned(t) == t[1..];
    } else {
      assert Unsigned(t) == t;
    }
  }

  /** `int()` accepts nothing without a digit: in particular the empty string
      and a lone sign are errors. */
  lemma ParseIntNeedsDigit(s: string)
    requires forall i :: 0 <= i < |s| ==> !IsDigit(s[i])
    ensures ParseInt(s) == None
  {
    var t := Strip(s);
    StripSlice(s);
    var i := |s| - |StripLeft(s)|;
    assert forall k :: 0 <= k < |t| ==> t[k] == s[i + k];
    assert forall k :: 0 <= k < |t| ==> !IsDigit(t[k]);
    if t != [] && (t[0] == '+' || t[0] == '-') {
      assert |t| > 1 ==> t[1..][0] == t[1];
    } else if t != [] {
      assert !IsDigit(t[0]);
    }
  }

  function DigitChar(d: nat): (c: char)
    requires d < 10
    ensures IsDigit(c)
  {
    ('0' as int + d) as char
  }

  /** Python's `str(n)` for a natural number. */
  function ShowNat(n: nat): (s: string)
    ensures s != []
    ensures forall i :: 0 <= i < |s| ==> IsDigit(s[i])
  {
    if n < 10 then [DigitChar(n)] else ShowNat(n / 10) + [DigitChar(n % 10)]
  }

  /** Python's `str(i)` for an integer. */
  function ShowInt(i: int): string {
    if i < 0 then "-" + ShowNat(-i) else ShowNat(i)
  }

  lemma {:induction false} DecimalValueShowNat(n: nat)
    ensures DecimalValue(ShowNat(n)) == n
  {
    var s := ShowNat(n);
    if n >= 10 {
      DecimalValueShowNat(n / 10);
      assert s[..|s| - 1] == ShowNat(n / 10);
    }
  }

  lemma {:induction false} DigitsOfDigitString(ds: string)
    requires forall i :: 0 <= i < |ds| ==> IsDigit(ds[i])
    ensures Digits(ds) == ds
  {
    if ds != [] {
      DigitsOfDigitString(ds[1..]);
    }
  }

  /** A string that neither starts nor ends with whitespace is its own strip. */
  lemma StripUnpadded(s: string)
    requires s != [] && !IsSpace(s[0]) && !IsSpace(s[|s| - 1])
    ensures Strip(s) == s
  {
    assert StripLeft(s) == s;
  }

  /** The printed digits of `n` are a digit run worth `n`. */
  lemma ParseDigitsShowNat(n: nat)
    ensures ParseDigits(ShowNat(n)) == Some(n)
  {
    DigitsOfDigitString(ShowNat(n));
    DecimalValueShowNat(n);
  }

  /** `int(str(n))` is `n` for every natural number. */
  lemma ParseShowNat(n: nat)
    ensures ParseInt(ShowNat(n)) == Some(n)
  {
    var s := ShowNat(n);
    ParseDigitsShowNat(n);
    StripUnpadded(s);
    assert s[0] != '+' && s[0] != '-';
  }

  /** `int("-" + str(n))` is `-n`. */
  lemma ParseNegative(n: nat)
    ensures ParseInt("-" + ShowNat(n)) == Some(-(n as int))
  {
    var s := "-" + ShowNat(n);
    ParseDigitsShowNat(n);
    assert s[0] == '-' && s[1..] == ShowNat(n) && s[|s| - 1] == ShowNat(n)[|ShowNat(n)| - 1];
    StripUnpadded(s);
    assert ParseDigits(Strip(s)[1..]) == Some(n);
  }

  /** `int(str(i))` is `i` for every integer. */
  lemma ParseShowInt(i: int)
    ensures ParseInt(ShowInt(i)) == Some(i)
  {
    if i < 0 {
      var n: nat := -i;
      ParseNegative(n);
      assert ShowInt(i) == "-" + ShowNat(n) && -(n as int) == i;
    } else {
      ParseShowNat(i);
    }
  }
}
