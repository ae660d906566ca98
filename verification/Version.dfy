/** Software versions, parsed from and printed as three dot-separated numbers. */
module Version {
  import opened Wrappers

  const SEGMENT_LIMIT: nat := 0x1_0000

  type VersionSegment = n: nat | n < SEGMENT_LIMIT

  datatype SemVer = SemVer(major: VersionSegment, minor: VersionSegment, patch: VersionSegment)

  /** The panics of the program. */
  datatype Error = UnexpectedSegment | EndsWithDot | UnexpectedSymbol | TooFewSegments | Overflow

  predicate IsDigit(c: char) {
    '0' <= c <= '9'
  }

  function DigitValue(c: char): nat
    requires IsDigit(c)
  {
    c as int - '0' as int
  }

  ghost predicate AllDigits(s: string) {
    forall i :: 0 <= i < |s| ==> IsDigit(s[i])
  }

  /** The decimal value of a string of digits; nothing stands for 0. */
  ghost function Value(s: string): nat
    requires AllDigits(s)
  {
    if s == "" then 0 else Value(s[..|s| - 1]) * 10 + DigitValue(s[|s| - 1])
  }

  /** `parts` with the last one prolonged. */
  ghost function Prolonged(parts: seq<string>, tail: string): (r: seq<string>)
    requires |parts| > 0
    ensures |r| == |parts| && r[..|parts| - 1] == parts[..|parts| - 1] && r[|parts| - 1] == parts[|parts| - 1] + tail
  {
    parts[..|parts| - 1] + [parts[|parts| - 1] + tail]
  }

  /** The parts of a string between its dots. */
  ghost function Split(s: string): (parts: seq<string>)
    ensures |parts| > 0
  {
    if s == "" then [""]
    else
      var parts, c := Split(s[..|s| - 1]), s[|s| - 1];
      if c == '.' then parts + [""] else Prolonged(parts, [c])
  }

  ghost predicate Fits(part: string) {
    AllDigits(part) && Value(part) < SEGMENT_LIMIT
  }

  /** What is taken for a version: three parts of digits, the last one not empty, that fit the segments. */
  ghost predicate Accepted(s: string) {
    && |Split(s)| == 3 && (forall i :: 0 <= i < 3 ==> Fits(Split(s)[i]))
    && Split(s)[2] != ""
  }

  ghost function Segments(s: string): SemVer
    requires Accepted(s)
  {
    SemVer(Value(Split(s)[0]), Value(Split(s)[1]), Value(Split(s)[2]))
  }

  /** Of the parts `q` the last one of the parts `p` may go on, and more may follow. */
  ghost predicate GoesOn(p: seq<string>, q: seq<string>) {
    && 0 < |p| <= |q| && p[..|p| - 1] == q[..|p| - 1] && p[|p| - 1] <= q[|p| - 1]
  }

  lemma GoesOnStep(p: seq<string>, q: seq<string>, c: char)
    requires GoesOn(p, q)
    ensures var q' := if c == '.' then q + [""] else Prolonged(q, [c]);
      GoesOn(p, q') && (|p| == |q'| ==> |p[|p| - 1]| < |q'[|q'| - 1]|)
  {
    assert (q + [""])[..|p| - 1] == q[..|p| - 1];
    assert |p| < |q| ==> Prolonged(q, [c])[|p| - 1] == q[..|q| - 1][|p| - 1];
    assert Prolonged(q, [c])[..|p| - 1] == q[..|q| - 1][..|p| - 1] == q[..|p| - 1];
  }

  /** The parts of a beginning of `s` are the parts of `s`, of which the last one may go on. */
  lemma {:induction false} SplitPrefix(s: string, k: nat)
    requires k <= |s|
    ensures var p, q := Split(s[..k]), Split(s);
      GoesOn(p, q) && (|p| == |q| && k < |s| ==> |p[|p| - 1]| < |q[|q| - 1]|)
    decreases |s|
  {
    if k == |s| {
      assert s[..k] == s;
    } else {
      SplitPrefix(s[..|s| - 1], k);
      assert s[..|s| - 1][..k] == s[..k];
      hide GoesOn, Prolonged;
      GoesOnStep(Split(s[..k]), Split(s[..|s| - 1]), s[|s| - 1]);
    }
  }

  lemma {:induction false} SplitStep(s: string, k: nat)
    requires k < |s|
    ensures var parts, c := Split(s[..k]), s[k];
      Split(s[..k + 1]) == if c == '.' then parts + [""] else Prolonged(parts, [c])
  {
    assert s[..k + 1][..k] == s[..k];
  }

  lemma {:induction false} ValuePrefix(p: string, q: string)
    requires AllDigits(q) && p <= q
    ensures AllDigits(p) && Value(p) <= Value(q)
    decreases |q|
  {
    if |p| < |q| {
      ValuePrefix(p, q[..|q| - 1]);
    } else {
      assert p == q;
    }
  }

  /** If a beginning of the string has a part that does not fit, or too many parts, it is not accepted. */
  lemma NotAccepted(s: string, k: nat)
    requires k <= |s|
    requires !Fits(Split(s[..k])[|Split(s[..k])| - 1]) || |Split(s[..k])| > 3
    ensures !Accepted(s)
  {
    SplitPrefix(s, k);
    if Accepted(s) {
      var p, q := Split(s[..k]), Split(s);
      ValuePrefix(p[|p| - 1], q[|p| - 1]);
    }
  }

  lemma ValueStep(part: string, c: char)
    requires AllDigits(part) && IsDigit(c)
    ensures AllDigits(part + [c]) && Value(part + [c]) == Value(part) * 10 + DigitValue(c)
  {}

  /** The segments up to `index` hold the values of the parts. */
  ghost predicate Held(parts: seq<string>, index: nat, segments: seq<nat>) {
    && |segments| == 3 && index < 3 && |parts| == index + 1
    && (forall j :: 0 <= j <= index ==> Fits(parts[j]) && segments[j] == Value(parts[j]))
    && (forall j :: index < j < 3 ==> segments[j] == 0)
  }

  /** The first `i` characters have been read. */
  ghost predicate Scanned(version: string, i: nat, index: nat, segments: seq<nat>) {
    i <= |version| && Held(Split(version[..i]), index, segments)
  }

  lemma HeldDigit(parts: seq<string>, index: nat, segments: seq<nat>, c: char)
    requires Held(parts, index, segments) && IsDigit(c)
    ensures |segments| == 3
    ensures var value, parts' := segments[index] * 10 + DigitValue(c), Prolonged(parts, [c]);
      |parts'| == index + 1 &&
      if value < SEGMENT_LIMIT then Held(parts', index, segments[index := value]) else !Fits(parts'[index])
  {}

  lemma ScanDigit(version: string, i: nat, index: nat, segments: seq<nat>)
    requires Scanned(version, i, index, segments) && i < |version| && IsDigit(version[i])
    ensures var value := segments[index] * 10 + DigitValue(version[i]);
      if value < SEGMENT_LIMIT then Scanned(version, i + 1, index, segments[index := value]) else !Accepted(version)
  {
    hide Fits, Accepted, Held, Split, Prolonged, Value;
    SplitStep(version, i);
    HeldDigit(Split(version[..i]), index, segments, version[i]);
    if !Fits(Split(version[..i + 1])[index]) {
      NotAccepted(version, i + 1);
    }
  }

  lemma HeldDot(parts: seq<string>, index: nat, segments: seq<nat>)
    requires Held(parts, index, segments) && index + 1 < 3
    ensures Held(parts + [""], index + 1, segments)
  {}

  lemma ScanDot(version: string, i: nat, index: nat, segments: seq<nat>)
    requires Scanned(version, i, index, segments) && i < |version| && version[i] == '.'
    ensures if index + 1 < 3 then Scanned(version, i + 1, index + 1, segments) else !Accepted(version)
  {
    hide Fits, Accepted;
    SplitStep(version, i);
    if index + 1 == 3 {
      NotAccepted(version, i + 1);
    } else {
      HeldDot(Split(version[..i]), index, segments);
    }
  }

  lemma EndingDot(version: string)
    requires version != "" && version[|version| - 1] == '.'
    ensures !Accepted(version)
  {}

  lemma ScanOther(version: string, i: nat, index: nat, segments: seq<nat>)
    requires Scanned(version, i, index, segments) && i < |version| && !IsDigit(version[i]) && version[i] != '.'
    ensures !Accepted(version)
  {
    SplitStep(version, i);
    var last := Split(version[..i])[index];
    assert Split(version[..i + 1])[index][|last|] == version[i];
    NotAccepted(version, i + 1);
  }

  lemma ScanEnd(version: string, index: nat, segments: seq<nat>)
    requires Scanned(version, |version|, index, segments) && (|version| > 0 ==> version[|version| - 1] != '.')
    ensures Accepted(version) <==> index == 2
    ensures Accepted(version) ==> Segments(version) == SemVer(segments[0], segments[1], segments[2])
  {
    assert version[..|version|] == version;
  }

  lemma ScanStart(version: string, segments: seq<nat>)
    requires |segments| == 3 && forall j :: 0 <= j < 3 ==> segments[j] == 0
    ensures Scanned(version, 0, 0, segments)
  {}

  method Parse(version: string) returns (r: Result<SemVer, Error>)
    ensures r.Success? <==> Accepted(version)
    ensures r.Success? ==> r.value == Segments(version)
  {
    hide Accepted, Segments, Scanned;
    var segments := new nat[3](_ => 0);
    var i, segmentIndex := 0, 0;
    ScanStart(version, segments[..]);
    while i < |version|
      invariant 0 <= i <= |version| && 0 <= segmentIndex < 3 && segments.Length == 3
      invariant Scanned(version, i, segmentIndex, segments[..])
      invariant i == |version| && i > 0 ==> version[i - 1] != '.'
    {
      var c := version[i];
      if IsDigit(c) {
        ScanDigit(version, i, segmentIndex, segments[..]);
        if segments[segmentIndex] * 10 >= SEGMENT_LIMIT ||
          segments[segmentIndex] * 10 + DigitValue(c) >= SEGMENT_LIMIT {
          return Failure(Overflow);
        }
        ghost var before := segments[..];
        segments[segmentIndex] := segments[segmentIndex] * 10;
        segments[segmentIndex] := segments[segmentIndex] + DigitValue(c);
        assert segments[..] == before[segmentIndex := before[segmentIndex] * 10 + DigitValue(c)];
      } else if c == '.' {
        ScanDot(version, i, segmentIndex, segments[..]);
        segmentIndex := segmentIndex + 1;
        if segmentIndex == segments.Length {
          return Failure(UnexpectedSegment);
        }
        if i + 1 == |version| {
          EndingDot(version);
          return Failure(EndsWithDot);
        }
      } else {
        ScanOther(version, i, segmentIndex, segments[..]);
        return Failure(UnexpectedSymbol);
      }
      i := i + 1;
    }
    ScanEnd(version, segmentIndex, segments[..]);
    if segmentIndex + 1 != segments.Length {
      return Failure(TooFewSegments);
    }
    return Success(SemVer(segments[0], segments[1], segments[2]));
  }

  // ----- Printing -----

  function Digit(d: nat): char
    requires d < 10
  {
    ('0' as int + d) as char
  }

  function Decimal(n: nat): string {
    if n < 10 then [Digit(n)] else Decimal(n / 10) + [Digit(n % 10)]
  }

  function Print(v: SemVer): string {
    Decimal(v.major) + "." + Decimal(v.minor) + "." + Decimal(v.patch)
  }

  /** A number of section 2 of Semantic Versioning 2.0.0: no leading zeroes. */
  ghost predicate PlainNumber(s: string) {
    AllDigits(s) && s != "" && (s[0] == '0' ==> |s| == 1)
  }

  lemma {:induction false} DecimalValue(n: nat)
    ensures PlainNumber(Decimal(n)) && Value(Decimal(n)) == n
    ensures n > 0 ==> Decimal(n)[0] != '0'
  {
    if n >= 10 {
      DecimalValue(n / 10);
      ValueStep(Decimal(n / 10), Digit(n % 10));
    } else {
      assert Decimal(n)[..0] == "";
    }
  }

  lemma {:induction false} PlainIsDecimal(s: string)
    requires PlainNumber(s)
    ensures Decimal(Value(s)) == s && (s[0] != '0' ==> Value(s) > 0)
    decreases |s|
  {
    var init := s[..|s| - 1];
    if init == "" {
      assert s == [s[0]] && Value(init) == 0;
    } else {
      PlainIsDecimal(init);
      assert s == init + [s[|s| - 1]];
    }
  }

  lemma SplitAppend(s: string, c: char)
    ensures Split(s + [c]) == if c == '.' then Split(s) + [""] else Prolonged(Split(s), [c])
  {}

  lemma ProlongedTwice(parts: seq<string>, a: string, c: char)
    requires |parts| > 0
    ensures Prolonged(Prolonged(parts, a), [c]) == Prolonged(parts, a + [c])
    ensures Prolonged(parts, "") == parts
  {
    var last := parts[|parts| - 1];
    assert (last + a) + [c] == last + (a + [c]) && last + "" == last;
  }

  lemma {:induction false} SplitOfDigits(s: string, part: string)
    requires AllDigits(part)
    ensures Split(s + part) == Prolonged(Split(s), part)
    decreases |part|
  {
    hide Split, Prolonged;
    if part == "" {
      assert s + part == s;
      ProlongedTwice(Split(s), "", '0');
    } else {
      var init, c := part[..|part| - 1], part[|part| - 1];
      SplitOfDigits(s, init);
      SplitAppend(s + init, c);
      ProlongedTwice(Split(s), init, c);
      assert init + [c] == part && (s + init) + [c] == s + part;
    }
  }

  lemma SplitDot(s: string)
    ensures Split(s + ".") == Split(s) + [""]
  {}

  lemma SplitPrinted(a: string, b: string, c: string)
    requires AllDigits(a) && AllDigits(b) && AllDigits(c)
    ensures Split(a + "." + b + "." + c) == [a, b, c]
  {
    SplitOfDigits("", a);
    assert "" + a == a && "" + b == b && "" + c == c;
    assert Split(a) == [a];
    SplitDot(a);
    SplitOfDigits(a + ".", b);
    assert Split(a + "." + b) == [a, b];
    SplitDot(a + "." + b);
    SplitOfDigits(a + "." + b + ".", c);
  }

  /** Every version is parsed back from what it is printed as. */
  lemma PrintedIsAccepted(v: SemVer)
    ensures Accepted(Print(v)) && Segments(Print(v)) == v
  {
    DecimalValue(v.major);
    DecimalValue(v.minor);
    DecimalValue(v.patch);
    SplitPrinted(Decimal(v.major), Decimal(v.minor), Decimal(v.patch));
  }

  lemma {:induction false} SplitJoin(s: string)
    ensures |Split(s)| == 3 ==> s == Split(s)[0] + "." + Split(s)[1] + "." + Split(s)[2]
    ensures |Split(s)| == 2 ==> s == Split(s)[0] + "." + Split(s)[1]
    ensures |Split(s)| == 1 ==> s == Split(s)[0]
  {
    if s != "" {
      SplitJoin(s[..|s| - 1]);
      assert s == s[..|s| - 1] + [s[|s| - 1]];
    }
  }

  ghost predicate PlainParts(s: string) {
    |Split(s)| == 3 && forall i :: 0 <= i < 3 ==> PlainNumber(Split(s)[i])
  }

  lemma PrintedParts(v: SemVer)
    ensures PlainParts(Print(v))
  {
    hide Split, Decimal, Value;
    DecimalValue(v.major);
    DecimalValue(v.minor);
    DecimalValue(v.patch);
    SplitPrinted(Decimal(v.major), Decimal(v.minor), Decimal(v.patch));
  }

  lemma PlainPartsPrinted(s: string)
    requires Accepted(s) && PlainParts(s)
    ensures Print(Segments(s)) == s
  {
    hide Split, Decimal, Value, PlainNumber;
    PlainIsDecimal(Split(s)[0]);
    PlainIsDecimal(Split(s)[1]);
    PlainIsDecimal(Split(s)[2]);
    SplitJoin(s);
  }

  /** A decimal number is taken for a segment exactly if it fits 16 bits. */
  lemma FitsIff(n: nat)
    ensures Fits(Decimal(n)) <==> n <= 65_535
  {
    DecimalValue(n);
  }

  /** More is accepted than is printed: an accepted string is what its version is printed as exactly when
      its three parts are numbers without leading zeroes, none of them missing. */
  lemma PrintsBackIff(s: string)
    requires Accepted(s)
    ensures Print(Segments(s)) == s <==> PlainParts(s)
  {
    hide PlainParts, Print, Segments;
    PrintedParts(Segments(s));
    if PlainParts(s) {
      PlainPartsPrinted(s);
    }
  }

  /** An example of a version printed. */
  lemma PrintedExample()
    ensures Print(SemVer(1, 20, 345)) == "1.20.345"
  {
    assert Decimal(1) == "1" && Decimal(2) == "2" && Decimal(20) == Decimal(2) + "0" == "20";
    assert Decimal(3) == "3" && Decimal(34) == Decimal(3) + "4" && Decimal(345) == Decimal(34) + "5" == "345";
    assert "1" + "." + "20" + "." + "345" == "1.20.345";
  }

  lemma DotsSplit()
    ensures Split("..0") == ["", "", "0"]
  {
    assert Split("") == [""];
    SplitAppend("", '.');
    SplitAppend(".", '.');
    SplitAppend("..", '0');
    assert "" + ['.'] == "." && "." + ['.'] == ".." && ".." + ['0'] == "..0";
    assert Split("..") == ["", "", ""];
    assert Split("..0") == ["", ""] + ["" + "0"] && "" + "0" == "0";
  }

  /** Two dots and a digit are taken for a version, that is printed differently. */
  lemma NotPrintedBack()
    ensures Accepted("..0") && Segments("..0") == SemVer(0, 0, 0) && Print(SemVer(0, 0, 0)) != "..0"
  {
    hide Split;
    DotsSplit();
    DecimalValue(0);
    assert Decimal(0) == "0" && "0" + "." + "0" + "." + "0" == "0.0.0";
    assert "0.0.0"[0] != "..0"[0];
  }
}
