/** `normalizeStopName`: the key under which stops of different feeds are
    compared. Four global regular-expression deletions, then lower-casing. */
module StopNames {
  import opened Builtins

  /** The characters of the class `[　\s]`: U+3000 is already white space. */
  predicate NotSpace(c: char) {
    !IsSpace(c)
  }

  /** The characters of the class `[（）()]`. */
  predicate IsParen(c: char) {
    c == '(' || c == ')' || c == '\U{FF08}' || c == '\U{FF09}'
  }

  predicate NotParen(c: char) {
    !IsParen(c)
  }

  const BusStop: string := "バス停"
  const Platform: string := "のりば"

  /** `replace(/[　\s]/g, "")`. */
  function RemoveSpaces(s: string): string {
    Filter(s, NotSpace)
  }

  /** `replace(/[（）()]/g, "")`. */
  function RemoveParens(s: string): string {
    Filter(s, NotParen)
  }

  /** `s.startsWith(pat)`, compared character by character. */
  predicate StartsWith(s: string, pat: string)
    ensures StartsWith(s, pat) ==> |pat| <= |s|
    decreases |pat|
  {
    pat == [] || (s != [] && s[0] == pat[0] && StartsWith(s[1..], pat[1..]))
  }

  lemma {:induction false} StartsWithIff(s: string, pat: string)
    ensures StartsWith(s, pat) <==> OccursAt(s, pat, 0)
    decreases |pat|
  {
    if pat != [] && s != [] {
      StartsWithIff(s[1..], pat[1..]);
      if |pat| <= |s| {
        assert s[..|pat|] == [s[0]] + s[1..][..|pat| - 1];
        assert pat == [pat[0]] + pat[1..];
      }
    }
  }

  /** A global replace of the literal `pat` by nothing: the matches are found
      left to right and do not overlap; after a match the scan resumes just
      past it. */
  function RemoveAll(s: string, pat: string): (r: string)
    requires pat != []
    ensures |r| <= |s|
    decreases |s|
  {
    if s == [] then []
    else if StartsWith(s, pat) then RemoveAll(s[|pat|..], pat)
    else [s[0]] + RemoveAll(s[1..], pat)
  }

  /** `replace(/バス停/gi, "")`: kana have no case, so the flag changes
      nothing. */
  function RemoveBusStop(s: string): string {
    RemoveAll(s, BusStop)
  }

  /** The length of the run of ASCII digits at the start of `s`. */
  function DigitRun(s: string): (n: nat)
    ensures n <= |s|
    decreases |s|
  {
    if s != [] && IsAsciiDigit(s[0]) then 1 + DigitRun(s[1..]) else 0
  }

  /** The length of a match of `のりば\d+` at the start of `s`, or 0 when there
      is none; `\d+` is greedy. */
  function PlatformMatch(s: string): (n: nat)
    ensures n <= |s|
  {
    if StartsWith(s, Platform) && DigitRun(s[|Platform|..]) > 0 then |Platform| + DigitRun(s[|Platform|..])
    else 0
  }

  /** `replace(/のりば\d+/gi, "")`, scanned left to right like `RemoveAll`. */
  function RemovePlatforms(s: string): (r: string)
    ensures |r| <= |s|
    decreases |s|
  {
    if s == [] then []
    else if PlatformMatch(s) > 0 then RemovePlatforms(s[PlatformMatch(s)..])
    else [s[0]] + RemovePlatforms(s[1..])
  }

  /** `String.prototype.toLowerCase` on one character, for the Latin letters
      and their full-width forms. */
  function LowerChar(c: char): char {
    if 'A' <= c <= 'Z' then (c as int + 32) as char
    else if '\U{FF21}' <= c <= '\U{FF3A}' then (c as int + 32) as char
    else c
  }

  predicate IsUpper(c: char) {
    'A' <= c <= 'Z' || '\U{FF21}' <= c <= '\U{FF3A}'
  }

  function LowerCase(s: string): (r: string)
    ensures |r| == |s|
  {
    seq(|s|, i requires 0 <= i < |s| => LowerChar(s[i]))
  }

  /** `normalizeStopName`. */
  function Normalize(raw: string): (name: string)
    ensures |name| <= |raw|
  {
    LowerCase(RemovePlatforms(RemoveBusStop(RemoveParens(RemoveSpaces(raw)))))
  }

  // ---------------------------------------------------------------------
  // Each step only deletes, and the deletions keep what they do not match.

  /** The first two steps keep exactly the characters outside their class,
      in order. */
  lemma RemoveSpacesExactly(s: string)
    ensures forall i :: 0 <= i < |RemoveSpaces(s)| ==> RemoveSpaces(s)[i] in s && !IsSpace(RemoveSpaces(s)[i])
    ensures forall i :: 0 <= i < |s| && !IsSpace(s[i]) ==> s[i] in RemoveSpaces(s)
  {
    FilterMembers(s, NotSpace);
  }

  lemma RemoveParensExactly(s: string)
    ensures forall i :: 0 <= i < |RemoveParens(s)| ==> RemoveParens(s)[i] in s && !IsParen(RemoveParens(s)[i])
    ensures forall i :: 0 <= i < |s| && !IsParen(s[i]) ==> s[i] in RemoveParens(s)
  {
    FilterMembers(s, NotParen);
  }

  /** Deleting matches keeps only characters of the input. */
  lemma {:induction false} RemoveAllWithin(s: string, pat: string)
    requires pat != []
    ensures forall c :: c in RemoveAll(s, pat) ==> c in s
    decreases |s|
  {
    if s != [] {
      if StartsWith(s, pat) {
        RemoveAllWithin(s[|pat|..], pat);
      } else {
        RemoveAllWithin(s[1..], pat);
      }
    }
  }

  lemma {:induction false} RemovePlatformsWithin(s: string)
    ensures forall c :: c in RemovePlatforms(s) ==> c in s
    decreases |s|
  {
    if s != [] {
      if PlatformMatch(s) > 0 {
        RemovePlatformsWithin(s[PlatformMatch(s)..]);
      } else {
        RemovePlatformsWithin(s[1..]);
      }
    }
  }

  lemma OccursAtTail(s: string, pat: string, i: nat)
    requires s != []
    ensures OccursAt(s[1..], pat, i) ==> OccursAt(s, pat, i + 1)
  {
    if i + |pat| <= |s| - 1 {
      assert s[1..][i..i + |pat|] == s[i + 1..i + 1 + |pat|];
    }
  }

  /** With no match in it, a string is left as it is. */
  lemma {:induction false} RemoveAllAbsent(s: string, pat: string)
    requires pat != [] && !Includes(s, pat)
    ensures RemoveAll(s, pat) == s
    decreases |s|
  {
    IncludesIff(s, pat);
    if s != [] {
      StartsWithIff(s, pat);
      IncludesIff(s[1..], pat);
      forall i | 0 <= i <= |s[1..]| ensures !OccursAt(s[1..], pat, i) {
        OccursAtTail(s, pat, i);
      }
      RemoveAllAbsent(s[1..], pat);
      assert s == [s[0]] + s[1..];
    }
  }

  /** A `のりば` followed by a digit starts at `i`. */
  predicate PlatformAt(s: string, i: nat)
    requires i <= |s|
  {
    PlatformMatch(s[i..]) > 0
  }

  lemma {:induction false} RemovePlatformsAbsent(s: string)
    requires forall i :: 0 <= i <= |s| ==> !PlatformAt(s, i)
    ensures RemovePlatforms(s) == s
    decreases |s|
  {
    if s != [] {
      assert s[0..] == s;
      assert !PlatformAt(s, 0);
      forall i | 0 <= i <= |s[1..]| ensures !PlatformAt(s[1..], i) {
        assert s[1..][i..] == s[i + 1..];
        assert !PlatformAt(s, i + 1);
      }
      RemovePlatformsAbsent(s[1..]);
      assert s == [s[0]] + s[1..];
    }
  }

  /** Lower-casing twice is lower-casing once, and leaves no capital. */
  lemma LowerCaseIdempotent(s: string)
    ensures LowerCase(LowerCase(s)) == LowerCase(s)
    ensures forall i :: 0 <= i < |s| ==> !IsUpper(LowerCase(s)[i])
  {
  }

  // ---------------------------------------------------------------------
  // What the whole chain promises.

  /** The normalised name has no white space (U+3000 included) and no
      parenthesis, half- or full-width. */
  lemma NormalizeHasNoSpaceOrParen(raw: string)
    ensures forall i :: 0 <= i < |Normalize(raw)| ==> !IsSpace(Normalize(raw)[i]) && !IsParen(Normalize(raw)[i])
  {
    var a := RemoveSpaces(raw);
    var b := RemoveParens(a);
    var c := RemoveBusStop(b);
    var d := RemovePlatforms(c);
    RemoveSpacesExactly(raw);
    RemoveParensExactly(a);
    RemoveAllWithin(b, BusStop);
    RemovePlatformsWithin(c);
    forall i | 0 <= i < |d| ensures !IsSpace(d[i]) && !IsParen(d[i]) {
      assert d[i] in c;
      assert d[i] in b;
      var j :| 0 <= j < |b| && b[j] == d[i];
      assert b[j] in a;
      var k :| 0 <= k < |a| && a[k] == d[i];
    }
  }

  /** A name whose normalised form holds no `バス停`, no `のりば` followed by a
      digit, is a fixed point: normalising it again changes nothing. */
  lemma NormalizeFixedPoint(raw: string)
    requires !Includes(Normalize(raw), BusStop)
    requires forall i :: 0 <= i <= |Normalize(raw)| ==> !PlatformAt(Normalize(raw), i)
    ensures Normalize(Normalize(raw)) == Normalize(raw)
  {
    var n := Normalize(raw);
    NormalizeHasNoSpaceOrParen(raw);
    FilterKeepsAll(n, NotSpace);
    FilterKeepsAll(n, NotParen);
    RemoveAllAbsent(n, BusStop);
    RemovePlatformsAbsent(n);
    LowerCaseIdempotent(RemovePlatforms(RemoveBusStop(RemoveParens(RemoveSpaces(raw)))));
  }

  // ---------------------------------------------------------------------
  // Worked examples.

  // ---------------------------------------------------------------------
  // Worked examples, taken a piece of the name at a time.

  /** A prefix holding no first character of `pat` passes through. */
  lemma {:induction false} RemoveAllSkip(a: string, b: string, pat: string)
    requires pat != [] && pat[0] !in a
    ensures RemoveAll(a + b, pat) == a + RemoveAll(b, pat)
    decreases |a|
  {
    if a == [] {
      assert a + b == b;
    } else {
      assert (a + b)[0] == a[0] && (a + b)[1..] == a[1..] + b;
      assert !StartsWith(a + b, pat);
      RemoveAllSkip(a[1..], b, pat);
    }
  }

  /** A prefix holding no `の` passes through. */
  lemma {:induction false} RemovePlatformsSkip(a: string, b: string)
    requires 'の' !in a
    ensures RemovePlatforms(a + b) == a + RemovePlatforms(b)
    decreases |a|
  {
    if a == [] {
      assert a + b == b;
    } else {
      var s := a + b;
      assert RemovePlatforms(s) == [a[0]] + RemovePlatforms(a[1..] + b) by {
        assert s[0] == a[0] && s[1..] == a[1..] + b;
        assert a[0] in a;
        PlatformNotHere(s);
      }
      assert 'の' !in a[1..] by {
        assert forall c :: c in a[1..] ==> c in a;
      }
      RemovePlatformsSkip(a[1..], b);
      assert a + RemovePlatforms(b) == [a[0]] + (a[1..] + RemovePlatforms(b)) by {
        assert [a[0]] + a[1..] == a;
      }
    }
  }

  /** No match starts at a character other than `の`. */
  lemma PlatformNotHere(s: string)
    requires s != [] && s[0] != 'の'
    ensures RemovePlatforms(s) == [s[0]] + RemovePlatforms(s[1..])
  {
    assert Platform[0] == 'の';
    assert !StartsWith(s, Platform);
  }

  /** A character that no step of the chain touches. */
  predicate Untouched(c: char) {
    !IsSpace(c) && !IsParen(c) && c != 'バ' && c != 'の' && !IsUpper(c)
  }

  predicate AllUntouched(x: string) {
    forall i :: 0 <= i < |x| ==> Untouched(x[i])
  }

  /** A name of untouched characters passes each step unchanged. */
  lemma UntouchedKept(x: string)
    requires AllUntouched(x)
    ensures RemoveSpaces(x) == x && RemoveParens(x) == x && LowerCase(x) == x
  {
    FilterKeepsAll(x, NotSpace);
    FilterKeepsAll(x, NotParen);
  }

  /** ... and stays itself in front of anything. */
  lemma UntouchedPrefix(x: string, rest: string)
    requires AllUntouched(x)
    ensures RemoveAll(x + rest, BusStop) == x + RemoveAll(rest, BusStop)
    ensures RemovePlatforms(x + rest) == x + RemovePlatforms(rest)
  {
    RemoveAllSkip(x, rest, BusStop);
    RemovePlatformsSkip(x, rest);
  }

  /** Any untouched name followed by `バス停` normalises to the name. */
  lemma NormalizeDropsBusStop(x: string)
    requires AllUntouched(x)
    ensures Normalize(x + BusStop) == x
  {
    UntouchedKept(x);
    UntouchedPrefix(x, BusStop);
    FilterAppend(x, BusStop, NotSpace);
    FilterAppend(x, BusStop, NotParen);
    assert RemoveSpaces(BusStop) == BusStop && RemoveParens(BusStop) == BusStop;
    assert RemoveAll(BusStop, BusStop) == [];
    UntouchedPrefix(x, []);
    assert x + [] == x;
  }

  lemma PlatformSuffixSpaces(d: string)
    requires forall i :: 0 <= i < |d| ==> IsAsciiDigit(d[i])
    ensures RemoveSpaces("(" + Platform + d + ")") == "(" + Platform + d + ")"
  {
    var a := "(" + Platform;
    FilterAppend(a + d, ")", NotSpace);
    FilterAppend(a, d, NotSpace);
    FilterKeepsAll(d, NotSpace);
    assert RemoveSpaces(a) == a && RemoveSpaces(")") == ")";
  }

  lemma PlatformSuffixParens(d: string)
    requires forall i :: 0 <= i < |d| ==> IsAsciiDigit(d[i])
    ensures RemoveParens("(" + Platform + d + ")") == Platform + d
  {
    var a := "(" + Platform;
    FilterAppend(a + d, ")", NotParen);
    FilterAppend(a, d, NotParen);
    FilterKeepsAll(d, NotParen);
    assert RemoveParens(a) == Platform && RemoveParens(")") == [];
  }

  lemma PlatformSuffixMatch(d: string)
    requires d != [] && forall i :: 0 <= i < |d| ==> IsAsciiDigit(d[i])
    ensures PlatformMatch(Platform + d) == |Platform + d|
  {
    var y := Platform + d;
    DigitRunAll(d);
    assert StartsWith(y, Platform) by {
      assert y[1..][1..][1..] == d;
    }
    assert y[|Platform|..] == d;
  }

  lemma PlatformSuffixKept(d: string)
    requires forall i :: 0 <= i < |d| ==> IsAsciiDigit(d[i])
    ensures RemoveAll(Platform + d, BusStop) == Platform + d
  {
    NoBaInPlatform();
    NoBaInDigits(d);
    NotInConcat(Platform, d, 'バ');
    NoBaKept(Platform + d);
  }

  lemma NoBaInPlatform()
    ensures 'バ' !in Platform
  {
    assert Platform == ['の', 'り', 'ば'];
  }

  lemma NoBaInDigits(d: string)
    requires forall i :: 0 <= i < |d| ==> IsAsciiDigit(d[i])
    ensures 'バ' !in d
  {
    forall i | 0 <= i < |d| ensures d[i] != 'バ' {
      assert IsAsciiDigit(d[i]);
    }
  }

  lemma NotInConcat<T>(a: seq<T>, b: seq<T>, c: T)
    requires c !in a && c !in b
    ensures c !in a + b
  {
    forall i | 0 <= i < |a + b| ensures (a + b)[i] != c {
      if i >= |a| { assert (a + b)[i] == b[i - |a|]; }
    }
  }

  /** A string without `バ` holds no `バス停`. */
  lemma NoBaKept(y: string)
    requires 'バ' !in y
    ensures RemoveAll(y, BusStop) == y
  {
    RemoveAllSkip(y, [], BusStop);
    assert y + [] == y;
  }

  lemma PlatformSuffixGone(d: string)
    requires d != [] && forall i :: 0 <= i < |d| ==> IsAsciiDigit(d[i])
    ensures RemovePlatforms(Platform + d) == []
  {
    var y := Platform + d;
    PlatformSuffixMatch(d);
    PlatformStep(y);
    assert y[|y|..] == [];
  }

  /** The brackets go first ... */
  lemma PlatformBracketsGo(x: string, d: string)
    requires AllUntouched(x)
    requires forall i :: 0 <= i < |d| ==> IsAsciiDigit(d[i])
    ensures RemoveParens(RemoveSpaces(x + ("(" + Platform + d + ")"))) == x + (Platform + d)
  {
    var u := "(" + Platform + d + ")";
    PlatformSuffixSpaces(d);
    PlatformSuffixParens(d);
    UntouchedKept(x);
    FilterAppend(x, u, NotSpace);
    assert RemoveSpaces(x + u) == x + u;
    FilterAppend(x, u, NotParen);
  }

  /** ... then the platform and its number. */
  lemma PlatformNumberGoes(x: string, d: string)
    requires AllUntouched(x)
    requires d != [] && forall i :: 0 <= i < |d| ==> IsAsciiDigit(d[i])
    ensures LowerCase(RemovePlatforms(RemoveBusStop(x + (Platform + d)))) == x
  {
    PlatformSuffixKept(d);
    PlatformSuffixGone(d);
    UntouchedPrefix(x, Platform + d);
    UntouchedPrefix(x, []);
    UntouchedKept(x);
    assert x + [] == x;
  }

  /** Any untouched name followed by a bracketed `のりば` and a number
      normalises to the name. */
  lemma NormalizeDropsPlatform(x: string, d: string)
    requires AllUntouched(x)
    requires d != [] && forall i :: 0 <= i < |d| ==> IsAsciiDigit(d[i])
    ensures Normalize(x + ("(" + Platform + d + ")")) == x
  {
    PlatformBracketsGo(x, d);
    PlatformNumberGoes(x, d);
  }

  lemma {:induction false} DigitRunAll(d: string)
    requires forall i :: 0 <= i < |d| ==> IsAsciiDigit(d[i])
    ensures DigitRun(d) == |d|
    decreases |d|
  {
    if d != [] {
      assert forall i :: 0 <= i < |d| - 1 ==> d[1..][i] == d[i + 1];
      DigitRunAll(d[1..]);
    }
  }

  lemma KanjiUntouched()
    ensures AllUntouched("広電前")
  {
    var x := "広電前";
    assert Untouched(x[0]) && Untouched(x[1]) && Untouched(x[2]);
  }

  /** `広電前バス停` and `広電前(のりば1)` both normalise to `広電前`. */
  lemma NormalizeExamples()
    ensures Normalize("広電前" + BusStop) == "広電前"
    ensures Normalize("広電前" + ("(" + Platform + "1" + ")")) == "広電前"
  {
    KanjiUntouched();
    NormalizeDropsBusStop("広電前");
    NormalizeDropsPlatform("広電前", "1");
  }

  lemma BusStopKept()
    ensures RemoveSpaces(BusStop) == BusStop && RemoveParens(BusStop) == BusStop
    ensures RemovePlatforms(BusStop) == BusStop && LowerCase(BusStop) == BusStop
    ensures RemoveBusStop(BusStop) == []
  {
  }

  // ババス停ス停
  lemma Example3Chars(raw: string)
    requires raw == "ババス停ス停"
    ensures RemoveParens(RemoveSpaces(raw)) == raw
  {
    assert RemoveSpaces("ババス") == "ババス" && RemoveParens("ババス") == "ババス";
    assert RemoveSpaces("停ス停") == "停ス停" && RemoveParens("停ス停") == "停ス停";
    assert raw == "ババス" + "停ス停";
    FilterAppend("ババス", "停ス停", NotSpace);
    FilterAppend("ババス", "停ス停", NotParen);
  }

  lemma Example3BusStop(raw: string)
    requires raw == "ババス停ス停"
    ensures RemoveBusStop(raw) == BusStop
  {
    assert !StartsWith(raw, BusStop);
    assert RemoveAll(raw, BusStop) == [raw[0]] + RemoveAll(raw[1..], BusStop);
    assert raw[1..] == BusStop + "ス停";
    assert StartsWith(raw[1..], BusStop);
    assert raw[1..][3..] == "ス停";
    assert RemoveAll(raw[1..], BusStop) == RemoveAll("ス停", BusStop);
    assert RemoveAll("ス停", BusStop) == "ス停";
    assert [raw[0]] + "ス停" == BusStop;
  }

  /** Normalising is not idempotent: deleting one `バス停` joins the halves of
      another, which only a second pass deletes. */
  lemma NormalizeNotIdempotent(raw: string)
    requires raw == "ババス停ス停"
    ensures Normalize(raw) == BusStop
    ensures Normalize(Normalize(raw)) == ""
  {
    Example3Chars(raw);
    Example3BusStop(raw);
    BusStopKept();
  }

  // `バス` + `のりば` + digits + `停`.

  lemma {:induction false} DigitRunStops(d: string, rest: string)
    requires forall i :: 0 <= i < |d| ==> IsAsciiDigit(d[i])
    requires rest == [] || !IsAsciiDigit(rest[0])
    ensures DigitRun(d + rest) == |d|
    decreases |d|
  {
    if d == [] {
      assert d + rest == rest;
    } else {
      assert (d + rest)[0] == d[0] && (d + rest)[1..] == d[1..] + rest;
      assert forall i :: 0 <= i < |d| - 1 ==> d[1..][i] == d[i + 1];
      DigitRunStops(d[1..], rest);
    }
  }

  lemma DigitsKept(d: string)
    requires forall i :: 0 <= i < |d| ==> IsAsciiDigit(d[i])
    ensures RemoveSpaces(Platform + d) == Platform + d
    ensures RemoveParens(Platform + d) == Platform + d
  {
    assert RemoveSpaces(Platform) == Platform && RemoveParens(Platform) == Platform;
    FilterKeepsAll(d, NotSpace);
    FilterKeepsAll(d, NotParen);
    FilterAppend(Platform, d, NotSpace);
    FilterAppend(Platform, d, NotParen);
  }

  /** `バス` and `停` hold no white space and no parenthesis. */
  lemma KanaKept()
    ensures Filter("バス", NotSpace) == "バス" && Filter("停", NotSpace) == "停"
    ensures Filter("バス", NotParen) == "バス" && Filter("停", NotParen) == "停"
  {
  }

  /** Three pieces that a filter keeps whole are kept whole together. */
  lemma KeptThree<T>(a: seq<T>, b: seq<T>, c: seq<T>, p: T -> bool)
    requires Filter(a, p) == a && Filter(b, p) == b && Filter(c, p) == c
    ensures Filter(a + (b + c), p) == a + (b + c)
  {
    FilterAppend(b, c, p);
    FilterAppend(a, b + c, p);
  }

  lemma JoinSpaces(d: string)
    requires forall i :: 0 <= i < |d| ==> IsAsciiDigit(d[i])
    ensures RemoveSpaces("バス" + (Platform + d + "停")) == "バス" + (Platform + d + "停")
  {
    DigitsKept(d);
    KanaKept();
    KeptThree("バス", Platform + d, "停", NotSpace);
  }

  lemma JoinParens(d: string)
    requires forall i :: 0 <= i < |d| ==> IsAsciiDigit(d[i])
    ensures RemoveParens("バス" + (Platform + d + "停")) == "バス" + (Platform + d + "停")
  {
    DigitsKept(d);
    KanaKept();
    KeptThree("バス", Platform + d, "停", NotParen);
  }

  lemma JoinBusStop(d: string)
    requires forall i :: 0 <= i < |d| ==> IsAsciiDigit(d[i])
    ensures RemoveBusStop("バス" + (Platform + d + "停")) == "バス" + (Platform + d + "停")
  {
    var s := "バス" + (Platform + d + "停");
    var t := "ス" + (Platform + d + "停");
    assert s[0] == 'バ' && s[1..] == t && s[2] == 'の';
    assert !StartsWith(s, BusStop);
    assert 'バ' !in t;
    RemoveAllSkip(t, [], BusStop);
    assert t + [] == t;
  }

  lemma JoinPlatformMatch(d: string)
    requires d != [] && forall i :: 0 <= i < |d| ==> IsAsciiDigit(d[i])
    ensures PlatformMatch(Platform + d + "停") == |Platform| + |d|
  {
    var y := Platform + d + "停";
    assert y[1..][1..][1..] == d + "停";
    assert StartsWith(y, Platform);
    assert y[|Platform|..] == d + "停";
    DigitRunStops(d, "停");
  }

  lemma BusPrefix(y: string)
    ensures RemovePlatforms("バス" + y) == "バス" + RemovePlatforms(y)
  {
    RemovePlatformsSkip("バス", y);
  }

  lemma PlatformStep(s: string)
    requires PlatformMatch(s) > 0
    ensures RemovePlatforms(s) == RemovePlatforms(s[PlatformMatch(s)..])
  {
  }

  lemma StopKept()
    ensures RemovePlatforms("停") == "停"
  {
  }

  lemma JoinPlatform(d: string)
    requires d != [] && forall i :: 0 <= i < |d| ==> IsAsciiDigit(d[i])
    ensures RemovePlatforms("バス" + (Platform + d + "停")) == BusStop
  {
    var y := Platform + d + "停";
    JoinPlatformMatch(d);
    assert y[|Platform| + |d|..] == "停";
    StopKept();
    MatchedThenKept(y, "停");
    BusPrefix(y);
    BusStopParts();
  }

  lemma BusStopParts()
    ensures "バス" + "停" == BusStop
  {
  }

  lemma MatchedThenKept(y: string, t: string)
    requires PlatformMatch(y) > 0 && y[PlatformMatch(y)..] == t && RemovePlatforms(t) == t
    ensures RemovePlatforms(y) == t
  {
    PlatformStep(y);
  }

  /** Deleting a platform number can create a `バス停` that the earlier step
      has already passed, so a second normalisation removes it. */
  lemma NormalizePlatformMakesBusStop(d: string)
    requires d != [] && forall i :: 0 <= i < |d| ==> IsAsciiDigit(d[i])
    ensures Normalize("バス" + (Platform + d + "停")) == BusStop
    ensures Normalize(Normalize("バス" + (Platform + d + "停"))) == []
  {
    JoinSpaces(d);
    JoinParens(d);
    JoinBusStop(d);
    JoinPlatform(d);
    BusStopKept();
  }
}
