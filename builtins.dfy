/** The JavaScript built-ins the parser and the GTFS core rely on, modelled on
    Dafny values: white space as `\s` and `String.prototype.trim` see it,
    `trim`, `includes`, `split` on one character, the `Map` constructor,
    `findIndex`, `filter`, the subset of `Number()` the feeds use, and the
    stable `Array.prototype.sort`. */
module Builtins {

  datatype Option<T> = None | Some(value: T)

  /** A JavaScript number: a finite value, or NaN. */
  datatype JsNumber = Num(value: real) | NaN

  /** The characters matched by `\s` and removed by `trim()`: the WhiteSpace
      and LineTerminator code points of ECMAScript. */
  predicate IsSpace(c: char) {
    if c <= ' ' then c == ' ' || '\t' <= c <= '\r'
    else if c < '\U{00A0}' then false
    else if c < '\U{2000}' then c == '\U{00A0}' || c == '\U{1680}'
    else if c <= '\U{3000}' then
      || c <= '\U{200A}' || c == '\U{2028}' || c == '\U{2029}' || c == '\U{202F}'
      || c == '\U{205F}' || c == '\U{3000}'
    else c == '\U{FEFF}'
  }

  predicate IsAsciiDigit(c: char) { '0' <= c <= '9' }

  /** Leading white space removed. */
  function TrimStart(s: string): (r: string)
    ensures |r| <= |s| && r == s[|s| - |r|..]
    ensures forall i :: 0 <= i < |s| - |r| ==> IsSpace(s[i])
    ensures r == [] || !IsSpace(r[0])
  {
    if s != [] && IsSpace(s[0]) then TrimStart(s[1..]) else s
  }

  /** Trailing white space removed. */
  function TrimEnd(s: string): (r: string)
    ensures |r| <= |s| && r == s[..|r|]
    ensures forall i :: |r| <= i < |s| ==> IsSpace(s[i])
    ensures r == [] || !IsSpace(r[|r| - 1])
  {
    if s != [] && IsSpace(s[|s| - 1]) then TrimEnd(s[..|s| - 1]) else s
  }

  /** `String.prototype.trim`. */
  function Trim(s: string): string {
    TrimEnd(TrimStart(s))
  }

  /** A string trims to nothing exactly when it is all white space. */
  lemma TrimEmptyIff(s: string)
    ensures Trim(s) == [] <==> forall i :: 0 <= i < |s| ==> IsSpace(s[i])
  {
    var t := TrimStart(s);
    if Trim(s) != [] {
      var r := Trim(s);
      assert !IsSpace(r[0]) && r[0] == t[0] == s[|s| - |t|];
    }
  }

  /** Trimming leaves no white space at either end and keeps everything between. */
  lemma TrimIsInfix(s: string)
    ensures var k := |s| - |TrimStart(s)|; k + |Trim(s)| <= |s| && Trim(s) == s[k..k + |Trim(s)|]
  {
    var t := TrimStart(s);
    var r := TrimEnd(t);
    var k := |s| - |t|;
    assert t == s[k..];
    assert r == t[..|r|];
    PrefixOfSuffix(s, k, |r|);
  }

  lemma PrefixOfSuffix(s: string, k: nat, n: nat)
    requires k + n <= |s|
    ensures s[k..][..n] == s[k..k + n]
  {
  }

  /** A character absent from a string is absent from each of its slices. */
  lemma NotInSlice(s: string, c: char, a: nat, b: nat)
    requires c !in s && a <= b <= |s|
    ensures c !in s[a..b]
  {
  }

  /** `sub` occurs in `s` starting at index `i`. */
  predicate OccursAt(s: string, sub: string, i: nat) {
    i + |sub| <= |s| && s[i..i + |sub|] == sub
  }

  /** `s.includes(sub)`, as a left-to-right scan. */
  function Includes(s: string, sub: string): bool
    decreases |s|
  {
    if |s| < |sub| then false
    else if s[..|sub|] == sub then true
    else Includes(s[1..], sub)
  }

  /** The scan finds `sub` exactly when it occurs somewhere in `s`. */
  lemma {:induction false} IncludesIff(s: string, sub: string)
    ensures Includes(s, sub) <==> exists i :: 0 <= i <= |s| && OccursAt(s, sub, i)
    decreases |s|
  {
    if |s| < |sub| {
    } else if s[..|sub|] == sub {
      assert OccursAt(s, sub, 0);
    } else {
      IncludesIff(s[1..], sub);
      forall i | 1 <= i <= |s|
        ensures OccursAt(s, sub, i) == OccursAt(s[1..], sub, i - 1)
      {
        if i + |sub| <= |s| {
          var a, b := s[i..i + |sub|], s[1..][i - 1..i - 1 + |sub|];
          assert forall k :: 0 <= k < |sub| ==> a[k] == b[k];
          assert a == b;
        }
      }
      if Includes(s, sub) {
        var i :| 0 <= i <= |s[1..]| && OccursAt(s[1..], sub, i);
        assert OccursAt(s, sub, i + 1);
      }
      assert !OccursAt(s, sub, 0);
    }
  }

  /** The index of the first occurrence of `c` in `s`. */
  function IndexOf(s: string, c: char): (k: nat)
    requires c in s
    ensures k < |s| && s[k] == c && c !in s[..k]
  {
    if s[0] == c then 0 else 1 + IndexOf(s[1..], c)
  }

  /** The parts joined with `sep` between neighbours (`Array.prototype.join`). */
  function Join(parts: seq<string>, sep: string): string
    decreases |parts|
  {
    if parts == [] then []
    else if |parts| == 1 then parts[0]
    else parts[0] + sep + Join(parts[1..], sep)
  }

  /** `s.split(sep)` for a one-character separator: at least one part, and
      no part contains the separator. */
  function SplitOn(s: string, sep: char): (parts: seq<string>)
    ensures |parts| >= 1
    ensures forall i :: 0 <= i < |parts| ==> sep !in parts[i]
    decreases |s|
  {
    if sep !in s then [s]
    else
      var k := IndexOf(s, sep);
      [s[..k]] + SplitOn(s[k + 1..], sep)
  }

  /** Joining the parts with the separator gives `s` back. */
  lemma {:induction false} SplitOnJoin(s: string, sep: char)
    ensures Join(SplitOn(s, sep), [sep]) == s
    decreases |s|
  {
    if sep in s {
      var k := IndexOf(s, sep);
      assert s == s[..k] + [sep] + s[k + 1..] by { Around(s, k); }
      var rest := SplitOn(s[k + 1..], sep);
      SplitOnJoin(s[k + 1..], sep);
      var parts := [s[..k]] + rest;
      assert SplitOn(s, sep) == parts;
      assert parts[1..] == rest;
      assert Join(parts, [sep]) == s[..k] + [sep] + Join(rest, [sep]);
    }
  }

  lemma Around(s: string, k: nat)
    requires k < |s|
    ensures s == s[..k] + [s[k]] + s[k + 1..]
  {
    assert s[..k] + [s[k]] == s[..k + 1];
  }

  /** Splitting at the first separator. */
  lemma SplitOnCons(a: string, sep: char, b: string)
    requires sep !in a
    ensures SplitOn(a + [sep] + b, sep) == [a] + SplitOn(b, sep)
  {
    var s := a + [sep] + b;
    assert s[..|a|] == a;
    IndexOfUnique(s, sep, |a|);
    assert s[|a| + 1..] == b;
  }

  /** `IndexOf` is the only index holding `c` with no `c` before it. */
  lemma {:induction false} IndexOfUnique(s: string, c: char, k: nat)
    requires k < |s| && s[k] == c && c !in s[..k]
    ensures IndexOf(s, c) == k
  {
    if k > 0 {
      assert s[0] == s[..k][0];
      assert s[1..][..k - 1] == s[1..k];
      assert forall i :: 1 <= i < k ==> s[i] == s[..k][i];
      IndexOfUnique(s[1..], c, k - 1);
    }
  }

  /** A character other than the separator extends the first part. */
  lemma SplitOnConsChar(c: char, s: string, sep: char)
    requires c != sep
    ensures var p := SplitOn(s, sep); SplitOn([c] + s, sep) == [[c] + p[0]] + p[1..]
  {
    var t := [c] + s;
    assert forall j :: 0 <= j < |s| ==> s[j] == t[j + 1];
    if sep in s {
      var j := IndexOf(s, sep);
      assert t[..j + 1] == [c] + s[..j];
      IndexOfUnique(t, sep, j + 1);
      assert t[j + 2..] == s[j + 1..];
    } else {
      assert sep !in t;
    }
  }

  /** Splitting what was joined gives back the parts, when no part holds the separator. */
  lemma {:induction false} SplitJoin(parts: seq<string>, sep: char)
    requires |parts| >= 1
    requires forall i :: 0 <= i < |parts| ==> sep !in parts[i]
    ensures SplitOn(Join(parts, [sep]), sep) == parts
    decreases |parts|
  {
    if |parts| == 1 {
    } else {
      var rest := parts[1..];
      assert forall i :: 0 <= i < |rest| ==> rest[i] == parts[i + 1];
      SplitJoin(rest, sep);
      var tail := Join(rest, [sep]);
      assert Join(parts, [sep]) == parts[0] + [sep] + tail;
      SplitOnCons(parts[0], sep, tail);
      assert [parts[0]] + rest == parts;
    }
  }

  /** `new Map(pairs)`: the pairs are assigned in order, so a repeated key
      keeps the value of its last pair. */
  function Assoc<V>(pairs: seq<(string, V)>): (m: map<string, V>)
    ensures m.Keys == set i | 0 <= i < |pairs| :: pairs[i].0
    decreases |pairs|
  {
    if pairs == [] then map[]
    else
      var n := |pairs| - 1;
      var m' := Assoc(pairs[..n]);
      assert forall i :: 0 <= i < n ==> pairs[..n][i] == pairs[i];
      assert (set i | 0 <= i < |pairs| :: pairs[i].0)
          == (set i | 0 <= i < n :: pairs[..n][i].0) + {pairs[n].0};
      m'[pairs[n].0 := pairs[n].1]
  }

  /** No later pair has the same key as pair `i`. */
  predicate LastWithKey<V>(pairs: seq<(string, V)>, i: nat)
    requires i < |pairs|
  {
    forall j :: i < j < |pairs| ==> pairs[j].0 != pairs[i].0
  }

  /** The value a key gets is the one of its last pair. */
  lemma {:induction false} AssocLast<V>(pairs: seq<(string, V)>, i: nat)
    requires i < |pairs| && LastWithKey(pairs, i)
    ensures Assoc(pairs)[pairs[i].0] == pairs[i].1
    decreases |pairs|
  {
    var n := |pairs| - 1;
    if i < n {
      assert pairs[..n][i] == pairs[i];
      assert LastWithKey(pairs[..n], i) by {
        forall j | i < j < n ensures pairs[..n][j].0 != pairs[..n][i].0 {
          assert pairs[..n][j] == pairs[j];
        }
      }
      AssocLast(pairs[..n], i);
    }
  }

  /** `xs.findIndex(p)`: the first index satisfying `p`, or -1. */
  function FindIndex<T>(xs: seq<T>, p: T -> bool): (k: int)
    ensures -1 <= k < |xs|
    ensures k >= 0 ==> p(xs[k])
    ensures forall j :: 0 <= j < |xs| && (k == -1 || j < k) ==> !p(xs[j])
    decreases |xs|
  {
    if xs == [] then -1
    else if p(xs[0]) then 0
    else
      var k' := FindIndex(xs[1..], p);
      assert forall j :: 1 <= j < |xs| ==> xs[j] == xs[1..][j - 1];
      if k' == -1 then -1 else k' + 1
  }

  /** `xs.filter(p)`: the elements satisfying `p`, in their order. */
  function Filter<T>(xs: seq<T>, p: T -> bool): (r: seq<T>)
    ensures |r| <= |xs|
    decreases |xs|
  {
    if xs == [] then [] else (if p(xs[0]) then [xs[0]] else []) + Filter(xs[1..], p)
  }

  /** `Filter` keeps exactly the elements satisfying `p`. */
  lemma {:induction false} FilterMembers<T>(xs: seq<T>, p: T -> bool)
    ensures forall i :: 0 <= i < |Filter(xs, p)| ==> Filter(xs, p)[i] in xs && p(Filter(xs, p)[i])
    ensures forall i :: 0 <= i < |xs| && p(xs[i]) ==> xs[i] in Filter(xs, p)
    decreases |xs|
  {
    if xs != [] {
      FilterMembers(xs[1..], p);
      assert xs == [xs[0]] + xs[1..];
      forall i | 1 <= i < |xs| ensures xs[1..][i - 1] == xs[i] { }
    }
  }

  lemma {:induction false} FilterAppend<T>(xs: seq<T>, ys: seq<T>, p: T -> bool)
    ensures Filter(xs + ys, p) == Filter(xs, p) + Filter(ys, p)
    decreases |xs|
  {
    if xs == [] {
      assert xs + ys == ys;
    } else {
      var h := if p(xs[0]) then [xs[0]] else [];
      assert (xs + ys)[0] == xs[0] && (xs + ys)[1..] == xs[1..] + ys;
      assert Filter(xs + ys, p) == h + Filter(xs[1..] + ys, p);
      FilterAppend(xs[1..], ys, p);
      assert h + (Filter(xs[1..], p) + Filter(ys, p)) == (h + Filter(xs[1..], p)) + Filter(ys, p);
    }
  }

  /** A filter that every element passes keeps the sequence. */
  lemma {:induction false} FilterKeepsAll<T>(xs: seq<T>, p: T -> bool)
    requires forall i :: 0 <= i < |xs| ==> p(xs[i])
    ensures Filter(xs, p) == xs
    decreases |xs|
  {
    if xs != [] {
      assert forall i :: 1 <= i < |xs| ==> xs[1..][i - 1] == xs[i];
      FilterKeepsAll(xs[1..], p);
    }
  }

  /** The value of a string of ASCII digits. */
  function DigitsValue(d: string): nat
    decreases |d|
  {
    if d == [] then 0
    else
      var n := |d| - 1;
      10 * DigitsValue(d[..n]) + (if IsAsciiDigit(d[n]) then (d[n] as int - '0' as int) else 0)
  }

  function Pow10(n: nat): (r: nat)
    ensures r >= 1
  {
    if n == 0 then 1 else 10 * Pow10(n - 1)
  }

  /** A string of `n` characters reads as less than `10^n`. */
  lemma {:induction false} DigitsBound(d: string)
    ensures DigitsValue(d) < Pow10(|d|)
    decreases |d|
  {
    if d != [] {
      var n := |d| - 1;
      DigitsBound(d[..n]);
      assert Pow10(|d|) == 10 * Pow10(n);
    }
  }

  predicate AllDigits(s: string) {
    forall i :: 0 <= i < |s| ==> IsAsciiDigit(s[i])
  }

  /** digits [ "." digits ] with at least one digit in all. */
  function UnsignedDecimal(t: string): JsNumber {
    if '.' in t then
      var k := IndexOf(t, '.');
      var whole, frac := t[..k], t[k + 1..];
      if AllDigits(whole) && AllDigits(frac) && |whole| + |frac| >= 1 then
        Num(DigitsValue(whole) as real + DigitsValue(frac) as real / Pow10(|frac|) as real)
      else NaN
    else if AllDigits(t) && t != [] then Num(DigitsValue(t) as real)
    else NaN
  }

  /** `Number(s)` for the decimal notation GTFS feeds use: surrounding white
      space is ignored, the empty string is 0, an optional sign precedes
      digits with an optional fraction; anything else is NaN. */
  function ToNumber(s: string): (r: JsNumber)
    ensures r.Num? ==> Trim(s) == [] || !NoDigits(s)
  {
    NoDigitsNaN(s);
    var t := Trim(s);
    if t == [] then Num(0.0)
    else if t[0] == '-' then
      match UnsignedDecimal(t[1..])
      case Num(v) => Num(-v)
      case NaN => NaN
    else if t[0] == '+' then UnsignedDecimal(t[1..])
    else UnsignedDecimal(t)
  }

  /** A non-empty string of ASCII digits reads as its decimal value. */
  lemma ToNumberDigits(d: string)
    requires d != [] && AllDigits(d)
    ensures ToNumber(d) == Num(DigitsValue(d) as real)
  {
    assert !IsSpace(d[0]);
    assert TrimStart(d) == d;
    assert !IsSpace(d[|d| - 1]);
    assert TrimEnd(d) == d;
    assert Trim(d) == d;
    assert forall i :: 0 <= i < |d| ==> d[i] != '.';
    assert '.' !in d;
    assert d[0] != '-' && d[0] != '+';
    assert UnsignedDecimal(d) == Num(DigitsValue(d) as real);
  }

  /** A string with no digit at all is NaN, unless it is blank. */
  predicate NoDigits(s: string) {
    forall i :: 0 <= i < |s| ==> !IsAsciiDigit(s[i])
  }

  lemma NoDigitsSlice(s: string, a: nat, b: nat)
    requires NoDigits(s) && a <= b <= |s|
    ensures NoDigits(s[a..b])
  {
    assert forall i :: 0 <= i < b - a ==> s[a..b][i] == s[a + i];
  }

  lemma UnsignedNoDigits(u: string)
    requires NoDigits(u)
    ensures UnsignedDecimal(u) == NaN
  {
    if '.' in u {
      var k := IndexOf(u, '.');
      if k > 0 { assert !IsAsciiDigit(u[..k][0]); }
      if k + 1 < |u| { assert !IsAsciiDigit(u[k + 1..][0]); }
    } else if u != [] {
      assert !IsAsciiDigit(u[0]);
    }
  }

  /** Without a digit, neither the trimmed text nor the text after its sign
      reads as a number. */
  lemma NoDigitsNaN(s: string)
    ensures Trim(s) != [] && NoDigits(s) ==>
      UnsignedDecimal(Trim(s)) == NaN && UnsignedDecimal(Trim(s)[1..]) == NaN
  {
    if Trim(s) != [] && NoDigits(s) {
      TrimIsInfix(s);
      var t := Trim(s);
      var k := |s| - |TrimStart(s)|;
      NoDigitsSlice(s, k, k + |t|);
      UnsignedNoDigits(t);
      NoDigitsSlice(t, 1, |t|);
      UnsignedNoDigits(t[1..]);
    }
  }

  /** The comparator `(a, b) => key(a) - key(b)` is positive: `a` goes after
      `b`. A NaN difference counts as 0, as `Array.prototype.sort` reads it. */
  predicate After<T>(key: T -> JsNumber, a: T, b: T) {
    key(a).Num? && key(b).Num? && key(a).value > key(b).value
  }

  /** Puts `x` in front of the first element it does not go after. */
  function Insert<T>(key: T -> JsNumber, x: T, s: seq<T>): (r: seq<T>)
    ensures |r| == |s| + 1
    decreases |s|
  {
    if s == [] || !After(key, x, s[0]) then [x] + s
    else [s[0]] + Insert(key, x, s[1..])
  }

  lemma {:induction false} InsertPermutes<T>(key: T -> JsNumber, x: T, s: seq<T>)
    ensures multiset(Insert(key, x, s)) == multiset(s) + multiset{x}
    decreases |s|
  {
    if s != [] && After(key, x, s[0]) {
      InsertPermutes(key, x, s[1..]);
      assert s == [s[0]] + s[1..];
    }
  }

  /** `xs.sort((a, b) => key(a) - key(b))`: a stable insertion sort, which is
      what ECMAScript 2019 and later promise for a consistent comparator. */
  function SortBy<T>(key: T -> JsNumber, xs: seq<T>): (r: seq<T>)
    ensures |r| == |xs|
    decreases |xs|
  {
    if xs == [] then [] else Insert(key, xs[0], SortBy(key, xs[1..]))
  }

  /** Sorting permutes its input. */
  lemma {:induction false} SortByPermutes<T>(key: T -> JsNumber, xs: seq<T>)
    ensures multiset(SortBy(key, xs)) == multiset(xs)
    decreases |xs|
  {
    if xs != [] {
      SortByPermutes(key, xs[1..]);
      InsertPermutes(key, xs[0], SortBy(key, xs[1..]));
      assert xs == [xs[0]] + xs[1..];
    }
  }

  /** Every key is a number, so the comparator is consistent. */
  predicate AllNumeric<T>(key: T -> JsNumber, xs: seq<T>) {
    forall i :: 0 <= i < |xs| ==> key(xs[i]).Num?
  }

  /** Keys never decrease along `xs`. */
  predicate Ascending<T>(key: T -> JsNumber, xs: seq<T>)
    requires AllNumeric(key, xs)
  {
    forall i, j :: 0 <= i < j < |xs| ==> key(xs[i]).value <= key(xs[j]).value
  }

  /** The elements whose key is `v`, as a filter predicate. */
  function HasKey<T>(key: T -> JsNumber, v: JsNumber): T -> bool {
    y => key(y) == v
  }

  lemma AllNumericPermutation<T>(key: T -> JsNumber, xs: seq<T>, ys: seq<T>)
    requires AllNumeric(key, xs) && multiset(ys) == multiset(xs)
    ensures AllNumeric(key, ys)
  {
    forall i | 0 <= i < |ys| ensures key(ys[i]).Num? {
      assert ys[i] in multiset(xs);
      var j :| 0 <= j < |xs| && xs[j] == ys[i];
    }
  }

  lemma AscendingCons<T>(key: T -> JsNumber, a: T, r: seq<T>)
    requires key(a).Num? && AllNumeric(key, r) && Ascending(key, r)
    requires forall j :: 0 <= j < |r| ==> key(a).value <= key(r[j]).value
    ensures AllNumeric(key, [a] + r) && Ascending(key, [a] + r)
  {
    var s := [a] + r;
    assert forall i :: 1 <= i < |s| ==> s[i] == r[i - 1];
    forall i, j | 0 <= i < j < |s| ensures key(s[i]).value <= key(s[j]).value {
      assert s[j] == r[j - 1];
      if i > 0 { assert s[i] == r[i - 1]; }
    }
  }

  lemma {:induction false} InsertBounded<T>(key: T -> JsNumber, x: T, s: seq<T>, lo: real)
    requires key(x).Num? && key(x).value >= lo
    requires AllNumeric(key, s) && forall j :: 0 <= j < |s| ==> key(s[j]).value >= lo
    ensures AllNumeric(key, Insert(key, x, s))
    ensures forall j :: 0 <= j < |Insert(key, x, s)| ==> key(Insert(key, x, s)[j]).value >= lo
    decreases |s|
  {
    if s != [] && After(key, x, s[0]) {
      var t := s[1..];
      assert forall i :: 0 <= i < |t| ==> t[i] == s[i + 1];
      InsertBounded(key, x, t, lo);
      var r' := Insert(key, x, t);
      assert Insert(key, x, s) == [s[0]] + r';
      assert forall j :: 1 <= j < |[s[0]] + r'| ==> ([s[0]] + r')[j] == r'[j - 1];
    } else {
      assert forall j :: 1 <= j < |[x] + s| ==> ([x] + s)[j] == s[j - 1];
    }
  }

  lemma {:induction false} InsertAscending<T>(key: T -> JsNumber, x: T, s: seq<T>)
    requires key(x).Num? && AllNumeric(key, s) && Ascending(key, s)
    ensures AllNumeric(key, Insert(key, x, s)) && Ascending(key, Insert(key, x, s))
    decreases |s|
  {
    if s == [] || !After(key, x, s[0]) {
      AscendingCons(key, x, s);
    } else {
      var t := s[1..];
      assert forall i :: 0 <= i < |t| ==> t[i] == s[i + 1];
      InsertAscending(key, x, t);
      InsertBounded(key, x, t, key(s[0]).value);
      AscendingCons(key, s[0], Insert(key, x, t));
    }
  }

  /** With numeric keys the sorted sequence ascends. */
  lemma {:induction false} SortByAscending<T>(key: T -> JsNumber, xs: seq<T>)
    requires AllNumeric(key, xs)
    ensures AllNumeric(key, SortBy(key, xs)) && Ascending(key, SortBy(key, xs))
    decreases |xs|
  {
    if xs != [] {
      var rest := SortBy(key, xs[1..]);
      SortByAscending(key, xs[1..]);
      assert xs == [xs[0]] + xs[1..];
      InsertAscending(key, xs[0], rest);
    }
  }

  lemma FilterOne<T>(x: T, p: T -> bool)
    ensures Filter([x], p) == if p(x) then [x] else []
  {
    assert [x][1..] == [];
  }

  /** Inserting keeps the order of the elements of any one key. */
  lemma {:induction false} InsertStable<T>(key: T -> JsNumber, x: T, s: seq<T>, v: JsNumber)
    ensures Filter(Insert(key, x, s), HasKey(key, v)) == Filter([x], HasKey(key, v)) + Filter(s, HasKey(key, v))
    decreases |s|
  {
    var p := HasKey(key, v);
    if s == [] || !After(key, x, s[0]) {
      FilterAppend([x], s, p);
    } else {
      var t := s[1..];
      InsertStable(key, x, t, v);
      FilterAppend([s[0]], Insert(key, x, t), p);
      assert s == [s[0]] + t;
      FilterAppend([s[0]], t, p);
      FilterOne(x, p);
      FilterOne(s[0], p);
    }
  }

  /** The sort is stable: the elements of any one key keep their order. */
  lemma {:induction false} SortByStable<T>(key: T -> JsNumber, xs: seq<T>, v: JsNumber)
    requires AllNumeric(key, xs)
    ensures Filter(SortBy(key, xs), HasKey(key, v)) == Filter(xs, HasKey(key, v))
    decreases |xs|
  {
    if xs != [] {
      var rest := SortBy(key, xs[1..]);
      assert xs == [xs[0]] + xs[1..];
      assert AllNumeric(key, xs[1..]) by {
        forall i | 0 <= i < |xs[1..]| ensures key(xs[1..][i]).Num? { assert xs[1..][i] == xs[i + 1]; }
      }
      SortByStable(key, xs[1..], v);
      InsertStable(key, xs[0], rest, v);
      FilterAppend([xs[0]], xs[1..], HasKey(key, v));
    }
  }

  // ---------------------------------------------------------------------
  // Template literals.

  function DigitChar(d: nat): char
    requires d < 10
  {
    ('0' as int + d) as char
  }

  /** `${n}` for a natural number: its decimal digits, without leading
      zeros. */
  function NatToString(n: nat): string
    decreases n
  {
    if n < 10 then [DigitChar(n)] else NatToString(n / 10) + [DigitChar(n % 10)]
  }

  /** The digits read back as the number. */
  lemma {:induction false} NatToStringRoundTrip(n: nat)
    ensures NatToString(n) != [] && AllDigits(NatToString(n))
    ensures DigitsValue(NatToString(n)) == n
    decreases n
  {
    var s := NatToString(n);
    if n < 10 {
      assert s[..0] == [];
    } else {
      NatToStringRoundTrip(n / 10);
      assert s[..|s| - 1] == NatToString(n / 10);
    }
  }

  lemma NatToStringInjective(a: nat, b: nat)
    requires NatToString(a) == NatToString(b)
    ensures a == b
  {
    NatToStringRoundTrip(a);
    NatToStringRoundTrip(b);
  }

  /** The index of the last `c` in `s`, or -1. */
  function LastIndexOf(s: string, c: char): int
    decreases |s|
  {
    if s == [] then -1
    else if s[|s| - 1] == c then |s| - 1
    else LastIndexOf(s[..|s| - 1], c)
  }

  lemma {:induction false} LastSeparator(x: string, u: string, sep: char)
    requires sep !in u
    ensures LastIndexOf(x + [sep] + u, sep) == |x|
    decreases |u|
  {
    var w := x + [sep] + u;
    if u == [] {
      assert w[|w| - 1] == sep;
    } else {
      var n := |u| - 1;
      assert w[|w| - 1] == u[n];
      assert w[..|w| - 1] == x + [sep] + u[..n];
      NotInSlice(u, sep, 0, n);
      LastSeparator(x, u[..n], sep);
    }
  }

  /** The part after the last `sep` is determined: two strings `x + [sep] + u`
      and `y + [sep] + v`, with no `sep` in `u` or `v`, are equal only when
      `x == y` and `u == v`. */
  lemma SplitAtLast(x: string, u: string, y: string, v: string, sep: char)
    requires sep !in u && sep !in v
    requires x + [sep] + u == y + [sep] + v
    ensures x == y && u == v
  {
    var w := x + [sep] + u;
    LastSeparator(x, u, sep);
    LastSeparator(y, v, sep);
    assert u == w[|x| + 1..] == v;
    assert x == w[..|x|] == y;
  }

  lemma TakeSnoc<T>(xs: seq<T>, d: nat)
    requires d < |xs|
    ensures xs[..d + 1] == xs[..d] + [xs[d]]
  {
  }
}
