/**
 * The parts of Python's `str` that the crawler and the services rely on:
 * `strip`, `lower`, `in`, `startswith`/`endswith`, `isdigit`, `zfill`,
 * `replace`, `split`, `join`, `rfind`, `int(...)` and string ordering.
 * Characters are Unicode code points; `lower` and `isdigit` are ASCII only.
 */
module Text {
  import opened Wrappers

  // ---------------------------------------------------------------- whitespace

  /** Python's `str.isspace` on one character. */
  predicate IsSpace(c: char)
  {
    || ('\t' <= c <= '\r')
    || ('\U{1c}' <= c <= '\U{1f}')
    || c == ' ' || c == '\U{85}' || c == '\U{a0}' || c == '\U{1680}'
    || ('\U{2000}' <= c <= '\U{200a}')
    || c == '\U{2028}' || c == '\U{2029}' || c == '\U{202f}' || c == '\U{205f}' || c == '\U{3000}'
  }

  function StripLeft(s: string): (r: string)
    ensures |r| <= |s| && r == s[|s| - |r|..]
  {
    if s != [] && IsSpace(s[0]) then StripLeft(s[1..]) else s
  }

  function StripRight(s: string): (r: string)
    ensures |r| <= |s| && r == s[..|r|]
  {
    if s != [] && IsSpace(s[|s| - 1]) then StripRight(s[..|s| - 1]) else s
  }

  /** Python's `str.strip()`: drop leading and trailing whitespace. */
  function Strip(s: string): (r: string)
    ensures |r| <= |s|
  {
    StripRight(StripLeft(s))
  }

  lemma {:induction false} StripLeftSpec(s: string)
    ensures var r := StripLeft(s);
            && (r == [] || !IsSpace(r[0]))
            && (forall k :: 0 <= k < |s| - |r| ==> IsSpace(s[k]))
  {
    if s != [] && IsSpace(s[0]) {
      StripLeftSpec(s[1..]);
      forall k | 1 <= k < |s| - |StripLeft(s)| ensures IsSpace(s[k]) {
        assert s[k] == s[1..][k - 1];
      }
    }
  }

  lemma {:induction false} StripRightSpec(s: string)
    ensures var r := StripRight(s);
            && (r == [] || !IsSpace(r[|r| - 1]))
            && (forall k :: |r| <= k < |s| ==> IsSpace(s[k]))
  {
    if s != [] && IsSpace(s[|s| - 1]) {
      StripRightSpec(s[..|s| - 1]);
      forall k | |StripRight(s)| <= k < |s| - 1 ensures IsSpace(s[k]) {
        assert s[k] == s[..|s| - 1][k];
      }
    }
  }

  /** The stripped string is the slice of `s` left once the whitespace at both ends is cut off,
      and it neither starts nor ends with whitespace. */
  lemma StripSlice(s: string) returns (i: nat, j: nat)
    ensures i <= j <= |s| && Strip(s) == s[i..j]
    ensures Strip(s) == [] || (!IsSpace(Strip(s)[0]) && !IsSpace(Strip(s)[|Strip(s)| - 1]))
    ensures forall k :: 0 <= k < i ==> IsSpace(s[k])
    ensures forall k :: j <= k < |s| ==> IsSpace(s[k])
  {
    i := |s| - |StripLeft(s)|;
    j := i + |StripRight(StripLeft(s))|;
    StripIsSlice(s, i, j);
    StripBorders(s, i, j);
    StripEnds(s);
  }

  lemma StripIsSlice(s: string, i: nat, j: nat)
    requires i == |s| - |StripLeft(s)| && j == i + |StripRight(StripLeft(s))|
    ensures i <= j <= |s| && Strip(s) == s[i..j]
  {
    var l := StripLeft(s);
    SliceOfSuffix(s, l, StripRight(l), i);
  }

  lemma StripBorders(s: string, i: nat, j: nat)
    requires i == |s| - |StripLeft(s)| && j == i + |StripRight(StripLeft(s))|
    ensures forall k :: 0 <= k < i ==> IsSpace(s[k])
    ensures forall k :: j <= k < |s| ==> IsSpace(s[k])
  {
    var l := StripLeft(s);
    StripLeftSpec(s);
    StripRightSpec(l);
    TailAll(s, l, i, |StripRight(l)|, IsSpace);
  }

  lemma StripEnds(s: string)
    ensures Strip(s) == [] || (!IsSpace(Strip(s)[0]) && !IsSpace(Strip(s)[|Strip(s)| - 1]))
  {
    var l := StripLeft(s);
    var r := StripRight(l);
    StripLeftHead(s);
    StripRightLast(l);
    PrefixKeepsEnds(l, r, IsSpace);
  }

  lemma {:induction false} StripLeftHead(s: string)
    ensures StripLeft(s) == [] || !IsSpace(StripLeft(s)[0])
  {
    if s != [] && IsSpace(s[0]) {
      StripLeftHead(s[1..]);
    }
  }

  lemma {:induction false} StripRightLast(s: string)
    ensures StripRight(s) == [] || !IsSpace(StripRight(s)[|StripRight(s)| - 1])
  {
    if s != [] && IsSpace(s[|s| - 1]) {
      StripRightLast(s[..|s| - 1]);
    }
  }

  /** A prefix of `l` ending in a non-`p` element, where `l` starts with one, has both ends non-`p`. */
  lemma PrefixKeepsEnds<T>(l: seq<T>, r: seq<T>, p: T -> bool)
    requires l == [] || !p(l[0])
    requires r == [] || !p(r[|r| - 1])
    requires |r| <= |l| && r == l[..|r|]
    ensures r == [] || (!p(r[0]) && !p(r[|r| - 1]))
  {
    if r != [] {
      assert r[0] == l[0];
    }
  }

  /** Lower-casing never turns a space into a non-space or back. */
  lemma SpaceLower(c: char)
    ensures IsSpace(LowerChar(c)) == IsSpace(c)
  {
  }

  /** A prefix of the suffix `s[i..]` is a slice of `s`. */
  lemma SliceOfSuffix<T>(s: seq<T>, l: seq<T>, r: seq<T>, i: nat)
    requires i <= |s| && l == s[i..] && |r| <= |l| && r == l[..|r|]
    ensures r == s[i..i + |r|]
  {
  }

  /** What holds from index `m` on in the suffix `l == s[i..]` holds from `i + m` on in `s`. */
  lemma TailAll<T>(s: seq<T>, l: seq<T>, i: nat, m: nat, p: T -> bool)
    requires i <= |s| && l == s[i..] && m <= |l|
    requires forall k :: m <= k < |l| ==> p(l[k])
    ensures forall k :: i + m <= k < |s| ==> p(s[k])
  {
    forall k | i + m <= k < |s| ensures p(s[k]) {
      assert s[k] == l[k - i];
    }
  }

  /** A string strips to nothing exactly when it is all whitespace. */
  lemma StripEmptyIff(s: string)
    ensures Strip(s) == [] <==> forall k :: 0 <= k < |s| ==> IsSpace(s[k])
  {
    var i, j := StripSlice(s);
  }

  /** A string without whitespace at its ends is its own strip. */
  lemma StripNoEnds(s: string)
    requires s == [] || (!IsSpace(s[0]) && !IsSpace(s[|s| - 1]))
    ensures Strip(s) == s
  {
  }

  /** Stripping twice is stripping once. */
  lemma StripIdempotent(s: string)
    ensures Strip(Strip(s)) == Strip(s)
  {
    var i, j := StripSlice(s);
    StripNoEnds(Strip(s));
  }

  // ---------------------------------------------------------------- case

  function LowerChar(c: char): char
  {
    if 'A' <= c <= 'Z' then (c as int + 32) as char else c
  }

  /** Python's `str.lower()` on ASCII letters; every other character is kept. */
  function Lower(s: string): (r: string)
    ensures |r| == |s|
    ensures forall i :: 0 <= i < |s| ==> r[i] == LowerChar(s[i])
  {
    if s == [] then [] else [LowerChar(s[0])] + Lower(s[1..])
  }

  lemma LowerIdempotent(s: string)
    ensures Lower(Lower(s)) == Lower(s)
  {
  }

  lemma LowerAppend(a: string, b: string)
    ensures Lower(a + b) == Lower(a) + Lower(b)
  {
  }

  // ---------------------------------------------------------------- substrings

  predicate StartsWith(s: string, p: string)
  {
    |p| <= |s| && s[..|p|] == p
  }

  predicate EndsWith(s: string, p: string)
  {
    |p| <= |s| && s[|s| - |p|..] == p
  }

  /** `sub` occurs in `s` starting at index `j`. */
  predicate OccursAt(s: string, sub: string, j: int)
  {
    0 <= j && j + |sub| <= |s| && s[j..j + |sub|] == sub
  }

  /** Python's `sub in s`. */
  predicate Contains(s: string, sub: string)
    decreases |s|
  {
    StartsWith(s, sub) || (s != [] && Contains(s[1..], sub))
  }

  /** `Contains` means: there is a position where `sub` occurs. */
  lemma {:induction false} ContainsIff(s: string, sub: string)
    ensures Contains(s, sub) <==> exists j :: OccursAt(s, sub, j)
    decreases |s|
  {
    if StartsWith(s, sub) {
      assert OccursAt(s, sub, 0);
    } else if s == [] {
    } else {
      ContainsIff(s[1..], sub);
      if Contains(s[1..], sub) {
        var j :| OccursAt(s[1..], sub, j);
        assert s[1..][j..j + |sub|] == s[j + 1..j + 1 + |sub|];
        assert OccursAt(s, sub, j + 1);
      } else {
        forall j | OccursAt(s, sub, j) && j > 0 ensures false {
          assert s[1..][j - 1..j - 1 + |sub|] == s[j..j + |sub|];
          assert OccursAt(s[1..], sub, j - 1);
        }
      }
    }
  }

  /** The last occurrence of `sub` at or below index `i` (Python's `rfind`, searching down). */
  function RFindBelow(s: string, sub: string, i: nat): (r: Option<nat>)
    ensures r.Some? ==> r.value <= i && OccursAt(s, sub, r.value)
    ensures r.Some? ==> forall j :: r.value < j <= i ==> !OccursAt(s, sub, j)
    ensures r.None? ==> forall j :: 0 <= j <= i ==> !OccursAt(s, sub, j)
  {
    if OccursAt(s, sub, i) then Some(i)
    else if i == 0 then None
    else RFindBelow(s, sub, i - 1)
  }

  /** Python's `s.rfind(sub)`, with None for -1: the last index where `sub` occurs. */
  function RFind(s: string, sub: string): (r: Option<nat>)
    ensures r.Some? ==> OccursAt(s, sub, r.value)
    ensures r.Some? ==> forall j :: r.value < j ==> !OccursAt(s, sub, j)
    ensures r.None? ==> forall j :: !OccursAt(s, sub, j)
  {
    if |sub| > |s| then None else RFindBelow(s, sub, |s| - |sub|)
  }

  /** Python truthiness of an optional string: present and non-empty. */
  predicate Truthy(s: Option<string>)
  {
    s.Some? && s.value != ""
  }

  /** A stretch that starts and ends outside `p` lies between two borders made of `p`. */
  lemma SolidInside(s: string, p: char -> bool, a: nat, b: nat, j: nat, n: nat)
    requires a <= b <= |s| && 0 < n && j + n <= |s|
    requires forall k :: 0 <= k < a ==> p(s[k])
    requires forall k :: b <= k < |s| ==> p(s[k])
    requires !p(s[j]) && !p(s[j + n - 1])
    ensures a <= j && j + n <= b
  {
  }

  /** Cutting borders made of `p` off keeps every occurrence of a text that neither starts
      nor ends with a character of `p`. */
  lemma BordersKeepOccurrence(s: string, sub: string, p: char -> bool, a: nat, b: nat)
    requires a <= b <= |s| && sub != [] && !p(sub[0]) && !p(sub[|sub| - 1]) && Contains(s, sub)
    requires forall k :: 0 <= k < a ==> p(s[k])
    requires forall k :: b <= k < |s| ==> p(s[k])
    ensures Contains(s[a..b], sub)
  {
    var j := OccurrenceOf(s, sub);
    assert s[j] == sub[0] && s[j + |sub| - 1] == sub[|sub| - 1];
    SolidInside(s, p, a, b, j, |sub|);
    OccursInSlice(s, sub, a, b, j);
    OccurrenceContains(s[a..b], sub, j - a);
  }

  lemma OccurrenceOf(s: string, sub: string) returns (j: nat)
    requires Contains(s, sub)
    ensures OccursAt(s, sub, j)
  {
    ContainsIff(s, sub);
    j :| OccursAt(s, sub, j);
  }

  lemma OccurrenceContains(s: string, sub: string, j: int)
    requires OccursAt(s, sub, j)
    ensures Contains(s, sub)
  {
    ContainsIff(s, sub);
  }

  lemma OccursInSlice(s: string, sub: string, a: nat, b: nat, j: nat)
    requires a <= j && j + |sub| <= b <= |s| && OccursAt(s, sub, j)
    ensures OccursAt(s[a..b], sub, j - a)
  {
    var t := s[a..b];
    var u, w := t[j - a..j - a + |sub|], s[j..j + |sub|];
    forall k | 0 <= k < |sub| ensures u[k] == w[k] {
      assert u[k] == t[j - a + k] == s[j + k];
    }
    assert u == w;
  }

  /** Stripping keeps every occurrence of a text that neither starts nor ends with whitespace. */
  lemma StripKeepsOccurrence(s: string, sub: string)
    requires sub != [] && !IsSpace(sub[0]) && !IsSpace(sub[|sub| - 1]) && Contains(s, sub)
    ensures Contains(Strip(s), sub)
  {
    var a, b := StripSlice(s);
    BordersKeepOccurrence(s, sub, IsSpace, a, b);
  }

  /** `s.strip() if s else None`: the stripped text of a truthy string, None otherwise. */
  function StripOrNone(s: Option<string>): (r: Option<string>)
    ensures r.Some? <==> Truthy(s)
    ensures r.Some? ==> r.value == Strip(s.value)
  {
    if Truthy(s) then Some(Strip(s.value)) else None
  }

  // ---------------------------------------------------------------- digits and numbers

  predicate IsDigit(c: char)
  {
    '0' as int <= c as int <= '9' as int
  }

  /** Python's `str.isdigit()` on ASCII digits: non-empty and all digits. */
  predicate IsDigits(s: string)
  {
    |s| > 0 && forall i :: 0 <= i < |s| ==> IsDigit(s[i])
  }

  function Zeros(n: nat): (r: string)
    ensures |r| == n && forall i :: 0 <= i < n ==> r[i] == '0'
  {
    if n == 0 then [] else Zeros(n - 1) + "0"
  }

  /** Python's `s.zfill(width)` for a string without a sign: pad on the left with zeros, never cut. */
  function ZFill(s: string, width: nat): (r: string)
    ensures |r| == if |s| >= width then |s| else width
    ensures EndsWith(r, s)
    ensures forall i :: 0 <= i < |r| - |s| ==> r[i] == '0'
  {
    if |s| >= width then s else Zeros(width - |s|) + s
  }

  /** Zero-padding a digit string gives a digit string, and padding again changes nothing. */
  lemma ZFillDigitsIdempotent(s: string, width: nat)
    requires IsDigits(s)
    ensures IsDigits(ZFill(s, width))
    ensures ZFill(ZFill(s, width), width) == ZFill(s, width)
  {
    var r := ZFill(s, width);
    forall i | 0 <= i < |r| ensures IsDigit(r[i]) {
      if i >= |r| - |s| {
        assert r[i] == r[|r| - |s|..][i - (|r| - |s|)];
      }
    }
  }

  function DigitValue(c: char): nat
    requires IsDigit(c)
  {
    c as int - '0' as int
  }

  function DigitChar(d: nat): (c: char)
    requires d < 10
    ensures IsDigit(c) && DigitValue(c) == d
  {
    ('0' as int + d) as char
  }

  /** The number a run of ASCII digits denotes (leading zeros allowed, as in Python's `int`). */
  function DigitsValue(d: string): nat
    requires forall i :: 0 <= i < |d| ==> IsDigit(d[i])
  {
    if d == [] then 0 else DigitsValue(d[..|d| - 1]) * 10 + DigitValue(d[|d| - 1])
  }

  /** Decimal notation of a natural number, without leading zeros (Python's `str(n)`). */
  function NatToString(n: nat): (r: string)
    ensures IsDigits(r)
    ensures r[0] != '0' || n == 0
  {
    if n < 10 then [DigitChar(n)] else NatToString(n / 10) + [DigitChar(n % 10)]
  }

  lemma {:induction false} DigitsValueOfNatToString(n: nat)
    ensures DigitsValue(NatToString(n)) == n
  {
    var r := NatToString(n);
    if n >= 10 {
      DigitsValueOfNatToString(n / 10);
      assert r[..|r| - 1] == NatToString(n / 10);
    }
  }

  /** A leading zero does not change the value of a digit run. */
  lemma {:induction false} DigitsValueLeadingZero(d: string)
    requires forall i :: 0 <= i < |d| ==> IsDigit(d[i])
    ensures DigitsValue("0" + d) == DigitsValue(d)
  {
    if d != [] {
      var z := "0" + d;
      assert z[..|z| - 1] == "0" + d[..|d| - 1];
      DigitsValueLeadingZero(d[..|d| - 1]);
    }
  }

  /** An optional sign followed by ASCII digits, the text `int(...)` accepts once stripped. */
  function ParseSigned(t: string): Option<int>
  {
    if t != [] && (t[0] == '-' || t[0] == '+') then
      if IsDigits(t[1..]) then
        var v: int := DigitsValue(t[1..]);
        Some(if t[0] == '-' then -v else v)
      else None
    else if IsDigits(t) then Some(DigitsValue(t))
    else None
  }

  /** Python's `int(s)` on a decimal literal: surrounding whitespace, an optional sign and
      ASCII digits; anything else (Python's ValueError) is None. */
  function ParseInt(s: string): (r: Option<int>)
  {
    ParseSigned(Strip(s))
  }

  lemma DigitsAreNotSpace(s: string)
    requires IsDigits(s)
    ensures Strip(s) == s
  {
    StripNoEnds(s);
  }

  /** `int(...)` of a plain digit string is the number it denotes. */
  lemma ParseIntDigits(t: string)
    requires IsDigits(t)
    ensures ParseInt(t) == Some(DigitsValue(t))
  {
    DigitsAreNotSpace(t);
    ParseSignedDigits(t);
  }

  lemma ParseSignedDigits(t: string)
    requires IsDigits(t)
    ensures ParseSigned(t) == Some(DigitsValue(t))
  {
    assert t[0] != '-' && t[0] != '+';
  }

  /** Printing a natural number and reading it back with `int(...)` gives the number. */
  lemma ParseIntNatToString(n: nat)
    ensures ParseInt(NatToString(n)) == Some(n)
  {
    ParseIntDigits(NatToString(n));
    DigitsValueOfNatToString(n);
  }

  /** A number below 100 printed with two digits (Python's `f"{n:02d}"`). */
  function Pad2(n: nat): (r: string)
    requires n < 100
    ensures |r| == 2 && IsDigits(r)
  {
    if n < 10 then assert |NatToString(n)| == 1; "0" + NatToString(n)
    else assert |NatToString(n)| == 2 by { assert |NatToString(n / 10)| == 1; } NatToString(n)
  }

  lemma ParseIntPad2(n: nat)
    requires n < 100
    ensures ParseInt(Pad2(n)) == Some(n)
  {
    ParseIntDigits(Pad2(n));
    DigitsValueOfNatToString(n);
    if n < 10 {
      DigitsValueLeadingZero(NatToString(n));
    }
  }

  // ---------------------------------------------------------------- replace, split, join

  /** Python's `s.replace(pat, repl)`: every non-overlapping occurrence, scanning left to right. */
  function Replace(s: string, pat: string, repl: string): string
    requires pat != []
    decreases |s|
  {
    if |s| < |pat| then s
    else if s[..|pat|] == pat then repl + Replace(s[|pat|..], pat, repl)
    else [s[0]] + Replace(s[1..], pat, repl)
  }

  /** Python's `s.split(sep)` for a non-empty separator. */
  function Split(s: string, sep: string): (r: seq<string>)
    requires sep != []
    ensures |r| >= 1
    decreases |s|
  {
    if |s| < |sep| then [s]
    else if s[..|sep|] == sep then [""] + Split(s[|sep|..], sep)
    else
      var rest := Split(s[1..], sep);
      [[s[0]] + rest[0]] + rest[1..]
  }

  /** Python's `sep.join(parts)`. */
  function Join(parts: seq<string>, sep: string): string
  {
    if parts == [] then ""
    else if |parts| == 1 then parts[0]
    else parts[0] + sep + Join(parts[1..], sep)
  }

  lemma JoinCons(p: string, parts: seq<string>, sep: string)
    requires parts != []
    ensures Join([p] + parts, sep) == p + sep + Join(parts, sep)
  {
    assert ([p] + parts)[1..] == parts;
  }

  /** One step of `Split` when `s` does not start with the separator. */
  lemma SplitStep(s: string, sep: string)
    requires sep != [] && |s| >= |sep| && !StartsWith(s, sep)
    ensures var rest := Split(s[1..], sep);
            Split(s, sep) == [[s[0]] + rest[0]] + rest[1..]
  {
  }

  /** Prepending a character to a split's first piece. */
  lemma JoinPrependFirst(c: char, rest: seq<string>, sep: string)
    requires rest != []
    ensures Join([[c] + rest[0]] + rest[1..], sep) == [c] + Join(rest, sep)
  {
    if |rest| > 1 {
      JoinCons([c] + rest[0], rest[1..], sep);
      JoinCons(rest[0], rest[1..], sep);
      assert rest == [rest[0]] + rest[1..];
    }
  }

  /** Joining the pieces of a split with the same separator gives back the string. */
  lemma {:induction false} JoinSplit(s: string, sep: string)
    requires sep != []
    ensures Join(Split(s, sep), sep) == s
    decreases |s|
  {
    if |s| < |sep| {
    } else if s[..|sep|] == sep {
      JoinSplit(s[|sep|..], sep);
      MatchStep(s, sep, sep);
      JoinCons("", Split(s[|sep|..], sep), sep);
      assert "" + sep == sep;
      assert s == sep + s[|sep|..];
    } else {
      SplitStep(s, sep);
      JoinSplit(s[1..], sep);
      JoinPrependFirst(s[0], Split(s[1..], sep), sep);
      assert s == [s[0]] + s[1..];
    }
  }

  /** `replace` is `repl.join(s.split(pat))`, the identity Python documents for it. */
  lemma {:induction false} ReplaceIsJoinSplit(s: string, pat: string, repl: string)
    requires pat != []
    ensures Replace(s, pat, repl) == Join(Split(s, pat), repl)
    decreases |s|
  {
    if |s| < |pat| {
    } else if s[..|pat|] == pat {
      var rest := s[|pat|..];
      ReplaceIsJoinSplit(rest, pat, repl);
      MatchStep(s, pat, repl);
      JoinCons("", Split(rest, pat), repl);
      assert "" + repl == repl;
    } else {
      SplitStep(s, pat);
      MissStep(s, pat, repl);
      ReplaceIsJoinSplit(s[1..], pat, repl);
      JoinPrependFirst(s[0], Split(s[1..], pat), repl);
    }
  }

  /** One step of `Replace` and `Split` when `s` starts with the pattern. */
  lemma MatchStep(s: string, pat: string, repl: string)
    requires pat != [] && |s| >= |pat| && s[..|pat|] == pat
    ensures Replace(s, pat, repl) == repl + Replace(s[|pat|..], pat, repl)
    ensures Split(s, pat) == [""] + Split(s[|pat|..], pat)
  {
  }

  /** One step of `Replace` when `s` does not start with the pattern. */
  lemma MissStep(s: string, pat: string, repl: string)
    requires pat != [] && |s| >= |pat| && s[..|pat|] != pat
    ensures Replace(s, pat, repl) == [s[0]] + Replace(s[1..], pat, repl)
  {
  }

  /** A split into one piece is the string itself. */
  lemma SplitSingle(s: string, sep: string)
    requires sep != [] && |Split(s, sep)| == 1
    ensures Split(s, sep) == [s]
  {
    JoinSplit(s, sep);
  }

  /** A string without the separator splits into itself alone, and only such a string does. */
  lemma {:induction false} SplitSingleIff(s: string, sep: string)
    requires sep != []
    ensures Split(s, sep) == [s] <==> !Contains(s, sep)
    decreases |s|
  {
    if |s| < |sep| {
      NotContainsShort(s, sep);
    } else if s[..|sep|] == sep {
      assert StartsWith(s, sep);
      assert |Split(s, sep)| >= 2;
    } else {
      SplitSingleIff(s[1..], sep);
      SplitStep(s, sep);
      var rest := Split(s[1..], sep);
      if |rest| == 1 {
        SplitSingle(s[1..], sep);
        assert [s[0]] + s[1..] == s;
      } else {
        assert |Split(s, sep)| == |rest|;
      }
    }
  }

  lemma {:induction false} NotContainsShort(s: string, sep: string)
    requires |s| < |sep|
    ensures !Contains(s, sep)
    decreases |s|
  {
    if s != [] {
      NotContainsShort(s[1..], sep);
    }
  }

  /** With no occurrence of the pattern, `replace` changes nothing. */
  lemma ReplaceAbsent(s: string, pat: string, repl: string)
    requires pat != [] && !Contains(s, pat)
    ensures Replace(s, pat, repl) == s
  {
    SplitSingleIff(s, pat);
    ReplaceIsJoinSplit(s, pat, repl);
  }

  /** Splitting `a + sep + b`, where `a` holds no character of `sep`'s first, cuts at that separator. */
  lemma {:induction false} SplitAfterPiece(a: string, sep: string, b: string)
    requires sep != [] && sep[0] !in a
    ensures Split(a + sep + b, sep) == [a] + Split(b, sep)
    decreases |a|
  {
    var s := a + sep + b;
    if a == [] {
      assert s[..|sep|] == sep && s[|sep|..] == b;
    } else {
      assert s[..|sep|] != sep by {
        assert s[0] == a[0];
      }
      assert s[1..] == a[1..] + sep + b;
      SplitAfterPiece(a[1..], sep, b);
      assert [a[0]] + a[1..] == a;
    }
  }

  /** A string without the separator's first character splits into itself. */
  lemma {:induction false} SplitWithoutSep(s: string, sep: string)
    requires sep != [] && sep[0] !in s
    ensures Split(s, sep) == [s]
    decreases |s|
  {
    if |s| < |sep| {
    } else {
      assert s[..|sep|] != sep by {
        assert s[0] != sep[0];
      }
      SplitWithoutSep(s[1..], sep);
      assert [s[0]] + s[1..] == s;
    }
  }

  // ---------------------------------------------------------------- ordering

  /** Python's `a <= b` on strings: lexicographic by code point, a proper prefix first. */
  predicate LexLe(a: string, b: string)
    decreases |a|
  {
    a == [] || (b != [] && (a[0] < b[0] || (a[0] == b[0] && LexLe(a[1..], b[1..]))))
  }

  lemma {:induction false} LexLeTotal(a: string, b: string)
    ensures LexLe(a, b) || LexLe(b, a)
    decreases |a|
  {
    if a != [] && b != [] && a[0] == b[0] {
      LexLeTotal(a[1..], b[1..]);
    }
  }

  lemma {:induction false} LexLeTransitive(a: string, b: string, c: string)
    requires LexLe(a, b) && LexLe(b, c)
    ensures LexLe(a, c)
    decreases |a|
  {
    if a != [] && a[0] == b[0] && b[0] == c[0] {
      LexLeTransitive(a[1..], b[1..], c[1..]);
    }
  }

  lemma {:induction false} LexLeAntisymmetric(a: string, b: string)
    requires LexLe(a, b) && LexLe(b, a)
    ensures a == b
    decreases |a|
  {
    if a != [] {
      LexLeAntisymmetric(a[1..], b[1..]);
      assert a == [a[0]] + a[1..] && b == [b[0]] + b[1..];
    }
  }
}
