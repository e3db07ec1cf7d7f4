/** The behaviour of the Python `str` built-ins that the core relies on:
    `strip`, `split`, `find`, `replace`, `startswith`, `join`, `int(...)`
    and decimal formatting of integers in f-strings. */
module PyText {
  import opened Py

  /** `c.isspace()`: what `str.strip()` removes and what the regular
      expression class `\s` matches in a `str` pattern. */
  predicate IsSpace(c: char)
  {
    || ('\t' <= c <= '\r')
    || ('\U{1C}' <= c <= '\U{1F}')
    || c == ' '
    || c == '\U{85}'
    || c == '\U{A0}'
    || c == '\U{1680}'
    || ('\U{2000}' <= c <= '\U{200A}')
    || c == '\U{2028}'
    || c == '\U{2029}'
    || c == '\U{202F}'
    || c == '\U{205F}'
    || c == '\U{3000}'
  }

  predicate IsDigit(c: char)
  {
    '0' <= c <= '9'
  }

  predicate AllDigits(s: string)
  {
    forall k :: 0 <= k < |s| ==> IsDigit(s[k])
  }

  /** Every character is ASCII (what `secrets.compare_digest` demands of `str` arguments). */
  predicate IsAscii(s: string)
  {
    forall k :: 0 <= k < |s| ==> s[k] as int < 128
  }

  /** `s.strip()`: the longest slice of `s` that neither starts nor ends
      with white space, found by dropping white space from either end. */
  function Strip(s: string): (r: string)
    ensures |r| <= |s|
    ensures r != [] ==> !IsSpace(r[0]) && !IsSpace(r[|r| - 1])
    ensures s != [] && !IsSpace(s[0]) && !IsSpace(s[|s| - 1]) ==> r == s
    decreases |s|
  {
    if s == [] then []
    else if IsSpace(s[0]) then Strip(s[1..])
    else if IsSpace(s[|s| - 1]) then Strip(s[..|s| - 1])
    else s
  }

  /** Only a text of white space strips to nothing. */
  lemma {:induction false} StripEmpty(s: string)
    ensures Strip(s) == [] <==> forall k :: 0 <= k < |s| ==> IsSpace(s[k])
    decreases |s|
  {
    if s != [] {
      if IsSpace(s[0]) {
        StripEmpty(s[1..]);
        assert forall k :: 1 <= k < |s| ==> s[k] == s[1..][k - 1];
      } else if IsSpace(s[|s| - 1]) {
        StripEmpty(s[..|s| - 1]);
        assert forall k :: 0 <= k < |s| - 1 ==> s[k] == s[..|s| - 1][k];
      }
    }
  }

  /** What stripping removes: `Strip(s)` is the slice `s[i..j]` with only
      white space before `i` and after `j`. With the ends of the result not
      being white space (the contract of `Strip`), this pins the result down. */
  lemma {:induction false} StripSlice(s: string) returns (i: nat, j: nat)
    ensures i <= j <= |s| && Strip(s) == s[i..j]
    ensures forall k :: 0 <= k < i ==> IsSpace(s[k])
    ensures forall k :: j <= k < |s| ==> IsSpace(s[k])
    decreases |s|
  {
    if s == [] {
      i, j := 0, 0;
    } else if IsSpace(s[0]) {
      var i', j' := StripSlice(s[1..]);
      i, j := i' + 1, j' + 1;
      SliceOfTail(s, i', j');
      SpaceAfterFirst(s, i', j');
    } else if IsSpace(s[|s| - 1]) {
      var init := s[..|s| - 1];
      i, j := StripSlice(init);
      assert init[i..j] == s[i..j];
      SpaceBeforeLast(s, init, i, j);
    } else {
      i, j := 0, |s|;
    }
  }

  lemma SliceOfTail(s: string, i: nat, j: nat)
    requires s != [] && i <= j <= |s| - 1
    ensures s[1..][i..j] == s[i + 1..j + 1]
  {
    assert forall k :: 0 <= k < j - i ==> s[1..][i..j][k] == s[i + 1..j + 1][k];
  }

  /** White space around a slice of `s[1..]` is white space around the
      shifted slice of `s`, when `s[0]` is white space. */
  lemma SpaceAfterFirst(s: string, i: nat, j: nat)
    requires s != [] && IsSpace(s[0]) && i <= j <= |s| - 1
    requires forall k :: 0 <= k < i ==> IsSpace(s[1..][k])
    requires forall k :: j <= k < |s| - 1 ==> IsSpace(s[1..][k])
    ensures forall k :: 0 <= k < i + 1 ==> IsSpace(s[k])
    ensures forall k :: j + 1 <= k < |s| ==> IsSpace(s[k])
  {
    forall k | 0 < k < |s| ensures s[k] == s[1..][k - 1] {
    }
  }

  /** White space around a slice of `s[..|s| - 1]` is white space around
      the same slice of `s`, when `s`'s last character is white space. */
  lemma SpaceBeforeLast(s: string, init: string, i: nat, j: nat)
    requires s != [] && IsSpace(s[|s| - 1]) && init == s[..|s| - 1] && i <= j <= |init|
    requires forall k :: 0 <= k < i ==> IsSpace(init[k])
    requires forall k :: j <= k < |init| ==> IsSpace(init[k])
    ensures forall k :: 0 <= k < i ==> IsSpace(s[k])
    ensures forall k :: j <= k < |s| ==> IsSpace(s[k])
  {
    forall k | 0 <= k < |init| ensures s[k] == init[k] {
    }
  }

  /** Stripping only removes characters. */
  lemma {:induction false} StripWithin(s: string)
    ensures forall c :: c in Strip(s) ==> c in s
    decreases |s|
  {
    if s != [] {
      if IsSpace(s[0]) {
        StripWithin(s[1..]);
      } else if IsSpace(s[|s| - 1]) {
        StripWithin(s[..|s| - 1]);
      }
    }
  }

  predicate StartsWith(s: string, p: string)
  {
    p <= s
  }

  /** `s.split(c)[0]`: the text before the first `c`, or all of `s`. */
  function BeforeFirst(s: string, c: char): (r: string)
    ensures r <= s && c !in r
    ensures |r| < |s| ==> s[|r|] == c
  {
    if s == [] || s[0] == c then [] else [s[0]] + BeforeFirst(s[1..], c)
  }

  /** `pat` occurs in `s` at index `i`. */
  predicate OccursAt(s: string, pat: string, i: int)
  {
    0 <= i && i + |pat| <= |s| && s[i..i + |pat|] == pat
  }

  /** `s.find(pat)`, with `-1` as `None`. */
  function Find(s: string, pat: string): (r: Option<nat>)
    ensures r.Some? ==> OccursAt(s, pat, r.value)
    ensures r.Some? ==> forall j :: 0 <= j < r.value ==> !OccursAt(s, pat, j)
    ensures r.None? ==> forall j :: !OccursAt(s, pat, j)
    decreases |s|
  {
    if |s| < |pat| then None
    else if s[..|pat|] == pat then Some(0)
    else
      var rest := Find(s[1..], pat);
      assert !OccursAt(s, pat, 0);
      ShiftOccurs(s, pat);
      assert forall j :: OccursAt(s, pat, j) ==> j == 0 || OccursAt(s[1..], pat, j - 1);
      match rest
      case Some(i) => Some(i + 1)
      case None => None
  }

  lemma ShiftOccurs(s: string, pat: string)
    requires s != []
    ensures forall j :: 0 <= j ==> (OccursAt(s, pat, j + 1) <==> OccursAt(s[1..], pat, j))
  {
    forall j | 0 <= j
      ensures OccursAt(s, pat, j + 1) <==> OccursAt(s[1..], pat, j)
    {
      if j + 1 + |pat| <= |s| {
        assert s[1..][j..j + |pat|] == s[j + 1..j + 1 + |pat|];
      }
    }
  }

  /** `s.split(sep, 1)` for a non-empty separator. */
  function SplitOnce(s: string, sep: string): (parts: seq<string>)
    requires sep != []
    ensures |parts| == 1 || |parts| == 2
    ensures |parts| == 1 ==> parts[0] == s && forall j :: !OccursAt(s, sep, j)
    ensures |parts| == 2 ==> s == parts[0] + sep + parts[1] && forall j :: 0 <= j < |parts[0]| ==> !OccursAt(s, sep, j)
  {
    match Find(s, sep)
    case Some(i) =>
      assert s[i..i + |sep|] == sep;
      assert s == s[..i] + s[i..i + |sep|] + s[i + |sep|..];
      [s[..i], s[i + |sep|..]]
    case None => [s]
  }

  /** `s.replace(pat, "")` for a non-empty `pat`: every occurrence, found
      left to right without overlap, is removed. */
  function RemoveAll(s: string, pat: string): (r: string)
    requires pat != []
    ensures |r| <= |s|
    decreases |s|
  {
    if |s| < |pat| then s
    else if s[..|pat|] == pat then RemoveAll(s[|pat|..], pat)
    else [s[0]] + RemoveAll(s[1..], pat)
  }

  /** Removal only deletes characters: every character of the result, with
      its multiplicity, is one of `s`. */
  lemma {:induction false} RemoveAllDeletes(s: string, pat: string)
    requires pat != []
    ensures multiset(RemoveAll(s, pat)) <= multiset(s)
    decreases |s|
  {
    if |s| >= |pat| {
      if s[..|pat|] == pat {
        RemoveAllDeletes(s[|pat|..], pat);
        assert s == s[..|pat|] + s[|pat|..];
      } else {
        RemoveAllDeletes(s[1..], pat);
        assert s == [s[0]] + s[1..];
      }
    }
  }

  /** A text in which `pat` does not occur comes back from `RemoveAll` unchanged. */
  lemma {:induction false} RemoveAllAbsent(s: string, pat: string)
    requires pat != []
    requires forall j :: !OccursAt(s, pat, j)
    ensures RemoveAll(s, pat) == s
    decreases |s|
  {
    if |s| >= |pat| {
      assert !OccursAt(s, pat, 0);
      forall j ensures !OccursAt(s[1..], pat, j) {
        if 0 <= j && j + |pat| <= |s| - 1 {
          assert s[1..][j..j + |pat|] == s[j + 1..j + 1 + |pat|];
          assert !OccursAt(s, pat, j + 1);
        }
      }
      RemoveAllAbsent(s[1..], pat);
      assert s == [s[0]] + s[1..];
    }
  }

  /** Removal is a single left-to-right pass, so an occurrence formed by
      the text on either side of a removed one survives: for the pattern
      `[c] + rest`, the text `[c] + pattern + rest` leaves the pattern
      behind, unless that text already starts with the pattern. With
      `c = 'c'` and `rest = "onfirm_"`, `"cconfirm_onfirm_"` becomes
      `"confirm_"`. */
  lemma RemoveAllOnePass(c: char, rest: string)
    requires rest != []
    requires ([c] + rest)[..|rest|] != rest
    ensures RemoveAll([c] + (([c] + rest) + rest), [c] + rest) == [c] + rest
  {
    var pat := [c] + rest;
    var t := pat + rest;
    var s := [c] + t;
    assert t[..|rest|] == pat[..|rest|];
    assert s[..|pat|] == [c] + t[..|rest|];
    assert ([c] + t[..|rest|])[1..] == t[..|rest|] && pat[1..] == rest;
    KeptAt(s, pat);
    assert s[1..] == t;
    assert t[..|pat|] == pat && t[|pat|..] == rest;
    RemovedAt(t, pat);
    assert RemoveAll(rest, pat) == rest;
  }

  /** `replace` against `find`: a text without `pat` is unchanged, and
      otherwise everything before the first occurrence is kept, the
      occurrence is dropped, and the removal goes on after it. */
  lemma {:induction false} RemoveAllAtFind(s: string, pat: string)
    requires pat != []
    ensures Find(s, pat).None? ==> RemoveAll(s, pat) == s
    ensures Find(s, pat).Some? ==>
      RemoveAll(s, pat) == s[..Find(s, pat).value] + RemoveAll(s[Find(s, pat).value + |pat|..], pat)
    decreases |s|
  {
    if Find(s, pat).Some? {
      RemoveAllSplit(s, pat, Find(s, pat).value);
    } else {
      RemoveAllAbsent(s, pat);
    }
  }

  /** Removal up to the first occurrence, at `i`: the text before it is
      kept and the occurrence is dropped. */
  lemma {:induction false} RemoveAllSplit(s: string, pat: string, i: nat)
    requires pat != [] && OccursAt(s, pat, i)
    requires forall j :: 0 <= j < i ==> !OccursAt(s, pat, j)
    ensures RemoveAll(s, pat) == s[..i] + RemoveAll(s[i + |pat|..], pat)
    decreases i
  {
    if i == 0 {
      RemovedAt(s, pat);
      assert s[..0] == [];
    } else {
      assert !OccursAt(s, pat, 0);
      ShiftOccurs(s, pat);
      RemoveAllSplit(s[1..], pat, i - 1);
      KeptBeforeFind(s, pat, i);
    }
  }

  /** The step of `RemoveAllSplit` for a text whose first occurrence is
      not at the front: its first character is kept. */
  lemma {:induction false} KeptBeforeFind(s: string, pat: string, i: nat)
    requires pat != [] && |s| >= |pat| && s[..|pat|] != pat
    requires 0 < i && i + |pat| <= |s|
    requires RemoveAll(s[1..], pat) == s[1..][..i - 1] + RemoveAll(s[1..][i - 1 + |pat|..], pat)
    ensures RemoveAll(s, pat) == s[..i] + RemoveAll(s[i + |pat|..], pat)
  {
    KeptAt(s, pat);
    TailSlices(s, i - 1, i + |pat|);
  }

  /** Slices of `s[1..]` as slices of `s`. */
  lemma TailSlices(s: string, i: nat, j: nat)
    requires i < j <= |s|
    ensures [s[0]] + s[1..][..i] == s[..i + 1]
    ensures s[1..][j - 1..] == s[j..]
  {
  }

  /** One step of the removal: an occurrence at the front is dropped ... */
  lemma RemovedAt(s: string, pat: string)
    requires pat != [] && |s| >= |pat| && s[..|pat|] == pat
    ensures RemoveAll(s, pat) == RemoveAll(s[|pat|..], pat)
  {
  }

  /** ... and any other first character is kept. */
  lemma KeptAt(s: string, pat: string)
    requires pat != [] && |s| >= |pat| && s[..|pat|] != pat
    ensures RemoveAll(s, pat) == [s[0]] + RemoveAll(s[1..], pat)
  {
  }

  /** `"".join(...)` with a separator. */
  function Join(parts: seq<string>, sep: string): (r: string)
    ensures parts != [] ==> parts[0] <= r
    ensures parts != [] ==> |r| + |sep| == JoinedLength(parts, sep)
  {
    if parts == [] then ""
    else if |parts| == 1 then parts[0]
    else parts[0] + sep + Join(parts[1..], sep)
  }

  /** The lengths of the parts, each counted with one separator. */
  function JoinedLength(parts: seq<string>, sep: string): nat
  {
    if parts == [] then 0 else |parts[0]| + |sep| + JoinedLength(parts[1..], sep)
  }

  /** `s.split(c)`: the pieces between successive occurrences of `c`. */
  function SplitOn(s: string, c: char): (r: seq<string>)
    ensures r != []
    ensures forall k :: 0 <= k < |r| ==> c !in r[k]
    decreases |s|
  {
    var w := BeforeFirst(s, c);
    if |w| == |s| then [s] else [w] + SplitOn(s[|w| + 1..], c)
  }

  lemma BeforeSeparator(w: string, c: char, rest: string)
    requires c !in w
    ensures BeforeFirst(w, c) == w
    ensures BeforeFirst(w + [c] + rest, c) == w
    decreases |w|
  {
    if w != [] {
      BeforeSeparator(w[1..], c, rest);
      assert (w + [c] + rest)[1..] == w[1..] + [c] + rest;
    }
  }

  /** Splitting a joined list on its separator gives the list back, when no
      piece holds the separator. */
  lemma {:induction false} SplitJoin(parts: seq<string>, c: char)
    requires parts != []
    requires forall k :: 0 <= k < |parts| ==> c !in parts[k]
    ensures SplitOn(Join(parts, [c]), c) == parts
    decreases |parts|
  {
    BeforeSeparator(parts[0], c, []);
    if |parts| > 1 {
      var rest := Join(parts[1..], [c]);
      BeforeSeparator(parts[0], c, rest);
      var s := parts[0] + [c] + rest;
      assert Join(parts, [c]) == s;
      assert s[|parts[0]| + 1..] == rest;
      SplitJoin(parts[1..], c);
      assert parts == [parts[0]] + parts[1..];
    }
  }

  function DigitChar(d: int): (c: char)
    requires 0 <= d < 10
    ensures IsDigit(c)
  {
    (('0' as int) + d) as char
  }

  function DigitValue(c: char): (d: int)
    requires IsDigit(c)
    ensures 0 <= d < 10 && DigitChar(d) == c
  {
    c as int - '0' as int
  }

  /** Decimal text of a natural number, no leading zeros. */
  function NatToString(n: nat): (r: string)
    ensures r != [] && AllDigits(r)
    ensures n > 0 ==> r[0] != '0'
  {
    if n < 10 then [DigitChar(n)] else NatToString(n / 10) + [DigitChar(n % 10)]
  }

  /** `f"{n}"` for an integer. */
  function IntToString(n: int): (r: string)
  {
    if n < 0 then "-" + NatToString(-n) else NatToString(n)
  }

  /** `f"{n}"` is non-empty, ends in a digit and is digits after an optional
      leading '-', which is there exactly when `n` is negative. */
  lemma IntToStringShape(n: int)
    ensures IntToString(n) != [] && IsDigit(IntToString(n)[|IntToString(n)| - 1])
    ensures IntToString(n)[0] == '-' <==> n < 0
    ensures forall k :: 0 < k < |IntToString(n)| ==> IsDigit(IntToString(n)[k])
  {
    var d := NatToString(if n < 0 then -n else n);
    if n < 0 {
      assert IntToString(n) == "-" + d;
    } else {
      assert IntToString(n)[0] == d[0];
    }
  }

  /** The digits of `s` as a decimal number, underscores skipped. */
  function DigitsValue(s: string): nat
    requires forall k :: 0 <= k < |s| ==> IsDigit(s[k]) || s[k] == '_'
  {
    if s == [] then 0
    else if s[|s| - 1] == '_' then DigitsValue(s[..|s| - 1])
    else DigitsValue(s[..|s| - 1]) * 10 + DigitValue(s[|s| - 1])
  }

  /** What `int()` accepts after the sign: decimal digits, with single
      underscores allowed between two digits. */
  predicate ValidDigits(s: string)
  {
    && s != []
    && IsDigit(s[0])
    && IsDigit(s[|s| - 1])
    && (forall k :: 0 <= k < |s| ==> IsDigit(s[k]) || s[k] == '_')
    && (forall k :: 0 <= k < |s| - 1 && s[k] == '_' ==> s[k + 1] != '_')
  }

  /** `int(s)` in base 10, with `None` for the `ValueError` it raises. */
  function ParseInt(s: string): (r: Option<int>)
    ensures r.Some? <==>
      || ValidDigits(Strip(s))
      || (Strip(s) != [] && (Strip(s)[0] == '-' || Strip(s)[0] == '+') && ValidDigits(Strip(s)[1..]))
    ensures r.Some? && r.value < 0 ==> Strip(s)[0] == '-'
  {
    var t := Strip(s);
    if t != [] && (t[0] == '-' || t[0] == '+') then
      if ValidDigits(t[1..]) then
        var v: int := DigitsValue(t[1..]);
        Some(if t[0] == '-' then -v else v)
      else None
    else if ValidDigits(t) then Some(DigitsValue(t))
    else None
  }

  lemma {:induction false} NatToStringValue(n: nat)
    ensures ValidDigits(NatToString(n))
    ensures DigitsValue(NatToString(n)) == n
  {
    var r := NatToString(n);
    if n >= 10 {
      NatToStringValue(n / 10);
      var p := NatToString(n / 10);
      assert r == p + [DigitChar(n % 10)];
      assert r[..|r| - 1] == p;
    }
  }

  lemma UnstrippedText(s: string)
    requires s != []
    requires IsDigit(s[0]) || s[0] == '-'
    requires IsDigit(s[|s| - 1])
    ensures Strip(s) == s
  {
  }

  /** Formatting an integer and reading it back with `int()` is the identity. */
  lemma ParseIntRoundTrip(n: int)
    ensures ParseInt(IntToString(n)) == Some(n)
  {
    var s := IntToString(n);
    var m: nat := if n < 0 then -n else n;
    var d := NatToString(m);
    NatToStringValue(m);
    assert s[|s| - 1] == d[|d| - 1];
    UnstrippedText(s);
    if n < 0 {
      assert s[1..] == d;
    }
  }

  /** `int()` ignores surrounding white space. */
  lemma ParseIntStripped(s: string)
    ensures ParseInt(Strip(s)) == ParseInt(s)
  {
    var t := Strip(s);
    if t != [] {
      assert Strip(t) == t;
    }
  }

  /** `int()` of valid digits is their decimal value. */
  lemma ParseIntOfDigits(d: string)
    requires ValidDigits(d)
    ensures ParseInt(d) == Some(DigitsValue(d))
  {
    assert Strip(d) == d;
  }

  /** `int()` of a sign followed by valid digits. */
  lemma ParseIntOfSign(t: string)
    requires t != [] && (t[0] == '+' || t[0] == '-') && ValidDigits(t[1..])
    ensures ParseInt(t) == Some(if t[0] == '-' then -(DigitsValue(t[1..]) as int) else DigitsValue(t[1..]))
  {
    assert t[|t| - 1] == t[1..][|t| - 2];
    assert Strip(t) == t;
  }

  /** A `+` sign changes nothing and a `-` sign negates. */
  lemma ParseIntSigned(d: string)
    requires ValidDigits(d)
    ensures ParseInt(d) == Some(DigitsValue(d))
    ensures ParseInt("+" + d) == ParseInt(d)
    ensures ParseInt("-" + d) == Some(-(DigitsValue(d) as int))
  {
    ParseIntOfDigits(d);
    var plus, minus := "+" + d, "-" + d;
    assert plus[0] == '+' && plus[1..] == d;
    ParseIntOfSign(plus);
    assert minus[0] == '-' && minus[1..] == d;
    ParseIntOfSign(minus);
  }

  /** A leading zero does not change the value of the digits after it. */
  lemma {:induction false} LeadingZeroValue(d: string)
    requires forall k :: 0 <= k < |d| ==> IsDigit(d[k]) || d[k] == '_'
    ensures DigitsValue("0" + d) == DigitsValue(d)
    decreases |d|
  {
    var z := "0" + d;
    if d == [] {
      assert z[..|z| - 1] == [];
    } else {
      LeadingZeroValue(d[..|d| - 1]);
      assert z[..|z| - 1] == "0" + d[..|d| - 1] && z[|z| - 1] == d[|d| - 1];
    }
  }

  /** `int()` accepts leading zeros and ignores them: `int("007") == 7`. */
  lemma ParseIntLeadingZero(d: string)
    requires ValidDigits(d)
    ensures ParseInt("0" + d) == ParseInt(d)
  {
    var z := "0" + d;
    assert z[1..] == d;
    assert ValidDigits(z);
    LeadingZeroValue(d);
    ParseIntOfDigits(z);
    ParseIntOfDigits(d);
  }

  /** An underscore between two runs of digits does not change the value. */
  lemma {:induction false} UnderscoreValue(a: string, b: string)
    requires forall k :: 0 <= k < |a| ==> IsDigit(a[k]) || a[k] == '_'
    requires forall k :: 0 <= k < |b| ==> IsDigit(b[k]) || b[k] == '_'
    ensures DigitsValue(a + "_" + b) == DigitsValue(a + b)
    decreases |b|
  {
    var u, v := a + "_" + b, a + b;
    if b == [] {
      assert u[..|u| - 1] == a && v == a;
    } else {
      UnderscoreValue(a, b[..|b| - 1]);
      assert u[..|u| - 1] == a + "_" + b[..|b| - 1] && u[|u| - 1] == b[|b| - 1];
      assert v[..|v| - 1] == a + b[..|b| - 1] && v[|v| - 1] == b[|b| - 1];
    }
  }

  /** `int()` accepts a single underscore between digits and skips it:
      `int("1_000") == 1000`. */
  lemma ParseIntUnderscore(a: string, b: string)
    requires ValidDigits(a) && ValidDigits(b)
    ensures ParseInt(a + "_" + b) == ParseInt(a + b)
  {
    var u, v := a + "_" + b, a + b;
    assert u[0] == a[0] && u[|u| - 1] == b[|b| - 1] && v[0] == a[0] && v[|v| - 1] == b[|b| - 1];
    forall k | 0 <= k < |u| ensures IsDigit(u[k]) || u[k] == '_' {
      if k < |a| { assert u[k] == a[k]; } else if k > |a| { assert u[k] == b[k - |a| - 1]; }
    }
    forall k | 0 <= k < |u| - 1 && u[k] == '_' ensures u[k + 1] != '_' {
      if k + 1 < |a| { assert u[k] == a[k]; } else if k > |a| { assert u[k] == b[k - |a| - 1]; }
    }
    forall k | 0 <= k < |v| ensures IsDigit(v[k]) || v[k] == '_' {
      if k < |a| { assert v[k] == a[k]; } else { assert v[k] == b[k - |a|]; }
    }
    forall k | 0 <= k < |v| - 1 && v[k] == '_' ensures v[k + 1] != '_' {
      if k + 1 < |a| { assert v[k] == a[k]; } else if k >= |a| { assert v[k] == b[k - |a|]; }
    }
    UnderscoreValue(a, b);
    ParseIntOfDigits(u);
    ParseIntOfDigits(v);
  }
}
