/** Models of the Python `str` built-ins that the username generator uses:
    `isspace`/`strip`, `split` on one separator character, `lower`, `replace`
    and `str` of a non-negative integer. */
module PyStr {

  /** Python's `str.isspace()` for one code point: exactly the characters that
      `str.strip()` with no argument removes. */
  predicate IsSpace(c: char)
  {
    var n := c as int;
    (0x09 <= n <= 0x0D) || (0x1C <= n <= 0x20) || n == 0x85 || n == 0xA0 ||
    n == 0x1680 || (0x2000 <= n <= 0x200A) || n == 0x2028 || n == 0x2029 ||
    n == 0x202F || n == 0x205F || n == 0x3000
  }

  // ---------------------------------------------------------------------------
  // strip()

  /** `s.lstrip()`: drops the leading whitespace and nothing else. */
  function LStrip(s: string): (r: string)
    ensures |r| <= |s| && r == s[|s| - |r|..]
    ensures forall k :: 0 <= k < |s| - |r| ==> IsSpace(s[k])
    ensures r == [] || !IsSpace(r[0])
    decreases |s|
  {
    if |s| > 0 && IsSpace(s[0]) then LStrip(s[1..]) else s
  }

  /** `s.rstrip()`: drops the trailing whitespace and nothing else. */
  function RStrip(s: string): (r: string)
    ensures |r| <= |s| && r == s[..|r|]
    ensures forall k :: |r| <= k < |s| ==> IsSpace(s[k])
    ensures r == [] || !IsSpace(r[|r| - 1])
    decreases |s|
  {
    if |s| > 0 && IsSpace(s[|s| - 1]) then RStrip(s[..|s| - 1]) else s
  }

  /** `s.strip()`: a contiguous piece of `s` that neither starts nor ends with
      whitespace, with only whitespace cut away on either side. */
  function Strip(s: string): (r: string)
    ensures r == [] || (!IsSpace(r[0]) && !IsSpace(r[|r| - 1]))
    ensures exists a :: TrimmedAt(s, r, a)
  {
    var l := LStrip(s);
    var r := RStrip(l);
    StripTrims(s, l, r);
    r
  }

  /** Cutting whitespace from the front and then from the back leaves a
      piece trimmed at the length that was cut from the front. */
  lemma StripTrims(s: string, l: string, r: string)
    requires |l| <= |s| && l == s[|s| - |l|..]
    requires forall k :: 0 <= k < |s| - |l| ==> IsSpace(s[k])
    requires l == [] || !IsSpace(l[0])
    requires |r| <= |l| && r == l[..|r|]
    requires forall k :: |r| <= k < |l| ==> IsSpace(l[k])
    requires r == [] || !IsSpace(r[|r| - 1])
    ensures r == [] || (!IsSpace(r[0]) && !IsSpace(r[|r| - 1]))
    ensures TrimmedAt(s, r, |s| - |l|)
  {
    var a := |s| - |l|;
    assert r == s[a..a + |r|];
    forall k | a + |r| <= k < |s| ensures IsSpace(s[k]) {
      assert s[k] == l[k - a];
    }
    if r != [] {
      assert r[0] == l[0];
    }
  }

  /** `r` is the piece of `s` starting at `a`, and everything around it is
      whitespace. */
  predicate TrimmedAt(s: string, r: string, a: int)
  {
    0 <= a && a + |r| <= |s| && r == s[a..a + |r|] &&
    (forall k :: 0 <= k < a ==> IsSpace(s[k])) &&
    (forall k :: a + |r| <= k < |s| ==> IsSpace(s[k]))
  }

  // ---------------------------------------------------------------------------
  // lower()

  /** ASCII lower-casing of one character. */
  function LowerChar(c: char): char
  {
    if 'A' <= c <= 'Z' then (c as int + 32) as char else c
  }

  /** `s.lower()`, restricted to ASCII letters. */
  function Lower(s: string): (r: string)
    ensures |r| == |s|
    ensures forall k :: 0 <= k < |s| ==> r[k] == LowerChar(s[k])
  {
    seq(|s|, k requires 0 <= k < |s| => LowerChar(s[k]))
  }

  lemma LowerSlice(s: string, a: nat, b: nat)
    requires a <= b <= |s|
    ensures Lower(s)[a..b] == Lower(s[a..b])
  {
    assert forall k :: 0 <= k < b - a ==> Lower(s)[a..b][k] == Lower(s[a..b])[k];
  }

  /** What `lower()` does to ASCII text: no capital letter is left, each
      capital becomes its small letter, and every other character is kept. */
  lemma LowerSpec(s: string)
    ensures |Lower(s)| == |s|
    ensures forall k :: 0 <= k < |s| ==> !('A' <= Lower(s)[k] <= 'Z')
    ensures forall k :: 0 <= k < |s| && 'A' <= s[k] <= 'Z' ==>
              'a' <= Lower(s)[k] <= 'z' && Lower(s)[k] as int - 'a' as int == s[k] as int - 'A' as int
    ensures forall k :: 0 <= k < |s| && !('A' <= s[k] <= 'Z') ==> Lower(s)[k] == s[k]
  {
  }

  /** Lower-casing keeps whitespace whitespace and turns nothing into it. */
  lemma LowerCharSpace(c: char)
    ensures IsSpace(LowerChar(c)) == IsSpace(c)
  {
  }

  /** `s.lower().lstrip() == s.lstrip().lower()` */
  lemma {:induction false} LStripLower(s: string)
    ensures LStrip(Lower(s)) == Lower(LStrip(s))
    decreases |s|
  {
    if |s| > 0 {
      var t := Lower(s);
      LowerCharSpace(s[0]);
      assert t[0] == LowerChar(s[0]);
      if IsSpace(s[0]) {
        LowerSlice(s, 1, |s|);
        assert t[1..] == Lower(s[1..]) by {
          assert s[1..|s|] == s[1..];
          assert t[1..|t|] == t[1..];
        }
        LStripLower(s[1..]);
        assert LStrip(t) == LStrip(t[1..]);
      } else {
        assert LStrip(t) == t;
      }
    }
  }

  /** `s.lower().rstrip() == s.rstrip().lower()` */
  lemma {:induction false} RStripLower(s: string)
    ensures RStrip(Lower(s)) == Lower(RStrip(s))
    decreases |s|
  {
    if |s| > 0 {
      var t := Lower(s);
      var n := |s| - 1;
      LowerCharSpace(s[n]);
      assert t[n] == LowerChar(s[n]);
      if IsSpace(s[n]) {
        LowerSlice(s, 0, n);
        assert t[..n] == Lower(s[..n]) by {
          assert s[0..n] == s[..n];
          assert t[0..n] == t[..n];
        }
        RStripLower(s[..n]);
        assert RStrip(t) == RStrip(t[..n]);
      } else {
        assert RStrip(t) == t;
      }
    }
  }

  /** Lower-casing and stripping commute. */
  lemma StripLower(s: string)
    ensures Strip(Lower(s)) == Lower(Strip(s))
  {
    LStripLower(s);
    RStripLower(LStrip(s));
  }

  // ---------------------------------------------------------------------------
  // split(sep)

  /** Number of occurrences of `c` in `s`. */
  function Count(s: string, c: char): nat
    decreases |s|
  {
    if s == [] then 0 else (if s[0] == c then 1 else 0) + Count(s[1..], c)
  }

  /** Index of the first `c` in `s`, or `|s|` when there is none. */
  function IndexOf(s: string, c: char): (i: nat)
    ensures i <= |s|
    ensures i < |s| ==> s[i] == c
    ensures forall k :: 0 <= k < i ==> s[k] != c
    decreases |s|
  {
    if |s| == 0 then 0 else if s[0] == c then 0 else 1 + IndexOf(s[1..], c)
  }

  /** `IndexOf` is the first position holding `c`. */
  lemma IndexOfIs(s: string, c: char, i: nat)
    requires i <= |s| && (i < |s| ==> s[i] == c)
    requires forall k :: 0 <= k < i ==> s[k] != c
    ensures IndexOf(s, c) == i
  {
  }

  /** `s.split(sep)` for a one-character separator: the pieces between the
      separators, at least one, none of which contains the separator. */
  function Split(s: string, sep: char): (parts: seq<string>)
    ensures |parts| >= 1
    ensures forall k :: 0 <= k < |parts| ==> sep !in parts[k]
    decreases |s|
  {
    var i := IndexOf(s, sep);
    if i == |s| then [s] else [s[..i]] + Split(s[i + 1..], sep)
  }

  /** `sep.join(parts)`, the inverse of `Split`. */
  function Join(parts: seq<string>, sep: char): string
    decreases |parts|
  {
    if |parts| == 0 then "" else if |parts| == 1 then parts[0]
    else parts[0] + [sep] + Join(parts[1..], sep)
  }

  /** Splitting loses nothing: joining the pieces gives the string back. */
  lemma {:induction false} JoinSplit(s: string, sep: char)
    ensures Join(Split(s, sep), sep) == s
    decreases |s|
  {
    var i := IndexOf(s, sep);
    if i < |s| {
      var rest := s[i + 1..];
      JoinSplit(rest, sep);
      var p := Split(rest, sep);
      assert Split(s, sep) == [s[..i]] + p;
      JoinCons(s[..i], p, sep);
      Around(s, i);
    }
  }

  lemma JoinCons(h: string, p: seq<string>, sep: char)
    requires |p| >= 1
    ensures Join([h] + p, sep) == h + [sep] + Join(p, sep)
  {
    assert ([h] + p)[0] == h && ([h] + p)[1..] == p;
  }

  /** A string is its prefix, the character at `i` and its suffix. */
  lemma Around(s: string, i: nat)
    requires i < |s|
    ensures s == s[..i] + [s[i]] + s[i + 1..]
  {
  }

  lemma {:induction false} CountSplitAt(s: string, c: char, i: nat)
    requires i < |s| && s[i] == c
    requires forall k :: 0 <= k < i ==> s[k] != c
    ensures Count(s, c) == 1 + Count(s[i + 1..], c)
    decreases i
  {
    if i > 0 {
      CountSplitAt(s[1..], c, i - 1);
      assert s[1..][i..] == s[i + 1..];
    }
  }

  lemma {:induction false} CountAbsent(s: string, c: char)
    requires forall k :: 0 <= k < |s| ==> s[k] != c
    ensures Count(s, c) == 0
    decreases |s|
  {
    if s != [] {
      CountAbsent(s[1..], c);
    }
  }

  /** `s.split(sep)` has one more piece than `s` has separators. */
  lemma {:induction false} SplitCount(s: string, sep: char)
    ensures |Split(s, sep)| == Count(s, sep) + 1
    decreases |s|
  {
    var i := IndexOf(s, sep);
    if i == |s| {
      CountAbsent(s, sep);
    } else {
      CountSplitAt(s, sep, i);
      SplitCount(s[i + 1..], sep);
    }
  }

  /** When `s.split(sep)` has exactly two pieces, `s` is those two pieces
      around its single separator. */
  lemma SplitTwo(s: string, sep: char)
    requires |Split(s, sep)| == 2
    ensures s == Split(s, sep)[0] + [sep] + Split(s, sep)[1]
  {
    JoinSplit(s, sep);
    var p := Split(s, sep);
    assert Join(p, sep) == p[0] + [sep] + Join(p[1..], sep);
  }

  /** Lower-casing every piece. */
  function LowerAll(parts: seq<string>): (r: seq<string>)
    ensures |r| == |parts|
    ensures forall k :: 0 <= k < |parts| ==> r[k] == Lower(parts[k])
    decreases |parts|
  {
    if parts == [] then [] else [Lower(parts[0])] + LowerAll(parts[1..])
  }

  /** A separator that is not a letter is unaffected by lower-casing. */
  predicate NotLetter(c: char)
  {
    !('A' <= c <= 'Z') && !('a' <= c <= 'z')
  }

  lemma {:induction false} IndexOfLower(s: string, sep: char)
    requires NotLetter(sep)
    ensures IndexOf(Lower(s), sep) == IndexOf(s, sep)
    decreases |s|
  {
    if |s| > 0 && s[0] != sep {
      LowerSlice(s, 1, |s|);
      IndexOfLower(s[1..], sep);
    }
  }

  /** Splitting a lower-cased string on a non-letter gives the lower-cased
      pieces. */
  lemma {:induction false} SplitLower(s: string, sep: char)
    requires NotLetter(sep)
    ensures Split(Lower(s), sep) == LowerAll(Split(s, sep))
    decreases |s|
  {
    IndexOfLower(s, sep);
    var i := IndexOf(s, sep);
    var t := Lower(s);
    SplitAt(s, sep);
    SplitAt(t, sep);
    if i < |s| {
      LowerAround(s, i);
      SplitLower(s[i + 1..], sep);
      var rest := Split(s[i + 1..], sep);
      LowerAllCons(s[..i], rest);
      calc {
        Split(t, sep);
        [t[..i]] + Split(t[i + 1..], sep);
        [Lower(s[..i])] + Split(Lower(s[i + 1..]), sep);
        [Lower(s[..i])] + LowerAll(rest);
        LowerAll([s[..i]] + rest);
        LowerAll(Split(s, sep));
      }
    } else {
      LowerAllCons(s, []);
      calc {
        Split(t, sep);
        [t];
        [Lower(s)] + LowerAll([]);
        { assert [s] + [] == [s]; }
        LowerAll([s]);
        LowerAll(Split(s, sep));
      }
    }
  }

  /** One step of `Split`: the piece before the first separator, then the
      pieces of the rest. */
  lemma SplitAt(s: string, sep: char)
    ensures IndexOf(s, sep) < |s| ==>
              Split(s, sep) == [s[..IndexOf(s, sep)]] + Split(s[IndexOf(s, sep) + 1..], sep)
    ensures IndexOf(s, sep) == |s| ==> Split(s, sep) == [s]
  {
    var i := IndexOf(s, sep);
    var parts := Split(s, sep);
    if i < |s| {
      assert parts == [s[..i]] + Split(s[i + 1..], sep);
    } else {
      assert parts == [s];
    }
  }

  lemma LowerAround(s: string, i: nat)
    requires i < |s|
    ensures Lower(s)[..i] == Lower(s[..i]) && Lower(s)[i + 1..] == Lower(s[i + 1..])
  {
    LowerPrefix(s, i);
    LowerSuffix(s, i + 1);
  }

  lemma LowerPrefix(s: string, i: nat)
    requires i <= |s|
    ensures Lower(s)[..i] == Lower(s[..i])
  {
    var t := Lower(s);
    var p := s[..i];
    assert forall k :: 0 <= k < i ==> Lower(p)[k] == LowerChar(s[k]) == t[k];
  }

  lemma LowerSuffix(s: string, i: nat)
    requires i <= |s|
    ensures Lower(s)[i..] == Lower(s[i..])
  {
    var t := Lower(s);
    var q := s[i..];
    assert forall k :: 0 <= k < |q| ==> Lower(q)[k] == LowerChar(s[i + k]) == t[i + k];
  }

  lemma LowerAllCons(h: string, p: seq<string>)
    ensures LowerAll([h] + p) == [Lower(h)] + LowerAll(p)
  {
    assert ([h] + p)[1..] == p;
  }

  // ---------------------------------------------------------------------------
  // replace(pat, sub)

  /** `s.replace("", sub)`: `sub` before every character and at the end. */
  function Interleave(s: string, sub: string): (r: string)
    ensures |r| == |s| + (|s| + 1) * |sub|
    decreases |s|
  {
    if s == [] then sub else sub + [s[0]] + Interleave(s[1..], sub)
  }

  /** `s.replace(pat, sub)`: every occurrence of `pat`, found left to right
      without overlap, becomes `sub`. */
  function Replace(s: string, pat: string, sub: string): string
    decreases |s|
  {
    if |pat| == 0 then Interleave(s, sub)
    else if |s| < |pat| then s
    else if s[..|pat|] == pat then sub + Replace(s[|pat|..], pat, sub)
    else [s[0]] + Replace(s[1..], pat, sub)
  }

  /** `pat` occurs somewhere in `s`. */
  ghost predicate OccursIn(pat: string, s: string)
  {
    exists i :: OccursAt(pat, s, i)
  }

  /** `pat` occurs in `s` at index `i`. */
  predicate OccursAt(pat: string, s: string, i: int)
  {
    0 <= i && i + |pat| <= |s| && s[i..i + |pat|] == pat
  }

  /** Replacing a pattern that does not occur gives an unchanged copy. */
  lemma {:induction false} ReplaceAbsent(s: string, pat: string, sub: string)
    requires |pat| > 0 && !OccursIn(pat, s)
    ensures Replace(s, pat, sub) == s
    decreases |s|
  {
    if |s| >= |pat| {
      assert s[0..0 + |pat|] == s[..|pat|];
      assert !OccursAt(pat, s, 0);
      forall i | OccursAt(pat, s[1..], i) ensures false {
        assert s[1..][i..i + |pat|] == s[i + 1..i + 1 + |pat|];
        assert OccursAt(pat, s, i + 1);
      }
      ReplaceAbsent(s[1..], pat, sub);
    }
  }

  /** Replacing a non-empty pattern by itself gives an unchanged copy. */
  lemma {:induction false} ReplaceSelf(s: string, pat: string)
    requires |pat| > 0
    ensures Replace(s, pat, pat) == s
    decreases |s|
  {
    if |s| >= |pat| {
      if s[..|pat|] == pat {
        ReplaceSelf(s[|pat|..], pat);
        assert s == s[..|pat|] + s[|pat|..];
      } else {
        ReplaceSelf(s[1..], pat);
      }
    }
  }

  /** Reference definition of replacing the single character `c`: each
      character is looked at once. */
  function ReplaceChar(s: string, c: char, sub: string): string
    decreases |s|
  {
    if s == [] then [] else (if s[0] == c then sub else [s[0]]) + ReplaceChar(s[1..], c, sub)
  }

  /** For a one-character pattern `replace` is the character-wise map. */
  lemma {:induction false} ReplaceOneChar(s: string, c: char, sub: string)
    ensures Replace(s, [c], sub) == ReplaceChar(s, c, sub)
    decreases |s|
  {
    if s != [] {
      assert s[..1] == [c] <==> s[0] == c;
      ReplaceOneChar(s[1..], c, sub);
    }
  }

  /** Each occurrence of `c` grows or shrinks the string by `|sub| - 1`. */
  lemma {:induction false} ReplaceCharLength(s: string, c: char, sub: string)
    ensures |ReplaceChar(s, c, sub)| == |s| + Count(s, c) * (|sub| - 1)
    decreases |s|
  {
    if s != [] {
      ReplaceCharLength(s[1..], c, sub);
    }
  }

  /** When `sub` does not contain `c`, no `c` is left afterwards. */
  lemma {:induction false} ReplaceCharRemoves(s: string, c: char, sub: string)
    requires c !in sub
    ensures c !in ReplaceChar(s, c, sub)
    decreases |s|
  {
    if s != [] {
      ReplaceCharRemoves(s[1..], c, sub);
    }
  }

  // ---------------------------------------------------------------------------
  // str(n)

  predicate IsDigit(c: char)
  {
    '0' <= c <= '9'
  }

  function DigitChar(d: nat): (c: char)
    requires d < 10
    ensures IsDigit(c) && c as int - '0' as int == d
  {
    ('0' as int + d) as char
  }

  /** `str(n)` for `n >= 0`: decimal digits, no leading zero. */
  function NatToString(n: nat): (r: string)
    ensures |r| >= 1
    ensures forall k :: 0 <= k < |r| ==> IsDigit(r[k])
    ensures r[0] == '0' ==> n == 0
    decreases n
  {
    if n < 10 then [DigitChar(n)] else NatToString(n / 10) + [DigitChar(n % 10)]
  }

  /** `int(s)` for a string of decimal digits. */
  function DigitsValue(s: string): nat
    requires forall k :: 0 <= k < |s| ==> IsDigit(s[k])
    decreases |s|
  {
    if s == [] then 0
    else
      assert IsDigit(s[|s| - 1]);
      DigitsValue(s[..|s| - 1]) * 10 + (s[|s| - 1] as int - '0' as int)
  }

  /** `int(str(n)) == n` */
  lemma {:induction false} NatToStringRoundTrip(n: nat)
    ensures DigitsValue(NatToString(n)) == n
    decreases n
  {
    if n >= 10 {
      NatToStringRoundTrip(n / 10);
      var r := NatToString(n);
      assert r[..|r| - 1] == NatToString(n / 10);
    }
  }

  /** Distinct numbers print differently. */
  lemma NatToStringInjective(i: nat, j: nat)
    requires NatToString(i) == NatToString(j)
    ensures i == j
  {
    NatToStringRoundTrip(i);
    NatToStringRoundTrip(j);
  }
}
