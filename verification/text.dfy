/**
 * String helpers shared by the path, archive-name, downloader and channel-reader
 * models. Each one is the Python string operation the source calls, stated on
 * `seq<char>`.
 */
module Text {

  /** `s` ends with `suffix`. */
  predicate IsSuffix(suffix: string, s: string) {
    |suffix| <= |s| && s[|s| - |suffix|..] == suffix
  }

  /** Python's `p in s` for strings: `p` occurs in `s` as a contiguous substring. */
  predicate Contains(s: string, p: string)
    decreases |s|
  {
    if |s| < |p| then false
    else s[..|p|] == p || Contains(s[1..], p)
  }

  /** The reading of `p in s` by positions: some window of `s` equals `p`. */
  ghost predicate OccursAt(s: string, p: string, i: int) {
    0 <= i && i + |p| <= |s| && s[i..i + |p|] == p
  }

  lemma {:induction false} ContainsIff(s: string, p: string)
    ensures Contains(s, p) <==> exists i :: OccursAt(s, p, i)
    decreases |s|
  {
    if |s| < |p| {
      forall i | OccursAt(s, p, i) ensures false { }
    } else if s[..|p|] == p {
      assert OccursAt(s, p, 0);
    } else {
      ContainsIff(s[1..], p);
      if Contains(s[1..], p) {
        var i :| OccursAt(s[1..], p, i);
        assert s[i + 1..i + 1 + |p|] == s[1..][i..i + |p|];
        assert OccursAt(s, p, i + 1);
      } else {
        forall i | OccursAt(s, p, i) ensures false {
          if i != 0 {
            assert s[1..][i - 1..i - 1 + |p|] == s[i..i + |p|];
            assert OccursAt(s[1..], p, i - 1);
          }
        }
      }
    }
  }

  /** A string that lacks the first character of `p` does not contain `p`. */
  lemma {:induction false} MissingFirstChar(s: string, p: string)
    requires |p| > 0 && p[0] !in s
    ensures !Contains(s, p)
    decreases |s|
  {
    if |s| >= |p| {
      assert s[..|p|][0] == s[0];
      MissingFirstChar(s[1..], p);
    }
  }

  /**
   * Python's `s.replace(pat, rep)` for a non-empty pattern: occurrences are
   * replaced left to right and never overlap.
   */
  function Replace(s: string, pat: string, rep: string): string
    requires |pat| > 0
    decreases |s|
  {
    if |s| < |pat| then s
    else if s[..|pat|] == pat then rep + Replace(s[|pat|..], pat, rep)
    else [s[0]] + Replace(s[1..], pat, rep)
  }

  /** A string without the pattern is returned unchanged by `Replace`. */
  lemma {:induction false} ReplaceWithoutPattern(s: string, pat: string, rep: string)
    requires |pat| > 0 && !Contains(s, pat)
    ensures Replace(s, pat, rep) == s
    decreases |s|
  {
    if |s| >= |pat| {
      ReplaceWithoutPattern(s[1..], pat, rep);
      assert [s[0]] + s[1..] == s;
    }
  }

  /** Replacing one character by another is a position-wise substitution. */
  lemma {:induction false} ReplaceChar(s: string, a: char, b: char)
    ensures |Replace(s, [a], [b])| == |s|
    ensures forall i :: 0 <= i < |s| ==> Replace(s, [a], [b])[i] == (if s[i] == a then b else s[i])
    decreases |s|
  {
    if |s| > 0 {
      ReplaceChar(s[1..], a, b);
      assert s[..1] == [s[0]];
      var r := Replace(s, [a], [b]);
      var tail := Replace(s[1..], [a], [b]);
      assert r == [if s[0] == a then b else s[0]] + tail;
    }
  }

  /**
   * The text after the last `c` in `s`, or all of `s` when `c` does not occur:
   * Python's `s.rpartition(c)[2]`, and also `s.split(c)[-1]`.
   */
  function AfterLast(s: string, c: char): (r: string)
    ensures IsSuffix(r, s) && c !in r
    ensures |r| < |s| ==> s[|s| - |r| - 1] == c
    decreases |s|
  {
    if s == [] then []
    else if s[|s| - 1] == c then []
    else AfterLast(s[..|s| - 1], c) + [s[|s| - 1]]
  }

  /** The text before the last `c` in `s`, or "" when `c` does not occur: Python's `s.rpartition(c)[0]`. */
  function BeforeLast(s: string, c: char): (r: string)
    ensures c in s ==> s == r + [c] + AfterLast(s, c)
    ensures c !in s ==> r == []
  {
    var a := AfterLast(s, c);
    if |a| == |s| then
      assert a == s;
      []
    else
      assert s == s[..|s| - |a| - 1] + [c] + a;
      s[..|s| - |a| - 1]
  }

  /** The text before the first `c` in `s`, or all of `s`: Python's `s.partition(c)[0]` and `s.split(c)[0]`. */
  function BeforeFirst(s: string, c: char): (r: string)
    ensures r <= s && c !in r
    ensures |r| < |s| ==> s[|r|] == c
    decreases |s|
  {
    if s == [] then []
    else if s[0] == c then []
    else [s[0]] + BeforeFirst(s[1..], c)
  }

  /** A string without `c` is its own last component. */
  lemma {:induction false} AfterLastWithout(s: string, c: char)
    requires c !in s
    ensures AfterLast(s, c) == s
  {
  }

  /** A string without `c` is its own first segment. */
  lemma {:induction false} BeforeFirstWithout(s: string, c: char)
    requires c !in s
    ensures BeforeFirst(s, c) == s
  {
  }

  /** The first segment of `seg + [c] + rest` is `seg` when `seg` has no `c`. */
  lemma {:induction false} BeforeFirstOfJoined(seg: string, c: char, rest: string)
    requires c !in seg
    ensures BeforeFirst(seg + [c] + rest, c) == seg
    decreases |seg|
  {
    var s := seg + [c] + rest;
    if seg != [] {
      assert s[0] == seg[0] && s[1..] == seg[1..] + [c] + rest;
      BeforeFirstOfJoined(seg[1..], c, rest);
      assert [seg[0]] + seg[1..] == seg;
    }
  }

  /** One more character at the end: it is the whole last component or ends it. */
  lemma AfterLastSnoc(t: string, x: char, c: char)
    ensures AfterLast(t + [x], c) == if x == c then [] else AfterLast(t, c) + [x]
  {
    assert (t + [x])[..|t|] == t;
  }

  /** A directory prefix that ends in `c` does not change the last component. */
  lemma {:induction false} AfterLastOfPrefixed(dir: string, name: string, c: char)
    requires |dir| > 0 && dir[|dir| - 1] == c
    ensures AfterLast(dir + name, c) == AfterLast(name, c)
    decreases |name|
  {
    if name == [] {
      assert dir + name == dir;
    } else {
      var init, x := name[..|name| - 1], name[|name| - 1];
      assert name == init + [x];
      assert dir + name == (dir + init) + [x];
      AfterLastSnoc(dir + init, x, c);
      AfterLastSnoc(init, x, c);
      if x != c {
        AfterLastOfPrefixed(dir, init, c);
      }
    }
  }

  /** The decimal digit for `d`. */
  function Digit(d: nat): char
    requires d < 10
  {
    "0123456789"[d]
  }

  /** The value of a decimal digit character. */
  function DigitValue(ch: char): nat
    requires '0' <= ch <= '9'
  {
    (ch as int) - ('0' as int)
  }

  predicate IsDecimal(s: string) {
    |s| > 0 && forall i :: 0 <= i < |s| ==> '0' <= s[i] <= '9'
  }

  /** Python's `str(n)` for a non-negative integer: decimal, no leading zero. */
  function NatToString(n: nat): (s: string)
    ensures IsDecimal(s)
    ensures |s| > 1 ==> s[0] != '0'
  {
    if n < 10 then [Digit(n)] else NatToString(n / 10) + [Digit(n % 10)]
  }

  /** Python's `int(s)` for a string of decimal digits. */
  function ParseDecimal(s: string): nat
    requires IsDecimal(s)
    decreases |s|
  {
    if |s| == 1 then DigitValue(s[0])
    else 10 * ParseDecimal(s[..|s| - 1]) + DigitValue(s[|s| - 1])
  }

  /** `int(str(n)) == n`: the decimal text determines the number. */
  lemma {:induction false} ParseNatToString(n: nat)
    ensures ParseDecimal(NatToString(n)) == n
  {
    if n >= 10 {
      ParseNatToString(n / 10);
      var s := NatToString(n);
      assert s[..|s| - 1] == NatToString(n / 10);
    }
  }

  /** A decimal numeral has no '.' in it. */
  lemma NatToStringNoDot(n: nat)
    ensures '.' !in NatToString(n)
  {
    var s := NatToString(n);
    forall i | 0 <= i < |s| ensures s[i] != '.' { }
  }

  /** Distinct numbers have distinct decimal texts. */
  lemma NatToStringInjective(m: nat, n: nat)
    requires NatToString(m) == NatToString(n)
    ensures m == n
  {
    ParseNatToString(m);
    ParseNatToString(n);
  }
}
