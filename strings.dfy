/**
 * Character-level string operations that the PHP code obtains from its
 * runtime (substr, strpos, explode, the byte order used by ksort, the
 * decimal form of an integer), written out on `seq<char>`.
 */
module Strings {

  predicate StartsWith(s: string, prefix: string)
  {
    |prefix| <= |s| && s[..|prefix|] == prefix
  }

  /** `substr($s, -|suffix|) == $suffix` */
  predicate EndsWith(s: string, suffix: string)
  {
    |suffix| <= |s| && s[|s| - |suffix|..] == suffix
  }

  predicate OccursAt(s: string, pat: string, i: int)
  {
    0 <= i <= |s| - |pat| && s[i..i + |pat|] == pat
  }

  /** `strpos($s, $pat) !== false` */
  predicate Contains(s: string, pat: string)
  {
    exists i :: 0 <= i <= |s| - |pat| && OccursAt(s, pat, i)
  }

  /** A string occurs in any string that has it between two others. */
  lemma ContainsMiddle(a: string, b: string, c: string)
    ensures Contains(a + b + c, b)
  {
    assert (a + b + c)[|a|..|a| + |b|] == b;
    assert OccursAt(a + b + c, b, |a|);
  }

  /** An occurrence inside a piece is an occurrence in any string built around it. */
  lemma ContainsWithin(pre: string, s: string, post: string, pat: string)
    requires Contains(s, pat)
    ensures Contains(pre + s + post, pat)
  {
    var i :| 0 <= i <= |s| - |pat| && OccursAt(s, pat, i);
    var whole := pre + s + post;
    assert whole[|pre| + i..|pre| + i + |pat|] == s[i..i + |pat|];
    assert OccursAt(whole, pat, |pre| + i);
  }

  lemma ContainsBefore(s: string, post: string, pat: string)
    requires Contains(s, pat)
    ensures Contains(s + post, pat)
  {
    ContainsWithin("", s, post, pat);
    assert "" + s + post == s + post;
  }

  lemma ContainsAfter(pre: string, s: string, pat: string)
    requires Contains(s, pat)
    ensures Contains(pre + s, pat)
  {
    ContainsWithin(pre, s, "", pat);
    assert pre + s + "" == pre + s;
  }

  // ---------------------------------------------------------------------
  // explode

  /** The position of the first `d` in `s`, or -1 when there is none. */
  function FirstIndex(s: string, d: char): (i: int)
    ensures -1 <= i < |s|
    ensures i == -1 <==> d !in s
    ensures 0 <= i ==> s[i] == d && d !in s[..i]
  {
    if s == [] then -1
    else if s[0] == d then 0
    else
      var j := FirstIndex(s[1..], d);
      assert s[1..][..j + 1] == s[1..j + 2] by { }
      if j == -1 then -1 else j + 1
  }

  lemma {:induction false} FirstIndexAfter(a: string, d: char, b: string)
    requires d !in a
    ensures FirstIndex(a + [d] + b, d) == |a|
  {
    var s := a + [d] + b;
    if a != [] {
      assert s[1..] == a[1..] + [d] + b;
      FirstIndexAfter(a[1..], d, b);
    }
  }

  /**
   * `explode($d, $s)`: the pieces of `s` between occurrences of `d`, in
   * order; there is always one piece more than there are separators.
   */
  function Split(s: string, d: char): (pieces: seq<string>)
    ensures |pieces| >= 1
    ensures forall i :: 0 <= i < |pieces| ==> d !in pieces[i]
  {
    if s == [] then [""]
    else
      var rest := Split(s[1..], d);
      if s[0] == d then [""] + rest
      else [[s[0]] + rest[0]] + rest[1..]
  }

  /** `implode($d, $pieces)`, the inverse of Split. */
  function Join(pieces: seq<string>, d: char): string
  {
    if pieces == [] then ""
    else if |pieces| == 1 then pieces[0]
    else pieces[0] + [d] + Join(pieces[1..], d)
  }

  lemma {:induction false} SplitNoSeparator(a: string, d: char)
    requires d !in a
    ensures Split(a, d) == [a]
  {
    if a != [] {
      SplitNoSeparator(a[1..], d);
      assert [a[0]] + a[1..] == a;
    }
  }

  /** A piece free of separators followed by a separator splits off as one piece. */
  lemma {:induction false} SplitAfterSeparator(a: string, d: char, b: string)
    requires d !in a
    ensures Split(a + [d] + b, d) == [a] + Split(b, d)
  {
    var s := a + [d] + b;
    if a == [] {
      assert s[1..] == b;
    } else {
      assert s[1..] == a[1..] + [d] + b;
      SplitAfterSeparator(a[1..], d, b);
      assert [a[0]] + a[1..] == a;
    }
  }

  /** Splitting then joining gives back the string. */
  lemma {:induction false} JoinSplit(s: string, d: char)
    ensures Join(Split(s, d), d) == s
  {
    if s != [] {
      var rest := Split(s[1..], d);
      JoinSplit(s[1..], d);
      if s[0] == d {
        assert Join([""] + rest, d) == "" + [d] + Join(rest, d);
      } else {
        var ps := [[s[0]] + rest[0]] + rest[1..];
        if |rest| == 1 {
          assert Join(ps, d) == [s[0]] + rest[0];
        } else {
          assert ps[1..] == rest[1..];
          assert Join(rest, d) == rest[0] + [d] + Join(rest[1..], d);
        }
      }
    }
  }

  /** Joining separator-free pieces then splitting gives back the pieces. */
  lemma {:induction false} SplitJoin(pieces: seq<string>, d: char)
    requires |pieces| >= 1
    requires forall i :: 0 <= i < |pieces| ==> d !in pieces[i]
    ensures Split(Join(pieces, d), d) == pieces
  {
    if |pieces| == 1 {
      SplitNoSeparator(pieces[0], d);
    } else {
      SplitJoin(pieces[1..], d);
      SplitAfterSeparator(pieces[0], d, Join(pieces[1..], d));
    }
  }

  // ---------------------------------------------------------------------
  // Byte order of strings (what ksort compares for non-numeric keys)

  /** Lexicographic order on character codes; a proper prefix comes first. */
  predicate StrLess(a: string, b: string)
    decreases |a|
  {
    if |a| == 0 then |b| > 0
    else if |b| == 0 then false
    else if a[0] != b[0] then a[0] < b[0]
    else StrLess(a[1..], b[1..])
  }

  lemma {:induction false} StrLessIrreflexive(a: string)
    ensures !StrLess(a, a)
  {
    if |a| > 0 {
      StrLessIrreflexive(a[1..]);
    }
  }

  lemma {:induction false} StrLessAsymmetric(a: string, b: string)
    ensures !(StrLess(a, b) && StrLess(b, a))
  {
    if |a| > 0 && |b| > 0 && a[0] == b[0] {
      StrLessAsymmetric(a[1..], b[1..]);
    }
  }

  lemma {:induction false} StrLessTotal(a: string, b: string)
    ensures a == b || StrLess(a, b) || StrLess(b, a)
  {
    if |a| > 0 && |b| > 0 && a[0] == b[0] {
      StrLessTotal(a[1..], b[1..]);
      if a[1..] == b[1..] {
        assert a == [a[0]] + a[1..] && b == [b[0]] + b[1..];
      }
    }
  }

  lemma {:induction false} StrLessTransitive(a: string, b: string, c: string)
    requires StrLess(a, b) && StrLess(b, c)
    ensures StrLess(a, c)
  {
    if |a| > 0 && a[0] == b[0] && b[0] == c[0] {
      StrLessTransitive(a[1..], b[1..], c[1..]);
    }
  }

  // ---------------------------------------------------------------------
  // Decimal numerals (the `.` concatenation of an integer)

  function Digit(n: nat): (c: char)
    requires n < 10
    ensures '0' <= c <= '9'
  {
    ('0' as int + n) as char
  }

  function NatToString(n: nat): (s: string)
    ensures |s| >= 1
    ensures forall i :: 0 <= i < |s| ==> '0' <= s[i] <= '9'
  {
    if n < 10 then [Digit(n)] else NatToString(n / 10) + [Digit(n % 10)]
  }

  /** A number with more than `len` decimal digits. */
  function LongNumeral(len: nat): (n: nat)
    ensures n >= 1 && |NatToString(n)| > len
  {
    if len == 0 then 1
    else
      var m := LongNumeral(len - 1);
      assert (m * 10) / 10 == m && (m * 10) % 10 == 0;
      m * 10
  }

  lemma {:induction false} LengthBound(strs: set<string>) returns (bound: nat)
    ensures forall s :: s in strs ==> |s| <= bound
    decreases |strs|
  {
    if strs == {} {
      bound := 0;
    } else {
      var x :| x in strs;
      var rest := LengthBound(strs - {x});
      bound := if |x| > rest then |x| else rest;
    }
  }

  /** Every finite set of names misses some `prefix` followed by a numeral. */
  lemma FreshNumeralExists(prefix: string, taken: set<string>)
    ensures exists n: nat :: prefix + NatToString(n) !in taken
  {
    var bound := LengthBound(taken);
    var n := LongNumeral(bound);
    assert |prefix + NatToString(n)| > bound;
  }
}
