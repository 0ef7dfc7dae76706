/**
 * The pure parts of the CSS builder: canonical property names, the
 * property table as an insertion-ordered association list (a PHP array
 * keyed by property), its `ksort`-ed serialisation `prop:value;` and the
 * parser for `"p: v; q: w"` declaration strings.
 */
module CssText {
  import opened Collections
  import opened Strings

  // ---------------------------------------------------------------------
  // Property names: `_filterProp`

  predicate IsUpper(c: char) { 'A' <= c <= 'Z' }

  predicate IsLetter(c: char) { IsUpper(c) || 'a' <= c <= 'z' }

  /** The characters PHP's `trim` strips by default. */
  predicate IsSpace(c: char)
  {
    c == ' ' || c == '\t' || c == '\n' || c == '\r' || c == '\0' || c == '\U{000B}'
  }

  /** ASCII `strtolower` of one character. */
  function ToLower(c: char): (l: char)
    ensures !IsUpper(l)
    ensures IsSpace(l) <==> IsSpace(c)
    ensures l == '_' <==> c == '_'
    ensures !IsUpper(c) ==> l == c
  {
    if IsUpper(c) then (c as int + 32) as char else c
  }

  function TrimLeft(s: string): (r: string)
    ensures r == [] || !IsSpace(r[0])
  {
    if |s| > 0 && IsSpace(s[0]) then TrimLeft(s[1..]) else s
  }

  function TrimRight(s: string): (r: string)
    ensures r <= s
    ensures r == [] || !IsSpace(r[|r| - 1])
  {
    if |s| > 0 && IsSpace(s[|s| - 1]) then TrimRight(s[..|s| - 1]) else s
  }

  /** `trim`: no surrounding whitespace is left. */
  function Trim(s: string): (r: string)
    ensures r == [] || (!IsSpace(r[0]) && !IsSpace(r[|r| - 1]))
  {
    TrimRight(TrimLeft(s))
  }

  /** The left strip keeps a suffix of `s` and takes away only whitespace. */
  lemma {:induction false} TrimLeftStrips(s: string)
    ensures |TrimLeft(s)| <= |s| && TrimLeft(s) == s[|s| - |TrimLeft(s)|..]
    ensures forall i :: 0 <= i < |s| - |TrimLeft(s)| ==> IsSpace(s[i])
  {
    if |s| > 0 && IsSpace(s[0]) {
      TrimLeftStrips(s[1..]);
    }
  }

  /** The right strip keeps a prefix of `s` and takes away only whitespace. */
  lemma {:induction false} TrimRightStrips(s: string)
    ensures forall i :: |TrimRight(s)| <= i < |s| ==> IsSpace(s[i])
  {
    if |s| > 0 && IsSpace(s[|s| - 1]) {
      TrimRightStrips(s[..|s| - 1]);
    }
  }

  /**
   * `s[k..m]` is what is left of `s` once whitespace runs are stripped from
   * both ends: `s[..k]` and `s[m..]` are whitespace, and `s[k..m]` is empty
   * or neither starts nor ends with whitespace.
   */
  predicate TrimBounds(s: string, k: int, m: int)
  {
    0 <= k <= m <= |s| &&
    (forall i :: 0 <= i < k ==> IsSpace(s[i])) &&
    (forall i :: m <= i < |s| ==> IsSpace(s[i])) &&
    (k == m || (!IsSpace(s[k]) && !IsSpace(s[m - 1])))
  }

  /** `trim` takes away a run of whitespace on each side and nothing else. */
  lemma TrimStrips(s: string)
    ensures exists k, m :: TrimBounds(s, k, m) && Trim(s) == s[k..m]
  {
    var l := TrimLeft(s);
    var r := TrimRight(l);
    var k := |s| - |l|;
    TrimLeftStrips(s);
    TrimRightStrips(l);
    StripBounds(s, l, r, k);
    assert TrimBounds(s, k, k + |r|) && Trim(s) == s[k..k + |r|];
  }

  /** Where the two strips of `trim` leave off in `s`. */
  lemma StripBounds(s: string, l: string, r: string, k: int)
    requires 0 <= k <= |s| && l == s[k..]
    requires forall i :: 0 <= i < k ==> IsSpace(s[i])
    requires l == [] || !IsSpace(l[0])
    requires r <= l
    requires forall i :: |r| <= i < |l| ==> IsSpace(l[i])
    requires r == [] || !IsSpace(r[|r| - 1])
    ensures TrimBounds(s, k, k + |r|) && r == s[k..k + |r|]
  {
    forall i | k + |r| <= i < |s| ensures IsSpace(s[i]) {
      assert s[i] == l[i - k];
    }
    if r != [] {
      assert r[0] == l[0];
    }
  }

  /**
   * Stripping is determined by its bounds: any `k`, `m` that satisfy
   * `TrimBounds` give exactly `Trim(s)`.
   */
  lemma TrimDetermined(s: string, k: int, m: int)
    requires TrimBounds(s, k, m)
    ensures Trim(s) == s[k..m]
  {
    TrimStrips(s);
    var k', m' :| TrimBounds(s, k', m') && Trim(s) == s[k'..m'];
    BoundsUnique(s, k, m, k', m');
  }

  /** Two sets of bounds cut out the same text. */
  lemma BoundsUnique(s: string, k: int, m: int, k': int, m': int)
    requires TrimBounds(s, k, m) && TrimBounds(s, k', m')
    ensures s[k..m] == s[k'..m']
  {
  }

  /** `str_replace('_', '-', $s)` */
  function DashUnderscores(s: string): (r: string)
    ensures |r| == |s|
    ensures forall i :: 0 <= i < |s| ==> r[i] == (if s[i] == '_' then '-' else s[i])
  {
    seq(|s|, i requires 0 <= i < |s| => if s[i] == '_' then '-' else s[i])
  }

  /**
   * `preg_replace('/([a-zA-Z])(?=[A-Z])/', '$1-', $s)`: a dash goes after
   * every ASCII letter that is followed by an ASCII capital.
   */
  function CamelToDash(s: string): (r: string)
    ensures |s| > 0 ==> |r| > 0 && r[0] == s[0] && r[|r| - 1] == s[|s| - 1]
    ensures forall c :: c in r ==> c in s || c == '-'
    ensures (forall i :: 0 <= i < |s| ==> !IsUpper(s[i])) ==> r == s
  {
    if |s| < 2 then s
    else (if IsLetter(s[0]) && IsUpper(s[1]) then [s[0], '-'] else [s[0]]) + CamelToDash(s[1..])
  }

  /**
   * The dash rule in general: replacing over `a + b` replaces over each
   * part, with one dash at the seam exactly when a letter of `a` meets a
   * capital of `b` there.
   */
  lemma {:induction false} CamelToDashSplit(a: string, b: string)
    ensures CamelToDash(a + b) == CamelToDash(a) + Seam(a, b) + CamelToDash(b)
  {
    if a == [] {
      assert a + b == b;
    } else if b == [] {
      assert a + b == a;
    } else if |a| == 1 {
      CamelSplitSingle(a[0], b);
      assert a == [a[0]];
    } else {
      CamelToDashSplit(a[1..], b);
      CamelSplitStep(a, b);
    }
  }

  /** The seam after a single character. */
  lemma CamelSplitSingle(x: char, b: string)
    requires b != []
    ensures CamelToDash([x] + b) == CamelToDash([x]) + Seam([x], b) + CamelToDash(b)
  {
    TailOfAppend([x], b);
    CamelToDashStep([x] + b);
  }

  /** The inductive step: the first character of `a` comes off first. */
  lemma CamelSplitStep(a: string, b: string)
    requires |a| >= 2 && b != []
    requires CamelToDash(a[1..] + b) == CamelToDash(a[1..]) + Seam(a[1..], b) + CamelToDash(b)
    ensures CamelToDash(a + b) == CamelToDash(a) + Seam(a, b) + CamelToDash(b)
  {
    TailOfAppend(a, b);
    var t := a[1..];
    var ab := a + b;
    assert ab[0] == a[0] && ab[1] == a[1];
    assert StepHead(ab) == StepHead(a);
    CamelToDashStep(a);
    CamelToDashStep(ab);
    assert t[|t| - 1] == a[|a| - 1];
    assert Seam(a, b) == Seam(t, b);
    Regroup(StepHead(a), CamelToDash(t), Seam(a, b), CamelToDash(b));
  }

  lemma TailOfAppend(a: string, b: string)
    requires |a| >= 1
    ensures (a + b)[1..] == a[1..] + b
  {
  }

  lemma Regroup(h: string, x: string, d: string, y: string)
    ensures h + (x + d + y) == (h + x) + d + y
  {
  }

  /** What the pass emits for the first character of `s`. */
  function StepHead(s: string): string
    requires |s| >= 2
  {
    if IsLetter(s[0]) && IsUpper(s[1]) then [s[0], '-'] else [s[0]]
  }

  /** One step of the left-to-right pass. */
  lemma CamelToDashStep(s: string)
    requires |s| >= 2
    ensures CamelToDash(s) == StepHead(s) + CamelToDash(s[1..])
  {
  }

  /** The dash that the pass puts where `a` meets `b`. */
  function Seam(a: string, b: string): string
  {
    if a != [] && b != [] && IsLetter(a[|a| - 1]) && IsUpper(b[0]) then "-" else ""
  }

  /** `strtolower` (ASCII) */
  function Lower(s: string): (r: string)
    ensures |r| == |s|
    ensures forall i :: 0 <= i < |s| ==> r[i] == ToLower(s[i])
  {
    seq(|s|, i requires 0 <= i < |s| => ToLower(s[i]))
  }

  /** `Style::_filterProp`: the canonical spelling of a CSS property name. */
  function FilterProp(name: string): (r: string)
    ensures forall i :: 0 <= i < |r| ==> r[i] != '_' && !IsUpper(r[i])
  {
    var u := DashUnderscores(Trim(name));
    var c := CamelToDash(u);
    NoUnderscoreAfterDashing(u);
    LowerCanonical(c);
    Lower(c)
  }

  /** Lowering text without underscores leaves no underscore and no capital. */
  lemma LowerCanonical(c: string)
    requires forall i :: 0 <= i < |c| ==> c[i] != '_'
    ensures forall i :: 0 <= i < |Lower(c)| ==> Lower(c)[i] != '_' && !IsUpper(Lower(c)[i])
  {
  }

  /** The camel pass brings in no underscore. */
  lemma NoUnderscoreAfterDashing(u: string)
    requires forall i :: 0 <= i < |u| ==> u[i] != '_'
    ensures forall i :: 0 <= i < |CamelToDash(u)| ==> CamelToDash(u)[i] != '_'
  {
    var c := CamelToDash(u);
    assert '_' !in u;
    forall i | 0 <= i < |c| ensures c[i] != '_' {
      assert c[i] in c;
    }
  }

  predicate IsCanonical(name: string)
  {
    FilterProp(name) == name
  }

  /** No underscore, no capital, and no whitespace at either end. */
  predicate CanonicalChars(name: string)
  {
    (forall i :: 0 <= i < |name| ==> name[i] != '_' && !IsUpper(name[i])) &&
    (name == [] || (!IsSpace(name[0]) && !IsSpace(name[|name| - 1])))
  }

  /** Every step of `_filterProp` leaves a name of canonical characters unchanged. */
  lemma CanonicalCharsFixed(name: string)
    requires CanonicalChars(name)
    ensures IsCanonical(name)
  {
    TrimFixed(name);
    assert DashUnderscores(name) == name;
    assert CamelToDash(name) == name;
    assert Lower(name) == name;
  }

  /** `trim` leaves a name without surrounding whitespace unchanged. */
  lemma TrimFixed(name: string)
    requires name == [] || (!IsSpace(name[0]) && !IsSpace(name[|name| - 1]))
    ensures Trim(name) == name
  {
    TrimDetermined(name, 0, |name|);
  }

  /** The output of `_filterProp` always consists of canonical characters. */
  lemma FilterPropChars(name: string)
    ensures CanonicalChars(FilterProp(name))
  {
    var t := Trim(name);
    var u := DashUnderscores(t);
    var c := CamelToDash(u);
    var r := Lower(c);
    assert r == FilterProp(name);
    if r != [] {
      assert !IsSpace(t[0]) && !IsSpace(t[|t| - 1]);
      assert !IsSpace(u[0]) && !IsSpace(u[|u| - 1]);
      assert !IsSpace(r[0]) && !IsSpace(r[|r| - 1]);
    }
  }

  /** The names `_filterProp` keeps are exactly those of canonical characters. */
  lemma CanonicalIff(name: string)
    ensures IsCanonical(name) <==> CanonicalChars(name)
  {
    FilterPropChars(name);
    if CanonicalChars(name) {
      CanonicalCharsFixed(name);
    }
  }

  /** Canonical names are fixed points: applying `_filterProp` twice is applying it once. */
  lemma FilterPropIdempotent(name: string)
    ensures IsCanonical(FilterProp(name))
  {
    FilterPropChars(name);
    CanonicalCharsFixed(FilterProp(name));
  }

  // ---------------------------------------------------------------------
  // The property table: an insertion-ordered association list

  type Props = seq<(string, string)>

  function Keys(ps: Props): (ks: seq<string>)
    ensures |ks| == |ps|
    ensures forall i :: 0 <= i < |ps| ==> ks[i] == ps[i].0
  {
    if ps == [] then [] else [ps[0].0] + Keys(ps[1..])
  }

  predicate DistinctKeys(ps: Props)
  {
    NoDup(Keys(ps))
  }

  /** Every key is the canonical spelling of itself and occurs once. */
  predicate CanonicalProps(ps: Props)
  {
    DistinctKeys(ps) && forall k :: k in Keys(ps) ==> IsCanonical(k)
  }

  /** `$css[$k]`, or None for a key that is not set. */
  function Lookup(ps: Props, k: string): (r: Option<string>)
    ensures r.Some? ==> (k, r.value) in ps
  {
    if ps == [] then None
    else if ps[0].0 == k then Some(ps[0].1)
    else Lookup(ps[1..], k)
  }

  /** A key is found exactly when it is one of the keys. */
  lemma {:induction false} LookupFound(ps: Props, k: string)
    ensures Lookup(ps, k).Some? <==> k in Keys(ps)
  {
    if ps != [] {
      LookupFound(ps[1..], k);
    }
  }

  /** The tail of a table with distinct keys has distinct keys, none of them the head's. */
  lemma DistinctTail(ps: Props)
    requires DistinctKeys(ps) && ps != []
    ensures DistinctKeys(ps[1..]) && ps[0].0 !in Keys(ps[1..])
  {
    assert Keys(ps) == [ps[0].0] + Keys(ps[1..]);
    NoDupCons(ps[0].0, Keys(ps[1..]));
  }

  lemma KeyOfMember(ps: Props, x: (string, string))
    ensures x in ps ==> x.0 in Keys(ps)
  {
    if x in ps {
      var m :| 0 <= m < |ps| && ps[m] == x;
      assert Keys(ps)[m] == x.0;
    }
  }

  lemma MemberCons(ps: Props, x: (string, string))
    requires ps != []
    ensures x in ps <==> x == ps[0] || x in ps[1..]
  {
    assert ps == [ps[0]] + ps[1..];
  }

  /** A pair belongs to a table with distinct keys exactly when looking its key up finds its value. */
  lemma {:induction false} LookupIn(ps: Props, k: string, v: string)
    requires DistinctKeys(ps)
    ensures (k, v) in ps <==> Lookup(ps, k) == Some(v)
  {
    if ps != [] {
      DistinctTail(ps);
      LookupIn(ps[1..], k, v);
      MemberCons(ps, (k, v));
      KeyOfMember(ps[1..], (k, v));
    }
  }

  /**
   * `$css[$k] = $v`: an existing key keeps its position, a new key is
   * appended (PutLookup says what the values become).
   */
  function Put(ps: Props, k: string, v: string): (r: Props)
    ensures (k, v) in r
    ensures |ps| <= |r| <= |ps| + 1
  {
    if ps == [] then [(k, v)]
    else if ps[0].0 == k then [(k, v)] + ps[1..]
    else [ps[0]] + Put(ps[1..], k, v)
  }

  /** The keys after `$css[$k] = $v` are the old keys with k inserted as an ordered-set element. */
  lemma {:induction false} PutKeys(ps: Props, k: string, v: string)
    ensures Keys(Put(ps, k, v)) == Insert(Keys(ps), k)
  {
    if ps != [] {
      assert Keys(ps) == [ps[0].0] + Keys(ps[1..]);
      if ps[0].0 != k {
        PutKeys(ps[1..], k, v);
        InsertCons(ps[0].0, Keys(ps[1..]), k);
        assert Keys([ps[0]] + Put(ps[1..], k, v)) == [ps[0].0] + Keys(Put(ps[1..], k, v));
      } else {
        assert Keys([(k, v)] + ps[1..]) == [k] + Keys(ps[1..]);
      }
    }
  }

  /** After `$css[$k] = $v`, key k maps to v and every other key is unchanged. */
  lemma {:induction false} PutLookup(ps: Props, k: string, v: string, j: string)
    ensures Lookup(Put(ps, k, v), j) == if j == k then Some(v) else Lookup(ps, j)
  {
    if ps != [] && ps[0].0 != k {
      PutLookup(ps[1..], k, v, j);
      assert ([ps[0]] + Put(ps[1..], k, v))[1..] == Put(ps[1..], k, v);
    }
  }

  lemma PutCanonical(ps: Props, k: string, v: string)
    requires CanonicalProps(ps) && IsCanonical(k)
    ensures CanonicalProps(Put(ps, k, v))
  {
    PutKeys(ps, k, v);
    var ks := Keys(Put(ps, k, v));
    forall x | x in ks ensures IsCanonical(x) {
      assert x in Elems(ks);
      assert x in Elems(Keys(ps)) || x == k;
    }
  }

  /** `unset($css[$k])`: the other keys keep their order (RemoveLookup says what the values become). */
  function Remove(ps: Props, k: string): (r: Props)
    ensures |r| <= |ps|
    ensures forall i :: 0 <= i < |r| ==> r[i].0 != k && r[i] in ps
  {
    if ps == [] then []
    else if ps[0].0 == k then Remove(ps[1..], k)
    else [ps[0]] + Remove(ps[1..], k)
  }

  /** `unset` leaves no k and adds no key; the remaining keys stay distinct. */
  lemma {:induction false} RemoveKeys(ps: Props, k: string)
    ensures k !in Keys(Remove(ps, k))
    ensures forall x :: x in Keys(Remove(ps, k)) ==> x in Keys(ps)
    ensures DistinctKeys(ps) ==> DistinctKeys(Remove(ps, k))
  {
    if ps != [] {
      RemoveKeys(ps[1..], k);
      var rest := Remove(ps[1..], k);
      assert Keys(ps) == [ps[0].0] + Keys(ps[1..]);
      NoDupCons(ps[0].0, Keys(ps[1..]));
      if ps[0].0 != k {
        assert Keys([ps[0]] + rest) == [ps[0].0] + Keys(rest);
        NoDupCons(ps[0].0, Keys(rest));
      }
    }
  }

  lemma RemoveCanonical(ps: Props, k: string)
    requires CanonicalProps(ps)
    ensures CanonicalProps(Remove(ps, k))
  {
    RemoveKeys(ps, k);
  }

  /** After `unset($css[$k])`, key k is absent and every other key is unchanged. */
  lemma {:induction false} RemoveLookup(ps: Props, k: string, j: string)
    ensures Lookup(Remove(ps, k), j) == if j == k then None else Lookup(ps, j)
  {
    if ps != [] {
      RemoveLookup(ps[1..], k, j);
      if ps[0].0 != k {
        assert ([ps[0]] + Remove(ps[1..], k))[1..] == Remove(ps[1..], k);
      } else {
        RemoveKeys(ps, k);
        LookupFound(Remove(ps, k), k);
      }
    }
  }

  /** Assigns every pair in order through the canonical property name, as `__set` does. */
  function SetAll(ps: Props, pairs: Props): (r: Props)
    ensures pairs != [] ==> (FilterProp(pairs[|pairs| - 1].0), pairs[|pairs| - 1].1) in r
    decreases pairs
  {
    if pairs == [] then ps
    else SetAll(Put(ps, FilterProp(pairs[0].0), pairs[0].1), pairs[1..])
  }

  lemma SetAllCons(ps: Props, p: (string, string), rest: Props)
    ensures SetAll(ps, [p] + rest) == SetAll(Put(ps, FilterProp(p.0), p.1), rest)
  {
    assert ([p] + rest)[0] == p && ([p] + rest)[1..] == rest;
  }

  /** Setting the pairs from position i on: the pair at i first, then the rest. */
  lemma SetAllFrom(ps: Props, pairs: Props, i: int)
    requires 0 <= i < |pairs|
    ensures SetAll(ps, pairs[i..]) == SetAll(Put(ps, FilterProp(pairs[i].0), pairs[i].1), pairs[i + 1..])
  {
    assert pairs[i..] == [pairs[i]] + pairs[i + 1..];
    SetAllCons(ps, pairs[i], pairs[i + 1..]);
  }

  /** Setting any pairs keeps a table canonical. */
  lemma {:induction false} SetAllCanonical(ps: Props, pairs: Props)
    requires CanonicalProps(ps)
    ensures CanonicalProps(SetAll(ps, pairs))
    decreases pairs
  {
    if pairs != [] {
      FilterPropIdempotent(pairs[0].0);
      PutCanonical(ps, FilterProp(pairs[0].0), pairs[0].1);
      SetAllCanonical(Put(ps, FilterProp(pairs[0].0), pairs[0].1), pairs[1..]);
    }
  }

  // ---------------------------------------------------------------------
  // ksort

  predicate SortedByKey(ps: Props)
  {
    forall i, j :: 0 <= i < j < |ps| ==> StrLess(ps[i].0, ps[j].0)
  }

  lemma SortedDistinct(ps: Props)
    requires SortedByKey(ps)
    ensures DistinctKeys(ps)
  {
    forall i, j | 0 <= i < j < |ps| ensures Keys(ps)[i] != Keys(ps)[j] {
      StrLessIrreflexive(ps[i].0);
    }
  }

  function InsertByKey(p: (string, string), ps: Props): (r: Props)
    ensures |r| == |ps| + 1 && p in r
  {
    if ps == [] || StrLess(p.0, ps[0].0) then [p] + ps
    else [ps[0]] + InsertByKey(p, ps[1..])
  }

  /** `ksort` as insertion sort. */
  function SortByKey(ps: Props): (r: Props)
    ensures |r| == |ps|
  {
    if ps == [] then [] else InsertByKey(ps[0], SortByKey(ps[1..]))
  }

  lemma {:induction false} InsertByKeyPairs(p: (string, string), ps: Props)
    ensures multiset(InsertByKey(p, ps)) == multiset(ps) + multiset{p}
  {
    if ps != [] && !StrLess(p.0, ps[0].0) {
      InsertByKeyPairs(p, ps[1..]);
      assert ps == [ps[0]] + ps[1..];
    }
  }

  lemma {:induction false} InsertByKeyMembers(p: (string, string), ps: Props)
    ensures forall x :: x in InsertByKey(p, ps) ==> x == p || x in ps
  {
    if ps != [] && !StrLess(p.0, ps[0].0) {
      InsertByKeyMembers(p, ps[1..]);
    }
  }

  /** Every key of the table lies above `k`. */
  predicate Below(k: string, ps: Props)
  {
    forall j :: 0 <= j < |ps| ==> StrLess(k, ps[j].0)
  }

  /** A pair whose key is below every key of a sorted table can go in front of it. */
  lemma SortedCons(x: (string, string), rest: Props)
    requires SortedByKey(rest) && Below(x.0, rest)
    ensures SortedByKey([x] + rest)
  {
    var r := [x] + rest;
    forall i, j | 0 <= i < j < |r| ensures StrLess(r[i].0, r[j].0) {
      assert r[j] == rest[j - 1];
      if i > 0 {
        assert r[i] == rest[i - 1];
      }
    }
  }

  /** The head of a sorted table is below its tail, which is sorted. */
  lemma SortedTail(ps: Props)
    requires SortedByKey(ps) && ps != []
    ensures SortedByKey(ps[1..]) && Below(ps[0].0, ps[1..])
  {
    var tail := ps[1..];
    forall i, j | 0 <= i < j < |tail| ensures StrLess(tail[i].0, tail[j].0) {
      assert tail[i] == ps[i + 1] && tail[j] == ps[j + 1];
    }
    forall j | 0 <= j < |tail| ensures StrLess(ps[0].0, tail[j].0) {
      assert tail[j] == ps[j + 1];
    }
  }

  /** A key below the head of a sorted table is below all of it. */
  lemma BelowSorted(k: string, ps: Props)
    requires SortedByKey(ps) && ps != [] && StrLess(k, ps[0].0)
    ensures Below(k, ps)
  {
    forall j | 0 <= j < |ps| ensures StrLess(k, ps[j].0) {
      if j > 0 {
        StrLessTransitive(k, ps[0].0, ps[j].0);
      }
    }
  }

  /** A key below a table and below a new pair is below the table with the pair inserted. */
  lemma BelowInserted(k: string, p: (string, string), ps: Props)
    requires Below(k, ps) && StrLess(k, p.0)
    ensures Below(k, InsertByKey(p, ps))
  {
    var r := InsertByKey(p, ps);
    InsertByKeyMembers(p, ps);
    forall j | 0 <= j < |r| ensures StrLess(k, r[j].0) {
      assert r[j] in r;
      if r[j] != p {
        var m :| 0 <= m < |ps| && ps[m] == r[j];
      }
    }
  }

  lemma {:induction false} InsertByKeySorted(p: (string, string), ps: Props)
    requires SortedByKey(ps) && p.0 !in Keys(ps)
    ensures SortedByKey(InsertByKey(p, ps))
  {
    if ps == [] {
      SortedCons(p, ps);
    } else if StrLess(p.0, ps[0].0) {
      BelowSorted(p.0, ps);
      SortedCons(p, ps);
    } else {
      var tail := ps[1..];
      assert Keys(ps) == [ps[0].0] + Keys(tail);
      SortedTail(ps);
      InsertByKeySorted(p, tail);
      StrLessTotal(p.0, ps[0].0);
      BelowInserted(ps[0].0, p, tail);
      SortedCons(ps[0], InsertByKey(p, tail));
    }
  }

  /** `ksort` keeps exactly the pairs of the table. */
  lemma {:induction false} SortByKeyPairs(ps: Props)
    ensures multiset(SortByKey(ps)) == multiset(ps)
  {
    if ps != [] {
      SortByKeyPairs(ps[1..]);
      InsertByKeyPairs(ps[0], SortByKey(ps[1..]));
      assert ps == [ps[0]] + ps[1..];
    }
  }

  /** `ksort` leaves a table with distinct keys in strictly ascending key order. */
  lemma {:induction false} SortByKeySorted(ps: Props)
    requires DistinctKeys(ps)
    ensures SortedByKey(SortByKey(ps))
  {
    if ps != [] {
      assert Keys(ps) == [ps[0].0] + Keys(ps[1..]);
      SortByKeySorted(ps[1..]);
      var rest := SortByKey(ps[1..]);
      SortByKeyPairs(ps[1..]);
      forall j | 0 <= j < |rest| ensures Keys(rest)[j] != ps[0].0 {
        assert rest[j] in multiset(rest);
        assert rest[j] in multiset(ps[1..]);
        var m :| 0 <= m < |ps[1..]| && ps[1..][m] == rest[j];
        assert Keys(ps)[1 + m] != Keys(ps)[0];
      }
      InsertByKeySorted(ps[0], rest);
    }
  }

  /** Strictly sorted tables with the same pairs are equal. */
  lemma {:induction false} SortedUnique(a: Props, b: Props)
    requires SortedByKey(a) && SortedByKey(b)
    requires forall x :: x in a <==> x in b
    ensures a == b
  {
    if a != [] { assert a[0] in a; }
    if b != [] { assert b[0] in b; }
    if a != [] {
      var j :| 0 <= j < |b| && b[j] == a[0];
      var i :| 0 <= i < |a| && a[i] == b[0];
      if i != 0 && j != 0 {
        StrLessAsymmetric(a[0].0, b[0].0);
      }
      StrLessIrreflexive(a[0].0);
      assert a[0] == b[0];
      forall x ensures x in a[1..] <==> x in b[1..] {
        if x in a[1..] {
          var m :| 0 <= m < |a[1..]| && a[1..][m] == x;
          assert StrLess(a[0].0, a[1 + m].0);
          StrLessIrreflexive(x.0);
          assert x in b;
          var n :| 0 <= n < |b| && b[n] == x;
          assert n != 0;
          assert b[1..][n - 1] == x;
        }
        if x in b[1..] {
          var m :| 0 <= m < |b[1..]| && b[1..][m] == x;
          assert StrLess(b[0].0, b[1 + m].0);
          StrLessIrreflexive(x.0);
          assert x in a;
          var n :| 0 <= n < |a| && a[n] == x;
          assert n != 0;
          assert a[1..][n - 1] == x;
        }
      }
      SortedUnique(a[1..], b[1..]);
      assert a == [a[0]] + a[1..] && b == [b[0]] + b[1..];
    }
  }

  // ---------------------------------------------------------------------
  // Serialisation: `Style::css`

  function Declaration(p: (string, string)): string
  {
    p.0 + ":" + p.1 + ";"
  }

  /** `prop:value;` for every pair, in table order, with nothing in between. */
  function Decls(ps: Props): string
  {
    if ps == [] then "" else Declaration(ps[0]) + Decls(ps[1..])
  }

  /** `Style::css`: the declarations in ascending key order; '' exactly for an empty table. */
  function Serialize(ps: Props): (text: string)
    requires DistinctKeys(ps)
    ensures text == "" <==> ps == []
    ensures text != "" ==> EndsWith(text, ";")
  {
    var sorted := SortByKey(ps);
    DeclsEnd(sorted);
    Decls(sorted)
  }

  /** Every declaration is terminated, so non-empty text ends with ';'. */
  lemma {:induction false} DeclsEnd(ps: Props)
    ensures Decls(ps) == "" <==> ps == []
    ensures ps != [] ==> EndsWith(Decls(ps), ";")
  {
    if ps != [] {
      DeclsEnd(ps[1..]);
      var d, rest := Declaration(ps[0]), Decls(ps[1..]);
      assert Decls(ps) == d + rest;
      if rest == "" {
        assert d + rest == d;
        assert d[|d| - 1..] == ";";
      } else {
        assert (d + rest)[|d + rest| - 1..] == rest[|rest| - 1..];
      }
    }
  }

  /**
   * The serialised text depends only on which property has which value,
   * not on the order in which the properties were set.
   */
  lemma SerializeOrderIndependent(a: Props, b: Props)
    requires DistinctKeys(a) && DistinctKeys(b)
    requires forall k :: Lookup(a, k) == Lookup(b, k)
    ensures Serialize(a) == Serialize(b)
  {
    var sa, sb := SortByKey(a), SortByKey(b);
    SortByKeyPairs(a);
    SortByKeyPairs(b);
    SortByKeySorted(a);
    SortByKeySorted(b);
    forall x ensures x in sa <==> x in sb {
      LookupIn(a, x.0, x.1);
      LookupIn(b, x.0, x.1);
      assert x in sa <==> x in multiset(a);
      assert x in sb <==> x in multiset(b);
    }
    SortedUnique(sa, sb);
  }

  // ---------------------------------------------------------------------
  // Parsing: `Style::add` on a string

  /** `explode(':', $piece, 2)` and the `count($val) == 2` test. */
  function ParsePiece(piece: string): (d: Option<(string, string)>)
    ensures d.None? <==> ':' !in piece
    ensures d.Some? ==> ':' !in d.value.0 && d.value.0 + ":" + d.value.1 == piece
  {
    var i := FirstIndex(piece, ':');
    if i < 0 then None
    else
      assert piece == piece[..i] + ":" + piece[i + 1..];
      Some((piece[..i], piece[i + 1..]))
  }

  function ParsePieces(pieces: seq<string>): (r: Props)
    ensures |r| <= |pieces|
    ensures (forall i :: 0 <= i < |pieces| ==> ';' !in pieces[i]) ==> Parsable(r)
  {
    if pieces == [] then []
    else
      (match ParsePiece(pieces[0])
       case None => []
       case Some(d) => [d]) + ParsePieces(pieces[1..])
  }

  /** Setting the declarations of a list of pieces, one piece at a time. */
  lemma SetAllPieces(ps: Props, pieces: seq<string>)
    requires pieces != []
    ensures ParsePiece(pieces[0]).None? ==>
      SetAll(ps, ParsePieces(pieces)) == SetAll(ps, ParsePieces(pieces[1..]))
    ensures ParsePiece(pieces[0]).Some? ==>
      var d := ParsePiece(pieces[0]).value;
      SetAll(ps, ParsePieces(pieces)) == SetAll(Put(ps, FilterProp(d.0), d.1), ParsePieces(pieces[1..]))
  {
    var rest := ParsePieces(pieces[1..]);
    match ParsePiece(pieces[0])
    case None =>
      assert ParsePieces(pieces) == [] + rest;
      assert [] + rest == rest;
    case Some(d) =>
      assert ParsePieces(pieces) == [d] + rest;
      SetAllCons(ps, d, rest);
  }

  /** The property/value pairs of a `"p: v; q: w"` string, untrimmed, in order. */
  function Declarations(text: string): (r: Props)
    ensures Parsable(r)
  {
    ParsePieces(Split(text, ';'))
  }

  /** Keys that contain neither ':' nor ';' and values that contain no ';'. */
  predicate Parsable(ps: Props)
  {
    forall i :: 0 <= i < |ps| ==> ':' !in ps[i].0 && ';' !in ps[i].0 && ';' !in ps[i].1
  }

  /** One declaration parses back to its pair. */
  lemma ParseDeclaration(k: string, v: string)
    requires ':' !in k
    ensures ParsePiece(k + ":" + v) == Some((k, v))
  {
    assert k + ":" + v == k + [':'] + v;
    FirstIndexAfter(k, ':', v);
    assert (k + ":" + v)[..|k|] == k && (k + ":" + v)[|k| + 1..] == v;
  }

  lemma NoSemicolon(k: string, v: string)
    requires ';' !in k && ';' !in v
    ensures ';' !in k + ":" + v
  {
  }

  lemma ParsePiecesCons(piece: string, rest: seq<string>)
    requires ParsePiece(piece).Some?
    ensures ParsePieces([piece] + rest) == [ParsePiece(piece).value] + ParsePieces(rest)
  {
    assert ([piece] + rest)[0] == piece && ([piece] + rest)[1..] == rest;
  }

  lemma DeclsCons(ps: Props)
    requires ps != []
    ensures Decls(ps) == (ps[0].0 + ":" + ps[0].1) + [';'] + Decls(ps[1..])
  {
  }

  lemma ParsableTail(ps: Props)
    requires Parsable(ps) && ps != []
    ensures Parsable(ps[1..])
    ensures ':' !in ps[0].0 && ';' !in ps[0].0 && ';' !in ps[0].1
  {
    forall i | 0 <= i < |ps[1..]| ensures ':' !in ps[1..][i].0 && ';' !in ps[1..][i].0 && ';' !in ps[1..][i].1 {
      assert ps[1..][i] == ps[i + 1];
    }
  }

  /** Parsing serialised declarations gives the pairs back. */
  lemma {:induction false} DeclarationsOfDecls(ps: Props)
    requires Parsable(ps)
    ensures Declarations(Decls(ps)) == ps
  {
    if ps == [] {
      assert Split("", ';') == [""];
    } else {
      var piece := ps[0].0 + ":" + ps[0].1;
      ParsableTail(ps);
      DeclsCons(ps);
      NoSemicolon(ps[0].0, ps[0].1);
      SplitAfterSeparator(piece, ';', Decls(ps[1..]));
      ParseDeclaration(ps[0].0, ps[0].1);
      ParsePiecesCons(piece, Split(Decls(ps[1..]), ';'));
      DeclarationsOfDecls(ps[1..]);
      assert ps == [ps[0]] + ps[1..];
    }
  }

  lemma CanonicalTail(ps: Props)
    requires CanonicalProps(ps) && ps != []
    ensures CanonicalProps(ps[1..]) && IsCanonical(ps[0].0) && ps[0].0 !in Keys(ps[1..])
  {
    assert Keys(ps) == [ps[0].0] + Keys(ps[1..]);
    NoDupCons(ps[0].0, Keys(ps[1..]));
    assert ps[0].0 in Keys(ps);
  }

  lemma SetAllStep(acc: Props, ps: Props)
    requires ps != [] && FilterProp(ps[0].0) == ps[0].0 && ps[0].0 !in Keys(acc)
    ensures SetAll(acc, ps) == SetAll(acc + [ps[0]], ps[1..])
  {
    PutFresh(acc, ps[0].0, ps[0].1);
  }

  /** Setting pairs whose keys are canonical and new appends them unchanged. */
  lemma {:induction false} SetAllFresh(acc: Props, ps: Props)
    requires CanonicalProps(ps)
    requires forall k :: k in Keys(ps) ==> k !in Keys(acc)
    ensures SetAll(acc, ps) == acc + ps
    decreases |ps|
  {
    if ps != [] {
      var k0 := ps[0].0;
      CanonicalTail(ps);
      assert k0 in Keys(ps);
      SetAllStep(acc, ps);
      var next := acc + [ps[0]];
      KeysAppend(acc, ps[0]);
      forall k | k in Keys(ps[1..]) ensures k !in Keys(next) {
        assert k in Keys(ps);
      }
      SetAllFresh(next, ps[1..]);
      AppendHead(acc, ps);
    }
  }

  lemma KeysAppend(ps: Props, p: (string, string))
    ensures Keys(ps + [p]) == Keys(ps) + [p.0]
  {
  }

  lemma {:induction false} PutFresh(ps: Props, k: string, v: string)
    requires k !in Keys(ps)
    ensures Put(ps, k, v) == ps + [(k, v)]
  {
    if ps != [] {
      assert Keys(ps) == [ps[0].0] + Keys(ps[1..]);
      PutFresh(ps[1..], k, v);
      assert [ps[0]] + (ps[1..] + [(k, v)]) == ps + [(k, v)];
    }
  }

  /**
   * Round trip of the builder's text form: adding the serialised text of a
   * canonical table to an empty table yields the table in `ksort` order.
   */
  lemma ReloadSerialized(ps: Props)
    requires CanonicalProps(ps) && Parsable(ps)
    ensures SetAll([], Declarations(Serialize(ps))) == SortByKey(ps)
  {
    var sorted := SortByKey(ps);
    SortByKeyCanonical(ps);
    SortByKeyParsable(ps);
    assert Serialize(ps) == Decls(sorted);
    DeclarationsOfDecls(sorted);
    SetAllFresh([], sorted);
  }

  /** `ksort` keeps a table canonical. */
  lemma SortByKeyCanonical(ps: Props)
    requires CanonicalProps(ps)
    ensures CanonicalProps(SortByKey(ps))
  {
    var sorted := SortByKey(ps);
    SortByKeyPairs(ps);
    SortByKeySorted(ps);
    SortedDistinct(sorted);
    forall k | k in Keys(sorted) ensures IsCanonical(k) {
      var i :| 0 <= i < |sorted| && Keys(sorted)[i] == k;
      assert sorted[i] in multiset(ps);
      var m :| 0 <= m < |ps| && ps[m] == sorted[i];
      assert Keys(ps)[m] == k;
    }
  }

  /** `ksort` keeps a table parsable. */
  lemma SortByKeyParsable(ps: Props)
    requires Parsable(ps)
    ensures Parsable(SortByKey(ps))
  {
    var sorted := SortByKey(ps);
    SortByKeyPairs(ps);
    forall i | 0 <= i < |sorted|
      ensures ':' !in sorted[i].0 && ';' !in sorted[i].0 && ';' !in sorted[i].1
    {
      assert sorted[i] in multiset(ps);
      var m :| 0 <= m < |ps| && ps[m] == sorted[i];
    }
  }
}
