/**
 * The spellings of one CSS property name: for lower-case words, the snake,
 * camel and dash forms all reach the same canonical name through
 * `_filterProp`.
 */
module Spellings {
  import opened CssText

  /** A non-empty run of ASCII lower-case letters. */
  predicate LowerWord(w: string)
  {
    |w| > 0 && forall i :: 0 <= i < |w| ==> 'a' <= w[i] <= 'z'
  }

  /** The ASCII capital of a lower-case letter. */
  function Capital(c: char): (u: char)
    requires 'a' <= c <= 'z'
    ensures IsUpper(u) && ToLower(u) == c
  {
    (c as int - 32) as char
  }

  // ---------------------------------------------------------------------
  // The steps of `_filterProp` on names without the characters they change

  /** A name that starts and ends with a letter is not trimmed. */
  lemma TrimLetters(s: string)
    requires |s| > 0 && IsLetter(s[0]) && IsLetter(s[|s| - 1])
    ensures Trim(s) == s
  {
    assert TrimLeft(s) == s;
    assert TrimRight(s) == s;
  }

  lemma NoUnderscores(s: string)
    requires forall i :: 0 <= i < |s| ==> s[i] != '_'
    ensures DashUnderscores(s) == s
  {
  }

  lemma NoCapitals(s: string)
    requires forall i :: 0 <= i < |s| ==> !IsUpper(s[i])
    ensures CamelToDash(s) == s && Lower(s) == s
  {
  }

  /** One step of the dash insertion. */
  lemma CamelUnfold(s: string)
    requires |s| >= 2
    ensures CamelToDash(s) == (if IsLetter(s[0]) && IsUpper(s[1]) then [s[0], '-'] else [s[0]]) + CamelToDash(s[1..])
  {
  }

  /** A capital followed by lower-case letters gets no dash. */
  lemma CamelCapitalHead(u: char, b: string)
    requires forall i :: 0 <= i < |b| ==> 'a' <= b[i] <= 'z'
    ensures CamelToDash([u] + b) == [u] + b
  {
    if b != [] {
      var s := [u] + b;
      assert s[1..] == b && s[0] == u && !IsUpper(s[1]);
      NoCapitals(b);
    }
  }

  lemma CamelAfterLetter(x: char, t: string)
    requires IsLetter(x) && |t| > 0 && IsUpper(t[0])
    ensures CamelToDash([x] + t) == [x, '-'] + CamelToDash(t)
  {
    var s := [x] + t;
    assert s[0] == x && s[1] == t[0] && s[1..] == t;
    CamelUnfold(s);
  }

  lemma CamelAfterLower(a: string, t: string)
    requires |a| >= 2 && !IsUpper(a[1])
    ensures CamelToDash(a + t) == [a[0]] + CamelToDash(a[1..] + t)
  {
    var s := a + t;
    assert s[0] == a[0] && s[1] == a[1] && s[1..] == a[1..] + t;
    CamelUnfold(s);
  }

  lemma DashShift(x: char, u: char, b: string)
    ensures [x, '-'] + ([u] + b) == [x] + (['-', u] + b)
  {
  }

  lemma HeadShift(a: string, t: string)
    requires a != []
    ensures [a[0]] + (a[1..] + t) == a + t
  {
  }

  /** A dash goes between a lower-case word and the capital that follows it. */
  lemma {:induction false} CamelJoin(a: string, u: char, b: string)
    requires LowerWord(a) && IsUpper(u)
    requires forall i :: 0 <= i < |b| ==> 'a' <= b[i] <= 'z'
    ensures CamelToDash(a + ([u] + b)) == a + (['-', u] + b)
  {
    if |a| == 1 {
      assert a == [a[0]];
      CamelAfterLetter(a[0], [u] + b);
      CamelCapitalHead(u, b);
      DashShift(a[0], u, b);
    } else {
      CamelAfterLower(a, [u] + b);
      CamelJoin(a[1..], u, b);
      HeadShift(a, ['-', u] + b);
    }
  }

  // ---------------------------------------------------------------------
  // The three spellings

  /** The characters of the dash spelling. */
  lemma DashChars(a: string, b: string)
    requires LowerWord(a) && LowerWord(b)
    ensures CanonicalChars(a + "-" + b)
    ensures IsLetter((a + "-" + b)[0]) && IsLetter((a + "-" + b)[|a + "-" + b| - 1])
  {
    var dash := a + "-" + b;
    forall i | 0 <= i < |dash| ensures dash[i] != '_' && !IsUpper(dash[i]) {
      if i < |a| { assert dash[i] == a[i]; }
      else if i > |a| { assert dash[i] == b[i - |a| - 1]; }
    }
    assert dash[0] == a[0] && dash[|dash| - 1] == b[|b| - 1];
  }

  /** The dash spelling of two lower-case words is canonical. */
  lemma SpellDash(a: string, b: string)
    requires LowerWord(a) && LowerWord(b)
    ensures FilterProp(a + "-" + b) == a + "-" + b
  {
    DashChars(a, b);
    CanonicalCharsFixed(a + "-" + b);
  }

  lemma SnakeDashes(a: string, b: string)
    requires LowerWord(a) && LowerWord(b)
    ensures DashUnderscores(a + "_" + b) == a + "-" + b
    ensures IsLetter((a + "_" + b)[0]) && IsLetter((a + "_" + b)[|a + "_" + b| - 1])
  {
    var snake, dash := a + "_" + b, a + "-" + b;
    forall i | 0 <= i < |snake| ensures DashUnderscores(snake)[i] == dash[i] {
      if i < |a| { assert snake[i] == a[i] == dash[i]; }
      else if i > |a| { assert snake[i] == b[i - |a| - 1] == dash[i]; }
    }
    assert snake[0] == a[0] && snake[|snake| - 1] == b[|b| - 1];
  }

  /** The snake spelling of two lower-case words becomes the dash spelling. */
  lemma SpellSnake(a: string, b: string)
    requires LowerWord(a) && LowerWord(b)
    ensures FilterProp(a + "_" + b) == a + "-" + b
  {
    SnakeDashes(a, b);
    TrimLetters(a + "_" + b);
    DashChars(a, b);
    NoCapitals(a + "-" + b);
  }

  lemma CamelChars(a: string, b: string)
    requires LowerWord(a) && LowerWord(b)
    ensures var s := a + ([Capital(b[0])] + b[1..]);
      (forall i :: 0 <= i < |s| ==> s[i] != '_') && IsLetter(s[0]) && IsLetter(s[|s| - 1])
  {
    var s := a + ([Capital(b[0])] + b[1..]);
    forall i | 0 <= i < |s| ensures s[i] != '_' {
      if i < |a| { assert s[i] == a[i]; }
      else if i > |a| { assert s[i] == b[i - |a|]; }
    }
    assert s[0] == a[0];
    assert s[|s| - 1] == if |b| == 1 then Capital(b[0]) else b[|b| - 1];
  }

  lemma LowerDashed(a: string, b: string)
    requires LowerWord(a) && LowerWord(b)
    ensures Lower(a + (['-', Capital(b[0])] + b[1..])) == a + "-" + b
  {
    var c, dash := a + (['-', Capital(b[0])] + b[1..]), a + "-" + b;
    forall i | 0 <= i < |c| ensures Lower(c)[i] == dash[i] {
      if i < |a| { assert c[i] == a[i] == dash[i]; }
      else if i == |a| + 1 { assert c[i] == Capital(b[0]) && dash[i] == b[0]; }
      else if i > |a| + 1 { assert c[i] == b[i - |a| - 1] == dash[i]; }
    }
  }

  /** The camel spelling of two lower-case words becomes the dash spelling. */
  lemma SpellCamel(a: string, b: string)
    requires LowerWord(a) && LowerWord(b)
    ensures FilterProp(a + ([Capital(b[0])] + b[1..])) == a + "-" + b
  {
    var camel := a + ([Capital(b[0])] + b[1..]);
    CamelChars(a, b);
    TrimLetters(camel);
    NoUnderscores(camel);
    CamelJoin(a, Capital(b[0]), b[1..]);
    LowerDashed(a, b);
  }

  /**
   * `background_color`, `backgroundColor` and `background-color` address
   * one property: for any two lower-case words, the snake, camel and dash
   * spellings all canonicalise to the dash spelling.
   */
  lemma SpellingsAgree(a: string, b: string)
    requires LowerWord(a) && LowerWord(b)
    ensures FilterProp(a + "_" + b) == FilterProp(a + ([Capital(b[0])] + b[1..])) == FilterProp(a + "-" + b) == a + "-" + b
  {
    SpellDash(a, b);
    SpellSnake(a, b);
    SpellCamel(a, b);
  }
}
