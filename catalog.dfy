/**
 * Expansion of asset references against a library catalog: the pure
 * specification of `Assets::addFromArray` and `Assets::addLib`.
 *
 * A catalog maps a library name to its list of references. A reference is
 * a URL or library name, or a list that applies only in debug mode (the
 * `'debug'` key of a PHP array) or only in production mode (`'prod'`).
 * Expansion threads the three include lists through the references, left
 * to right.
 */
module Catalog {
  import opened Collections
  import opened Strings

  datatype Ref =
    | Plain(name: string)
    | Debug(debugRefs: seq<Ref>)
    | Prod(prodRefs: seq<Ref>)

  type Libraries = map<string, seq<Ref>>

  /** The registry's `_js`, `_css` and `_libs`, each in insertion order. */
  datatype Included = Included(js: seq<string>, css: seq<string>, libs: seq<string>)

  /** No URL is listed twice and no library is marked twice. */
  predicate WellFormed(st: Included)
  {
    NoDup(st.js) && NoDup(st.css) && NoDup(st.libs)
  }

  /** The `.css` classification: ends in `.css` or carries a `.css?v=` version query. */
  predicate IsStylesheet(url: string)
  {
    EndsWith(url, ".css") || Contains(url, ".css?v=")
  }

  /** `addCss` or `addJs`, whichever the URL's classification selects. */
  function AddUrl(st: Included, url: string): (r: Included)
    ensures Grows(st, r) && r.libs == st.libs
    ensures IsStylesheet(url) ==> url in r.css && r.js == st.js
    ensures !IsStylesheet(url) ==> url in r.js && r.css == st.css
  {
    if IsStylesheet(url) then st.(css := Insert(st.css, url)) else st.(js := Insert(st.js, url))
  }

  /** Every list of `st` is a prefix of the same list of `r`: entries are only ever appended. */
  predicate Grows(st: Included, r: Included)
  {
    st.js <= r.js && st.css <= r.css && st.libs <= r.libs
  }

  lemma GrowsTransitive(a: Included, b: Included, c: Included)
    requires Grows(a, b) && Grows(b, c)
    ensures Grows(a, c)
  {
  }

  function RefSize(r: Ref): nat
    decreases r
  {
    match r
    case Plain(_) => 1
    case Debug(rs) => 1 + RefsSize(rs)
    case Prod(rs) => 1 + RefsSize(rs)
  }

  function RefsSize(rs: seq<Ref>): nat
    decreases rs
  {
    if rs == [] then 0 else RefSize(rs[0]) + RefsSize(rs[1..])
  }

  /** Catalog libraries not yet expanded: the first component of the termination measure. */
  function Unexpanded(cat: Libraries, st: Included): set<string>
  {
    cat.Keys - Elems(st.libs)
  }

  /** Growing lists never bring back an expanded library. */
  lemma GrowsUnexpanded(cat: Libraries, st: Included, r: Included)
    requires Grows(st, r)
    ensures Unexpanded(cat, r) <= Unexpanded(cat, st)
  {
    PrefixElems(st.libs, r.libs);
  }

  /**
   * `addFromArray($refs)`: the references expanded left to right. The
   * measure (unexpanded catalog names, size of the references) decreases at
   * every call, so expansion terminates on any catalog, cyclic ones included.
   */
  function ExpandRefs(cat: Libraries, debug: bool, st: Included, refs: seq<Ref>): (r: Included)
    ensures Grows(st, r)
    decreases Unexpanded(cat, st), RefsSize(refs), 1
  {
    if refs == [] then st
    else
      var s1 := ExpandRef(cat, debug, st, refs[0]);
      PrefixElems(st.libs, s1.libs);
      ExpandRefs(cat, debug, s1, refs[1..])
  }

  /** One entry of the `foreach` in `addFromArray`. */
  function ExpandRef(cat: Libraries, debug: bool, st: Included, ref: Ref): (r: Included)
    ensures Grows(st, r)
    decreases Unexpanded(cat, st), RefSize(ref), 0
  {
    match ref
    case Plain(s) => if s in cat then ExpandLib(cat, debug, st, s) else AddUrl(st, s)
    case Debug(rs) => if debug then ExpandRefs(cat, debug, st, rs) else st
    case Prod(rs) => if !debug then ExpandRefs(cat, debug, st, rs) else st
  }

  /** `addLib($name)`: a marked or unknown name is ignored; otherwise mark it, then expand it. */
  function ExpandLib(cat: Libraries, debug: bool, st: Included, name: string): (r: Included)
    ensures Grows(st, r)
    decreases Unexpanded(cat, st), 0, 0
  {
    if name in st.libs || name !in cat then st
    else
      var marked := st.(libs := st.libs + [name]);
      assert Unexpanded(cat, marked) < Unexpanded(cat, st) by {
        assert name in Unexpanded(cat, st) && name !in Unexpanded(cat, marked);
      }
      ExpandRefs(cat, debug, marked, cat[name])
  }

  /** Expanding the references from position i on: the one at i first, then the rest. */
  lemma ExpandRefsFrom(cat: Libraries, debug: bool, st: Included, refs: seq<Ref>, i: int)
    requires 0 <= i < |refs|
    ensures ExpandRefs(cat, debug, st, refs[i..]) == ExpandRefs(cat, debug, ExpandRef(cat, debug, st, refs[i]), refs[i + 1..])
  {
    assert refs[i..][0] == refs[i] && refs[i..][1..] == refs[i + 1..];
  }

  // ---------------------------------------------------------------------
  // Every library is expanded at most once, and only catalog names are marked

  /** Appending a library that is not marked yet keeps the marks distinct. */
  lemma MarkKeepsNoDup(libs: seq<string>, name: string)
    requires NoDup(libs) && name !in libs
    ensures NoDup(libs + [name])
  {
  }

  lemma {:induction false} ExpandRefsWellFormed(cat: Libraries, debug: bool, st: Included, refs: seq<Ref>)
    requires WellFormed(st)
    ensures WellFormed(ExpandRefs(cat, debug, st, refs))
    ensures Elems(ExpandRefs(cat, debug, st, refs).libs) <= Elems(st.libs) + cat.Keys
    decreases Unexpanded(cat, st), RefsSize(refs), 1
  {
    if refs != [] {
      var s1 := ExpandRef(cat, debug, st, refs[0]);
      PrefixElems(st.libs, s1.libs);
      ExpandRefWellFormed(cat, debug, st, refs[0]);
      ExpandRefsWellFormed(cat, debug, s1, refs[1..]);
    }
  }

  lemma {:induction false} ExpandRefWellFormed(cat: Libraries, debug: bool, st: Included, ref: Ref)
    requires WellFormed(st)
    ensures WellFormed(ExpandRef(cat, debug, st, ref))
    ensures Elems(ExpandRef(cat, debug, st, ref).libs) <= Elems(st.libs) + cat.Keys
    decreases Unexpanded(cat, st), RefSize(ref), 0
  {
    match ref
    case Plain(s) =>
      if s in cat {
        ExpandLibWellFormed(cat, debug, st, s);
      }
    case Debug(rs) =>
      if debug {
        ExpandRefsWellFormed(cat, debug, st, rs);
      }
    case Prod(rs) =>
      if !debug {
        ExpandRefsWellFormed(cat, debug, st, rs);
      }
  }

  lemma {:induction false} ExpandLibWellFormed(cat: Libraries, debug: bool, st: Included, name: string)
    requires WellFormed(st)
    ensures WellFormed(ExpandLib(cat, debug, st, name))
    ensures Elems(ExpandLib(cat, debug, st, name).libs) <= Elems(st.libs) + cat.Keys
    decreases Unexpanded(cat, st), 0, 0
  {
    if name !in st.libs && name in cat {
      var marked := st.(libs := st.libs + [name]);
      MarkKeepsNoDup(st.libs, name);
      ElemsAppend(st.libs, name);
      assert Unexpanded(cat, marked) < Unexpanded(cat, st) by {
        assert name in Unexpanded(cat, st) && name !in Unexpanded(cat, marked);
      }
      ExpandRefsWellFormed(cat, debug, marked, cat[name]);
    }
  }

  // ---------------------------------------------------------------------
  // Where each entry goes

  /**
   * A URL that is not a catalog name ends up in `_css` when it is a
   * stylesheet and in `_js` otherwise; a catalog name ends up marked.
   */
  predicate Absorbed(cat: Libraries, debug: bool, st: Included, ref: Ref)
    decreases ref, 1
  {
    match ref
    case Plain(s) =>
      if s in cat then s in st.libs
      else if IsStylesheet(s) then s in st.css
      else s in st.js
    case Debug(rs) => debug ==> AllAbsorbed(cat, debug, st, rs)
    case Prod(rs) => !debug ==> AllAbsorbed(cat, debug, st, rs)
  }

  predicate AllAbsorbed(cat: Libraries, debug: bool, st: Included, refs: seq<Ref>)
    decreases refs, 0
  {
    forall i :: 0 <= i < |refs| ==> Absorbed(cat, debug, st, refs[i])
  }

  lemma {:induction false} AbsorbedGrows(cat: Libraries, debug: bool, st: Included, r: Included, ref: Ref)
    requires Grows(st, r) && Absorbed(cat, debug, st, ref)
    ensures Absorbed(cat, debug, r, ref)
    decreases ref, 1
  {
    match ref
    case Plain(s) =>
      PrefixElems(st.libs, r.libs);
      PrefixElems(st.css, r.css);
      PrefixElems(st.js, r.js);
    case Debug(rs) =>
      if debug {
        AllAbsorbedGrows(cat, debug, st, r, rs);
      }
    case Prod(rs) =>
      if !debug {
        AllAbsorbedGrows(cat, debug, st, r, rs);
      }
  }

  lemma {:induction false} AllAbsorbedGrows(cat: Libraries, debug: bool, st: Included, r: Included, refs: seq<Ref>)
    requires Grows(st, r) && AllAbsorbed(cat, debug, st, refs)
    ensures AllAbsorbed(cat, debug, r, refs)
    decreases refs, 0
  {
    forall i | 0 <= i < |refs| ensures Absorbed(cat, debug, r, refs[i]) {
      AbsorbedGrows(cat, debug, st, r, refs[i]);
    }
  }

  /** After expansion every entry of the list (and of the active debug/prod sublists) is absorbed. */
  lemma {:induction false} ExpandRefsAbsorbs(cat: Libraries, debug: bool, st: Included, refs: seq<Ref>)
    ensures AllAbsorbed(cat, debug, ExpandRefs(cat, debug, st, refs), refs)
    decreases Unexpanded(cat, st), RefsSize(refs), 1
  {
    if refs != [] {
      var s1 := ExpandRef(cat, debug, st, refs[0]);
      var r := ExpandRefs(cat, debug, s1, refs[1..]);
      PrefixElems(st.libs, s1.libs);
      ExpandRefAbsorbs(cat, debug, st, refs[0]);
      AbsorbedGrows(cat, debug, s1, r, refs[0]);
      ExpandRefsAbsorbs(cat, debug, s1, refs[1..]);
      forall i | 0 <= i < |refs| ensures Absorbed(cat, debug, r, refs[i]) {
        if i > 0 {
          assert refs[i] == refs[1..][i - 1];
        }
      }
    }
  }

  lemma {:induction false} ExpandRefAbsorbs(cat: Libraries, debug: bool, st: Included, ref: Ref)
    ensures Absorbed(cat, debug, ExpandRef(cat, debug, st, ref), ref)
    decreases Unexpanded(cat, st), RefSize(ref), 0
  {
    match ref
    case Plain(s) =>
      if s in cat {
        if s !in st.libs {
          var marked := st.(libs := st.libs + [s]);
          PrefixElems(marked.libs, ExpandLib(cat, debug, st, s).libs);
          assert s in marked.libs;
        }
      }
    case Debug(rs) =>
      if debug {
        ExpandRefsAbsorbs(cat, debug, st, rs);
      }
    case Prod(rs) =>
      if !debug {
        ExpandRefsAbsorbs(cat, debug, st, rs);
      }
  }

  /** Expanding entries that are all absorbed already changes nothing. */
  lemma {:induction false} ExpandAbsorbedNoop(cat: Libraries, debug: bool, st: Included, refs: seq<Ref>)
    requires AllAbsorbed(cat, debug, st, refs)
    ensures ExpandRefs(cat, debug, st, refs) == st
    decreases RefsSize(refs), 1
  {
    if refs != [] {
      assert Absorbed(cat, debug, st, refs[0]);
      ExpandRefAbsorbedNoop(cat, debug, st, refs[0]);
      assert AllAbsorbed(cat, debug, st, refs[1..]) by {
        forall i | 0 <= i < |refs[1..]| ensures Absorbed(cat, debug, st, refs[1..][i]) {
          assert refs[1..][i] == refs[i + 1];
        }
      }
      ExpandAbsorbedNoop(cat, debug, st, refs[1..]);
    }
  }

  lemma {:induction false} ExpandRefAbsorbedNoop(cat: Libraries, debug: bool, st: Included, ref: Ref)
    requires Absorbed(cat, debug, st, ref)
    ensures ExpandRef(cat, debug, st, ref) == st
    decreases RefSize(ref), 0
  {
    match ref
    case Plain(s) =>
    case Debug(rs) =>
      if debug {
        ExpandAbsorbedNoop(cat, debug, st, rs);
      }
    case Prod(rs) =>
      if !debug {
        ExpandAbsorbedNoop(cat, debug, st, rs);
      }
  }

  /** Adding the same references twice is the same as adding them once. */
  lemma ExpandIdempotent(cat: Libraries, debug: bool, st: Included, refs: seq<Ref>)
    ensures ExpandRefs(cat, debug, ExpandRefs(cat, debug, st, refs), refs) == ExpandRefs(cat, debug, st, refs)
  {
    ExpandRefsAbsorbs(cat, debug, st, refs);
    ExpandAbsorbedNoop(cat, debug, ExpandRefs(cat, debug, st, refs), refs);
  }

  /** Adding `a + b` is adding `a`, then `b`. */
  lemma {:induction false} ExpandConcat(cat: Libraries, debug: bool, st: Included, a: seq<Ref>, b: seq<Ref>)
    ensures ExpandRefs(cat, debug, st, a + b) == ExpandRefs(cat, debug, ExpandRefs(cat, debug, st, a), b)
    decreases |a|
  {
    if a != [] {
      assert (a + b)[0] == a[0] && (a + b)[1..] == a[1..] + b;
      ExpandConcat(cat, debug, ExpandRef(cat, debug, st, a[0]), a[1..], b);
    } else {
      assert a + b == b;
    }
  }

  // ---------------------------------------------------------------------
  // Nothing but the right kind of entry goes anywhere

  /** New `_css` entries are stylesheets, new `_js` entries are not, new marks are catalog names. */
  predicate Classified(cat: Libraries, st: Included, r: Included)
  {
    (forall u :: u in r.css && u !in st.css ==> IsStylesheet(u)) &&
    (forall u :: u in r.js && u !in st.js ==> !IsStylesheet(u)) &&
    (forall n :: n in r.libs && n !in st.libs ==> n in cat)
  }

  lemma ClassifiedTransitive(cat: Libraries, a: Included, b: Included, c: Included)
    requires Classified(cat, a, b) && Classified(cat, b, c)
    ensures Classified(cat, a, c)
  {
  }

  lemma {:induction false} ExpandRefsClassified(cat: Libraries, debug: bool, st: Included, refs: seq<Ref>)
    ensures Classified(cat, st, ExpandRefs(cat, debug, st, refs))
    decreases Unexpanded(cat, st), RefsSize(refs), 1
  {
    if refs != [] {
      var s1 := ExpandRef(cat, debug, st, refs[0]);
      PrefixElems(st.libs, s1.libs);
      ExpandRefClassified(cat, debug, st, refs[0]);
      ExpandRefsClassified(cat, debug, s1, refs[1..]);
      ClassifiedTransitive(cat, st, s1, ExpandRefs(cat, debug, s1, refs[1..]));
    }
  }

  lemma {:induction false} ExpandRefClassified(cat: Libraries, debug: bool, st: Included, ref: Ref)
    ensures Classified(cat, st, ExpandRef(cat, debug, st, ref))
    decreases Unexpanded(cat, st), RefSize(ref), 0
  {
    match ref
    case Plain(s) =>
      if s in cat {
        if s !in st.libs {
          var marked := st.(libs := st.libs + [s]);
          assert Unexpanded(cat, marked) < Unexpanded(cat, st) by {
            assert s in Unexpanded(cat, st) && s !in Unexpanded(cat, marked);
          }
          ExpandRefsClassified(cat, debug, marked, cat[s]);
          ClassifiedTransitive(cat, st, marked, ExpandRefs(cat, debug, marked, cat[s]));
        }
      }
    case Debug(rs) =>
      if debug {
        ExpandRefsClassified(cat, debug, st, rs);
      }
    case Prod(rs) =>
      if !debug {
        ExpandRefsClassified(cat, debug, st, rs);
      }
  }
}
