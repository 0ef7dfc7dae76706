/**
 * Client walk-throughs of the registry and the builder, each with its
 * exact outcome for every input of its shape: debug and production
 * routing, a self-listing library expanded once, flushing and keyed
 * scripts, style buckets, property spellings, declaration parsing and
 * class interning.
 */
module Scenarios {
  import opened Collections
  import opened Strings
  import opened CssText
  import opened Spellings
  import opened Catalog
  import opened Assets
  import opened StyleBuilder

  // ---------------------------------------------------------------------
  // Expansion, one reference at a time

  lemma ExpandSingle(cat: Libraries, debug: bool, st: Included, a: Ref)
    ensures ExpandRefs(cat, debug, st, [a]) == ExpandRef(cat, debug, st, a)
  {
    assert [a][1..] == [];
  }

  lemma ExpandPair(cat: Libraries, debug: bool, st: Included, a: Ref, b: Ref)
    ensures ExpandRefs(cat, debug, st, [a, b]) == ExpandRef(cat, debug, ExpandRef(cat, debug, st, a), b)
  {
    assert [a, b][1..] == [b];
    ExpandSingle(cat, debug, ExpandRef(cat, debug, st, a), b);
  }

  lemma ExpandTriple(cat: Libraries, debug: bool, st: Included, a: Ref, b: Ref, c: Ref)
    ensures ExpandRefs(cat, debug, st, [a, b, c]) ==
      ExpandRef(cat, debug, ExpandRef(cat, debug, ExpandRef(cat, debug, st, a), b), c)
  {
    assert [a, b, c][1..] == [b, c];
    ExpandPair(cat, debug, ExpandRef(cat, debug, st, a), b, c);
  }

  lemma ExpandNewLib(cat: Libraries, debug: bool, st: Included, name: string)
    requires name in cat && name !in st.libs
    ensures ExpandRef(cat, debug, st, Plain(name)) == ExpandRefs(cat, debug, st.(libs := st.libs + [name]), cat[name])
  {
  }

  lemma ExpandScript(cat: Libraries, debug: bool, st: Included, url: string)
    requires url !in cat && !IsStylesheet(url) && url !in st.js
    ensures ExpandRef(cat, debug, st, Plain(url)) == st.(js := st.js + [url])
  {
  }

  lemma ExpandStylesheet(cat: Libraries, debug: bool, st: Included, url: string)
    requires url !in cat && IsStylesheet(url) && url !in st.css
    ensures ExpandRef(cat, debug, st, Plain(url)) == st.(css := st.css + [url])
  {
  }

  lemma OneScript(url: string)
    ensures RenderJs([url], []) == ScriptTag(url)
  {
    EachSingle(ScriptTag, url);
  }

  lemma OneLink(url: string)
    ensures RenderCss([url], []) == LinkTag(url)
  {
    EachSingle(LinkTag, url);
  }

  // ---------------------------------------------------------------------
  // Debug and production routing

  /** A library listing one script for debug mode and another for production. */
  function ModeCatalog(lib: string, dev: string, prod: string): Libraries
  {
    map[lib := [Debug([Plain(dev)]), Prod([Plain(prod)])]]
  }

  lemma ModeExpansion(lib: string, dev: string, prod: string, debug: bool)
    requires dev != lib && prod != lib && !IsStylesheet(dev) && !IsStylesheet(prod)
    ensures ExpandRefs(ModeCatalog(lib, dev, prod), debug, Included([], [], []), [Plain(lib)]) ==
      Included([if debug then dev else prod], [], [lib])
  {
    var cat := ModeCatalog(lib, dev, prod);
    var url := if debug then dev else prod;
    var m := Included([], [], [lib]);
    assert [] + [lib] == [lib] && [] + [url] == [url];
    ExpandSingle(cat, debug, Included([], [], []), Plain(lib));
    ExpandNewLib(cat, debug, Included([], [], []), lib);
    ExpandPair(cat, debug, m, Debug([Plain(dev)]), Prod([Plain(prod)]));
    if debug {
      ExpandSingle(cat, debug, m, Plain(dev));
      ExpandScript(cat, debug, m, dev);
    } else {
      ExpandSingle(cat, debug, m, Plain(prod));
      ExpandScript(cat, debug, m, prod);
    }
  }

  /** The 'debug' entry is included only in debug mode, the 'prod' entry only in production. */
  method DebugAndProduction(lib: string, dev: string, prod: string) returns (debugHtml: string, prodHtml: string)
    requires dev != lib && prod != lib && !IsStylesheet(dev) && !IsStylesheet(prod)
    ensures debugHtml == ScriptTag(dev)
    ensures prodHtml == ScriptTag(prod)
  {
    var cat := ModeCatalog(lib, dev, prod);
    ModeExpansion(lib, dev, prod, true);
    ModeExpansion(lib, dev, prod, false);
    OneScript(dev);
    OneScript(prod);

    var debug := new Registry();
    debug.AddAsset(cat, true, lib);
    debugHtml := debug.Js(true);

    var production := new Registry();
    production.AddAsset(cat, false, lib);
    prodHtml := production.Js(true);
  }

  // ---------------------------------------------------------------------
  // A library that lists itself, added twice, is expanded once

  function LoopCatalog(lib: string, script: string, sheet: string): Libraries
  {
    map[lib := [Plain(lib), Plain(script), Plain(sheet)]]
  }

  lemma LoopExpansion(lib: string, script: string, sheet: string)
    requires script != lib && sheet != lib && !IsStylesheet(script) && IsStylesheet(sheet)
    ensures ExpandRefs(LoopCatalog(lib, script, sheet), false, Included([], [], []), [Plain(lib), Plain(lib)]) ==
      Included([script], [sheet], [lib])
  {
    var cat := LoopCatalog(lib, script, sheet);
    var m := Included([], [], [lib]);
    var m1 := Included([script], [], [lib]);
    assert [] + [lib] == [lib] && [] + [script] == [script] && [] + [sheet] == [sheet];
    ExpandPair(cat, false, Included([], [], []), Plain(lib), Plain(lib));
    ExpandNewLib(cat, false, Included([], [], []), lib);
    ExpandTriple(cat, false, m, Plain(lib), Plain(script), Plain(sheet));
    ExpandScript(cat, false, m, script);
    ExpandStylesheet(cat, false, m1, sheet);
  }

  method LibraryExpandedOnce(lib: string, script: string, sheet: string) returns (jsHtml: string, cssHtml: string)
    requires script != lib && sheet != lib && !IsStylesheet(script) && IsStylesheet(sheet)
    ensures jsHtml == ScriptTag(script)
    ensures cssHtml == LinkTag(sheet)
  {
    var cat := LoopCatalog(lib, script, sheet);
    LoopExpansion(lib, script, sheet);
    OneScript(script);
    OneLink(sheet);
    var r := new Registry();
    r.AddFromArray(cat, false, [Plain(lib), Plain(lib)]);
    jsHtml := r.Js(true);
    cssHtml := r.Css(true);
  }

  // ---------------------------------------------------------------------
  // Flushing and keyed scripts

  lemma BlockOfOne(code: string)
    ensures ScriptBlock([code]) == "<script>\n" + code + "\n</script>"
  {
    EachSingle(Line, code);
  }

  lemma ScriptAndLine(url: string, code: string)
    ensures RenderJs([url], [code]) == ScriptTag(url) + "<script>\n" + code + "\n</script>"
  {
    EachSingle(ScriptTag, url);
    BlockOfOne(code);
    var tag, block := ScriptTag(url), "<script>\n" + code + "\n</script>";
    assert RenderJs([url], [code]) == tag + block;
  }

  /**
   * A keyed script is added once; `js(false)` leaves everything pending,
   * `js(true)` empties it, and the key stays recorded after the flush.
   */
  method FlushAndKeyedScript(url: string, code: string, key: string)
    returns (kept: string, first: string, second: string, third: string)
    ensures kept == first
    ensures first == ScriptTag(url) + "<script>\n" + code + "\n</script>"
    ensures second == "" && third == ""
  {
    ScriptAndLine(url, code);
    RenderJsEmpty([], []);
    assert Insert([], url) == [url] && [] + [code] == [code];
    var r := new Registry();
    r.AddJs(url);
    r.Script(code, Some(key));
    r.Script(code, Some(key));
    kept := r.Js(false);
    first := r.Js(true);
    second := r.Js(true);
    r.Script(code, Some(key));
    third := r.Js(true);
  }

  lemma TwoLines(code: string)
    ensures RenderJs([], [code, code]) == "<script>\n" + code + "\n" + code + "\n</script>"
  {
    assert [code, code] == [code] + [code];
    EachAppend(Line, [code], [code]);
    EachSingle(Line, code);
  }

  /** Code without a key is repeated as often as it is added. */
  method UnkeyedScripts(code: string) returns (html: string)
    ensures html == "<script>\n" + code + "\n" + code + "\n</script>"
  {
    TwoLines(code);
    var r := new Registry();
    r.Script(code, None);
    r.Script(code, None);
    html := r.Js(true);
  }

  // ---------------------------------------------------------------------
  // Property spellings through `__get`, `__set` and `offsetExists`

  /** A value set under the camel spelling is found under the dash and snake spellings. */
  method SameProperty(a: string, b: string, value: string) returns (dash: Option<string>, snake: Option<string>, camel: bool)
    requires LowerWord(a) && LowerWord(b)
    ensures dash == Some(value) && snake == Some(value) && camel
  {
    SpellingsAgree(a, b);
    var s := new Style();
    s.Set(a + ([Capital(b[0])] + b[1..]), value);
    dash := s.Get(a + "-" + b);
    snake := s.Get(a + "_" + b);
    camel := s.Has(a + ([Capital(b[0])] + b[1..]));
  }

  // ---------------------------------------------------------------------
  // Style buckets

  lemma SetAllOne(k: string, v: string)
    requires IsCanonical(k)
    ensures SetAll([], [(k, v)]) == [(k, v)]
  {
    assert [(k, v)][1..] == [];
  }

  lemma SerializeOne(k: string, v: string)
    ensures Serialize([(k, v)]) == k + ":" + v + ";"
  {
    assert SortByKey([(k, v)]) == [(k, v)];
    assert Decls([(k, v)]) == Declaration((k, v)) + Decls([]);
  }

  lemma StyleTextOne(k: string, v: string)
    requires IsCanonical(k)
    ensures StyleText(PropMap([(k, v)])) == k + ":" + v + ";"
    ensures StyleText(Builder([(k, v)])) == k + ":" + v + ";"
  {
    SetAllOne(k, v);
    SerializeOne(k, v);
  }

  lemma BucketNew(styles: Props, selector: string, text: string)
    requires selector !in Keys(styles)
    ensures Appended(styles, selector, text) == styles + [(selector, text)]
  {
    LookupFound(styles, selector);
    PutFresh(styles, selector, text);
  }

  lemma BucketAgain(selector: string, prior: string, text: string)
    ensures Appended([(selector, prior)], selector, text) == [(selector, prior + EOL + text)]
  {
    assert [(selector, prior)][1..] == [];
    assert [(selector, prior + EOL + text)] + [] == [(selector, prior + EOL + text)];
  }

  /** The buckets after two raw writes without selector and one property write under a selector. */
  lemma BucketSteps(first: string, second: string, selector: string, text: string)
    requires selector != ""
    ensures Appended([], "", first + EOL) == [("", first + EOL)]
    ensures Appended([("", first + EOL)], "", second + EOL) == [("", (first + EOL) + EOL + (second + EOL))]
    ensures Appended([("", (first + EOL) + EOL + (second + EOL))], selector, text) ==
      [("", (first + EOL) + EOL + (second + EOL)), (selector, text)]
  {
    BucketNew([], "", first + EOL);
    assert [] + [("", first + EOL)] == [("", first + EOL)];
    BucketAgain("", first + EOL, second + EOL);
    assert Keys([("", (first + EOL) + EOL + (second + EOL))]) == [""];
    BucketNew([("", (first + EOL) + EOL + (second + EOL))], selector, text);
  }

  lemma EachTwo<T>(f: T -> string, x: T, y: T)
    ensures Each(f, [x, y]) == f(x) + f(y)
  {
    assert [x, y] == [x] + [y];
    EachAppend(f, [x], [y]);
    EachSingle(f, x);
    EachSingle(f, y);
  }

  lemma RawRule(first: string, second: string)
    ensures Rule(("", (first + EOL) + EOL + (second + EOL))) == first + "\n\n" + second + "\n"
  {
  }

  lemma SelectorRule(selector: string, prop: string, value: string)
    requires selector != ""
    ensures Rule((selector, prop + ":" + value + ";")) == selector + " { " + prop + ":" + value + "; }\n"
  {
  }

  lemma StyleBlockOf(a: string, b: string)
    ensures "<style>" + EOL + (a + b) + "</style>" == "<style>\n" + a + b + "</style>"
  {
  }

  lemma BucketsRender(first: string, second: string, selector: string, prop: string, value: string)
    requires selector != ""
    ensures RenderCss([], [("", (first + EOL) + EOL + (second + EOL)), (selector, prop + ":" + value + ";")]) ==
      "<style>\n" + (first + "\n\n" + second + "\n") + (selector + " { " + prop + ":" + value + "; }\n") + "</style>"
  {
    var b1, b2 := ("", (first + EOL) + EOL + (second + EOL)), (selector, prop + ":" + value + ";");
    EachTwo(Rule, b1, b2);
    RawRule(first, second);
    SelectorRule(selector, prop, value);
    StyleBlockOf(first + "\n\n" + second + "\n", selector + " { " + prop + ":" + value + "; }\n");
  }

  /**
   * Raw text always lands in the '' bucket, newline-separated after the
   * first write, and is rendered verbatim; properties land under their
   * selector as a rule; an empty array under a selector adds nothing.
   */
  method StyleBuckets(first: string, second: string, selector: string, other: string, prop: string, value: string)
    returns (html: string)
    requires selector != "" && other != "" && IsCanonical(prop)
    ensures html == "<style>\n" + (first + "\n\n" + second + "\n") + (selector + " { " + prop + ":" + value + "; }\n") + "</style>"
  {
    BucketSteps(first, second, selector, prop + ":" + value + ";");
    StyleTextOne(prop, value);
    StyleTextEmpty(PropMap([]));
    BucketsRender(first, second, selector, prop, value);
    var r := new Registry();
    r.Style(RawText(first), "");
    r.Style(RawText(second), "");
    r.Style(PropMap([(prop, value)]), selector);
    r.Style(PropMap([]), other);
    html := r.Css(true);
  }

  // ---------------------------------------------------------------------
  // Parsing `add` strings

  lemma ParsePiecesThree(p: string, q: string, r: string)
    ensures ParsePieces([p, q, r]) == ParsePieces([p]) + ParsePieces([q]) + ParsePieces([r])
  {
    assert [p, q, r][1..] == [q, r] && [q, r][1..] == [r] && [r][1..] == [];
    assert [p][1..] == [] && [q][1..] == [];
  }

  /**
   * `add` on a string splits at ';', keeps the value after the first ':'
   * as written, and drops a piece without ':'.
   */
  lemma DeclarationsDropJunk(k1: string, v1: string, junk: string, k2: string, v2: string)
    requires ':' !in k1 && ';' !in k1 && ';' !in v1
    requires ':' !in junk && ';' !in junk
    requires ':' !in k2 && ';' !in k2 && ';' !in v2
    ensures Declarations(k1 + ":" + v1 + ";" + junk + ";" + k2 + ":" + v2) == [(k1, v1), (k2, v2)]
  {
    var p, r := k1 + ":" + v1, k2 + ":" + v2;
    assert ';' !in p by { assert forall c :: c in p ==> c in k1 || c == ':' || c in v1; }
    assert ';' !in r by { assert forall c :: c in r ==> c in k2 || c == ':' || c in v2; }
    var text := k1 + ":" + v1 + ";" + junk + ";" + k2 + ":" + v2;
    assert text == p + [';'] + (junk + [';'] + r);
    SplitAfterSeparator(p, ';', junk + [';'] + r);
    SplitAfterSeparator(junk, ';', r);
    SplitNoSeparator(r, ';');
    assert Split(text, ';') == [p, junk, r];
    ParseDeclaration(k1, v1);
    ParseDeclaration(k2, v2);
    ParsePiecesThree(p, junk, r);
    assert [p][1..] == [] && [junk][1..] == [] && [r][1..] == [];
  }

  // ---------------------------------------------------------------------
  // Class interning

  lemma SwappedTables(k1: string, v1: string, k2: string, v2: string)
    requires k1 != k2
    ensures DistinctKeys([(k1, v1), (k2, v2)]) && DistinctKeys([(k2, v2), (k1, v1)])
    ensures Serialize([(k1, v1), (k2, v2)]) == Serialize([(k2, v2), (k1, v1)]) != ""
  {
    var a, b := [(k1, v1), (k2, v2)], [(k2, v2), (k1, v1)];
    assert Keys(a) == [k1, k2] && Keys(b) == [k2, k1];
    forall k ensures Lookup(a, k) == Lookup(b, k) {
      assert a[1..] == [(k2, v2)] && b[1..] == [(k1, v1)];
    }
    SerializeOrderIndependent(a, b);
  }

  lemma TwoPuts(k1: string, v1: string, k2: string, v2: string)
    requires k1 != k2
    ensures Put(Put([], k1, v1), k2, v2) == [(k1, v1), (k2, v2)]
  {
    assert [(k1, v1)][1..] == [];
  }

  /** A fresh builder with two canonical properties set in the order given. */
  method BuildTwo(ka: string, va: string, kb: string, vb: string) returns (s: Style)
    requires IsCanonical(ka) && IsCanonical(kb) && ka != kb
    ensures fresh(s) && s.Valid() && s.props == [(ka, va), (kb, vb)]
  {
    TwoPuts(ka, va, kb, vb);
    s := new Style();
    s.Set(ka, va);
    s.Set(kb, vb);
  }

  /**
   * Builders with the same properties set in another order share one
   * interned class; the preferred name is taken when free; an empty
   * builder gets no class.
   */
  method InternTwice(k1: string, v1: string, k2: string, v2: string, preferred: string, other: string)
    returns (first: Option<string>, second: Option<string>, empty: Option<string>)
    requires IsCanonical(k1) && IsCanonical(k2) && k1 != k2 && preferred != ""
    ensures first == Some(preferred) && second == Some(preferred)
    ensures empty == None
  {
    SwappedTables(k1, v1, k2, v2);
    var interner := new ClassInterner();
    var r := new Registry();
    var a := BuildTwo(k1, v1, k2, v2);
    var b := BuildTwo(k2, v2, k1, v1);
    first := a.SaveClass(interner, r, preferred);
    second := b.SaveClass(interner, r, other);
    var c := new Style();
    empty := c.SaveClass(interner, r, preferred);
  }

  // ---------------------------------------------------------------------
  // The two source defects, as written and as intended

  /** `_styleToString` as written cannot convert a builder; as intended it yields the builder's `css()`. */
  lemma StyleToStringDefect(k: string, v: string)
    requires IsCanonical(k)
    ensures StyleTextAsWritten(Builder([(k, v)])).Failure?
    ensures StyleText(Builder([(k, v)])) == k + ":" + v + ";"
  {
    StyleTextOne(k, v);
  }

  /** `getStyle` as written fails on every call, even for a bucket that exists; as intended it finds it. */
  method GetStyleDefect(selector: string, text: string) returns (asWritten: Result<Option<string>>, intended: Option<string>)
    ensures asWritten.Failure?
    ensures intended == Some(text + EOL)
  {
    var r := new Registry();
    r.Style(RawText(text), selector);
    assert r.styles == [(selector, text + EOL)];
    asWritten := r.GetStyleAsWritten(selector);
    intended := r.GetStyle(selector);
  }
}
