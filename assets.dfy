/**
 * The page-asset registry `Assets`: ordered sets of script and stylesheet
 * URLs, marked libraries, inline scripts with de-duplication ids and inline
 * style buckets keyed by selector, together with the HTML it renders.
 */
module Assets {
  import opened Collections
  import opened Strings
  import opened CssText
  import opened Catalog

  /** `PHP_EOL`, fixed to a line feed. */
  const EOL := "\n"

  // ---------------------------------------------------------------------
  // Rendering

  /** The concatenation of `f(x)` over `xs`, in order: the `foreach ... .=` loops. */
  function Each<T>(f: T -> string, xs: seq<T>): string
  {
    if xs == [] then "" else f(xs[0]) + Each(f, xs[1..])
  }

  /** The first element's rendering comes first. */
  lemma EachFirst<T>(f: T -> string, xs: seq<T>)
    ensures xs != [] ==> StartsWith(Each(f, xs), f(xs[0]))
  {
    if xs != [] {
      PrefixOfAppend(f(xs[0]), Each(f, xs[1..]));
    }
  }

  lemma PrefixOfAppend(a: string, b: string)
    ensures StartsWith(a + b, a)
    ensures forall p :: StartsWith(a, p) ==> StartsWith(a + b, p)
  {
    assert (a + b)[..|a|] == a;
    forall p | StartsWith(a, p) ensures StartsWith(a + b, p) {
      assert (a + b)[..|p|] == a[..|p|];
    }
  }

  lemma SuffixOfAppend(a: string, b: string, c: string)
    ensures EndsWith(a + (b + c), c)
  {
    assert (a + (b + c))[|a + (b + c)| - |c|..] == c;
  }

  lemma {:induction false} EachAppend<T>(f: T -> string, a: seq<T>, b: seq<T>)
    ensures Each(f, a + b) == Each(f, a) + Each(f, b)
  {
    if a == [] {
      assert a + b == b;
    } else {
      assert (a + b)[1..] == a[1..] + b;
      EachAppend(f, a[1..], b);
    }
  }

  /** Every element contributes its rendering to the output. */
  lemma EachSingle<T>(f: T -> string, x: T)
    ensures Each(f, [x]) == f(x)
  {
    assert [x][1..] == [];
    assert Each(f, [x]) == f(x) + Each(f, []);
  }

  /** The rendering of the element at `i` sits between those of the elements before and after it. */
  lemma {:induction false} EachSplit<T>(f: T -> string, xs: seq<T>, i: int)
    requires 0 <= i < |xs|
    ensures Each(f, xs) == Each(f, xs[..i]) + f(xs[i]) + Each(f, xs[i + 1..])
  {
    if i == 0 {
      assert xs[..0] == [] && xs[1..] == xs[i + 1..];
    } else {
      EachSplit(f, xs[1..], i - 1);
      assert xs[1..][..i - 1] == xs[..i][1..];
      assert xs[1..][i - 1] == xs[i] && xs[1..][i..] == xs[i + 1..];
    }
  }

  lemma EachContains<T>(f: T -> string, xs: seq<T>, x: T)
    requires x in xs
    ensures Contains(Each(f, xs), f(x))
  {
    var i :| 0 <= i < |xs| && xs[i] == x;
    EachSplit(f, xs, i);
    ContainsMiddle(Each(f, xs[..i]), f(x), Each(f, xs[i + 1..]));
  }

  /** When no element renders as "", the output is "" exactly for no elements. */
  lemma EachEmpty<T>(f: T -> string, xs: seq<T>)
    requires forall x :: f(x) != ""
    ensures Each(f, xs) == "" <==> xs == []
  {
    if xs != [] {
      assert |Each(f, xs)| >= |f(xs[0])| > 0;
    }
  }

  function ScriptTag(url: string): (html: string)
    ensures html != ""
  {
    "<script src=\"" + url + "\"></script>" + EOL
  }

  function Line(code: string): (html: string)
    ensures html != ""
  {
    code + EOL
  }

  /** The inline `<script>` block, present only when some inline code is pending. */
  function ScriptBlock(scripts: seq<string>): string
  {
    if scripts == [] then "" else "<script>" + EOL + Each(Line, scripts) + "</script>"
  }

  /** The output of `js()`: one tag per URL in insertion order, then the inline block. */
  function RenderJs(js: seq<string>, scripts: seq<string>): (html: string)
    ensures js != [] ==> StartsWith(html, ScriptTag(js[0]))
    ensures scripts != [] ==> EndsWith(html, "</script>")
  {
    var tags, block := Each(ScriptTag, js), ScriptBlock(scripts);
    EachFirst(ScriptTag, js);
    PrefixOfAppend(tags, block);
    SuffixOfAppend(tags, "<script>" + EOL + Each(Line, scripts), "</script>");
    tags + block
  }

  function LinkTag(url: string): (html: string)
    ensures html != ""
  {
    "<link rel=\"stylesheet\" href=\"" + url + "\">" + EOL
  }

  /** One style bucket: a non-empty selector wraps its text in a rule, the '' bucket is verbatim. */
  function StyleRule(selector: string, text: string): string
  {
    if selector != "" then selector + " { " + text + " }" + EOL else text
  }

  function Rule(bucket: (string, string)): string
  {
    StyleRule(bucket.0, bucket.1)
  }

  /** The inline `<style>` block, present only when some bucket exists. */
  function StyleBlock(styles: Props): string
  {
    if styles == [] then "" else "<style>" + EOL + Each(Rule, styles) + "</style>"
  }

  /** The output of `css()`: one link per URL in insertion order, then the inline block. */
  function RenderCss(css: seq<string>, styles: Props): (html: string)
    ensures css != [] ==> StartsWith(html, LinkTag(css[0]))
    ensures styles != [] ==> EndsWith(html, "</style>")
  {
    var links, block := Each(LinkTag, css), StyleBlock(styles);
    EachFirst(LinkTag, css);
    PrefixOfAppend(links, block);
    SuffixOfAppend(links, "<style>" + EOL + Each(Rule, styles), "</style>");
    links + block
  }

  /** `js()` renders nothing exactly when nothing is pending. */
  lemma RenderJsEmpty(js: seq<string>, scripts: seq<string>)
    ensures RenderJs(js, scripts) == "" <==> js == [] && scripts == []
  {
    EachEmpty(ScriptTag, js);
  }

  /** `css()` renders nothing exactly when nothing is pending. */
  lemma RenderCssEmpty(css: seq<string>, styles: Props)
    ensures RenderCss(css, styles) == "" <==> css == [] && styles == []
  {
    EachEmpty(LinkTag, css);
  }

  lemma ScriptBlockLists(scripts: seq<string>, c: string)
    requires c in scripts
    ensures Contains(ScriptBlock(scripts), Line(c))
  {
    EachContains(Line, scripts, c);
    ContainsWithin("<script>" + EOL, Each(Line, scripts), "</script>", Line(c));
  }

  /** Every pending URL gets its tag and every pending script its line. */
  lemma RenderJsLists(js: seq<string>, scripts: seq<string>)
    ensures forall u :: u in js ==> Contains(RenderJs(js, scripts), ScriptTag(u))
    ensures forall c :: c in scripts ==> Contains(RenderJs(js, scripts), Line(c))
  {
    forall u | u in js ensures Contains(RenderJs(js, scripts), ScriptTag(u)) {
      EachContains(ScriptTag, js, u);
      ContainsBefore(Each(ScriptTag, js), ScriptBlock(scripts), ScriptTag(u));
    }
    forall c | c in scripts ensures Contains(RenderJs(js, scripts), Line(c)) {
      ScriptBlockLists(scripts, c);
      ContainsAfter(Each(ScriptTag, js), ScriptBlock(scripts), Line(c));
    }
  }

  /** Tags come out in insertion order: a URL added later renders after the others. */
  lemma RenderJsAppend(js: seq<string>, url: string, scripts: seq<string>)
    ensures RenderJs(js + [url], scripts) == Each(ScriptTag, js) + ScriptTag(url) + ScriptBlock(scripts)
  {
    EachAppend(ScriptTag, js, [url]);
    EachSingle(ScriptTag, url);
  }

  lemma RenderCssAppend(css: seq<string>, url: string, styles: Props)
    ensures RenderCss(css + [url], styles) == Each(LinkTag, css) + LinkTag(url) + StyleBlock(styles)
  {
    EachAppend(LinkTag, css, [url]);
    EachSingle(LinkTag, url);
  }

  lemma StyleBlockLists(styles: Props, b: (string, string))
    requires b in styles
    ensures Contains(StyleBlock(styles), Rule(b))
  {
    EachContains(Rule, styles, b);
    ContainsWithin("<style>" + EOL, Each(Rule, styles), "</style>", Rule(b));
  }

  /** Every pending URL gets its link and every bucket its rule. */
  lemma RenderCssLists(css: seq<string>, styles: Props)
    ensures forall u :: u in css ==> Contains(RenderCss(css, styles), LinkTag(u))
    ensures forall b :: b in styles ==> Contains(RenderCss(css, styles), Rule(b))
  {
    forall u | u in css ensures Contains(RenderCss(css, styles), LinkTag(u)) {
      EachContains(LinkTag, css, u);
      ContainsBefore(Each(LinkTag, css), StyleBlock(styles), LinkTag(u));
    }
    forall b | b in styles ensures Contains(RenderCss(css, styles), Rule(b)) {
      StyleBlockLists(styles, b);
      ContainsAfter(Each(LinkTag, css), StyleBlock(styles), Rule(b));
    }
  }

  // ---------------------------------------------------------------------
  // Style input and buckets

  /**
   * What `style()` accepts: raw CSS text, a PHP array of properties, or a
   * builder object (carrying its property table).
   */
  datatype StyleInput =
    | RawText(text: string)
    | PropMap(pairs: Props)
    | Builder(props: Props)

  /**
   * `_styleToString` as intended: raw text gets a trailing EOL, an array is
   * set into a fresh builder and serialised, and a builder is serialised.
   */
  function StyleText(input: StyleInput): (t: string)
    ensures input.RawText? ==> EndsWith(t, EOL)
    ensures !input.RawText? && t != "" ==> EndsWith(t, ";")
  {
    match input
    case RawText(t) => t + EOL
    case PropMap(pairs) =>
      SetAllCanonical([], pairs);
      Serialize(SetAll([], pairs))
    case Builder(props) =>
      SetAllCanonical([], props);
      Serialize(SetAll([], props))
  }

  /**
   * `_styleToString` as written: it tests for the class
   * `\SimplePHP\Css\Style`, which does not exist, so a builder falls through
   * to string concatenation, and an object without `__toString` cannot be
   * converted to a string.
   */
  function StyleTextAsWritten(input: StyleInput): (r: Result<string>)
    ensures r.Failure? <==> input.Builder?
    ensures !input.Builder? ==> r == Success(StyleText(input))
  {
    match input
    case Builder(_) => Failure("Object of class SimplePHP\\Style could not be converted to string")
    case _ => Success(StyleText(input))
  }

  lemma {:induction false} SetAllLength(ps: Props, pairs: Props)
    ensures |SetAll(ps, pairs)| >= |ps|
    ensures pairs != [] ==> SetAll(ps, pairs) != []
    decreases pairs
  {
    if pairs != [] {
      var k := FilterProp(pairs[0].0);
      PutKeys(ps, k, pairs[0].1);
      SetAllLength(Put(ps, k, pairs[0].1), pairs[1..]);
    }
  }

  /** Raw text is never empty after `_styleToString`; properties are empty exactly when none are given. */
  lemma StyleTextEmpty(input: StyleInput)
    ensures StyleText(input) == "" <==>
      (input.PropMap? && input.pairs == []) || (input.Builder? && input.props == [])
  {
    match input
    case RawText(t) =>
    case PropMap(pairs) =>
      SetAllCanonical([], pairs);
      SetAllLength([], pairs);
    case Builder(props) =>
      SetAllCanonical([], props);
      SetAllLength([], props);
  }

  /** A canonical builder table serialises to its own `css()` text. */
  lemma BuilderText(props: Props)
    requires CanonicalProps(props)
    ensures StyleText(Builder(props)) == Serialize(props)
  {
    SetAllFresh([], props);
    assert [] + props == props;
  }

  /** Text appended to a style bucket: a new bucket holds the text, an old one gets EOL and the text. */
  function Appended(styles: Props, selector: string, text: string): (r: Props)
    ensures |styles| <= |r| <= |styles| + 1
    ensures Lookup(styles, selector).None? ==> (selector, text) in r
  {
    Put(styles, selector, match Lookup(styles, selector)
                          case None => text
                          case Some(prior) => prior + EOL + text)
  }

  /**
   * A bucket keeps its first-write position, only the appended bucket
   * changes, and it ends with the new text, after an EOL if it existed.
   */
  lemma AppendedSpec(styles: Props, selector: string, text: string)
    requires DistinctKeys(styles)
    ensures Keys(Appended(styles, selector, text)) == Insert(Keys(styles), selector)
    ensures DistinctKeys(Appended(styles, selector, text))
    ensures forall j :: j != selector ==> Lookup(Appended(styles, selector, text), j) == Lookup(styles, j)
    ensures Lookup(styles, selector).None? ==> Lookup(Appended(styles, selector, text), selector) == Some(text)
    ensures Lookup(styles, selector).Some? ==>
      Lookup(Appended(styles, selector, text), selector) == Some(Lookup(styles, selector).value + EOL + text)
  {
    var v := match Lookup(styles, selector) case None => text case Some(prior) => prior + EOL + text;
    PutKeys(styles, selector, v);
    forall j ensures Lookup(Appended(styles, selector, text), j) == if j == selector then Some(v) else Lookup(styles, j) {
      PutLookup(styles, selector, v, j);
    }
  }

  // ---------------------------------------------------------------------
  // The registry

  class Registry {
    var js: seq<string>
    var css: seq<string>
    var libs: seq<string>
    var scriptIds: set<string>
    var scripts: seq<string>
    var styles: Props

    /** URL sets and library marks hold no duplicates and every selector has one bucket. */
    ghost predicate Valid()
      reads this
    {
      WellFormed(Sets()) && DistinctKeys(styles)
    }

    function Sets(): Included
      reads this
    {
      Included(js, css, libs)
    }

    constructor()
      ensures Valid()
      ensures js == [] && css == [] && libs == [] && scriptIds == {} && scripts == [] && styles == []
    {
      js, css, libs := [], [], [];
      scriptIds, scripts, styles := {}, [], [];
    }

    /** `addJs($url)`: an ordered-set insert. */
    method AddJs(url: string)
      modifies this`js
      requires Valid()
      ensures Valid()
      ensures js == Insert(old(js), url)
    {
      js := Insert(js, url);
    }

    /** `addCss($url)`: an ordered-set insert. */
    method AddCss(url: string)
      modifies this`css
      requires Valid()
      ensures Valid()
      ensures css == Insert(old(css), url)
    {
      css := Insert(css, url);
    }

    /** `addLib($name)` */
    method AddLib(cat: Libraries, debug: bool, name: string)
      modifies this`js, this`css, this`libs
      requires Valid()
      ensures Valid()
      ensures Sets() == ExpandLib(cat, debug, old(Sets()), name)
      decreases Unexpanded(cat, Sets()), 0, 0
    {
      if name in libs {
        return;
      }
      if name in cat {
        ghost var before := Sets();
        MarkKeepsNoDup(libs, name);
        libs := libs + [name];
        assert Unexpanded(cat, Sets()) < Unexpanded(cat, before) by {
          assert name in Unexpanded(cat, before) && name !in Unexpanded(cat, Sets());
        }
        AddFromArray(cat, debug, cat[name]);
      }
    }

    /** `addFromArray($assets)` on an array. */
    method AddFromArray(cat: Libraries, debug: bool, assets: seq<Ref>)
      modifies this`js, this`css, this`libs
      requires Valid()
      ensures Valid()
      ensures Sets() == ExpandRefs(cat, debug, old(Sets()), assets)
      decreases Unexpanded(cat, Sets()), RefsSize(assets), 1
    {
      var i := 0;
      while i < |assets|
        invariant 0 <= i <= |assets|
        invariant Valid()
        invariant ExpandRefs(cat, debug, Sets(), assets[i..]) == ExpandRefs(cat, debug, old(Sets()), assets)
        invariant Grows(old(Sets()), Sets())
      {
        ghost var before := Sets();
        ExpandRefsFrom(cat, debug, before, assets, i);
        RefsSizeBound(assets, i);
        GrowsUnexpanded(cat, old(Sets()), before);
        AddRef(cat, debug, assets[i]);
        GrowsTransitive(old(Sets()), before, Sets());
        i := i + 1;
      }
    }

    /** One entry of the `foreach` in `addFromArray`. */
    method AddRef(cat: Libraries, debug: bool, ref: Ref)
      modifies this`js, this`css, this`libs
      requires Valid()
      ensures Valid()
      ensures Sets() == ExpandRef(cat, debug, old(Sets()), ref)
      decreases Unexpanded(cat, Sets()), RefSize(ref), 0
    {
      match ref {
        case Debug(rs) =>
          if debug {
            AddFromArray(cat, debug, rs);
          }
        case Prod(rs) =>
          if !debug {
            AddFromArray(cat, debug, rs);
          }
        case Plain(s) =>
          if s in cat {
            AddLib(cat, debug, s);
          } else if IsStylesheet(s) {
            AddCss(s);
          } else {
            AddJs(s);
          }
      }
    }

    /**
     * `addFromArray($asset)` on a single string, which is treated as a
     * one-element array.
     */
    method AddAsset(cat: Libraries, debug: bool, asset: string)
      modifies this`js, this`css, this`libs
      requires Valid()
      ensures Valid()
      ensures Sets() == ExpandRefs(cat, debug, old(Sets()), [Plain(asset)])
    {
      AddFromArray(cat, debug, [Plain(asset)]);
    }

    /** One `foreach ($xs as $x) $html .= f($x)` loop. */
    static method Concat<T>(f: T -> string, xs: seq<T>) returns (html: string)
      ensures html == Each(f, xs)
    {
      html := "";
      var i := 0;
      while i < |xs|
        invariant 0 <= i <= |xs|
        invariant html + Each(f, xs[i..]) == Each(f, xs)
      {
        assert xs[i..][1..] == xs[i + 1..];
        html := html + f(xs[i]);
        i := i + 1;
      }
      assert xs[i..] == [];
    }

    /** `js($flush)` */
    method Js(flush: bool) returns (html: string)
      modifies this`js, this`scripts
      requires Valid()
      ensures Valid()
      ensures html == RenderJs(old(js), old(scripts))
      ensures flush ==> js == [] && scripts == []
      ensures !flush ==> js == old(js) && scripts == old(scripts)
    {
      var pending := js;
      if flush {
        js := [];
      }
      html := Concat(ScriptTag, pending);
      if scripts != [] {
        var inline := scripts;
        if flush {
          scripts := [];
        }
        var lines := Concat(Line, inline);
        html := html + ("<script>" + EOL + lines + "</script>");
      }
    }

    /** `css($flush)` */
    method Css(flush: bool) returns (html: string)
      modifies this`css, this`styles
      requires Valid()
      ensures Valid()
      ensures html == RenderCss(old(css), old(styles))
      ensures flush ==> css == [] && styles == []
      ensures !flush ==> css == old(css) && styles == old(styles)
    {
      var pending := css;
      if flush {
        css := [];
      }
      html := Concat(LinkTag, pending);
      if styles != [] {
        var buckets := styles;
        if flush {
          styles := [];
        }
        var rules := Concat(Rule, buckets);
        html := html + ("<style>" + EOL + rules + "</style>");
      }
    }

    /** `script($code, $scriptId)`: keyed code is added only the first time its id is seen. */
    method Script(code: string, id: Option<string>)
      modifies this`scripts, this`scriptIds
      requires Valid()
      ensures Valid()
      ensures id.None? || id.value !in old(scriptIds) ==> scripts == old(scripts) + [code]
      ensures id.Some? && id.value in old(scriptIds) ==> scripts == old(scripts)
      ensures scriptIds == old(scriptIds) + (if id.Some? then {id.value} else {})
    {
      if id.None? || id.value !in scriptIds {
        scripts := scripts + [code];
        if id.Some? {
          scriptIds := scriptIds + {id.value};
        }
      }
    }

    /** `hasStyle($selector)` */
    function HasStyle(selector: string): (r: bool)
      reads this
      ensures r <==> selector in Keys(styles)
    {
      LookupFound(styles, selector);
      Lookup(styles, selector).Some?
    }

    /** `getStyle($selector)` as intended: the bucket's text, or nothing (`false`). */
    function GetStyle(selector: string): (r: Option<string>)
      reads this
      requires Valid()
      ensures r.Some? <==> HasStyle(selector)
      ensures r.Some? ==> (selector, r.value) in styles
    {
      LookupFound(styles, selector);
      var found := Lookup(styles, selector);
      if found.Some? then LookupIn(styles, selector, found.value); found else found
    }

    /**
     * `getStyle($selector)` as written: it calls a free function `hasStyle`
     * that is not defined, so every call ends in a fatal error.
     */
    function GetStyleAsWritten(selector: string): (r: Result<Option<string>>)
      ensures r.Failure?
    {
      Failure("Call to undefined function SimplePHP\\hasStyle()")
    }

    /** `style($style, $selector)`, "" standing for no selector. */
    method Style(input: StyleInput, selector: string)
      modifies this`styles
      requires Valid()
      ensures Valid()
      ensures selector == "" || StyleText(input) != "" ==>
        styles == Appended(old(styles), selector, StyleText(input))
      ensures selector != "" && StyleText(input) == "" ==> styles == old(styles)
    {
      var text := StyleText(input);
      if selector == "" || text != "" {
        AppendedSpec(styles, selector, text);
        styles := Appended(styles, selector, text);
      }
    }
  }

  lemma {:induction false} RefsSizeBound(refs: seq<Ref>, i: int)
    requires 0 <= i < |refs|
    ensures RefSize(refs[i]) <= RefsSize(refs)
  {
    if i > 0 {
      RefsSizeBound(refs[1..], i - 1);
    }
  }
}
