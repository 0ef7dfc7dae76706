/**
 * The CSS builder `Style`: a property table addressed through canonical
 * property names, serialised in key order, and saved either under a
 * selector or under an interned class name.
 */
module StyleBuilder {
  import opened Collections
  import opened Strings
  import opened CssText
  import opened Assets

  /**
   * The builder's process-wide tables: `_cssIndex` (CSS text to the class
   * name issued for it) and `_classes` (every class name issued).
   */
  class ClassInterner {
    var cssIndex: map<string, string>
    var classes: set<string>

    /** The empty text is never indexed, every recorded name was issued, and no two texts share a name. */
    ghost predicate Valid()
      reads this
    {
      "" !in cssIndex &&
      (forall text :: text in cssIndex ==> cssIndex[text] in classes) &&
      (forall a, b :: a in cssIndex && b in cssIndex && a != b ==> cssIndex[a] != cssIndex[b])
    }

    constructor()
      ensures Valid() && cssIndex == map[] && classes == {}
    {
      cssIndex, classes := map[], {};
    }
  }

  /**
   * `rand(0, 2000000000)` in the retry loop of `saveClass`: some number
   * whose numeral, after the prefix, names no issued class.
   */
  method DrawFresh(prefix: string, taken: set<string>) returns (n: nat)
    ensures prefix + NatToString(n) !in taken
  {
    FreshNumeralExists(prefix, taken);
    n :| prefix + NatToString(n) !in taken;
  }

  /**
   * The class name `saveClass` settles on for new CSS text: the preferred
   * name, or `class` followed by a random number, redrawn after the prefix
   * while the name is taken.
   */
  method PickName(taken: set<string>, preferred: string) returns (candidate: string)
    ensures candidate !in taken
    ensures StartsWith(candidate, if preferred == "" then "class" else preferred)
    ensures preferred != "" && preferred !in taken ==> candidate == preferred
  {
    var prefix;
    if preferred == "" {
      prefix := "class";
      var n: nat :| true;
      candidate := prefix + NatToString(n);
    } else {
      prefix := preferred;
      candidate := preferred;
    }
    while candidate in taken
      invariant StartsWith(candidate, prefix)
      invariant preferred != "" && preferred !in taken ==> candidate == preferred
      decreases if candidate in taken then 1 else 0
    {
      var n := DrawFresh(prefix, taken);
      candidate := prefix + NatToString(n);
    }
  }

  class Style {
    var props: Props

    /** Every key is a canonical property name, and no key occurs twice. */
    ghost predicate Valid()
      reads this
    {
      CanonicalProps(props)
    }

    constructor()
      ensures Valid() && props == []
    {
      props := [];
    }

    /** `__get($prop)` / `offsetGet`: the value under the canonical name, if set. */
    function Get(prop: string): (r: Option<string>)
      reads this
      requires Valid()
      ensures r.Some? <==> FilterProp(prop) in Keys(props)
      ensures r.Some? ==> (FilterProp(prop), r.value) in props
    {
      var key := FilterProp(prop);
      LookupFound(props, key);
      var found := Lookup(props, key);
      if found.Some? then LookupIn(props, key, found.value); found else found
    }

    /** `__set($prop, $value)` / `offsetSet` */
    method Set(prop: string, value: string)
      modifies this`props
      requires Valid()
      ensures Valid()
      ensures props == Put(old(props), FilterProp(prop), value)
    {
      FilterPropIdempotent(prop);
      PutCanonical(props, FilterProp(prop), value);
      props := Put(props, FilterProp(prop), value);
    }

    /** `offsetExists($offset)` */
    function Has(offset: string): (r: bool)
      reads this
      ensures r <==> FilterProp(offset) in Keys(props)
    {
      LookupFound(props, FilterProp(offset));
      Lookup(props, FilterProp(offset)).Some?
    }

    /** `offsetUnset($offset)` */
    method Unset(offset: string)
      modifies this`props
      requires Valid()
      ensures Valid()
      ensures props == Remove(old(props), FilterProp(offset))
    {
      RemoveCanonical(props, FilterProp(offset));
      props := Remove(props, FilterProp(offset));
    }

    /**
     * `add($style)`: an array is set pair by pair; a string is split on ';'
     * and every piece with a ':' is set, name before the first ':', value
     * after it. Anything else is ignored: `add` tests only `is_array` and
     * `is_string`, so a builder object passed to it (the `Builder` case)
     * changes nothing, like a number or `null` would.
     */
    method Add(input: StyleInput)
      modifies this`props
      requires Valid()
      ensures Valid()
      ensures input.PropMap? ==> props == SetAll(old(props), input.pairs)
      ensures input.RawText? ==> props == SetAll(old(props), Declarations(input.text))
      ensures input.Builder? ==> props == old(props)
    {
      match input {
        case PropMap(pairs) => SetPairs(pairs);
        case RawText(text) => AddText(text);
        case Builder(_) =>
      }
    }

    /** The `foreach` over an array argument of `add`. */
    method SetPairs(pairs: Props)
      modifies this`props
      requires Valid()
      ensures Valid()
      ensures props == SetAll(old(props), pairs)
    {
      var i := 0;
      while i < |pairs|
        invariant 0 <= i <= |pairs|
        invariant Valid()
        invariant SetAll(props, pairs[i..]) == SetAll(old(props), pairs)
      {
        SetAllFrom(props, pairs, i);
        Set(pairs[i].0, pairs[i].1);
        i := i + 1;
      }
      assert pairs[i..] == [];
    }

    /** The `explode` and `foreach` over a string argument of `add`. */
    method AddText(text: string)
      modifies this`props
      requires Valid()
      ensures Valid()
      ensures props == SetAll(old(props), Declarations(text))
    {
      var pieces := Split(text, ';');
      var i := 0;
      while i < |pieces|
        invariant 0 <= i <= |pieces|
        invariant Valid()
        invariant SetAll(props, ParsePieces(pieces[i..])) == SetAll(old(props), ParsePieces(pieces))
      {
        assert pieces[i..][0] == pieces[i] && pieces[i..][1..] == pieces[i + 1..];
        SetAllPieces(props, pieces[i..]);
        var declaration := ParsePiece(pieces[i]);
        if declaration.Some? {
          Set(declaration.value.0, declaration.value.1);
        }
        i := i + 1;
      }
      assert pieces[i..] == [];
    }

    /** `css()`: sorts the table by key in place, then concatenates `prop:value;`. */
    method Css() returns (text: string)
      modifies this`props
      requires Valid()
      ensures Valid()
      ensures props == SortByKey(old(props))
      ensures text == Serialize(old(props))
    {
      SortByKeyCanonical(props);
      props := SortByKey(props);
      text := "";
      var i := 0;
      while i < |props|
        invariant 0 <= i <= |props|
        invariant text + Decls(props[i..]) == Decls(props)
      {
        assert props[i..][1..] == props[i + 1..];
        text := text + (props[i].0 + ":" + props[i].1 + ";");
        i := i + 1;
      }
      assert props[i..] == [];
    }

    /** `save($selector)`, with the builder passed to `style()` as a builder. */
    method Save(registry: Registry, selector: string)
      modifies this`props, registry`styles
      requires Valid() && registry.Valid()
      ensures Valid() && registry.Valid()
      ensures props == SortByKey(old(props))
      ensures selector == "" || old(Serialize(props)) != "" ==>
        registry.styles == Appended(old(registry.styles), selector, old(Serialize(props)))
      ensures selector != "" && old(Serialize(props)) == "" ==> registry.styles == old(registry.styles)
    {
      BuilderText(props);
      registry.Style(Builder(props), selector);
      SortByKeyCanonical(props);
      props := SortByKey(props);
    }

    /**
     * `saveClass($className)`: None (`false`) for an empty style; the name
     * already issued for the same CSS text; otherwise a fresh name starting
     * with the preferred name (or `class`), recorded in both tables and
     * saved as the rule `.name`.
     */
    method SaveClass(interner: ClassInterner, registry: Registry, preferred: string)
      returns (name: Option<string>)
      modifies this`props, interner, registry`styles
      requires Valid() && interner.Valid() && registry.Valid()
      ensures Valid() && interner.Valid() && registry.Valid()
      ensures props == SortByKey(old(props))
      ensures name.None? <==> old(Serialize(props)) == ""
      ensures name.None? ==> unchanged(interner) && registry.styles == old(registry.styles)
      ensures old(Serialize(props)) in old(interner.cssIndex) ==>
        name == Some(old(interner.cssIndex)[old(Serialize(props))]) &&
        unchanged(interner) && registry.styles == old(registry.styles)
      ensures name.Some? && old(Serialize(props)) !in old(interner.cssIndex) ==>
        name.value !in old(interner.classes) &&
        StartsWith(name.value, if preferred == "" then "class" else preferred) &&
        (preferred != "" && preferred !in old(interner.classes) ==> name.value == preferred) &&
        interner.classes == old(interner.classes) + {name.value} &&
        interner.cssIndex == old(interner.cssIndex)[old(Serialize(props)) := name.value] &&
        registry.styles == Appended(old(registry.styles), "." + name.value, old(Serialize(props)) + EOL)
    {
      var text := Css();
      if text == "" {
        return None;
      }
      if text in interner.cssIndex {
        return Some(interner.cssIndex[text]);
      }
      var candidate := PickName(interner.classes, preferred);
      interner.classes := interner.classes + {candidate};
      interner.cssIndex := interner.cssIndex[text := candidate];
      registry.Style(RawText(text), "." + candidate);
      name := Some(candidate);
    }
  }
}
