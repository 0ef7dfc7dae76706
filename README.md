# Small asset manager: a Dafny model

This project models `Assets.php` of the `simple-php/assets` library. That file defines two classes:

- **`Assets`** collects the assets a PHP page needs and renders them as HTML:
  - script and stylesheet URLs, each kept once, in order of first inclusion;
  - named libraries from a catalog, each expanded at most once. Catalog entries can have `debug`-only and `prod`-only parts;
  - inline scripts, optionally de-duplicated by an id;
  - inline CSS, held in buckets keyed by selector.
- **`Style`** is a CSS builder:
  - it addresses properties through a canonical name, so `background_color`, `backgroundColor` and `background-color` name the same property;
  - it serialises the properties as `prop:value;` in key order;
  - it saves itself under a selector, or under a generated class name that is interned by the CSS text.

The model has these modules:

| module | file | contents |
|---|---|---|
| `Collections` | `collections.dfy` | an `Option` and a `Result` type; `Insert`, which is a PHP array used as an ordered set (`$a[$x] = true`) |
| `Strings` | `strings.dfy` | `explode`/`implode` on one character (`Split`/`Join`) and their round trips; byte-wise string order (`StrLess`), a strict total order; decimal numerals |
| `CssText` | `css_text.dfy` | `_filterProp`; the property table as an insertion-ordered association list (`Put`, `Remove`, `Lookup`); `ksort` as insertion sort; serialisation; the `"p: v; q: w"` parser |
| `Spellings` | `spellings.dfy` | the snake, camel and dash spellings of a two-word property name |
| `Catalog` | `catalog.dfy` | expansion of asset references against a library catalog: the value-level specification of `addFromArray`/`addLib` |
| `Assets` | `assets.dfy` | HTML rendering; the `Registry` class (the `Assets` object), whose methods change its fields in place and are proved against the functions above |
| `StyleBuilder` | `style_builder.dfy` | the `Style` class and the builder's process-wide class-name tables (`ClassInterner`) |
| `Scenarios` | `scenarios.dfy` | the behaviour described in the library's own documentation, stated against the imperative model with symbolic inputs |

Modelling choices:

- The library catalog (`Assets::$libs`) and the debug flag (`Assets::$debug`) are parameters, `cat` and `debug`.
- A PHP array of assets is a `seq<Ref>`. A `'debug' => …` or `'prod' => …` entry is a `Debug` or `Prod` reference.
- A registry field that PHP uses as an ordered set (`_js`, `_css`, `_libs`) is a duplicate-free `seq`.
- `_styles` and the builder's `_css` are association lists that keep first-insertion order.
- `PHP_EOL` is `"\n"`.

## Model

| member | source | states |
|---|---|---|
| Collections.Insert | Assets.php:105 | `$a[$x] = true` on an ordered set: an old element leaves the sequence unchanged, a new one is appended at the end; the old sequence is a prefix, the elements are the old ones plus `x`, and it stays duplicate-free |
| Strings.FirstIndexAfter | Assets.php:339 | in `a + [d] + b` with `d` not in `a`, the first `d` is at position `|a|` |
| Strings.Split | Assets.php:337 | `explode` on one character gives at least one piece, and no piece holds the separator |
| Strings.SplitAfterSeparator | Assets.php:337 | `explode` on `a;b` with no `;` in `a` gives `a` followed by the pieces of `b` |
| Strings.SplitNoSeparator | Assets.php:337 | `explode` on text without the separator gives the text alone |
| Strings.JoinSplit | Assets.php:337 | joining the pieces of `explode` with the separator gives the text back |
| Strings.SplitJoin | Assets.php:337 | `explode` undoes joining a non-empty list of pieces that hold no separator |
| Strings.StrLessTotal | Assets.php:349 | the key order of `ksort` on string keys relates any two distinct keys |
| Strings.StrLessTransitive | Assets.php:349 | the key order is transitive |
| Strings.StrLessIrreflexive | Assets.php:349 | no key is below itself |
| Strings.StrLessAsymmetric | Assets.php:349 | no two keys are each below the other |
| Strings.FreshNumeralExists | Assets.php:381-383 | for any finite set of issued names and any prefix, some number gives a name not yet issued, so the retry loop can end |
| Strings.NatToString | Assets.php:377 | the `.` concatenation of an integer appends a non-empty run of decimal digits |
| Strings.LongNumeral | Assets.php:377 | for every length, some number has a longer numeral |
| CssText.ToLower | Assets.php:318 | `strtolower` on one character leaves no capital, keeps whitespace and `_`, and changes nothing else |
| CssText.TrimRight | Assets.php:318 | `trim` leaves no trailing whitespace and returns a prefix (that only whitespace goes is `TrimRightStrips`) |
| CssText.TrimLeftStrips | Assets.php:318 | the left strip of `trim` keeps a suffix of the text and everything it takes away is whitespace |
| CssText.TrimRightStrips | Assets.php:318 | the right strip of `trim` takes away only whitespace from the end |
| CssText.Trim | Assets.php:318 | `trim` leaves no whitespace at either end (how it relates to its input is `TrimStrips` and `TrimDetermined`) |
| CssText.TrimStrips | Assets.php:318 | the text is a run of whitespace, then `trim`'s result, then a run of whitespace, and the result neither starts nor ends with whitespace |
| CssText.TrimDetermined | Assets.php:318 | any cut of the text into a whitespace run, a middle with no whitespace at its ends, and a whitespace run has `trim`'s result as its middle: these bounds define `trim` |
| CssText.DashUnderscores | Assets.php:318 | `str_replace('_', '-', …)` changes exactly the underscores, position by position |
| CssText.CamelToDash | Assets.php:318 | the regex replacement keeps the first and last character, adds nothing but dashes, and is the identity on text without capitals (where the dashes go is `CamelToDashSplit`) |
| CssText.CamelToDashSplit | Assets.php:318 | the replacement over `a + b` is the replacement over `a`, then one dash exactly when the last character of `a` is a letter and the first of `b` a capital, then the replacement over `b`; so each letter followed by a capital gets a dash |
| CssText.Lower | Assets.php:318 | `strtolower` maps every position through the character mapping |
| CssText.FilterProp | Assets.php:316-319 | `_filterProp` leaves no underscore and no capital |
| CssText.FilterPropChars | Assets.php:316-319 | the output of `_filterProp` has canonical characters: besides the above, no whitespace at either end |
| CssText.CanonicalIff | Assets.php:316-319 | `_filterProp` leaves a name unchanged exactly when the name has canonical characters (both directions) |
| CssText.FilterPropIdempotent | Assets.php:316-319 | `_filterProp` applied twice gives the same as once |
| CssText.Lookup | Assets.php:323 | `$css[$k]`: whatever is found under `k` is a pair `(k, value)` of the table |
| CssText.LookupFound | Assets.php:323 | `$css[$k]` is set exactly when `k` is one of the keys |
| CssText.LookupIn | Assets.php:323 | in a table with distinct keys, a pair is present exactly when looking its key up finds its value |
| CssText.Put | Assets.php:328 | `$css[$k] = $v`: the pair `(k, v)` is in the table afterwards, which is at most one entry longer |
| CssText.PutKeys | Assets.php:328 | after `$css[$k] = $v` the keys are the old keys with `k` inserted as an ordered-set element: an existing key keeps its position |
| CssText.PutLookup | Assets.php:328 | after `$css[$k] = $v`, `k` holds `v` and every other key holds what it held before |
| CssText.PutCanonical | Assets.php:326-329 | setting a canonical key keeps the table's keys distinct and canonical |
| CssText.PutFresh | Assets.php:328 | `$css[$k] = $v` for a new key appends the pair |
| CssText.Remove | Assets.php:411 | `unset($css[$k])`: no entry has key `k` afterwards, every entry was there before, and the table is no longer |
| CssText.RemoveKeys | Assets.php:411 | `unset` leaves `k` absent, adds no key and keeps the keys distinct |
| CssText.RemoveLookup | Assets.php:411 | after `unset`, `k` is absent and every other key is unchanged |
| CssText.RemoveCanonical | Assets.php:409-412 | `unset` keeps the table canonical |
| CssText.SetAll | Assets.php:333-335 | setting pairs one after another through `__set`: the last pair set is in the table, under its canonical name |
| CssText.SetAllCanonical | Assets.php:331-345 | setting any pairs through `__set` keeps a table canonical |
| CssText.SetAllFresh | Assets.php:231-233 | setting pairs whose keys are canonical and new appends them unchanged |
| CssText.ParsePiece | Assets.php:339-342 | `explode(':', $s, 2)` with `count == 2`: no pair exactly when the piece has no `:`; otherwise the name holds no `:` and name, `:`, value give the piece back |
| CssText.ParsePieces | Assets.php:338-343 | at most one declaration per piece; pieces without `;` give keys free of `:` and `;` and values free of `;` |
| CssText.SetAllPieces | Assets.php:338-343 | a piece without `:` is skipped; a piece with one sets its name and value, then the rest follow |
| CssText.ParseDeclaration | Assets.php:339-341 | a declaration `k:v` whose name holds no `:` parses to `(k, v)`, a value with further `:` included |
| CssText.Declarations | Assets.php:337-343 | every declaration parsed out of a string has a key without `:` or `;` and a value without `;`, so it serialises back to one piece |
| CssText.DeclarationsOfDecls | Assets.php:337-352 | for pairs whose keys hold no `:` or `;` and whose values hold no `;`, parsing the concatenated `prop:value;` text gives back exactly the pairs, in order |
| CssText.ReloadSerialized | Assets.php:331-354 | round trip, for a canonical table whose keys hold no `:` or `;` and whose values hold no `;`: `add` of its `css()` text into an empty builder rebuilds the table in `ksort` order |
| CssText.InsertByKey | Assets.php:349 | one insertion step of `ksort` adds one entry, the new pair |
| CssText.SortByKey | Assets.php:349 | `ksort` keeps the number of entries (its permutation and order properties follow) |
| CssText.InsertByKeyPairs | Assets.php:349 | one insertion step of `ksort` adds exactly the new pair (multiset) |
| CssText.InsertByKeyMembers | Assets.php:349 | one insertion step adds no pair other than the new one |
| CssText.InsertByKeySorted | Assets.php:349 | inserting a pair with a new key into a sorted table keeps it strictly sorted |
| CssText.SortByKeyPairs | Assets.php:349 | `ksort` is a permutation of the table (multiset equality) |
| CssText.SortByKeySorted | Assets.php:349 | `ksort` of a table with distinct keys is in strictly ascending key order |
| CssText.SortedDistinct | Assets.php:349 | a strictly sorted table has distinct keys |
| CssText.SortedUnique | Assets.php:349 | two strictly sorted tables with the same pairs are equal |
| CssText.SortByKeyCanonical | Assets.php:349 | `ksort` keeps a table canonical |
| CssText.SortByKeyParsable | Assets.php:349 | `ksort` keeps keys free of `:`/`;` and values free of `;` |
| CssText.Serialize | Assets.php:347-354 | `css()` text is empty exactly when the table is empty, and otherwise ends with the `;` of its last declaration |
| CssText.DeclsEnd | Assets.php:350-352 | the concatenated declarations are empty exactly for no pairs, and otherwise end with `;` |
| CssText.SerializeOrderIndependent | Assets.php:347-354 | tables that give every property the same value serialise identically, whatever order the properties were set in |
| Spellings.Capital | Assets.php:318 | the capital of a lower-case letter is upper case and lowers back to it |
| Spellings.CamelJoin | Assets.php:318 | the regex inserts exactly one dash, between a lower-case word and the capital after it |
| Spellings.SpellDash | Assets.php:316-319 | `word-word` in lower case is canonical |
| Spellings.SpellSnake | Assets.php:316-319 | `word_word` becomes `word-word` |
| Spellings.SpellCamel | Assets.php:316-319 | `wordWord` becomes `word-word` |
| Spellings.SpellingsAgree | Assets.php:316-319 | the snake, camel and dash spellings of two lower-case words all name the dash spelling |
| Catalog.IsStylesheet | Assets.php:130 | a stylesheet ends in `.css` or contains `.css?v=` |
| Catalog.AddUrl | Assets.php:130-134 | a stylesheet URL ends up in `_css` and leaves `_js` alone; any other URL ends up in `_js` and leaves `_css` alone; nothing is removed and no library is marked |
| Catalog.ExpandRefs | Assets.php:120-137 | `addFromArray` only appends to the three lists; it terminates on every catalog, cyclic ones included |
| Catalog.ExpandRef | Assets.php:122-135 | a `debug` entry applies only in debug mode, a `prod` entry only outside it; a name in the catalog goes to `addLib`, a stylesheet URL to `addCss`, any other URL to `addJs` |
| Catalog.ExpandLib | Assets.php:92-98 | `addLib` ignores a marked or unknown name, and otherwise marks the name before expanding it |
| Catalog.ExpandRefsFrom | Assets.php:122 | the `foreach` takes the entry at `i` first, then the rest |
| Catalog.GrowsUnexpanded | Assets.php:93-95 | appending never brings back a library already expanded |
| Catalog.ExpandRefsWellFormed | Assets.php:92-137 | after expansion no URL is listed twice, no library is marked twice, and only catalog names are marked |
| Catalog.ExpandLibWellFormed | Assets.php:92-98 | `addLib` keeps the lists duplicate-free and marks only catalog names |
| Catalog.ExpandRefsAbsorbs | Assets.php:120-137 | after `addFromArray`, every entry of the list and of its active `debug`/`prod` sublists is included: a catalog name is marked, a stylesheet is in `_css`, any other URL is in `_js` |
| Catalog.AllAbsorbedGrows | Assets.php:120-137 | an included entry stays included as the lists grow |
| Catalog.ExpandAbsorbedNoop | Assets.php:92-114 | expanding entries that are all included already changes nothing |
| Catalog.ExpandIdempotent | Assets.php:120-137 | adding the same assets twice is the same as adding them once |
| Catalog.ExpandConcat | Assets.php:122 | adding `a + b` is adding `a`, then `b` |
| Catalog.ExpandRefsClassified | Assets.php:128-134 | every URL newly in `_css` is a stylesheet, every one newly in `_js` is not, and every new mark is a catalog name |
| Assets.EachAppend | Assets.php:148-150 | the output of a rendering loop over `a + b` is the output over `a` followed by the output over `b` |
| Assets.EachSplit | Assets.php:148-150 | each element's rendering sits between those of the elements before and after it |
| Assets.EachContains | Assets.php:148-150 | every element's rendering occurs in the output |
| Assets.EachEmpty | Assets.php:148-150 | when no element renders as empty, the output is empty exactly when there are no elements |
| Assets.RenderJs | Assets.php:144-161 | the HTML of `js()` starts with the tag of the first pending URL and, when inline code is pending, ends with `</script>` |
| Assets.RenderCss | Assets.php:168-190 | the HTML of `css()` starts with the link of the first pending URL and, when a style bucket exists, ends with `</style>` |
| Assets.RenderJsEmpty | Assets.php:144-161 | `js()` returns `''` exactly when no URL and no inline script is pending |
| Assets.RenderCssEmpty | Assets.php:168-190 | `css()` returns `''` exactly when no URL and no style bucket is pending |
| Assets.RenderJsLists | Assets.php:148-157 | every pending URL gets its `<script src>` tag and every inline script its line |
| Assets.RenderCssLists | Assets.php:172-186 | every pending URL gets its `<link>` and every bucket its rule |
| Assets.RenderJsAppend | Assets.php:148-150 | a URL added later renders after those added before it |
| Assets.RenderCssAppend | Assets.php:172-174 | a stylesheet added later renders after those added before it |
| Assets.StyleTextAsWritten | Assets.php:227-239 | `_styleToString` as written fails exactly for a builder object; raw text and arrays convert as intended |
| Assets.StyleText | Assets.php:227-239 | the intended `_styleToString`: raw text ends with EOL; the text of an array or a builder is empty or ends with `;` |
| Assets.StyleTextEmpty | Assets.php:227-239 | raw text never converts to `''`; an array or a builder converts to `''` exactly when it holds no properties |
| Assets.BuilderText | Assets.php:235-236 | a builder converts to its own `css()` text |
| Assets.Appended | Assets.php:250-261 | appending to a bucket adds at most one entry, and a new selector's bucket holds exactly the text |
| Assets.AppendedSpec | Assets.php:250-261 | appending to a bucket: a new selector is inserted at the end, and an existing one keeps its position. Every other bucket is unchanged. A new bucket holds the text; an existing one gets an EOL and then the text |
| Assets.Registry.constructor | Assets.php:81-86 | a fresh registry is empty |
| Assets.Registry.AddJs | Assets.php:104-106 | `_js` becomes the ordered-set insert of the URL; keeps the registry valid (no duplicate URL or mark, one bucket per selector) |
| Assets.Registry.AddCss | Assets.php:112-114 | `_css` becomes the ordered-set insert of the URL; keeps the registry valid (no duplicate URL or mark, one bucket per selector) |
| Assets.Registry.AddLib | Assets.php:92-98 | the lists become the library expansion of the old lists; keeps the registry valid (no duplicate URL or mark, one bucket per selector) |
| Assets.Registry.AddFromArray | Assets.php:120-137 | the loop leaves the lists equal to the expansion of the old lists by the array; keeps the registry valid (no duplicate URL or mark, one bucket per selector) |
| Assets.Registry.AddRef | Assets.php:123-135 | one loop step leaves the lists equal to the expansion of the entry; keeps the registry valid (no duplicate URL or mark, one bucket per selector) |
| Assets.Registry.AddAsset | Assets.php:121 | a single string is added as a one-element array; keeps the registry valid (no duplicate URL or mark, one bucket per selector) |
| Assets.Registry.Concat | Assets.php:148-150 | the string-building loop produces the concatenation of the renderings |
| Assets.Registry.Js | Assets.php:144-161 | returns the HTML of the pending URLs and scripts. With `flush`, both lists are emptied; without it, nothing changes; keeps the registry valid (no duplicate URL or mark, one bucket per selector) |
| Assets.Registry.Css | Assets.php:168-190 | returns the HTML of the pending URLs and buckets. With `flush`, both are emptied; without it, nothing changes; keeps the registry valid (no duplicate URL or mark, one bucket per selector) |
| Assets.Registry.Script | Assets.php:197-202 | code without an id, or with an id not seen before, is appended; code whose id was seen is dropped; the id is recorded; keeps the registry valid (no duplicate URL or mark, one bucket per selector) |
| Assets.Registry.HasStyle | Assets.php:209-211 | true exactly when a bucket exists for the selector |
| Assets.Registry.GetStyle | Assets.php:218-220 | the bucket's text when it exists, and nothing (`false`) otherwise |
| Assets.Registry.GetStyleAsWritten | Assets.php:219 | as written, every call fails |
| Assets.Registry.Style | Assets.php:248-264 | with the intended builder conversion (see Findings): no selector: always appends to the `''` bucket. With a selector: appends only when the converted text is non-empty. Keeps the buckets distinct |
| StyleBuilder.ClassInterner.constructor | Assets.php:302-303 | the tables start empty, and every recorded name was issued |
| StyleBuilder.PickName | Assets.php:375-383 | the chosen name was not issued before. It starts with the preferred name, or with `class` when none is given. It is the preferred name itself when that is free |
| StyleBuilder.DrawFresh | Assets.php:382 | the `rand` draw is some number whose name after the prefix is free |
| StyleBuilder.Style.constructor | Assets.php:306-314 | a fresh builder has no properties |
| StyleBuilder.Style.Get | Assets.php:321-324 | finds a value exactly when the canonical name is set, and the value is the one stored under it |
| StyleBuilder.Style.Set | Assets.php:326-329 | stores the value under the canonical name and keeps the table canonical |
| StyleBuilder.Style.Has | Assets.php:394-397 | true exactly when the canonical name is set |
| StyleBuilder.Style.Unset | Assets.php:409-412 | removes the canonical name and nothing else |
| StyleBuilder.Style.Add | Assets.php:331-345 | an array is set pair by pair; a string is parsed into declarations that are set in order; anything else is ignored |
| StyleBuilder.Style.SetPairs | Assets.php:333-335 | the loop sets every pair in order |
| StyleBuilder.Style.AddText | Assets.php:337-343 | the loop sets every parsed declaration in order |
| StyleBuilder.Style.Css | Assets.php:347-354 | sorts the table in place by key and returns the serialised text |
| StyleBuilder.Style.Save | Assets.php:360-362 | with the intended builder conversion (see Findings): saves the builder's text under the selector, with the rules of `style()`, and leaves the table sorted |
| StyleBuilder.Style.SaveClass | Assets.php:369-390 | an empty style saves nothing and returns `false`. Known CSS text returns the class name already issued for it and saves nothing again. New text gets a name not issued before (the preferred name when free); the name is recorded and the rule `.name` is saved |
| Scenarios.DebugAndProduction | Assets.php:120-137 | a library with `debug` and `prod` parts includes the debug URL in debug mode and the production URL otherwise |
| Scenarios.LibraryExpandedOnce | Assets.php:92-98 | a library that lists itself, added twice, renders each of its URLs exactly once |
| Scenarios.FlushAndKeyedScript | Assets.php:144-202 | `js()` renders the tags and the inline block, and flushes them; later code under a seen id is dropped |
| Scenarios.UnkeyedScripts | Assets.php:197-202 | code without an id is included each time it is added |
| Scenarios.SameProperty | Assets.php:321-329 | a value set through the camel spelling is read back through the dash and the snake spelling with `Get`, and the camel spelling is reported set by `Has` |
| Scenarios.StyleBuckets | Assets.php:248-264 | `''`-selector texts accumulate verbatim, separated by EOL. A selector gets a `{ … }` rule. An empty property array under a selector is skipped |
| Scenarios.DeclarationsDropJunk | Assets.php:337-343 | a piece without `:` is dropped between two declarations |
| Scenarios.InternTwice | Assets.php:369-390 | two builders with the same properties, set in different orders, are given the same class name; an empty builder gets `false` |
| Scenarios.StyleToStringDefect | Assets.php:235-238 | as written, a builder passed to `style()` fails to convert; as intended, it converts to its `css()` text |
| Scenarios.GetStyleDefect | Assets.php:218-220 | as written, `getStyle` fails even for an existing bucket; as intended, it returns that bucket's text |

## Left out

- The static facade and the singleton (`add`, `addScript`, `addStyle`, `getInstance`, `getJs`, `getCss`, `newStyle`; Assets.php:45-79, 272-274) only forward to one shared instance. The model passes that instance explicitly. In the source, `save` and `saveClass` call `$this->_assets->addStyle(...)` (Assets.php:361, 386), but `addStyle` is static (Assets.php:53-55) and always forwards to `getInstance()`, whatever `_assets` holds; so `Save` and `SaveClass` take the registry, standing for that shared instance, as a parameter, and the builder keeps no `_assets` field.
- The class-name tables `_cssIndex`/`_classes` are static in PHP. Here they are the object `ClassInterner`, passed explicitly.
- `rand(0, 2000000000)`, the pseudo-random generator, is a nondeterministic choice of a natural number. The range bound is not modelled: the generated names would run out after 2000000001 of them, and the model then still has a fresh one.
- `PickName`: the termination argument allows one redraw. After the first redraw the name is free, so the `while` runs its body at most once. The source may redraw several times, so the model does not bound how many draws the source makes.
- PHP truthiness: `style()` tests `!$selector` and `if ($css)`. The model takes the empty string as the only false value. The selector `"0"` is treated as a selector, where PHP treats it as none. Converted CSS text is never `"0"`, so `if ($css)` is exact.
- `ksort` sorts string keys byte-wise here. PHP 8 compares numeric-string keys numerically; property names are not numeric. `ksort` is specified as a function (insertion sort); the builder's `Css` reassigns the sorted table rather than sorting in place.
- The PCRE engine is not modelled. `preg_replace('/([a-zA-Z])(?=[A-Z])/', '$1-', …)` is the character rule it computes. `trim` and `strtolower` are their ASCII behaviour.
- Reading an unset property through `__get` raises a PHP notice and yields `null`; the model returns `None`. There are no notices, warnings or error output.
- The PHP `ArrayAccess` and magic-method syntax (`$s['x'] = …`, `$s->x = …`) is plain method calls. `offsetGet` and `offsetSet` are `Get` and `Set`.
- `PHP_EOL` is fixed to `"\n"`.
- TrimRight: its own `ensures` give only a prefix with no trailing whitespace. That only whitespace is taken away is the lemma `TrimRightStrips`, kept apart from the function so that the many proofs that go through `_filterProp` stay cheap.
- Trim: its own `ensures` say only that neither end is whitespace. How the result sits inside the input is the lemmas `TrimStrips` and `TrimDetermined`, kept apart for the same reason.
- CamelToDash: its own `ensures` do not say where the dashes go. The general rule is the lemma `CamelToDashSplit`; `Spellings.CamelJoin` states it separately for the two-word shape.
- The contents of the library catalog (Assets.php:16-37) are a parameter, like the debug flag (Assets.php:39). Scenarios build small catalogs of the same shapes.
- URLs, scripts and CSS text are not escaped, checked or fetched, as in the source.
- `add` ignores every value that is neither an array nor a string. The model represents such a value by a builder object (the `Builder` case of `StyleInput`), which `add` ignores too; other kinds of value (a number, `null`) are not represented separately.
- Integer array keys in an asset list (e.g. `[0 => 'x']`): only the string keys `'debug'` and `'prod'` are distinguished, as in the source. Other keys are not represented.

## Findings

| source | as written | input that shows it | evidently intended | confidence | as-written member | corrected member |
|---|---|---|---|---|---|---|
| Assets.php:219 | `getStyle` calls `hasStyle($selector)` as a free function in namespace `SimplePHP`; no such function exists, so every call is a fatal error | any selector, including one whose bucket exists | `$this->hasStyle($selector)`: the bucket's text, or `false` | high; not executed | Assets.Registry.GetStyleAsWritten, Scenarios.GetStyleDefect | Assets.Registry.GetStyle |
| Assets.php:235 | `_styleToString` tests `is_a($style, '\\SimplePHP\\Css\\Style')`, but the builder class is `\SimplePHP\Style`. A builder falls through to `$style.PHP_EOL`, and `Style` has no `__toString`, so the conversion is an error; `save()` always passes a builder | `style($builder, 'p')` with one property set, as `save('p')` does | the builder's own `css()` text | high; not executed | Assets.StyleTextAsWritten, Scenarios.StyleToStringDefect | Assets.StyleText |
