# esbuild-plugin-global-externals, modelled in Dafny

The plugin replaces imports of configured package names with stand-in
modules that re-export a global variable. This project models its three
pure, string-level pieces and proves what each one promises:

- **Content synthesis** (`src/on-load.ts`, module `OnLoad`): `createContents`
  turns a module type, a variable name and an optional list of export names
  into source text. A CommonJS stand-in is the single line
  `module.exports = v;`. An ES-module stand-in is `export default v;`
  followed by one `const n = v.n; export { n };` line per distinct export
  name, in first-occurrence order (`[...new Set(names)]`), joined by
  newlines. Deduplication is modelled twice: as the recursive reference
  `Unique`, whose contract is shown to determine it uniquely, and as
  `UniqueBySet`, the single pass with a set of seen names that the runtime
  performs.
- **Descriptor normalisation** (`src/module-info.ts`, module `Info`):
  `normalizeModuleInfo` maps a bare variable name or a partial record to a
  complete record. `type` defaults to `"esm"` and `namedExports` to `null`,
  and nothing else changes.
- **Module filter and callbacks** (`src/index.ts`, modules `Filter` and
  `GlobalExternals`): the filter is the pattern `^(?:k1|k2|…)$` built from the
  keys of the globals object. The resolve callback keeps the path and sets
  the namespace to `"global-externals"`. The load callback looks up the
  variable name, fails when it is missing or empty, and otherwise returns
  `export default v;`.

No regular-expression engine is modelled. `Filter.Test` gives the meaning
of the fragment that patterns built from plain or escaped keys fall into: an anchored group of
alternatives built from literal characters, escaped syntax characters and
`.`. Any other pattern text yields `None`, meaning outside the fragment.

The model does exactly what `src/module-info.ts` and `src/on-load.ts` do; in
particular:
- the normaliser does not deduplicate `namedExports`;
- it does not turn `[]` into `null`;
- there is no `defaultExport` flag;
- the ES-module stand-in always begins with the default export.

The files are `wrappers.dfy` (`Option`, `Result`), `text.dfy` (JavaScript
`join` and `split`), `module_info.dfy`, `on_load.dfy`, `filter.dfy` and
`global_externals.dfy`.

## Model

| member | source | states |
|---|---|---|
| Text.Join | src/on-load.ts:15 | `join` puts the first part at the front of the result, and with two or more parts the result is longer than the first part by at least one separator |
| Text.Split | src/on-load.ts:15 | reading text back line by line gives at least one line, no line holds the separator, and joining the lines again restores the text |
| Text.SplitJoin | src/on-load.ts:15 | lines joined with `"\n"` read back as exactly those lines: there is no trailing newline and no extra empty line |
| Info.Normalize | src/module-info.ts:33-40 | a bare string becomes an ESM record with that variable name and `null` exports; a record keeps its `varName`; `type` is kept or defaults to ESM; `namedExports` is kept unchanged when present and is `null` otherwise |
| Info.VarNamePreserved | src/module-info.ts:36-39 | the variable name passes through normalisation unchanged for both input forms |
| Info.BareIsVarNameRecord | src/module-info.ts:36-37 | a bare string and the record `{varName: s}` normalise to the same record |
| Info.NormalizedIsFixedPoint | src/module-info.ts:33-40 | a normalised record read back as a `ModuleInfo` normalises to itself |
| Info.NormalizeIdempotent | src/module-info.ts:33-40 | normalising twice is the same as normalising once |
| OnLoad.Unique | src/on-load.ts:14 | deduplication returns a list without repeats, with exactly the input's elements, ordered by their first occurrence in the input |
| OnLoad.UniqueIsDetermined | src/on-load.ts:14 | any list with exactly the input's elements, ordered by first occurrence, equals the deduplication, so the contract of `Unique` pins down `[...new Set(xs)]` |
| OnLoad.UniqueBySet | src/on-load.ts:14 | the one-pass walk that appends each element not yet in the seen-set computes the first-occurrence deduplication |
| OnLoad.UniqueIdempotent | src/on-load.ts:14 | deduplicating a deduplicated list changes nothing |
| OnLoad.UniqueAppendPresent | src/on-load.ts:14 | appending an element already present leaves the deduplication unchanged |
| OnLoad.UniqueCount | src/on-load.ts:14 | the deduplication has one entry per distinct element |
| OnLoad.ExportNames | src/on-load.ts:14 | `new Set(null)` contributes no names; otherwise the names are distinct, are exactly those given, and come in the order of their first occurrence |
| OnLoad.CjsContents | src/on-load.ts:3-4 | the CJS statement is `module.exports = ` followed by exactly the variable name and `;`, and it is a single line when the name holds no newline |
| OnLoad.DefaultExportLine | src/on-load.ts:13 | the default line is `export default ` followed by exactly the variable name and `;`, and it is a single line when the name holds no newline |
| OnLoad.NamedExportLine | src/on-load.ts:6-7 | the line for name `n` is exactly `const n = v.n; export { n };`: it starts with the binding, ends with the re-export, has the length of that text and one space between the two statements; it is a single line when `v` and `n` hold no newline |
| OnLoad.EsmLines | src/on-load.ts:13-14 | the lines before joining are the default line followed by one named-export line per name, in the given order, and none holds a newline when no name does |
| OnLoad.EsmContents | src/on-load.ts:9-16 | the ES-module text always begins with `export default v;`, and it is exactly that line when `namedExports` is `null` or empty, and only then |
| OnLoad.CreateContents | src/on-load.ts:21-32 | a CJS stand-in is exactly `module.exports = v;`; an ESM stand-in begins with `export default v;` and is only that line when there are no names |
| OnLoad.CjsIgnoresNamedExports | src/on-load.ts:29-30 | the CJS stand-in is the same whatever the export names are |
| OnLoad.EsmContentsLines | src/on-load.ts:6-15 | with newline-free names the ESM text has one line more than there are distinct names in `namedExports`; line 0 is the default export line, and line i+1 is the named-export line of the i-th distinct name in first-occurrence order |
| OnLoad.EsmIgnoresRepeatedName | src/on-load.ts:14 | appending a name that already occurs leaves the ESM text unchanged |
| OnLoad.EsmDependsOnDistinctNames | src/on-load.ts:14 | a name list and its deduplication give the same ESM text |
| Filter.EscapedFilterIsExactMembership | src/index.ts:11 | with every key escaped, the filter accepts a path if and only if it is one of the keys; with no keys it accepts only the empty string |
| Filter.AsWrittenPattern | src/index.ts:11 | the pattern the source builds is `^(?:)$` when there are no keys, and equals the fully escaped pattern when no key holds a syntax character |
| Filter.AsWrittenIsEscapedWhenPlain | src/index.ts:11 | when no key holds a regular-expression syntax character, the unescaped pattern is the escaped one |
| Filter.AsWrittenFilterIsExactMembership | src/index.ts:11 | when no key holds a syntax character, the pattern as written accepts a path if and only if it is a key, or is the empty string when there are no keys |
| Filter.EmptyFilterAcceptsOnlyEmptyString | src/index.ts:11 | with zero keys the pattern is `^(?:)$` and accepts only the empty string |
| Filter.FilterIgnoresKeyOrder | src/index.ts:11 | two key lists with the same members accept the same paths, whatever their order |
| Filter.P5RefusesSuperstring | test/test.js:14 | for the key `p5` the filter accepts `p5` and rejects `p5x` and `really/p5` |
| Filter.AsWrittenDotOvermatches | src/index.ts:11 | the unescaped pattern for the key `a.b` accepts `a-b`, which is not a key |
| Filter.AsWrittenBarSplitsKey | src/index.ts:11 | the unescaped pattern for the key made of `x`, a vertical bar and `y` accepts `y`, which is not a key |
| GlobalExternals.Get | src/index.ts:22 | looking up a path finds a value exactly when the path is a key, and the value comes from an entry for that path |
| GlobalExternals.GetFindsEntry | src/index.ts:22 | in an object with distinct keys, looking up a key yields the value stored under it |
| GlobalExternals.Keys | src/index.ts:11 | `Object.keys(globals)`: a string is listed exactly when the object has a property of that name, and in an object each property appears once, so no key is listed twice |
| GlobalExternals.ModuleFilter | src/index.ts:11 | the filter accepts a path if and only if it is a key (or is empty when there are no keys), and for keys without syntax characters it is the exact text the source builds |
| GlobalExternals.Resolve | src/index.ts:10-19 | a path is taken over exactly when it is a key (or is empty and there are no keys), and the path is kept while the namespace becomes `"global-externals"` |
| GlobalExternals.Load | src/index.ts:21-29 | loading succeeds exactly when the path maps to a non-empty name `v`, with contents `export default v;`; otherwise it fails with `Unknown module path: <path>` |
| GlobalExternals.LoadIsDefaultOnlyEsm | src/index.ts:28 | the load contents are `createContents("esm", v, null)` |
| GlobalExternals.LoadUnknownPathFails | src/index.ts:22-26 | a path that is not a key fails to load |
| GlobalExternals.ResolvedKeysLoad | src/index.ts:11-28 | every key with a non-empty variable name is redirected into the plugin's namespace and loads as `export default v;` |
| GlobalExternals.EmptyVariableNameFailsAfterResolve | src/index.ts:22-26 | a key mapped to the empty string passes the filter but fails to load |

## Findings

| source | as written | input that shows it | evidently intended | confidence | as-written member | corrected member |
|---|---|---|---|---|---|---|
| src/index.ts:11 | the keys are joined into the pattern without escaping, so regular-expression syntax in a key changes what the filter accepts | the key `a.b` lets `a-b` through (a key like `lodash.debounce` would take over `lodash-debounce`), and the load callback then throws `Unknown module path`; a key made of `x`, a vertical bar and `y` lets `y` through; keys such as `*`, `a(`, `a)` or `[` make `new RegExp` throw a SyntaxError, so the plugin cannot even be created | each key matches only itself, literally | medium, not executed | Filter.AsWrittenDotOvermatches | Filter.EscapedFilterIsExactMembership |

The model's `GlobalExternals.ModuleFilter` uses the escaped pattern. Its
contract shows that it is the source's pattern whenever no key holds a
syntax character.

With the unescaped pattern, a path that is not a key can also reach the
load callback and find an inherited property of the object. For example,
the key `constructo.` lets `constructor` through. `globals["constructor"]`
is the inherited `Object` function, which is truthy, so the source returns
contents for it instead of throwing.

## Left out

- Plugin registration is not modelled: the `setup` function, the
  `onResolve`/`onLoad` registration and the load callback's `/.*/` filter
  belong to the bundler. `Resolve` and `Load` are the values those callbacks
  compute.
- Regular expressions outside the anchored-alternation fragment are not
  modelled, so `Filter.Test` returns `None` for them.
- `src/options.ts` and `src/types.ts` are not modelled. They only declare
  types, and the table-or-function option resolution has no implementation
  in these files.
- test/test.js runs a real build and writes a bundle (I/O). Only its key
  `p5` is used, in `Filter.P5RefusesSuperstring`.
- Inherited object properties are not modelled: `Globals` holds only the
  object's own entries. This is exact for the escaped filter `Resolve` uses.
  That filter passes only keys, plus the empty string when there are no
  keys, and no object inherits a property named by the empty string. With
  the unescaped filter the source builds, inherited properties can be
  reached (see Findings).
- Objects with repeated keys are not modelled. A JavaScript object cannot
  hold a key twice, and lemmas that depend on this require
  `GlobalExternals.WellFormed`.
- A thrown `Error` is modelled as a `Failure` carrying its message.
- OnLoad.EsmContentsLines: states the line structure only when the
  variable name and the export names contain no newline. The source does not
  check names, and a newline inside a name would add lines.
- GlobalExternals.ModuleFilter: escapes the keys, whereas the source joins
  them unescaped (see Findings). For keys without syntax characters the two
  patterns are equal. The model therefore never fails on keys such as `*`
  or `a(`, for which the source's `new RegExp` throws.
- GlobalExternals.Resolve: uses the escaped filter rather than the
  unescaped one the source builds (see Findings). For keys without syntax
  characters the two are equal.
