# Go-to-TypeScript type translation of utils/parser.go

This project models, in Dafny, how utils/parser.go turns the fields of SQLBoiler model
structs into TypeScript field types. The model has four stages:

- **Tag probes** (module `Tags`). `hasTag` is a plain substring search in a field's raw tag
  text. `getSnakeCaseFromTag` trims the backquotes, splits the tag on single spaces, and
  returns the value of the first token that begins with `boil:`, with its double quotes
  trimmed. It returns "" when the field has no tag or no such token.
- **The recursive resolver** (module `Resolver` for the functions, class
  `Translator.Translator` for the method). `getTypeFromFieldType` walks a type expression made
  of identifiers, pointers and selectors. It builds an `SQLBoilerType` descriptor: the name as
  written, the normalised name, and whether the name is a registered enum. A pointer puts "*"
  in front of the inner *original* name, so the inner normalised name is thrown away.
- **The normaliser** (module `Normalizer` for the functions, `Translator.Translator` for the
  method). `sqlboilerTypeToType` first records "time" in the package-level `modelImports` list
  when the name mentions "time". It then applies four rules in order:
  - a dotted name collapses to its second piece, lower-cased;
  - the alias table maps `time`, `json` and `decimal`;
  - an `array` suffix becomes a `[]` prefix;
  - an input starting with `null.` gets a `*`.

  Because the resolver normalises at every level, one field can record "time" several times.
- **The TypeScript mapper** (module `Mapper`). `convertGoTypeToTypescript` applies these steps
  in order:
  - it drops one leading `*`;
  - it replaces the whole name with `number` when the name mentions `int` or `float`;
  - it renames `bool` and `time.Time`;
  - it turns a `Slice` suffix or a `[]` prefix into a `[]` suffix.

Module `GoStrings` holds the parts of Go's `strings` package these functions call, with
Go's semantics. Split and ReplaceAll are leftmost and non-overlapping. Trim strips a
character from both ends. ToLower is ASCII-only. Module `GoAst` holds the few `go/ast` node
kinds the resolver distinguishes. Module `EndToEnd` follows a field through every stage.

The class `Translator.Translator` owns `modelImports` as a `seq<string>` field. The enum
registry (`enumCacheMap`) is passed in as a `set<string>` and is only read. Both methods are
proved against the functions: `SqlboilerTypeToType` returns `NormalizedName(s)` and appends
`TimeImport(s)`. `GetTypeFromFieldType` returns `Resolved(e, enums)` and appends
`ResolveImports(e)`.

Behaviour of the code that is easy to misread:

- An unqualified `IntArray` stays `IntArray`. The suffix test looks for lower-case `array`,
  and only dotted names are lower-cased (`Normalizer.NormalizeUnqualifiedArray`).
- The numeric rule replaces the whole value, so `[]int64` maps to `number`, not `number[]`
  (`Mapper.ConvertNumericSlice`).
- The `int` test is case-sensitive and runs before the collection step, so `IntSlice` and
  `*IntSlice` map to `Int[]` (`Mapper.ConvertIntSlice`, `Mapper.ConvertDropsOptional`).
- A pointer to `null.Time` is not nullable after normalisation. The `null.` rule reads the
  text `*null.Time`, which does not start with `null.` (`EndToEnd.PointerTimeDescriptor`).

## Model

| member | source | states |
|---|---|---|
| `Tags.HasTag` | utils/parser.go:21-26 | true exactly when the field has a tag and the searched text occurs somewhere in the raw tag |
| `Tags.HasTagMatchesInsideValues` | utils/parser.go:21-26 | keys are not parsed: a tag whose json value is "boil" matches "boil"; a field without a tag matches nothing |
| `Tags.TagTokens` | utils/parser.go:30-32 | the backquote-trimmed tag splits into at least one token, and no token holds a space |
| `Tags.FirstWithPrefix` | utils/parser.go:33-37 | the index found begins with the prefix and no earlier token does; none is found exactly when no token begins with it |
| `Tags.BoilValue` | utils/parser.go:34-35 | the value after `boil:` with quotes trimmed neither starts nor ends with a double quote and adds no space |
| `Tags.SnakeCaseFromTag` | utils/parser.go:28-40 | the column name never holds a space and is not quote-framed |
| `Tags.SnakeCaseFromTagCases` | utils/parser.go:28-40 | "" without a tag, "" when no token begins with `boil:`, and otherwise the value of the first `boil:` token |
| `Tags.SnakeCaseOfLeadingBoil` | utils/parser.go:28-40 | a tag opening with `boil:"column"` followed by other keys yields exactly `column` |
| `Translator.Translator.SqlboilerTypeToType` | utils/parser.go:83-108 | returns NormalizedName of its input and appends "time" to modelImports exactly when the input mentions "time"; nothing else changes |
| `Translator.Translator.GetTypeFromFieldType` | utils/parser.go:42-75 | returns the descriptor Resolved(e, enums) and appends ResolveImports(e), inner levels first, to modelImports |
| `Normalizer.TimeImport` | utils/parser.go:86-88 | reference definition, no contract: one "time" exactly when the name mentions "time" |
| `Normalizer.Collapsed` | utils/parser.go:90-93 | reference definition, no contract: a dotted name becomes its second piece lower-cased, any other name is kept |
| `Normalizer.Aliased` | utils/parser.go:95-97 | reference definition, no contract: the sqlboilerTypes alias lookup |
| `Normalizer.Listed` | utils/parser.go:99-101 | reference definition, no contract: an "array" suffix becomes a "[]" prefix |
| `Normalizer.NormalizedName` | utils/parser.go:83-108 | reference definition, no contract: the steps in order, with the nullable rule reading the untouched input; the method and the Normalize* lemmas are proved against it |
| `Normalizer.NormalizeUnqualified` | utils/parser.go:95-107 | a name without a dot is only aliased and suffix-rewritten, never lowered or starred; a name outside the table without the suffix is unchanged |
| `Normalizer.NormalizeQualified` | utils/parser.go:90-107 | `p.seg...` normalises from the lower-cased `seg` alone, starred exactly when `p` is "null"; later pieces are dropped |
| `Normalizer.NormalizeSelector` | utils/parser.go:90-107 | the same for a name with exactly one dot |
| `Normalizer.NullPrefix` | utils/parser.go:103-105 | a dotted name starts with `null.` exactly when its first piece is "null" |
| `Normalizer.NormalizeTimeSelector` | utils/parser.go:77-107 | any package's `Time` becomes "time.Time", starred exactly for the "null" package |
| `Normalizer.NormalizeDecimalSelector` | utils/parser.go:77-107 | any package's `Decimal` becomes "float64", starred exactly for the "null" package |
| `Normalizer.NormalizeJSONSelector` | utils/parser.go:77-107 | any package's `JSON` becomes "any", starred exactly for the "null" package |
| `Normalizer.NormalizeArraySelector` | utils/parser.go:90-107 | `pkg.<Elem>Array` becomes "[]" followed by the lower-cased element |
| `Normalizer.NormalizeStringArraySelector` | utils/parser.go:90-107 | `pkg.StringArray` becomes "[]string", starred exactly for the "null" package |
| `Normalizer.NormalizeUnqualifiedArray` | utils/parser.go:95-101 | "IntArray" is left unchanged: the suffix test is lower-case and undotted names are not lowered |
| `Resolver.OriginalName` | utils/parser.go:45-63 | reference definition, no contract: identifiers and selectors joined by dots, pointers adding nothing |
| `Resolver.RawFormattedName` | utils/parser.go:45-66 | reference definition, no contract: this level's name before normalisation, a pointer being "*" plus the inner OriginalName |
| `Resolver.Resolved` | utils/parser.go:42-75 | reference definition, no contract: the descriptor from OriginalName, the normalised RawFormattedName and the registry lookup; the method and the Resolve* lemmas are proved against it |
| `Resolver.ResolveImports` | utils/parser.go:68 | reference definition, no contract: the inner level's imports followed by this level's TimeImport |
| `Resolver.OriginalNameJoinsNames` | utils/parser.go:42-63 | the original name is the identifier and selectors joined by dots; pointers contribute nothing |
| `Resolver.OriginalNameSplitsIntoNames` | utils/parser.go:57-63 | when no name holds a dot, splitting the original name on dots gives the names back |
| `Resolver.OriginalNameHasNoStar` | utils/parser.go:50-56 | the original name holds no "*" when the names do not |
| `Resolver.ResolveByShape` | utils/parser.go:42-72 | a pointer keeps the inner original name and normalises "*" plus it; a selector appends "." and its name; other nodes give empty names; isEnum holds exactly when the original name is registered |
| `Resolver.ResolvePlainIdent` | utils/parser.go:45-49 | a plain identifier untouched by the rules resolves to itself in both names |
| `Resolver.ResolvePointerToPlainIdent` | utils/parser.go:50-56 | a pointer to such an identifier keeps the bare name and formats as "*" plus it |
| `Resolver.ResolveQualified` | utils/parser.go:57-68 | a qualified type's formatted name depends only on its second name, lower-cased, and on whether its first name is "null" |
| `Resolver.ResolveImportsAreTime` | utils/parser.go:86-88 | every import resolution appends is "time", at most one per level |
| `Resolver.ImportsPerLevel` | utils/parser.go:68 | once the inner name mentions "time", each enclosing pointer or selector appends one more "time" |
| `Resolver.TimeTimeImportsTwice` | utils/parser.go:86-88 | resolving `time.Time` records "time" twice |
| `Resolver.NullTimeImportsNothing` | utils/parser.go:86-88 | resolving `null.Time` records nothing: the test for "time" is case-sensitive |
| `Resolver.SelectorTimeImports` | utils/parser.go:57-68 | `p.Time` records "time" twice if `p` mentions "time" and nothing otherwise |
| `Resolver.PointerTimeImports` | utils/parser.go:50-56 | `*p.Time` records it three times if `p` mentions "time" and nothing otherwise |
| `Mapper.Unstarred` | utils/parser.go:113 | reference definition, no contract: at most one leading "*" removed |
| `Mapper.Substituted` | utils/parser.go:115-120 | reference definition, no contract: the numeric collapse, then the bool and time.Time renamings |
| `Mapper.Collection` | utils/parser.go:122-130 | reference definition, no contract: a "Slice" suffix, tested first, or a "[]" prefix becomes a "[]" suffix |
| `Mapper.ConvertGoTypeToTypescript` | utils/parser.go:110-132 | a name mentioning "int" or "float" after the optional "*" maps to "number" |
| `Mapper.ConvertPlain` | utils/parser.go:110-132 | a name free of every marker the mapper tests for comes out unchanged |
| `Mapper.ConvertDropsOptional` | utils/parser.go:113 | a leading "*" makes no difference to the TypeScript type |
| `Mapper.ConvertSliceSyntax` | utils/parser.go:126-128 | "[]" in front of an element free of the other markers becomes "[]" behind it |
| `Mapper.ConvertSliceSuffix` | utils/parser.go:122-124 | `elem` + "Slice" becomes `elem` + "[]" for every element free of the other markers |
| `Mapper.SliceBeforeBrackets` | utils/parser.go:122-128 | the "Slice" test runs before the "[]" test: "[]x" + "Slice" becomes "[]x[]" |
| `Mapper.ConvertIntSlice` | utils/parser.go:115-124 | "IntSlice" maps to "Int[]": the numeric test is case-sensitive |
| `Mapper.ConvertNumericSlice` | utils/parser.go:115-117 | "[]int64" maps to "number", with no collection suffix |
| `Mapper.ConvertTime` | utils/parser.go:120 | "time.Time" maps to "Date" |
| `Mapper.ConvertNullableTime` | utils/parser.go:113-120 | "*time.Time" maps to "Date" as well |
| `Mapper.ConvertBool` | utils/parser.go:119 | "bool" maps to "boolean" |
| `Mapper.ConvertBoolSlice` | utils/parser.go:119-128 | "[]bool" maps to "boolean[]": the element is renamed before the brackets move |
| `EndToEnd.SelectorTimeDescriptor` | utils/parser.go:57-72 | `p.Time` resolves to original name "p.Time" and formatted name "time.Time", starred exactly for the "null" package |
| `EndToEnd.PointerTimeDescriptor` | utils/parser.go:50-72 | `*p.Time` resolves to "p.Time" and an unstarred "time.Time" for every `p`, "null" included |
| `EndToEnd.SelectorTimeIsDate` | utils/parser.go:110-132 | either formatted name of `p.Time` maps to "Date" |
| `EndToEnd.TimeField` | utils/parser.go:28-132 | a `p.Time` field tagged `boil:"column"`: the column, the descriptor, the imports ("time" twice or none) and the TypeScript type Date |
| `EndToEnd.PointerTimeField` | utils/parser.go:42-132 | a `*p.Time` field: the descriptor, the imports ("time" three times or none) and the TypeScript type Date |

## Left out

- parseFile (utils/parser.go:11-19) reads a file and calls go/parser. File I/O and the Go
  parser are not modelled; type expressions are given as `GoAst.Expr` values.
- The `fmt.Println` in the default case of getTypeFromFieldType is console output and is
  omitted. The resulting empty descriptor is modelled.
- The declarations and other users of `modelImports` and `enumCacheMap` are in other files,
  which are not part of this model. That covers how they are filled, read, reset and
  de-duplicated. Here `modelImports` is a field that starts at any given list, and the enum
  registry is a set parameter.
- `go/ast` node kinds other than identifiers, pointers and selectors are collapsed into one
  `Other` case, since the source treats them all alike. Selector names are plain strings
  rather than `*ast.Ident`.
- `GoStrings.ToLower` lowers ASCII letters only. Go's `strings.ToLower` also maps non-ASCII
  upper-case letters.
- `GoStrings.Split` and `GoStrings.ReplaceAll` require a non-empty pattern. Go splits into
  characters, or inserts between them, for an empty one. Every call in the source passes a
  non-empty literal.
- Tags.SnakeCaseFromTag: its own contract states only the shape of the column name. Which
  token it returns is stated by the lemma `Tags.SnakeCaseFromTagCases`.
- Mapper.ConvertGoTypeToTypescript: its own contract states only the numeric rule. The other
  rules are stated by the `Convert*` lemmas, for the name shapes they name.
