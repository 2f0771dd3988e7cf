# Koin module graph extractor: the parsing core in Dafny

The system reads Kotlin source files that declare Koin modules, written as
`val <name> = module { ... }`. It turns each module into a `KoinModule`: the module's name
and its list of registered components. A component is a `single`, `viewModel` or
`factory` registration. Each one records the class it produces and that class's
constructor dependencies. The dependencies are looked up by a `DependencyResolver`, which
reads the class's source text through a `FileContentProvider` and extracts the type names
of the primary-constructor parameters.

This project models that core:

- `KoinModuleParser.parse` and `parseComponents` (module `KoinModuleParser`, `parser.dfy`)
- `DependencyResolverImpl.getDependencyNames` (module `DependencyResolution`, `resolver.dfy`)
- both `String.remove` extensions (module `Util`, `util.dfy`)
- the `Component` sealed class and the `KoinModule` record (module `Model`, `model.dfy`)
- the pieces of the Kotlin standard library and of `java.util.regex` they rely on (module `KotlinText`, `text.dfy`): `split`, `trim`, `indexOf`, `filter { it.isNotEmpty() }`, the `\s` and `.` character classes

The code uses three regular expressions. Each is modelled by a scanner written for that
pattern, with `java.util.regex` semantics: leftmost match, greedy quantifiers with
backtracking, `.` stopping at line terminators, `\s` = `[ \t\n\x0B\f\r]`.

- `val.*=\s*module\s*\{`: the anchor starts with `val` and uses the last `=` on the line
  from which `\s*module\s*\{` follows.
- `(single|viewModel|factory|scoped)((?!…).)*\{((?!…).)*}`: a block is a keyword, then
  a run containing no other keyword and no line break. The run must hold a `{` before
  the run's last `}`, and the block ends at that `}`. Newlines are deleted first, so the
  run of the last block reaches the module's own closing `}`. That `}` ends the last
  block only when no other `}` follows it before the next keyword or line terminator.
  Otherwise the block runs on to the last such `}` (`BlockRunsPastModule`).
- `parameters.*->`: the clause reaches the last `->` on its line.
- `class\s*<Name>\s*\(.*\)`: the declaration runs from `class` to the last `)` on its line.

None of these patterns looks behind its start. So a search that resumes at index `e`
is modelled as a search of the suffix that starts at `e`.

Both collaborators are function parameters:

- The dependency resolver is a function from a class name to dependency names or a failure.
- The file-content provider is a function from a class name to optional text.

Every result comes with the list of class names the collaborator was asked for, in
order. This is how properties such as "the resolver is never called for an empty
constructor" and "the provider is asked exactly once" are stated.

Each Kotlin exception the code can raise becomes a `Failure` value:

- a failed `!!`
- an index past the end of a list (`[1]` of the anchor's name tokens)
- a destructuring of a too-short list
- a negative `substring` bound
- `error(...)`

## Model

| member | source | states |
|---|---|---|
| Model.ComponentEquality | src/main/kotlin/domain/model/Component.kt:3-26 | Two components are equal exactly when they are the same variant with equal `name`, `dependencies` and, for `Scope`, equal `typeName` |
| KotlinText.SpaceRunEnd | src/main/kotlin/domain/common/KoinModuleParser.kt:8 | `\s*`: the end of the longest run of regex spaces from `i`; the character there is not a space |
| KotlinText.SpaceRunEndIs | src/main/kotlin/domain/common/KoinModuleParser.kt:8 | Any `j` with spaces over `i..j` and no space at `j` is where `\s*` from `i` ends |
| KotlinText.LineEnd | src/main/kotlin/domain/common/KoinModuleParser.kt:8 | `.*` cannot cross a line terminator: the first terminator at or after `i`, or the end |
| KotlinText.LastIndexIn | src/main/kotlin/domain/common/KoinModuleParser.kt:12 | The last index of `c` in `s[lo..hi]`; none means `c` does not occur there |
| KotlinText.IndexOf | src/main/kotlin/domain/common/DependencyResolverImpl.kt:16 | `indexOf(c)`: the first occurrence of `c`, with no `c` before it; none means `c` is absent |
| KotlinText.IndexOfIs | src/main/kotlin/domain/common/DependencyResolverImpl.kt:16 | An index holding `c` with no `c` before it is what `indexOf` returns |
| KotlinText.Split | src/main/kotlin/domain/common/KoinModuleParser.kt:33 | `split(d)` gives at least one piece, two or more exactly when `d` occurs, and no piece holds `d` |
| KotlinText.JoinSplit | src/main/kotlin/domain/common/KoinModuleParser.kt:33 | Joining the pieces of `split(d)` with `d` gives back the string |
| KotlinText.SplitJoin | src/main/kotlin/domain/common/KoinModuleParser.kt:33 | Splitting pieces joined with `d` gives back the pieces, when none holds `d` |
| KotlinText.SplitNoDelimiter | src/main/kotlin/domain/common/KoinModuleParser.kt:35 | A string without `d` splits into itself alone |
| KotlinText.SplitCons | src/main/kotlin/domain/common/KoinModuleParser.kt:33 | A leading `d` starts a new empty piece; any other leading character joins the first piece |
| KotlinText.JoinCons | src/main/kotlin/domain/common/KoinModuleParser.kt:33 | Joining the pieces of a string with a leading character gives that character before the join of the rest |
| KotlinText.SplitConcat | src/main/kotlin/domain/common/KoinModuleParser.kt:33 | Splitting `a + d + b` gives the pieces of `a` followed by the pieces of `b` |
| KotlinText.SplitConcatStep | src/main/kotlin/domain/common/KoinModuleParser.kt:33 | Splitting `a + d + b` into the pieces of `a` then of `b` still holds with a character put in front of `a` |
| KotlinText.SplitAtFirst | src/main/kotlin/domain/common/KoinModuleParser.kt:37 | The first piece ends at the first `d`; the rest are the pieces after it |
| KotlinText.SplitHead | src/main/kotlin/domain/common/KoinModuleParser.kt:37 | The first piece is the text before the first `d`, or the whole string without one |
| KotlinText.TrimStart | src/main/kotlin/domain/common/KoinModuleParser.kt:35 | A suffix of the input; everything removed is whitespace, and the result does not start with whitespace |
| KotlinText.TrimEnd | src/main/kotlin/domain/common/KoinModuleParser.kt:35 | A prefix of the input; everything removed is whitespace, and the result does not end with whitespace |
| KotlinText.NonEmpty | src/main/kotlin/domain/common/KoinModuleParser.kt:17 | `filter { it.isNotEmpty() }`: no longer than the input, every kept string is non-empty and from the input, and every non-empty input string is kept |
| KotlinText.NonEmptyConcat | src/main/kotlin/domain/common/DependencyResolverImpl.kt:19 | Filtering distributes over concatenation, which keeps order |
| KotlinText.AgreeAt | src/main/kotlin/domain/common/DependencyResolverImpl.kt:11 | Texts that share a prefix agree at every index of it |
| KotlinText.StartsAtLocal | src/main/kotlin/domain/common/DependencyResolverImpl.kt:11 | A word inside a shared prefix occurs in one text exactly when it occurs in the other |
| KotlinText.SpaceRunEndLocal | src/main/kotlin/domain/common/DependencyResolverImpl.kt:11 | `\s*` ending inside a shared prefix ends at the same place in both texts |
| KotlinText.LineEndLocal | src/main/kotlin/domain/common/DependencyResolverImpl.kt:11 | A line ending inside a shared prefix ends at the same place in both texts |
| KotlinText.LastIndexInLocal | src/main/kotlin/domain/common/DependencyResolverImpl.kt:11 | The last occurrence of a character inside a shared prefix is the same in both texts |
| Util.Delete | src/main/kotlin/domain/common/Util.kt:16 | `replace(d, "")` never makes a string longer |
| Util.DeleteAll | src/main/kotlin/domain/common/Util.kt:13-19 | Deleting the delimiters one after another never makes a string longer |
| Util.RemoveStrings | src/main/kotlin/domain/common/Util.kt:13-19 | The loop deletes each delimiter in argument order, giving `DeleteAll`; the result is no longer than the input and equals it when there are no delimiters |
| Util.Without | src/main/kotlin/domain/common/Util.kt:16 | Reference definition: the string with `c` left out holds no `c` and holds every other character of the input |
| Util.DeleteChar | src/main/kotlin/domain/common/Util.kt:16 | Deleting a one-character delimiter is leaving that character out, the other characters kept in order |
| Util.WithoutConcat | src/main/kotlin/domain/common/Util.kt:16 | Leaving a character out distributes over concatenation |
| Util.DeleteAbsent | src/main/kotlin/domain/common/Util.kt:16 | A delimiter that does not occur leaves the string unchanged |
| Util.DeleteCanLeaveOccurrence | src/main/kotlin/domain/common/Util.kt:16 | One pass does not delete occurrences created by a deletion: `"aabb"` without `"ab"` is `"ab"` |
| Util.ReplaceChar | src/main/kotlin/domain/common/Util.kt:8 | `replace(old, new)` keeps the length and changes exactly the positions that hold `old` |
| Util.Blanked | src/main/kotlin/domain/common/Util.kt:5-11 | Reference definition: same length; a position holding a delimiter becomes NUL, every other position is unchanged |
| Util.BlankChars | src/main/kotlin/domain/common/Util.kt:5-11 | The loop over the delimiters computes `Blanked`, so nothing is deleted |
| Util.BlankedIdempotent | src/main/kotlin/domain/common/Util.kt:7-9 | Blanking twice equals blanking once |
| DependencyResolution.OpenParenAfter | src/main/kotlin/domain/common/DependencyResolverImpl.kt:11 | `<Name>\s*\(`: the name at `k`, then only spaces up to the `(` returned |
| DependencyResolution.CloseParenEnd | src/main/kotlin/domain/common/DependencyResolverImpl.kt:11 | `.*\)`: the end is one past a `)` on the line after the `(`, with no `)` between it and the end of that line, so the last one; none means no `)` there |
| DependencyResolution.TryAt | src/main/kotlin/domain/common/DependencyResolverImpl.kt:11 | A match found with the name at `k` is a well-formed declaration match |
| DependencyResolution.TrySpaces | src/main/kotlin/domain/common/DependencyResolverImpl.kt:11 | A match found by backtracking over the `\s*` after `class` is a well-formed declaration match |
| DependencyResolution.MatchClassAt | src/main/kotlin/domain/common/DependencyResolverImpl.kt:11 | A match at `i` is a well-formed declaration match starting at `i` (completeness: `MatchClassAtComplete`) |
| DependencyResolution.TryAtMatch | src/main/kotlin/domain/common/DependencyResolverImpl.kt:11 | Every declaration match is found when the name is tried at its own name position |
| DependencyResolution.TrySpacesReaches | src/main/kotlin/domain/common/DependencyResolverImpl.kt:11 | Trying the name after every run of blanks reaches a declaration match whose name lies within that run's end |
| DependencyResolution.MatchClassAtComplete | src/main/kotlin/domain/common/DependencyResolverImpl.kt:11 | Wherever a declaration match starts, the matcher succeeds there: no match is missed |
| DependencyResolution.FirstIndex | src/main/kotlin/domain/common/DependencyResolverImpl.kt:15 | The index found lies in the range and the matcher succeeds there |
| DependencyResolution.FirstIndexLeftmost | src/main/kotlin/domain/common/DependencyResolverImpl.kt:15 | The matcher fails at every index before the one found; none found means it fails everywhere in the range |
| DependencyResolution.FirstIndexIs | src/main/kotlin/domain/common/DependencyResolverImpl.kt:15 | An index where the matcher succeeds, with failures at every index before it, is the one found |
| DependencyResolution.FindClass | src/main/kotlin/domain/common/DependencyResolverImpl.kt:15 | `find`: the match returned starts at or after `i` and is the declaration match at its own start |
| DependencyResolution.FindClassLeftmost | src/main/kotlin/domain/common/DependencyResolverImpl.kt:15 | No start before the match found matches, and none found means no start in the text matches |
| DependencyResolution.FindClassIs | src/main/kotlin/domain/common/DependencyResolverImpl.kt:15 | A start that matches, with no matching start before it, is the match found |
| DependencyResolution.FindClassComplete | src/main/kotlin/domain/common/DependencyResolverImpl.kt:15 | When any declaration match exists, `find` returns one, starting no later than it |
| DependencyResolution.FindClassNone | src/main/kotlin/domain/common/DependencyResolverImpl.kt:15 | `find` returns nothing exactly when no declaration match exists anywhere in the text |
| DependencyResolution.FoundMatch | src/main/kotlin/domain/common/DependencyResolverImpl.kt:11 | The match found is a well-formed declaration match: `class`, spaces, the name, spaces, `(`, and a line ending in `)` |
| DependencyResolution.TypeNameOf | src/main/kotlin/domain/common/DependencyResolverImpl.kt:22 | A fragment gives a name exactly when it holds `:` |
| DependencyResolution.TypeNames | src/main/kotlin/domain/common/DependencyResolverImpl.kt:21-23 | `mapNotNull` gives no more names than there are fragments |
| DependencyResolution.ParameterListText | src/main/kotlin/domain/common/DependencyResolverImpl.kt:15-18 | Fails with a missing declaration exactly when no `class <Name> (...)` is found |
| DependencyResolution.ParameterTextOf | src/main/kotlin/domain/common/DependencyResolverImpl.kt:15-18 | With the declaration found given: fails with a missing declaration exactly when there is none |
| DependencyResolution.NamesInText | src/main/kotlin/domain/common/DependencyResolverImpl.kt:13-23 | Fails with a missing declaration exactly when no `class <Name> (...)` is found |
| DependencyResolution.MissingDeclaration | src/main/kotlin/domain/common/DependencyResolverImpl.kt:15 | The missing-declaration failure happens exactly when the text holds no `class <Name> (...)` match at all |
| DependencyResolution.GetDependencyNames | src/main/kotlin/domain/common/DependencyResolverImpl.kt:7-24 | The provider is asked once, for the class name; no text gives `[]` without failure; otherwise the names come from the text with newlines removed |
| DependencyResolution.TrySpacesShorter | src/main/kotlin/domain/common/DependencyResolverImpl.kt:11 | Backing off the `\s*` after `class` never helps when the name does not start with a space |
| DependencyResolution.NoBacktracking | src/main/kotlin/domain/common/DependencyResolverImpl.kt:11 | For such a name, a match at `i` is the match with all spaces after `class` taken |
| DependencyResolution.OpenParenAfterLocal | src/main/kotlin/domain/common/DependencyResolverImpl.kt:11 | The `(` after the name depends only on the text up to a `)` |
| DependencyResolution.CloseParenEndLocal | src/main/kotlin/domain/common/DependencyResolverImpl.kt:11 | Whether `.*\)` matches depends only on the text up to a `)` |
| DependencyResolution.MatchClassAtLocal | src/main/kotlin/domain/common/DependencyResolverImpl.kt:11 | Whether a declaration matches, and where its `(` is, depends only on the text up to a `)` |
| DependencyResolution.ParameterSpan | src/main/kotlin/domain/common/DependencyResolverImpl.kt:15-18 | The `(` of the first declaration and the first `)` after it, with no `)` between |
| DependencyResolution.SpanOf | src/main/kotlin/domain/common/DependencyResolverImpl.kt:15-18 | The span of a given declaration opens at its `(` and closes at the first `)` after it |
| DependencyResolution.SpanOfMatch | src/main/kotlin/domain/common/DependencyResolverImpl.kt:11-16 | A match, which ends in `)`, always has a span, closing inside the match |
| DependencyResolution.DeclarationSpan | src/main/kotlin/domain/common/DependencyResolverImpl.kt:15-18 | There is a span exactly when a declaration is found |
| DependencyResolution.FoundSpan | src/main/kotlin/domain/common/DependencyResolverImpl.kt:15-18 | A span comes from the declaration found, a well-formed match whose `(` opens the span and which ends after its close |
| DependencyResolution.PieceCutOpen | src/main/kotlin/domain/common/DependencyResolverImpl.kt:15-16 | A `(` before the first `)` leaves the piece after the first `(` with no `)` |
| DependencyResolution.PieceCutClosed | src/main/kotlin/domain/common/DependencyResolverImpl.kt:15-16 | Otherwise the piece's first `)` is the text's first `)` |
| DependencyResolution.CloseInPrefix | src/main/kotlin/domain/common/DependencyResolverImpl.kt:16 | A prefix reaching past the first `)` has that `)` first too, with the same text before it |
| DependencyResolution.ParameterTextOpen | src/main/kotlin/domain/common/DependencyResolverImpl.kt:15-18 | A `(` inside the parameter list makes the `substring` bound negative, which is a failure |
| DependencyResolution.ParameterTextClosed | src/main/kotlin/domain/common/DependencyResolverImpl.kt:15-18 | Otherwise the parameter text is exactly what lies between the `(` and the first `)` |
| DependencyResolution.ValueParameterText | src/main/kotlin/domain/common/DependencyResolverImpl.kt:15-18 | With the first `(` and the next `)` known: the parameter text is what lies between them, or a failure when a `(` lies between |
| DependencyResolution.NoParenBeforeOpen | src/main/kotlin/domain/common/DependencyResolverImpl.kt:11 | A declaration match holds no `(` before its own `(` |
| DependencyResolution.MatchTextShape | src/main/kotlin/domain/common/DependencyResolverImpl.kt:15 | The matched text's first `(` is the declaration's `(` |
| DependencyResolution.MatchParameterText | src/main/kotlin/domain/common/DependencyResolverImpl.kt:15-18 | The parameter text of a declaration match is decided by the text between its `(` and the first `)` after it |
| DependencyResolution.TextOfSpan | src/main/kotlin/domain/common/DependencyResolverImpl.kt:15-18 | The parameter text of a declaration is the text of its span, or a failure when that text holds a `(` |
| DependencyResolution.ParametersBetweenParens | src/main/kotlin/domain/common/DependencyResolverImpl.kt:15-18 | The parameter text is the text between the declaration's `(` and the first `)` after it |
| DependencyResolution.ParenInsideParameters | src/main/kotlin/domain/common/DependencyResolverImpl.kt:15-18 | A `(` between them is a failure |
| DependencyResolution.SameClose | src/main/kotlin/domain/common/DependencyResolverImpl.kt:16 | The first `)` after a `(` is the same in two texts that agree up to it |
| DependencyResolution.SpanAgrees | src/main/kotlin/domain/common/DependencyResolverImpl.kt:15-18 | Texts that agree up to the close of a span, matched at the same `(`, have the same span and the same text inside it |
| DependencyResolution.SameDeclaration | src/main/kotlin/domain/common/DependencyResolverImpl.kt:15 | Texts that agree up to a `)` after the declaration's `(` find the declaration at the same `(` |
| DependencyResolution.FromInner | src/main/kotlin/domain/common/DependencyResolverImpl.kt:15-18 | The text between the parentheses is kept exactly when it holds no `(` |
| DependencyResolution.ParameterListTextBySpan | src/main/kotlin/domain/common/DependencyResolverImpl.kt:15-18 | The parameter text is decided by the span between the `(` and the first `)` |
| DependencyResolution.SameParameterText | src/main/kotlin/domain/common/DependencyResolverImpl.kt:15-18 | Texts that agree up to the first `)` give the same parameter text |
| DependencyResolution.ClassBodyIrrelevant | src/main/kotlin/domain/common/DependencyResolverImpl.kt:15-18 | Replacing everything after the first `)` (the class body) does not change the names |
| DependencyResolution.TypeNamesConcat | src/main/kotlin/domain/common/DependencyResolverImpl.kt:21-23 | Names come out in fragment order |
| DependencyResolution.NamesFromParametersConcat | src/main/kotlin/domain/common/DependencyResolverImpl.kt:19-23 | The names of `a,b` are the names of `a` followed by those of `b` |
| DependencyResolution.TypeNameAfterColon | src/main/kotlin/domain/common/DependencyResolverImpl.kt:22 | The name is the trimmed text after the first `:`, up to any second `:` |
| DependencyResolution.SingleParameter | src/main/kotlin/domain/common/DependencyResolverImpl.kt:19-23 | One fragment without `:` gives no name; `a:b` gives the trimmed type after the first `:` |
| DependencyResolution.TrailingComma | src/main/kotlin/domain/common/DependencyResolverImpl.kt:19 | A trailing comma adds no name, and an empty list gives none |
| KoinModuleParser.BraceAfterEquals | src/main/kotlin/domain/common/KoinModuleParser.kt:8 | `\s*module\s*\{` after an `=`: the `{` found is the first `{` after it |
| KoinModuleParser.BraceAfterEqualsSound | src/main/kotlin/domain/common/KoinModuleParser.kt:8 | Every `{` found after an `=` closes blanks, `module` and blanks spelled out after it |
| KoinModuleParser.BraceAfterEqualsComplete | src/main/kotlin/domain/common/KoinModuleParser.kt:8 | Wherever blanks, `module`, blanks and `{` follow an `=`, that `{` is the one found: no match is missed |
| KoinModuleParser.LastWhere | src/main/kotlin/domain/common/KoinModuleParser.kt:8-10 | The last index in the range where the test holds, with none after it; none means it holds nowhere there |
| KoinModuleParser.LastAnchorEquals | src/main/kotlin/domain/common/KoinModuleParser.kt:8 | Greedy `.*=`: the last usable `=` in the range; none means none is usable |
| KoinModuleParser.AnchorEnd | src/main/kotlin/domain/common/KoinModuleParser.kt:8 | An anchor at 0 starts with `val` and ends one past a `{` |
| KoinModuleParser.AnchorEndIff | src/main/kotlin/domain/common/KoinModuleParser.kt:8 | The anchor matches at 0 exactly when the text starts with `val` and its first line holds an `=` that `\s*module\s*\{` follows; it then reaches past every such `=` |
| KoinModuleParser.AnchorFound | src/main/kotlin/domain/common/KoinModuleParser.kt:8 | `val`, text without a line terminator, `=`, blanks, `module`, blanks and `{` always match the anchor at 0, past that `=` |
| KoinModuleParser.FindFirst | src/main/kotlin/domain/common/KoinModuleParser.kt:15 | `find`: the match returned starts at an index where the pattern matches, with that match's end |
| KoinModuleParser.FindFirstLeftmost | src/main/kotlin/domain/common/KoinModuleParser.kt:15 | No match starts before the one found, and none found means no match anywhere |
| KoinModuleParser.AnchorShape | src/main/kotlin/domain/common/KoinModuleParser.kt:15-19 | The anchor found starts with `val` and ends just after its `{`, inside the text |
| KoinModuleParser.AnchorEndAt | src/main/kotlin/domain/common/KoinModuleParser.kt:15 | An anchor matched at `i` starts with `val` there and ends one past a `{`, inside the text |
| KoinModuleParser.KeywordLength | src/main/kotlin/domain/common/KoinModuleParser.kt:12 | A block keyword starts the text exactly when the length is positive: 6, 7 or 9 |
| KoinModuleParser.RunEnd | src/main/kotlin/domain/common/KoinModuleParser.kt:12 | `((?!keyword).)*`: the run holds no keyword start and no line terminator, and ends at one or at the end |
| KoinModuleParser.BlockEnd | src/main/kotlin/domain/common/KoinModuleParser.kt:12 | A block match at 0 is non-empty and inside the text |
| KoinModuleParser.BlockEndIn | src/main/kotlin/domain/common/KoinModuleParser.kt:12 | Within the stretch after the keyword, a block ends inside the stretch |
| KoinModuleParser.BlockFound | src/main/kotlin/domain/common/KoinModuleParser.kt:12 | The block in a stretch ends one past its last `}`, with a `{` before that `}` |
| KoinModuleParser.BlockMissing | src/main/kotlin/domain/common/KoinModuleParser.kt:12 | Without a block, no `}` of the stretch follows a `{` of it |
| KoinModuleParser.BlockEndInClosed | src/main/kotlin/domain/common/KoinModuleParser.kt:12 | A stretch whose last `}` is at `n - 1`, with a `{` before it, is a block up to `n` |
| KoinModuleParser.BlockShape | src/main/kotlin/domain/common/KoinModuleParser.kt:12 | A block is a keyword, then text with a `{`, ending at the last `}` of the run; none means no `}` follows a `{` in the run |
| KoinModuleParser.BlockValueShape | src/main/kotlin/domain/common/KoinModuleParser.kt:30 | Every matched block value starts with a keyword, holds `{` and ends with `}` |
| KoinModuleParser.KeywordStartPrefix | src/main/kotlin/domain/common/KoinModuleParser.kt:12-30 | A keyword that starts a text starts every prefix that holds it |
| KoinModuleParser.BlocksShape | src/main/kotlin/domain/common/KoinModuleParser.kt:30 | `findAll` gives only such block values |
| KoinModuleParser.LastArrow | src/main/kotlin/domain/common/KoinModuleParser.kt:10 | Greedy `.*->`: the last `->` in the range; none means none there |
| KoinModuleParser.ClauseEnd | src/main/kotlin/domain/common/KoinModuleParser.kt:10 | A clause starts with `parameters` and ends just after the last `->` of its line; none means no `->` on that line |
| KoinModuleParser.StripParameters | src/main/kotlin/domain/common/KoinModuleParser.kt:34 | Removing the clauses never makes the text longer |
| KoinModuleParser.CallName | src/main/kotlin/domain/common/KoinModuleParser.kt:37 | The class name holds no `(` |
| KoinModuleParser.Classify | src/main/kotlin/domain/common/KoinModuleParser.kt:45-50 | Succeeds exactly for `single`, `viewModel` and `factory`, giving `Singleton`, `ViewModel` and `Factory` with the given name and dependencies, never `Scope`; any other kind fails with that kind |
| KoinModuleParser.ComponentOf | src/main/kotlin/domain/common/KoinModuleParser.kt:32-51 | At most one resolver query; a component carries the class name before the first `(` and is never a `Scope` |
| KoinModuleParser.Outcomes | src/main/kotlin/domain/common/KoinModuleParser.kt:32 | One outcome per block |
| KoinModuleParser.Collect | src/main/kotlin/domain/common/KoinModuleParser.kt:52 | A successful `toList` has one component per block |
| KoinModuleParser.ModuleBlocks | src/main/kotlin/domain/common/KoinModuleParser.kt:19-21 | The blocks of the module text are all well-shaped block values |
| KoinModuleParser.Parse | src/main/kotlin/domain/common/KoinModuleParser.kt:14-27 | No anchor fails with `NoModuleFound`, before the resolver is asked anything |
| KoinModuleParser.ModuleOf | src/main/kotlin/domain/common/KoinModuleParser.kt:17-26 | Fewer than two tokens fails with no query; a module is named by the second token |
| KoinModuleParser.ComponentWithoutCallFails | src/main/kotlin/domain/common/KoinModuleParser.kt:37 | A body without `(` fails, and the resolver is not asked |
| KoinModuleParser.EmptyConstructorSkipsResolver | src/main/kotlin/domain/common/KoinModuleParser.kt:38-40 | With an empty argument list the resolver is never asked, the outcome does not depend on the resolver, and the dependencies are `[]` |
| KoinModuleParser.ResolverAskedForCallName | src/main/kotlin/domain/common/KoinModuleParser.kt:37-42 | Otherwise the resolver is asked exactly once, for the class name; its failure is the block's failure, and its result is used unchanged as the dependencies |
| KoinModuleParser.ComponentKind | src/main/kotlin/domain/common/KoinModuleParser.kt:35-50 | The variant follows the keyword; any other keyword fails with `UnknownComponentKind` once it is reached, and `scoped` always fails |
| KoinModuleParser.CollectAllOk | src/main/kotlin/domain/common/KoinModuleParser.kt:32-52 | When every block succeeds, the components come out in block order and every block's query is made |
| KoinModuleParser.CollectFirstFailure | src/main/kotlin/domain/common/KoinModuleParser.kt:32-52 | The first failing block decides the failure, and no block after it is queried |
| KoinModuleParser.CollectOk | src/main/kotlin/domain/common/KoinModuleParser.kt:52 | `toList` succeeds exactly when every block succeeds |
| KoinModuleParser.StartsAtPrefix | src/main/kotlin/domain/common/KoinModuleParser.kt:12 | A word that fits in `b` occurs in `b + rest` exactly when it occurs in `b` |
| KoinModuleParser.KeywordAfter | src/main/kotlin/domain/common/KoinModuleParser.kt:12 | A keyword that starts `rest` starts `b + rest` at `|b|` |
| KoinModuleParser.NoStraddle | src/main/kotlin/domain/common/KoinModuleParser.kt:12 | No keyword runs across the closing `}` of a block |
| KoinModuleParser.KeywordInside | src/main/kotlin/domain/common/KoinModuleParser.kt:12 | Keyword starts inside a block do not depend on what follows it |
| KoinModuleParser.RunEndIs | src/main/kotlin/domain/common/KoinModuleParser.kt:12 | The run ends exactly at the first keyword start or terminator |
| KoinModuleParser.KeywordBeyond | src/main/kotlin/domain/common/KoinModuleParser.kt:12 | Past the end of `b`, the keyword starts of `b + rest` are those of `rest` |
| KoinModuleParser.BlockRunsPastModule | src/main/kotlin/domain/common/KoinModuleParser.kt:12 | A well-formed block followed by text that holds a `}` before any keyword or line terminator does not end where it did: the match runs on past that `}` and takes in the text before it |
| KoinModuleParser.RunPastBlock | src/main/kotlin/domain/common/KoinModuleParser.kt:12 | After a block's keyword, no keyword start or line terminator occurs up to `n` characters into keyword-free, line-free text that follows the block |
| KoinModuleParser.BlockReaches | src/main/kotlin/domain/common/KoinModuleParser.kt:12 | A keyword, then a keyword-free, line-free stretch with a `{` and a later `}`: the block matched reaches that `}` at least |
| KoinModuleParser.KeywordLengthPrefix | src/main/kotlin/domain/common/KoinModuleParser.kt:12 | A block's keyword is the keyword of anything it begins |
| KoinModuleParser.RunEndOfConcat | src/main/kotlin/domain/common/KoinModuleParser.kt:12 | A run that starts in a block covers the whole block and stops inside the gap after it |
| KoinModuleParser.BlockEndOfConcat | src/main/kotlin/domain/common/KoinModuleParser.kt:12 | A block followed by a gap (no keyword letter, no `}`) and then another block or nothing is matched as exactly itself |
| KoinModuleParser.BlocksOfConcat | src/main/kotlin/domain/common/KoinModuleParser.kt:30 | A block, a gap and more blocks: the block is found first, then the blocks after the gap |
| KoinModuleParser.BodyStartsWithKeyword | src/main/kotlin/domain/common/KoinModuleParser.kt:12 | Blocks with gaps written one after another start with a keyword |
| KoinModuleParser.BlocksOfWellFormed | src/main/kotlin/domain/common/KoinModuleParser.kt:30 | Blocks written one after another, each followed by a gap of blanks, line breaks or other non-keyword text without `}`, are found again, all of them, in their left-to-right order |
| KoinModuleParser.BlocksSkip | src/main/kotlin/domain/common/KoinModuleParser.kt:30 | A position where no block starts is skipped by the search |
| KoinModuleParser.BlocksAt | src/main/kotlin/domain/common/KoinModuleParser.kt:30 | Where the search finds a block, the blocks are that block followed by the blocks after its end |
| KoinModuleParser.BlocksNone | src/main/kotlin/domain/common/KoinModuleParser.kt:30 | Where the search finds nothing, there are no blocks |
| KoinModuleParser.NoBlockAtOtherLetter | src/main/kotlin/domain/common/KoinModuleParser.kt:12 | No block starts at a letter other than `s`, `v` or `f` |
| KoinModuleParser.BlocksSkipLeading | src/main/kotlin/domain/common/KoinModuleParser.kt:30 | Leading text without those letters, such as the module's own `{` and blanks, yields no block |
| KoinModuleParser.NoClauseUnchanged | src/main/kotlin/domain/common/KoinModuleParser.kt:34 | Text without `parameters` is left unchanged |
| KoinModuleParser.NoArrowUnchanged | src/main/kotlin/domain/common/KoinModuleParser.kt:10-34 | Text without `->` is left unchanged, whether or not `parameters` occurs in it |
| KoinModuleParser.KeptBeforeClause | src/main/kotlin/domain/common/KoinModuleParser.kt:34 | Text without `p` before a clause is kept |
| KoinModuleParser.KeptCharacter | src/main/kotlin/domain/common/KoinModuleParser.kt:10-34 | A first character other than `p` starts no clause and is kept |
| KoinModuleParser.LastArrowIs | src/main/kotlin/domain/common/KoinModuleParser.kt:10 | An arrow with no arrow after it in the range is the one found |
| KoinModuleParser.ClauseRemoved | src/main/kotlin/domain/common/KoinModuleParser.kt:10-34 | `parameters … ->` within one line, followed by text with no arrow, is removed entirely |
| KoinModuleParser.ClauseDroppedFromText | src/main/kotlin/domain/common/KoinModuleParser.kt:34 | Removing the clause keeps the text before it and all the text after its arrow, which may mention `parameters` again |
| KoinModuleParser.ParametersClauseDropped | src/main/kotlin/domain/common/KoinModuleParser.kt:33-34 | A block body `pre parameters … -> post` has the definition `pre post`, trimmed, even when `post` uses `parameters[0]` |
| KoinModuleParser.CallNameBeforeParen | src/main/kotlin/domain/common/KoinModuleParser.kt:37 | A definition `Name(args` has a call, and its class name is `Name` |
| KoinModuleParser.KindWithTypeArgument | src/main/kotlin/domain/common/KoinModuleParser.kt:35 | `single<T>` is classified by `single`: the type argument is ignored |
| KoinModuleParser.KindWithoutTypeArgument | src/main/kotlin/domain/common/KoinModuleParser.kt:35 | A keyword followed by blanks is classified by the keyword |
| KoinModuleParser.FindFirstSkip | src/main/kotlin/domain/common/KoinModuleParser.kt:15 | With no match before `n`, the search finds the match of the text from `n`, shifted by `n` |
| KoinModuleParser.FindFirstStep | src/main/kotlin/domain/common/KoinModuleParser.kt:15 | With no match at 0, the search of `t` is the search of `t[1..]`, shifted by one |
| KoinModuleParser.StartsAtSuffix | src/main/kotlin/domain/common/KoinModuleParser.kt:8 | A word at the start of `t[j..]` is the word at `j` of `t` |
| KoinModuleParser.FindAnchorPrefix | src/main/kotlin/domain/common/KoinModuleParser.kt:15 | With no `val` before it, the anchor is the one in the rest of the text, shifted |
| KoinModuleParser.SameNameTokens | src/main/kotlin/domain/common/KoinModuleParser.kt:17 | The name tokens depend only on the anchor's own text, wherever it sits |
| KoinModuleParser.SameModuleBlocks | src/main/kotlin/domain/common/KoinModuleParser.kt:19-21 | The blocks depend only on the text from the anchor's `{` on |
| KoinModuleParser.ParseAt | src/main/kotlin/domain/common/KoinModuleParser.kt:14-27 | A parse with anchor `a` names the module from the tokens at `a` and fills it from the blocks after `a` |
| KoinModuleParser.ParseShifted | src/main/kotlin/domain/common/KoinModuleParser.kt:14-27 | When the anchor of `p + c` is that of `c` shifted past `p`, both parse alike |
| KoinModuleParser.ParseFromShifted | src/main/kotlin/domain/common/KoinModuleParser.kt:14-27 | Parsing from an anchor shifted past a prefix gives what parsing from the anchor in the rest gives |
| KoinModuleParser.ShiftedAnchorAgrees | src/main/kotlin/domain/common/KoinModuleParser.kt:17-21 | An anchor shifted past a prefix is found exactly when the original is, with the same name tokens and the same blocks |
| KoinModuleParser.SameParseFrom | src/main/kotlin/domain/common/KoinModuleParser.kt:14-27 | Two anchors that agree on being found, on their name tokens and on their blocks give the same parse |
| KoinModuleParser.PrefixIgnored | src/main/kotlin/domain/common/KoinModuleParser.kt:15-21 | Text before the first `val`, such as imports, does not change the parse at all |
| KoinModuleParser.SpacesThenToken | src/main/kotlin/domain/common/KoinModuleParser.kt:17 | After any blanks, the first non-empty piece is the token that follows them |
| KoinModuleParser.AnchorTokens | src/main/kotlin/domain/common/KoinModuleParser.kt:17 | `val`, blanks, a name and a blank split into the tokens `val`, the name, then those of the rest |
| KoinModuleParser.AnchorPastEquals | src/main/kotlin/domain/common/KoinModuleParser.kt:8 | An anchor reaches past any text that holds no `=` |
| KoinModuleParser.AnchorAfterName | src/main/kotlin/domain/common/KoinModuleParser.kt:8-15 | `val <blanks><name> = module {` on one line is the anchor found at 0, and it reaches past the name |
| KoinModuleParser.AnchorNameTokens | src/main/kotlin/domain/common/KoinModuleParser.kt:17 | An anchor at 0 that reaches past `val <blanks><name> ` has the tokens `val` and the name first |
| KoinModuleParser.ParseModuleName | src/main/kotlin/domain/common/KoinModuleParser.kt:14-17 | `val <blanks><name> = module {` is found at 0 and named `<name>`, however many blanks surround it: the tokens start with `val` and the name |
| KoinModuleParser.ParseOk | src/main/kotlin/domain/common/KoinModuleParser.kt:14-53 | A parsed module has one component per block, in block order, each the block's own component; none is a `Scope`, and the resolver was asked for the blocks in order |
| KoinModuleParser.ModuleComponents | src/main/kotlin/domain/common/KoinModuleParser.kt:14-32 | A module text made of a lead-in without keyword letters and blocks each followed by a gap is cut into exactly those blocks, in order, and the parse is the module built from them |
| KoinModuleParser.BlocksOfModule | src/main/kotlin/domain/common/KoinModuleParser.kt:19-30 | The module text made of such a lead-in, well-formed blocks and gaps gives back exactly those blocks |
| KoinModuleParser.ModuleOfBlocks | src/main/kotlin/domain/common/KoinModuleParser.kt:17-52 | With a name, the module makes its blocks' queries, succeeds exactly when they all succeed, and its components are theirs |
| KoinModuleParser.Resolved | src/main/kotlin/domain/common/KoinModuleParser.kt:37-49 | A block with arguments whose class the resolver knows: one query for the class, and the keyword classifies the resolver's names |
| KoinModuleParser.CollectTwo | src/main/kotlin/domain/common/KoinModuleParser.kt:52 | Two outcomes that both succeed give both components and both queries, in order |
| KoinModuleParser.ModuleOfCollected | src/main/kotlin/domain/common/KoinModuleParser.kt:14-27 | A named module whose blocks all succeed holds exactly their components and makes exactly their queries |
| KoinModuleParser.FactoryThenViewModel | src/main/kotlin/domain/common/KoinModuleParser.kt:32-52 | A `factory` block then a `viewModel` block the resolver knows give `[Factory(name, deps), ViewModel(name, deps)]`, asking for the factory's class first |
| KoinModuleParser.ParseFactoryThenViewModel | src/test/kotlin/domain/common/KoinModuleParserTest.kt:234-277 | A named module laid out as lead-in, `factory` block, gap, `viewModel` block, gap (the layout of this test) parses to that module with `[Factory, ViewModel]` and queries the two class names in that order |

## Left out

- `FileContentProviderImpl` and `KoinModuleFinder` walk the file system and read files. This is I/O. The provider is a function parameter with the contract of `FileContentProvider.getFileContentForDependencyOrNull`.
- `main.kt` is a desktop window with no logic. `Dependency.kt` is an unused copy of `Component`. `DependencyResolver.kt` and `FileContentProvider.kt` only declare interfaces.
- The class name is spliced into the resolver's regular expression unescaped. The model matches the name literally, so a name containing regex metacharacters is outside the model.
- Kotlin's lazy `Sequence` is modelled as a list that is forced left to right. Its outcome and the queries made up to the first failure are exactly what the lazy chain produces.
- Any exception the resolver collaborator throws is modelled as an `Err` of the resolver's result. The parser passes it on unchanged.
- The module name follows the code, not the design intent. The code reads `split(" ")` of the whole anchor match and takes the second non-empty token, and the model does the same. The token before the `=` is the module name only when the anchor is written `val <name> = …` with a blank on each side. `val x=module {` names the module `x=module`.
- Text after the module's closing `}` on the same line is not cut off. `parse` matches blocks in the whole text after the anchor, so a `}` that follows the module's `}`, before a keyword or a line terminator, extends the last block (`BlockRunsPastModule`). With `single{A()}}x{}` the definition becomes `A()}}x`, its arguments are no longer empty, and the resolver is asked for `A`. A `\r` that the newline deletion leaves in place stops a run, so a block cut by one ends earlier. The model follows the code in both cases. The whole-module theorems take what follows the last block to be a gap, which holds no `}`, so they do not cover this case.
- Scopes are not modelled. `scoped` blocks are matched, but the code raises `unknown dependency type scoped` (scopes are still a to-do there). The model therefore never produces `Scope` and does not capture a scope type name.
