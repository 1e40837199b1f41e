# flight-howto, modelled in Dafny

flight-howto is a command-line tool. It finds markdown how-to guides in a directory and resolves a name the user types to one guide. It then strips the guide's metadata header and renders the guide for a terminal. This project models the core of that tool in Dafny 4.11 and proves properties of the model:

- the normalisation of guide file names into standard names, indices, parts and titles (`Guides`);
- the matcher, which narrows guides by key prefixes (`Matching`);
- the `show` resolution, which turns arguments into exactly one guide or an error (`Show`);
- the front-matter parser (`Parser`);
- the line-metadata regular expression `META_REGEX`, written as a backtracking matcher (`MetaRegex`);
- the terminal renderer's width default, colour retry and padding-preserving wrap (`Rendering`);
- the error exit-code hierarchy (`Errors`);
- command-name constantizing, the command registry and `build` (`Commands`);
- the table columns and output options of the lister (`Lister`).

`Strings` holds Ruby's string operations on ASCII as the model uses them:
- `split`, which drops trailing empty fields;
- `join`, `chomp`, `uniq`, `downcase`, `capitalize` and `to_i`.

`Wrappers` holds `Option` and `Result`.

Several parts of the system are inputs to the model rather than parts of it:
- the filesystem;
- the YAML decoder, the markdown converter, the word wrapper and the terminal width;
- the configured default index;
- `Guide#id` and `Matcher#find_by_index`, which the source uses but does not define.

`Guide#parts` is not defined in the source either. The model derives it the same way `humanized_name` splits the standard basename: the standard basename split on `_`, without its first token.

A name without a leading `NN_` gets the configured default index in front of it (guide.rb:55). Guides keep the order they are loaded in (matcher.rb:37-40), and nothing sorts or filters them.

## Model

| member | source | states |
|---|---|---|
| Guides.Standardize | lib/flight-howto/guide.rb:35-37 | the result has the same length as the input; each character maps on its own: whitespace or `-` becomes `_`, anything else is downcased |
| Guides.StandardizeIsStandard | lib/flight-howto/guide.rb:31-37 | a standardized string has no whitespace, no `-` and no upper-case letter |
| Guides.StandardizeIdempotent | lib/flight-howto/guide.rb:35-37 | standardizing twice gives the same as standardizing once |
| Guides.StandardizeKeepsStandard | lib/flight-howto/guide.rb:35-37 | a string that is already standard is unchanged |
| Guides.StandardizeConcat | lib/flight-howto/guide.rb:35-37 | standardizing distributes over concatenation: runs of separators are not collapsed |
| Guides.LastComponent | lib/flight-howto/guide.rb:54 | the last path component is a suffix of the path with no `/`, and a `/` precedes it |
| Guides.Basename | lib/flight-howto/guide.rb:54 | `File.basename(path, '.*')` has no `/` and is a prefix of the last component; when the last component has a `.` after its leading dots, the basename ends just before the last such `.`, so exactly the last extension goes; with no such `.`, the last component is kept whole |
| Guides.LastComponentOfFile | lib/flight-howto/guide.rb:54 | under a directory path ending in `/`, the last component is the file name |
| Guides.BasenameDropsExtension | lib/flight-howto/guide.rb:54 | the basename of `<dir>/<name>.<ext>` is `name`, for a name not starting with a dot, whatever dots the name holds |
| Guides.BasenameOfFile | lib/flight-howto/guide.rb:54 | the basename of a file under a directory is the file name cut at its last dot, when the name does not start with a dot |
| Guides.StartsWithIndex | lib/flight-howto/guide.rb:55 | the definition of `/\A\d+_/ =~ name`: a non-empty digit run followed by `_`; `Guides.IndexPrefix` proves that a prefixed name satisfies it |
| Guides.StandardName | lib/flight-howto/guide.rb:54 | the definition of the standardized basename; `Guides.StandardBasename` states how the standard basename follows from it |
| Guides.StandardBasename | lib/flight-howto/guide.rb:52-57 | the standard basename always starts with digits then `_`, and is standard; a standardized name that already starts so is kept as it is; any other name gets `<default index>_` in front |
| Guides.StandardBasenameIsFixpoint | lib/flight-howto/guide.rb:52-57 | standardizing the standard basename changes nothing |
| Guides.IndexPrefix | lib/flight-howto/guide.rb:55 | after `<n>_` is prefixed, the digit run is exactly the decimal text of `n` and the original name follows the `_` |
| Guides.IndexDigits | lib/flight-howto/guide.rb:62 | the match of `/\A\d+/` on the standard basename is a non-empty run of digits |
| Guides.Index | lib/flight-howto/guide.rb:61-63 | the definition of `index` as the value of the digit run; `Guides.IndexOfUnindexedName`, `Guides.IndexOfIndexedName` and `Guides.IndexIgnoresLeadingZero` state its properties |
| Guides.IndexOfUnindexedName | lib/flight-howto/guide.rb:55-63 | a guide whose name carries no index has the default index |
| Guides.IndexOfIndexedName | lib/flight-howto/guide.rb:61-63 | a guide whose name carries an index has the value of its own leading digits |
| Guides.IndexIgnoresLeadingZero | lib/flight-howto/guide.rb:61-63 | a leading zero does not change the index, so `007_setup` and `7_setup` have the same index |
| Guides.SplitStandardBasename | lib/flight-howto/guide.rb:69 | splitting the standard basename on `_` gives its index digits, then the split of what follows the first `_` |
| Guides.PartsFollowIndex | lib/flight-howto/guide.rb:69 | the parts are the split of what follows the index digits and their `_` |
| Guides.PartsOfUnindexedName | lib/flight-howto/guide.rb:55-69 | a name without an index contributes all of its `_`-separated words as parts |
| Guides.Parts | lib/flight-howto/guide.rb:69 | the definition of the parts; `Guides.PartsFollowIndex`, `Guides.PartsOfUnindexedName` and `Guides.PartsAreStandard` state its properties |
| Guides.NamedGuideFile | lib/flight-howto/guide.rb:52-69 | a guide file `<dir>/<name>.<ext>` whose name is standard and indexed has that name as its standard basename; its index is the value of the name's digits and its parts are the words after them |
| Guides.SetupGuide | lib/flight-howto/guide.rb:52-72 | the guide `01_setup.md` has the standard basename `01_setup`, index 1, the parts `["setup"]` and the title `Setup` |
| Guides.PartsAreStandard | lib/flight-howto/guide.rb:69 | every part is standard |
| Guides.CapitalizeAll | lib/flight-howto/guide.rb:70 | each word is capitalized on its own, and the word count is kept |
| Guides.HumanizedNameStandardizesToParts | lib/flight-howto/guide.rb:68-72 | the humanized name standardizes back to the parts joined with `_`: the title shows exactly the parts, capitalized and joined with single spaces |
| Guides.HumanizedName | lib/flight-howto/guide.rb:68-72 | the definition of `humanized_name`; `Guides.HumanizedNameStandardizesToParts` and `Guides.SetupGuide` state its properties |
| Guides.StandardizeJoinSpaces | lib/flight-howto/guide.rb:71 | standardizing words joined with spaces gives the standardized words joined with `_` |
| Guides.StandardizeCapitalized | lib/flight-howto/guide.rb:70 | capitalizing a standard word and standardizing it again gives the word back |
| Guides.MatchesInput | lib/flight-howto/guide.rb:78-80 | `guide =~ input` holds exactly when `input` occurs at some position of the standard basename |
| Strings.Downcase | lib/flight-howto/guide.rb:36 | lower-cases each ASCII letter in place and keeps the length |
| Strings.Capitalize | lib/flight-howto/guide.rb:70 | upper-cases the first character and lower-cases the rest |
| Strings.FieldsAvoid | lib/flight-howto/guide.rb:69 | a raw field holds only characters of the string and none of the separators |
| Strings.SplitAvoids | lib/flight-howto/guide.rb:69 | the same holds for every piece `split` keeps |
| Strings.DropTrailingEmpty | lib/flight-howto/guide.rb:69 | only trailing empty fields are removed, and the result does not end with one |
| Strings.Split | lib/flight-howto/guide.rb:69 | the definition of `split` as the fields without the trailing empty ones; `Strings.SplitAvoids` and `Strings.SplitWithoutSeparator` state its properties |
| Strings.Join | lib/flight-howto/guide.rb:71 | the definition of `join`; `Strings.JoinFields` proves that it undoes the split into raw fields |
| Strings.JoinFields | lib/flight-howto/guide.rb:69 | joining the raw fields with their separator gives the string back |
| Strings.SplitWithoutSeparator | lib/flight-howto/guide.rb:69 | a string without a separator splits into itself, or into nothing when it is empty |
| Strings.ContainsAt | lib/flight-howto/guide.rb:79 | `include?` holds exactly when the substring occurs at some position |
| Strings.Chomp | lib/flight-howto/renderer.rb:49 | removes exactly one trailing `"\r\n"`, `"\n"` or `"\r"`, and only when there is one |
| Strings.Uniq | lib/flight-howto/commands/show.rb:60 | `uniq` keeps every element and no element twice |
| Strings.UniqSubsequence | lib/flight-howto/commands/show.rb:60 | `uniq` keeps the original order |
| Strings.NatToString | lib/flight-howto/guide.rb:55 | the decimal text of a number is a non-empty run of digits |
| Strings.DigitsValueOfNatToString | lib/flight-howto/guide.rb:55-62 | reading the decimal text of a number back with `to_i` gives the number |
| Strings.DigitsValueLeadingZero | lib/flight-howto/guide.rb:62 | a leading zero does not change the value of a digit run |
| Matching.New | lib/flight-howto/matcher.rb:50-52 | a matcher built with a given guide sequence, even an empty one, holds exactly that sequence; only nil falls back to the guides found on disk |
| Matching.Filter | lib/flight-howto/matcher.rb:66-68 | `select` keeps exactly the elements satisfying the condition, and never more elements than it was given |
| Matching.MatchesKey | lib/flight-howto/matcher.rb:65-67 | the definition of the search condition: some part starts with the key; `Matching.Search` states that exactly the guides satisfying it are kept |
| Matching.KeyFilter | lib/flight-howto/matcher.rb:66-68 | the `select` block as a condition; `Matching.Search` states what filtering by it keeps |
| Matching.FilterSubsequence | lib/flight-howto/matcher.rb:66-68 | `select` keeps the original order |
| Matching.Search | lib/flight-howto/matcher.rb:64-70 | the new matcher's guides are a subsequence of the old ones, and they are exactly the guides that have a part beginning with the key |
| Matching.SearchIdempotent | lib/flight-howto/matcher.rb:64-70 | searching the result again for the same key changes nothing |
| Matching.SearchCommutes | lib/flight-howto/matcher.rb:64-70 | two searches give the same guides in either order |
| Matching.SearchEmptyKey | lib/flight-howto/matcher.rb:65-67 | the empty key keeps exactly the guides that have at least one part, and so keeps every guide when all of them do |
| Matching.FilterFilter | lib/flight-howto/matcher.rb:66-69 | filtering twice is filtering once by both conditions |
| Matching.FilterStronger | lib/flight-howto/matcher.rb:66-69 | a stronger condition keeps a subsequence of what a weaker one keeps |
| Matching.FilterCommutes | lib/flight-howto/matcher.rb:66-69 | two filters commute |
| Matching.FilterKeepsAll | lib/flight-howto/matcher.rb:66-69 | a condition every element satisfies keeps the sequence unchanged |
| Matching.StripLeadingZeros | lib/flight-howto/matcher.rb:58 | `sub(/\A0*/, '')` removes exactly the leading zeros: the result is a suffix that does not start with `0`, and everything before it is `0` |
| Matching.NormalizeId | lib/flight-howto/matcher.rb:58 | the definition of the id normalisation; `Matching.FindByIdIgnoresLeadingZero` and `Matching.FindByIdIgnoresCase` state its properties |
| Matching.FindFirst | lib/flight-howto/matcher.rb:59 | `find` gives the first guide in order whose id equals the given one, or nothing exactly when no guide has that id |
| Matching.FindById | lib/flight-howto/matcher.rb:57-60 | the guide found is one of the matcher's, has the normalised id, and no earlier guide has that id; nothing is found exactly when no guide has it |
| Matching.FindByIdIgnoresLeadingZero | lib/flight-howto/matcher.rb:58 | `"0" + id` finds the same guide as `id`, so `"007"` and `"7"` do too |
| Matching.FindByIdIgnoresCase | lib/flight-howto/matcher.rb:58 | ids that downcase alike find the same guide |
| Show.Tokens | lib/flight-howto/commands/show.rb:58-60 | the tokens have no duplicates and are exactly the fields of the standardized, `_`-joined arguments |
| Show.TokensAreStandardWords | lib/flight-howto/commands/show.rb:58-60 | no token holds `_`, whitespace, `-` or an upper-case letter |
| Show.FoldSearch | lib/flight-howto/commands/show.rb:61 | the definition of the `reduce`; `Show.FoldSearchSelectsAll`, `Show.FoldSearchDependsOnKeySet` and `Show.FoldSearchExtraKeyShrinks` state its properties |
| Show.FoldSearchSelectsAll | lib/flight-howto/commands/show.rb:61 | folding `search` over the keys keeps, in order, exactly the guides that match every key |
| Show.FoldSearchDependsOnKeySet | lib/flight-howto/commands/show.rb:60-61 | the candidates depend only on which keys there are, not on their order or repetition |
| Show.FoldSearchExtraKeyShrinks | lib/flight-howto/commands/show.rb:61 | one more key can only remove candidates |
| Show.LoadGuidesFromArgs | lib/flight-howto/commands/show.rb:57-63 | the candidates are a subsequence of the matcher's guides, and they are exactly the guides that match every token |
| Show.LoadGuidesIgnoresRepeats | lib/flight-howto/commands/show.rb:60 | dropping duplicate tokens does not change the candidates |
| Show.AmbiguousMessage | lib/flight-howto/commands/show.rb:47-50 | the chomped heredoc is the "did you mean" header line followed by the candidate table; only a carriage return the table ends with is removed as well |
| Show.ResolveGuide | lib/flight-howto/commands/show.rb:36-55 | one argument that the index lookup finds gives that guide without a search; otherwise one candidate is the result; several give a `MissingError` (exit code 20) whose message is `AmbiguousMessage` of the table of the candidates; none give `MissingError` "Could not locate: " plus the arguments joined with spaces |
| Show.ResolvedGuideIsJustified | lib/flight-howto/commands/show.rb:36-55 | a resolved guide comes from the index lookup or is the only candidate |
| Parser.LeadingDashes | lib/flight-howto/parser.rb:73 | counts the run of dashes that starts the text |
| Parser.OpensFence | lib/flight-howto/parser.rb:73 | the definition of the opening regex; `Parser.OpensFenceExactDashes` states which texts it accepts |
| Parser.OpensFenceExactDashes | lib/flight-howto/parser.rb:50-73 | the opening regex holds exactly when the text starts with exactly three or exactly five dashes and then only whitespace up to the end of the line |
| Parser.SkipBlanks | lib/flight-howto/parser.rb:77 | `[ \t]*` takes the maximal run of blanks |
| Parser.FenceAt | lib/flight-howto/parser.rb:77 | the definition of a fence position: a line start followed by three dashes; `Parser.NextFence` states that the split finds the leftmost one |
| Parser.FenceEnd | lib/flight-howto/parser.rb:77 | a fence match takes at least its three dashes and stays within the text |
| Parser.NextFence | lib/flight-howto/parser.rb:77 | the split point is the leftmost fence at a line start at or after the search position, and there is none exactly when no such fence exists |
| Parser.StripLeadingNewline | lib/flight-howto/parser.rb:83 | removes one leading newline when there is one, and nothing else |
| Parser.VerifyMeta | lib/flight-howto/parser.rb:106-110 | a hash passes; anything else gives `InvalidMetadataError` naming its class |
| Parser.ParseMetadata | lib/flight-howto/parser.rb:89-99 | a decoder exception gives `UnparseableMetadataError` with its message; nil or false becomes `{}`; a hash is returned unchanged; any other value gives `InvalidMetadataError`; a success is always a hash |
| Parser.ParseText | lib/flight-howto/parser.rb:70-86 | text without an opening fence is all content with `{}` and `''`; a fence with no later fence gives `InvalidFormatError`; otherwise the metadata is the text between the fences and the content is what follows the second fence, less one leading newline |
| Parser.FencedBranchIffOpensFence | lib/flight-howto/parser.rb:73-104 | the fenced branch is taken exactly when `frontmatter?` holds |
| Parser.ParsedPiecesOfText | lib/flight-howto/parser.rb:77-85 | the metadata text has no fence line in it, and the content is everything after the second fence, so later fences stay in the content |
| Parser.Chars | lib/flight-howto/parser.rb:131 | a validly encoded text is its characters, one for one |
| Parser.DeleteAll | lib/flight-howto/parser.rb:136 | `delete!` removes every byte-order mark anywhere, keeps the order and keeps the count of every other character |
| Parser.ReadText | lib/flight-howto/parser.rb:131-136 | the definition of the text a readable file gives; `Parser.ReadFile` states that a successful read returns it |
| Parser.ReadFile | lib/flight-howto/parser.rb:112-139 | a read failure gives `FileUnreadableError`; a failed transcode or invalid encoding gives `InvalidEncodingError` with the original encoding; otherwise the result is the text without any byte-order mark |
| Parser.ParseWithFrontmatter | lib/flight-howto/parser.rb:65-86 | reading errors come first; a readable file is parsed as its text |
| Parser.IsFrontmatter | lib/flight-howto/parser.rb:101-104 | reading errors as in `read_file`; otherwise whether the text opens with a fence |
| MetaRegex.QuotedBody | lib/flight-howto/meta_regex.rb:65-67 | the closing quote found is followed by the tail of the pattern, and every quote before it is escaped |
| MetaRegex.BareRun | lib/flight-howto/meta_regex.rb:69 | the maximal run of characters other than `#`, CR and LF |
| MetaRegex.BareEnd | lib/flight-howto/meta_regex.rb:69-73 | backtracking gives the longest non-empty bare value after which the tail matches |
| MetaRegex.Value | lib/flight-howto/meta_regex.rb:64-70 | a single- or double-quoted value is captured without its quotes; a bare value is a non-empty run of bare characters; no value requires the tail to match at once |
| MetaRegex.MatchAt | lib/flight-howto/meta_regex.rb:60-62 | a match begins with `:`; the key is the whole non-empty word run after optional whitespace |
| MetaRegex.Trailer | lib/flight-howto/meta_regex.rb:71-73 | the definition of the tail; `MetaRegex.TrailerWithinRun` states how it behaves after a bare run |
| MetaRegex.LazyGap | lib/flight-howto/meta_regex.rb:63-70 | the definition of the lazy `\s*?`; `MetaRegex.LazyGapTakesNothing` and `MetaRegex.LazyGapExample` state its properties |
| MetaRegex.Separator | lib/flight-howto/meta_regex.rb:63 | the definition of the separator; `MetaRegex.ShorterKeyFails`, `MetaRegex.NoSeparatorNoMatch` and `MetaRegex.SeparatorWithoutBreaks` state its properties |
| MetaRegex.Search | lib/flight-howto/meta_regex.rb:60-73 | the definition of the match at the first line start; `MetaRegex.SearchOnlyAtStart`, `MetaRegex.SearchFromStartNeedsColon` and `MetaRegex.MatchWithoutBreaks` state its properties |
| MetaRegex.ShorterKeyFails | lib/flight-howto/meta_regex.rb:62-63 | no separator can follow a word character, so the key is never shortened |
| MetaRegex.SearchFromStartNeedsColon | lib/flight-howto/meta_regex.rb:60 | a single line matches only when it begins with `:` |
| MetaRegex.SearchOnlyAtStart | lib/flight-howto/meta_regex.rb:60 | in a single line, the only position a match can start is its beginning |
| MetaRegex.NoSeparatorNoMatch | lib/flight-howto/meta_regex.rb:63 | a match has `=` after optional whitespace, or `:` followed by whitespace, after the key |
| MetaRegex.BareIsMaximalRun | lib/flight-howto/meta_regex.rb:69-72 | a bare value is the maximal run of characters other than `#`, CR and LF, so a following comment is dropped |
| MetaRegex.TrailerWithinRun | lib/flight-howto/meta_regex.rb:71-73 | when the tail matches after whitespace it also matches at the end of the bare run |
| MetaRegex.QuotesInsideAreEscaped | lib/flight-howto/meta_regex.rb:65-67 | a quote inside a captured quoted value is preceded by a backslash |
| MetaRegex.ValueTotalWithoutBreaks | lib/flight-howto/meta_regex.rb:64-73 | on a line without line breaks the value group or the tail always fits |
| MetaRegex.LazyGapTakesNothing | lib/flight-howto/meta_regex.rb:63 | without line breaks, the lazy `\s*?` after the separator takes no whitespace |
| MetaRegex.SeparatorWithoutBreaks | lib/flight-howto/meta_regex.rb:63 | without line breaks, a separator after the key is all a match needs |
| MetaRegex.MatchWithoutBreaks | lib/flight-howto/meta_regex.rb:60-73 | a line without line breaks matches exactly when it is `:`, optional whitespace, a word and a separator |
| MetaRegex.QuotedAfterEquals | lib/flight-howto/meta_regex.rb:63-67 | `:k='v'` captures `single` as `v` |
| MetaRegex.QuotedAfterColon | lib/flight-howto/meta_regex.rb:63-67 | `:k: 'v'` captures `single` as `v` |
| MetaRegex.LazyGapExample | lib/flight-howto/meta_regex.rb:63-69 | `:k = 'v'` captures the bare value `" 'v'"` |
| MetaRegex.SpaceIsNoSeparator | lib/flight-howto/meta_regex.rb:63 | `:key value` does not match |
| MetaRegex.ColonNeedsSpace | lib/flight-howto/meta_regex.rb:63 | `:key:value` does not match |
| MetaRegex.EqualsWithoutValue | lib/flight-howto/meta_regex.rb:63-70 | `:key=` matches with no value |
| Rendering.DefaultWidth | lib/flight-howto/renderer.rb:37 | a given width is kept; otherwise the width is the screen width or 80, whichever is larger |
| Rendering.Retry | lib/flight-howto/renderer.rb:56-68 | the definition of the `rescue`/`retry`; `Rendering.RetryAtMostOnce` and `Rendering.NoRetryAtSixteen` state its properties |
| Rendering.RetryAtMostOnce | lib/flight-howto/renderer.rb:56-68 | one converter call, or two when the first fails at 256 colours; the second call is at 16; every call gets the content length as its width; the colour depth only changes to 16; nil comes out exactly when every call failed |
| Rendering.NoRetryAtSixteen | lib/flight-howto/renderer.rb:63-67 | at 16 colours a failure is not retried |
| Rendering.Renderer.constructor | lib/flight-howto/renderer.rb:35-39 | the width gets its default and the colour depth starts at 256 |
| Rendering.Renderer.ParseMarkdown | lib/flight-howto/renderer.rb:56-68 | the loop ends with the result, colour depth and calls of the retry, and the content and width are unchanged |
| Rendering.Renderer.WrapMarkdown | lib/flight-howto/renderer.rb:41-54 | nothing when parsing gave nil; otherwise the per-line wrap of the parsed text |
| Rendering.Spaces | lib/flight-howto/renderer.rb:46 | `' ' * n` is `n` spaces |
| Rendering.Indent | lib/flight-howto/renderer.rb:52 | the definition of the `gsub`; `Rendering.UnindentIndent` and `Rendering.IndentPadsEveryLine` state its properties |
| Rendering.Unindent | lib/flight-howto/renderer.rb:52 | the inverse of `Indent`, stated by `Rendering.UnindentIndent` |
| Rendering.UnindentIndent | lib/flight-howto/renderer.rb:52 | the padding added after each newline can be removed again to give the text back |
| Rendering.IndentPadsEveryLine | lib/flight-howto/renderer.rb:52 | the `gsub` is the lines of the text joined with a newline plus the padding |
| Rendering.IndentAfterPrefix | lib/flight-howto/renderer.rb:52 | a prefix without a newline is copied unchanged |
| Rendering.WrapLinePadsEveryLine | lib/flight-howto/renderer.rb:43-52 | a wrapped line is the padding, then the wrapper's chomped lines, each continuation line after the same padding |
| Rendering.WrapLine | lib/flight-howto/renderer.rb:43-52 | the definition of the per-line wrap; `Rendering.WrapLinePadsEveryLine` and `Rendering.WrapLineStartsWithPadding` state its properties |
| Rendering.WrapLineStartsWithPadding | lib/flight-howto/renderer.rb:44-52 | a wrapped line starts with one space for each leading whitespace character of the line, a tab counting as one |
| Rendering.WrapLines | lib/flight-howto/renderer.rb:42-53 | one wrapped block for each line, in order |
| Rendering.WrapText | lib/flight-howto/renderer.rb:42-53 | the definition of `split("\n").map { ... }.join("\n")`; `Rendering.WrapLines` and `Rendering.WrapLinePadsEveryLine` state what each line becomes |
| Errors.Superclass | lib/flight-howto/errors.rb:41-92 | only the root has no superclass that answers `exit_code`, and each superclass is nearer the root |
| Errors.Ancestors | lib/flight-howto/errors.rb:41 | the chain from a class up to the root |
| Errors.OwnExitCode | lib/flight-howto/errors.rb:50-92 | the `@exit_code` each `define_class` call stores; `Errors.ExitCodeTable` states the codes |
| Errors.ClassExitCode | lib/flight-howto/errors.rb:39-43 | the definition of the class's `exit_code`; `Errors.ClassExitCodeIsNearestDefined` states it is the first code up the superclass chain |
| Errors.ClassExitCodeIsNearestDefined | lib/flight-howto/errors.rb:39-43 | a class's exit code is the first code defined along its chain of superclasses, 2 when none is, and its own code when it has one |
| Errors.ExitCodeTable | lib/flight-howto/errors.rb:50-92 | the codes are InternalError 1, GeneralError 2, InputError 3, InvalidFormatError 4, UnparseableMetadataError 5, InvalidMetadataError 6, FileUnreadableError 7, InvalidEncodingError 8, MissingError 20; InteractiveOnly inherits 3 |
| Errors.Error.ExitCode | lib/flight-howto/errors.rb:45-47 | an error's exit code is its class's |
| Errors.InvalidFormat | lib/flight-howto/errors.rb:54-58 | an `InvalidFormatError` (exit code 4) whose message is the fixed text with the file name quoted inside it |
| Errors.UnparseableMetadata | lib/flight-howto/errors.rb:60-64 | an `UnparseableMetadataError` (exit code 5) whose message names the file and ends with the decoder's message |
| Errors.InvalidMetadata | lib/flight-howto/errors.rb:66-70 | an `InvalidMetadataError` (exit code 6) whose message names the file and ends with the class found and " instead)" |
| Errors.InvalidEncoding | lib/flight-howto/errors.rb:72-76 | an `InvalidEncodingError` (exit code 8) whose message names the file and ends with the encoding |
| Errors.FileUnreadable | lib/flight-howto/errors.rb:78-82 | a `FileUnreadableError` (exit code 7) whose message names the file and ends with the inspected exception |
| Errors.InteractiveOnlyError | lib/flight-howto/errors.rb:84-90 | an `InteractiveOnly` error (exit code 3, inherited); the default message is "This command requires an interactive terminal", and a given message replaces it |
| Commands.UpcaseFirst | lib/flight-howto/commands.rb:33 | only the first character of a segment is upper-cased; the rest is kept as it is |
| Commands.Constantized | lib/flight-howto/commands.rb:32-34 | the definition of what `constantize` gives; `Commands.ConstantizeWord`, `Commands.ConstantizeSegment`, `Commands.ConstantizeIdempotent` and the other `Constantize` lemmas state its properties |
| Commands.JoinSegments | lib/flight-howto/commands.rb:33 | the definition of the upper-casing and join; `Commands.UpcaseEach` computes it and `Commands.JoinSegmentsEmpty` states when it is empty |
| Commands.Constantize | lib/flight-howto/commands.rb:32-34 | gives what `Constantized` describes: nothing (the NoMethodError) when a kept segment is empty, otherwise the upper-cased-first segments run together |
| Commands.UpcaseEach | lib/flight-howto/commands.rb:33 | the in-place loop over the segments stops at the first empty one and otherwise joins the upper-cased-first segments |
| Commands.ConstantizedHasNoSeparators | lib/flight-howto/commands.rb:33 | a constant name holds neither `-` nor `_` |
| Commands.ConstantizeIdempotent | lib/flight-howto/commands.rb:33 | constantizing a constant name gives it back |
| Commands.ConstantStartsUpcased | lib/flight-howto/commands.rb:33 | a non-empty constant name does not start with a lower-case letter |
| Commands.TrailingSeparatorIgnored | lib/flight-howto/commands.rb:33 | a trailing `-` or `_` changes nothing, because `split` drops trailing empty fields |
| Commands.ConstantizeWord | lib/flight-howto/commands.rb:33 | a word without separators only gets its first character upper-cased |
| Commands.ConstantizeSegment | lib/flight-howto/commands.rb:33 | a leading word and its separator put the upper-cased word in front of what the rest gives; if the rest raises, so does the whole name |
| Commands.ConstantizedEmpty | lib/flight-howto/commands.rb:33 | the constant name is empty exactly when the name splits into no segments |
| Commands.ConstantizeLeadingSeparator | lib/flight-howto/commands.rb:33 | a leading separator makes `constantize` raise, unless only separators follow |
| Commands.ConstantizeListExample | lib/flight-howto/commands.rb:33 | `list` and `list_` give `List`, and `_list` raises |
| Commands.ConstantizeCons | lib/flight-howto/commands.rb:33 | a word without separators becomes its first character upper-cased, then the rest unchanged |
| Commands.CommandName | lib/flight-howto/commands.rb:44-46 | the definition of the name a command file registers; `Commands.CommandNameOfFile` states it for a plain file name |
| Commands.CommandNameOfFile | lib/flight-howto/commands.rb:44-46 | a command file `<dir>/<name>.<ext>` with a plain name registers the name with its first letter upper-cased |
| Commands.ShowFileRegistersShow | lib/flight-howto/commands.rb:44-46 | the file `show.rb` registers `Show`, which is a constant name |
| Commands.Registry | lib/flight-howto/commands.rb:44-46 | the definition of the registered names; `Commands.RegistrySpec` states its properties |
| Commands.RegistryOf | lib/flight-howto/commands.rb:44-46 | the fold over the files; `Commands.RegistryOfSpec` states its properties |
| Commands.RegistrySpec | lib/flight-howto/commands.rb:44-46 | loading raises exactly when some command file's name does not give a constant name; otherwise the registered names are exactly the constantized file names |
| Commands.RegistryOfSpec | lib/flight-howto/commands.rb:44-46 | the same for any naming of the files, proved by induction over the file list |
| Commands.Register | lib/flight-howto/commands.rb:44-46 | the loop over the command files, first to last, registers what `Registry` describes |
| Commands.Autoload | lib/flight-howto/commands.rb:45 | one file adds its command name to the registered names when it is registrable, and loading raises otherwise |
| Commands.RegistryOfSnoc | lib/flight-howto/commands.rb:44-46 | registering one more file after the others adds its name to the set, or raises when it or an earlier file is not acceptable |
| Commands.Build | lib/flight-howto/commands.rb:36-42 | success exactly when the constantized name is a constant name and is defined, and then it is that command; any failure is `InternalError` "Command Not Found!" with exit code 1 |
| Commands.BuildShow | lib/flight-howto/commands.rb:36-42 | `build("show")` finds the `Show` command once it is registered |
| Commands.EveryCommandFileBuilds | lib/flight-howto/commands.rb:36-46 | every command file can be built by its own file name |
| Commands.RegisteredNameBuilds | lib/flight-howto/commands.rb:36-46 | every registered name builds its own command |
| Lister.BuildOutput | lib/flight-howto/lister.rb:71-78 | `verbose` and `ascii` are explicitly on exactly when their flags are and are left to the default otherwise; `interactive` is on exactly when interactive or ascii is; no setting is ever explicitly off; no other key is set; both colours are `:clear` |
| Lister.Row | lib/flight-howto/lister.rb:37-50 | the Index cell is the guide's index; the Name cell is the parts joined with `_` when verbose and the humanized name otherwise; either way it standardizes to the parts joined with `_` |
| Lister.JoinedPartsAreStandard | lib/flight-howto/lister.rb:44 | the verbose name is already standard |
| Lister.NameCellsAgree | lib/flight-howto/lister.rb:37-50 | the verbose Name cell is the standardized terse one, and the Index cells agree |

## Left out

- Filesystem access: guide enumeration (`Matcher.load_guides`), the command file glob and `File.read` are inputs. They are the loaded guide sequence, the command file paths and the read outcome.
- `YAML.load`, `TTY::Markdown.parse`, `WordWrap.ww` and `TTY::Screen.width` are function parameters. Decoded YAML is a small value type. A converter that raises is modelled as one returning nothing. ANSI output is not modelled.
- `String#encode!` is a transcoding parameter. It returns nothing where Ruby raises and keeps units it cannot decode as invalid.
- `Guide#id` and `Matcher#find_by_index` are parameters, because the source does not define them.
- `Guide#parts` is derived from the standard basename. The source does not define it.
- Case mapping (`downcase`, `upcase`, `capitalize`) and `\s`/`\w` are ASCII only.
- Matching.Search: the key is taken literally. Ruby interpolates it unescaped into a regex, so a key with regex metacharacters behaves differently or raises.
- Matching.SearchEmptyKey: the empty key keeps only the guides that have at least one part. A guide named like `07_.md` has no parts and is dropped, so "search('') keeps every guide" holds only when every guide has a part.
- Guides.Basename: a path ending in `/` yields an empty name here. Ruby's `File.basename` strips trailing slashes first.
- Show.ResolveGuide: the candidate table printed in the ambiguity message is a parameter. OutputMode's rendering is not modelled.
- Strings.Uniq: the contract states membership, distinctness and order. It does not state which occurrence is kept. The candidates do not depend on token order (`Show.FoldSearchDependsOnKeySet`).
- Commands.Build: `const_get` also finds constants outside the command module and resolves `A::B` paths. The model looks the name up only among the registered command names, after the same constant-name test the registry uses. It returns the command's name instead of an instance.
- Commands.RegistrySpec: a name counts as a constant name when it is an upper-case ASCII letter followed by word characters.
- Rendering.DefaultWidth: a width of `false` falls back like nil in Ruby. The model has only given or not given.
- Rendering.Renderer.WrapMarkdown: when parsing gives nil, Ruby raises on `nil.split`. The model returns nothing.
- Lister: the File column (the file path relative to the guide directory on a terminal) is not modelled. The renderer only receives the options.
- The logging in `Commands.build` and in `Command#run!`, the pager, the CLI set-up and `template_context.rb` are outside the model.
- `Parser#call` only forwards to `parse_with_frontmatter` and has no member of its own.
