# Verified models of fluxcd/pkg

Dafny models of the parts of fluxcd/pkg whose correctness is hard to see from the code, with proofs
of what they are for. Every model follows its source in form: code that works by changing things is
a class or a method with loops, proved against a specification; the laws that span calls, runs or
whole inputs are lemmas about that specification.

`dafny verify dfyconfig.toml` checks everything.

| files | part of the repository | what is proved |
|---|---|---|
| Glob, Trim, SuffixLaws | envsubst/path, envsubst/funcs.go | greedy matching decides the language of the pattern; the shortest and longest prefix and suffix are removed, the suffix exactly when the pattern mirrors |
| Scan, Parse, Printer, Image, Spelling | envsubst/parse | a scanner that edits its buffer reads the text as given; parser and printer are inverse; a template parses to exactly the tree that it spells |
| Evaluator, TemplateLaws | envsubst/template.go, envsubst/funcs.go | the evaluator with its shared writer computes a recursive denotation; what every kind of substitution expands to, on template texts |
| Lru, LruLaws, Token | cache/lru.go, cache/token.go | the linked list refines a recency sequence; a larger cache holds the keys of a smaller one; tokens are served exactly within their lifetime, in every run |
| ExpiringModel, ExpiringCache, ExpiringLaws | cache/cache.go | every hit is the latest word on its key since the last Clear, in every run; when the clean-up is exact, and when nothing is lost |
| LockedFile, LockProtocol, Mutex | lockedfile | rollback under every choice of failures; exclusion, snapshots, no lost update, and success when all calls work, under every interleaving |
| Symlinks | tar/symlinks.go | the copy is the unfolding of the directory graph, it ends, and it stays below its root |
| ModuleBumps | cmd/internal/compute_module_bumps.go | the worklist computes the least closed set of modules |
| ManagedFields, JsonPointer | ssa/patch.go, ssa/manager_apply.go | ownership is conserved; JSON pointers round trip |
| StorageGc | artifact/storage/gc.go | what garbage selection keeps, to the file |

Conventions. Characters have width 1 and NUL ends a template. Times are integers, in nanoseconds
where the unit matters, and are inputs of the calls that read a clock. A method that holds a lock for
its whole body is one step. What a failing system call does is an input.

Where the code and its documentation disagree, the model follows the code:

- `*` and `?` match `/` too (envsubst/path/match.go:42-48, 160-163).
- `%` and `%%` reverse string and pattern (envsubst/funcs.go:198-221), which goes wrong with classes
  and escapes: `Trim.SuffixRemovalRightIff` and `SuffixLaws.AlwaysRightIff` say when.
- `:+` and `:?` supply their text for an empty value, as `:-` does (envsubst/template.go:195-198):
  `TemplateLaws.DefaultIsValueOrText`.
- The tail of the LRU list is the newest entry (cache/lru.go:207-221), and deleting the empty key
  does nothing (cache/lru.go:226).
- The lifetime of a token can wrap around (cache/token.go:143): `TokenCaching.LifetimeSafeIff`
  says exactly when.
- After expired files were found, garbage selection takes only half of the other surplus
  (artifact/storage/gc.go:112), and of files of the same instant it can take only one
  (artifact/storage/gc.go:78): `GarbageSelection.RetainsTooManyIff` says exactly when too many files
  remain.
- The target's old entry can be left beside the merged one (ssa/patch.go:131-163):
  `ManagedFields.OldTargetStaysIff` says exactly when.
- Annotation keys are only half escaped (ssa/patch.go:251): `JsonPointer.AnnotationPathIff` says
  exactly which keys survive.
- The clean-up of the expiring cache can take entries that are served: with a stamp that an
  overwriting Set left over (cache/cache.go:162-166), and after Delete, which disturbs the order
  without saying so (cache/cache.go:211-215). `ExpiringLaws.CleanUpIsExactIff`,
  `ExpiringLaws.IntactCleanUpIsExactIff` and `ExpiringLaws.DeleteThenCleanUpIff` say exactly when it
  takes the expired ones.
- `HasExpired` and `Get` of the expiring cache disagree on entries that never expire
  (cache/cache.go:189-195, 313).

## Model

| member | source | states |
|---|---|---|
| Glob.Match | envsubst/path/match.go:36-81 | for every pattern and name, the result is true exactly when the name is in the language the pattern denotes by its grammar; an error is reported only for a malformed pattern |
| Glob.LeftmostSuffices | envsubst/path/match.go:49-77 | placing a chunk at the leftmost position where it fits loses no match: the whole is accepted exactly when the rest is accepted behind that position |
| Glob.CutIsTermBoundary | envsubst/path/match.go:85-111 | the piece before the next star is cut at a boundary of the grammar, whatever brackets and escapes it holds: pattern well-formed exactly when both pieces are |
| Glob.ChunkThenRest | envsubst/path/match.go:116-182 | a pattern matches exactly when its first chunk fits in front and the rest matches the remaining text |
| Glob.StarsSkipText | envsubst/path/match.go:85-92 | any number of stars means skipping some text |
| Glob.StarAbsorbs | envsubst/path/match.go:61-77 | a piece that starts with a star accepts any extra text before what it accepts |
| Glob.AcceptedIsPlaced | envsubst/path/match.go:37-80 | an accepted name has a place for the first chunk behind which the rest is accepted |
| Glob.PlacedIsAccepted | envsubst/path/match.go:37-80 | a chunk placed so that the rest is accepted behind it is an acceptance |
| Glob.ScanChunk | envsubst/path/match.go:85-111 | the loop ends at the cut of the grammar and reports whether stars came first |
| Glob.MatchChunk | envsubst/path/match.go:116-182 | succeeds exactly when each operator of the chunk hits its character, consumes one character per operator, and errs only on a malformed chunk |
| Glob.MatchTerm | envsubst/path/match.go:117-180 | one operator: hit exactly when the character is one the operator stands for, error exactly when the operator is malformed |
| Glob.MatchClass | envsubst/path/match.go:122-158 | a class hits exactly the characters of its ranges and errs exactly when it is malformed |
| Glob.RangeDenotes | envsubst/path/match.go:116-182 | the pattern `[lo-hi]` stands for the characters from lo to hi |
| Glob.NegatedDenotes | envsubst/path/match.go:116-182 | the pattern `[^lo-hi]` stands for all other characters |
| Glob.EscapeDenotes | envsubst/path/match.go:116-182 | an escaped character stands for itself, whatever it is |
| Glob.CharDenotes | envsubst/path/match.go:116-182 | `?` stands for any character, and every other character without a meaning of its own for itself |
| Glob.StarDenotes | envsubst/path/match.go:36-81 | `*` stands for any text |
| Trim.TrimShortest | envsubst/funcs.go:223-242 | removes the shortest non-empty prefix in the language of the pattern, and nothing if there is none |
| Trim.TrimLongest | envsubst/funcs.go:244-258 | removes the longest non-empty prefix in the language of the pattern, and nothing if there is none |
| Trim.TrimShortestPrefix | envsubst/funcs.go:191-196 | `#` removes the shortest non-empty prefix that matches its argument; without argument the value stays |
| Trim.TrimLongestPrefix | envsubst/funcs.go:207-212 | `##` removes the longest non-empty prefix that matches its argument; without argument the value stays |
| Trim.TrimShortestSuffix | envsubst/funcs.go:198-205 | for patterns that mirror (the operators of the reversed pattern are those of the pattern from right to left, up to the order in runs of `*` and `?`), all without class and escape among them, removes exactly the shortest non-empty matching suffix; for every pattern, what the reversed strings give |
| Trim.TrimLongestSuffix | envsubst/funcs.go:214-221 | for patterns that mirror (the operators of the reversed pattern are those of the pattern from right to left, up to the order in runs of `*` and `?`), all without class and escape among them, removes exactly the longest non-empty matching suffix; for every pattern, what the reversed strings give |
| Trim.Reverse | envsubst/funcs.go:260-266 | swapping from both ends reverses the text |
| Trim.DenotesReversed | envsubst/funcs.go:198-221 | the language of a pattern that mirrors commutes with reversal |
| Trim.SpansReversed | envsubst/funcs.go:198-221 | any list of operators, read from the right, spans the reversed text |
| Trim.SpansForm | envsubst/path/match.go:36-81 | what a list of operators spans depends only on its form: the single-character operators, and between them gaps of so many, or at least so many, characters |
| Trim.PlainMirrors | envsubst/funcs.go:198-221 | patterns without class and escape mirror |
| Trim.MirroredIsRight | envsubst/funcs.go:198-221 | for mirroring patterns, the shortest and the longest suffix have the length of the shortest and the longest prefix of the reversed text |
| Trim.ReversedClassIsMalformed | envsubst/funcs.go:198-221 | the reversal of an escape-free pattern that opens a class before any bracket closes is malformed |
| Trim.SuffixRemovalRightIff | envsubst/funcs.go:198-221 | for every pattern and text: right if the pattern mirrors; if its reversal is malformed, right exactly when no suffix matches; if it is malformed itself, right exactly when no prefix of the reversed text matches the reversal |
| Trim.RightForAllIff | envsubst/funcs.go:198-221 | a pattern is right on all texts exactly when its language commutes with reversal |
| SuffixLaws.AlwaysRightIff | envsubst/funcs.go:198-221 | if some character is taken by no operator but `*` and `?`, and every operator takes some, a pattern is right on all texts if and only if it mirrors or is malformed both ways |
| SuffixLaws.CommutingMirrors | envsubst/funcs.go:198-221 | the hard half: if the language of such a pattern commutes with reversal, the pattern mirrors |
| SuffixLaws.SameLanguage | envsubst/path/match.go:36-81 | two such lists of operators that accept the same texts have the same gaps, between operators that take the same characters |
| SuffixLaws.EscapedStarMirrors | envsubst/funcs.go:198-221 | two stars, an escaped star and a star mirror, although the reversed operators are in another order |
| Trim.ClassSuffixIsMissed | envsubst/funcs.go:198-221 | the smallest failure: the suffix `[a]` of the value `a` is not removed |
| Trim.ClassSuffixIsMistaken | envsubst/funcs.go:198-221 | well-formed both ways and wrong: for `]x[a]` the text `xa]` goes, which does not match |
| Scan.Scanner.constructor | envsubst/parse/scan.go:81-87 | a new scanner has the whole text before it |
| Scan.Scanner.Read | envsubst/parse/scan.go:91-100 | returns the next character and moves past it; at the end returns EOF and stays |
| Scan.Scanner.Unread | envsubst/parse/scan.go:102-104 | moves back by the width last read |
| Scan.Scanner.Skip | envsubst/parse/scan.go:108-112 | deletes the character just read, and nothing else, from the buffer |
| Scan.Scanner.Peek | envsubst/parse/scan.go:117-121 | returns the next character without moving |
| Scan.Scanner.ScanLbrack | envsubst/parse/scan.go:189-200 | sees an opening bracket exactly where one stands, and otherwise stays in place |
| Scan.Scanner.ScanEscaped | envsubst/parse/scan.go:213-232 | sees an escape exactly where one stands, without moving |
| Scan.Scanner.ScanIdent | envsubst/parse/scan.go:154-185 | scans exactly the identifier of the text as given, although it deletes escapes from the buffer |
| Scan.Scanner.Scan | envsubst/parse/scan.go:136-150 | returns the token of the text as given, and leaves in the buffer exactly the text that follows it |
| Scan.PartialEscapes | envsubst/parse/scan.go:108-112 | deleting an escape character keeps the token so far and the unread text in step with the text as given |
| Parse.ParseTemplate | envsubst/parse/parse.go:56-68 | parsing ends and returns the tree, or the error, of the grammar on the text as given |
| Parse.Tree.ParseAny | envsubst/parse/parse.go:70-107 | text and substitutions alternate as the grammar says, to the end of the text |
| Parse.Tree.ParseFunc | envsubst/parse/parse.go:109-151 | a substitution is dispatched on the characters that follow the name as the grammar says |
| Parse.Tree.ParseParam | envsubst/parse/parse.go:154-171 | a parameter is a nested substitution or a text, as the grammar says |
| Parse.Tree.ParseDefaultOrSubstr | envsubst/parse/parse.go:174-184 | the two-character look-ahead tells a default from a substring |
| Parse.Tree.ParseSubstrFunc | envsubst/parse/parse.go:188-234 | position and optional length |
| Parse.Tree.ParseRemoveFunc | envsubst/parse/parse.go:240-265 | the four prefix and suffix removals |
| Parse.Tree.ParseReplaceFunc | envsubst/parse/parse.go:271-319 | pattern and optional replacement |
| Parse.Tree.ParseDefaultFunc | envsubst/parse/parse.go:326-356 | the loop collects the nested pieces of a default value up to the closing bracket |
| Parse.Tree.ParseCasingFunc | envsubst/parse/parse.go:362-376 | the four case changes |
| Parse.Tree.ParseLenFunc | envsubst/parse/parse.go:379-401 | the length of a variable |
| Parse.Tree.ConsumeRbrack | envsubst/parse/parse.go:405-411 | a substitution ends with its bracket or is an error |
| Printer.ParseUndoesPrint | envsubst/parse/parse.go:56-68 | for every well-formed tree, with operators of all kinds nested to any depth, parsing its printed form returns exactly that tree |
| Printer.FuncRoundTrip | envsubst/parse/parse.go:109-151 | a printed substitution is read back as itself, wherever it stands |
| Printer.DefaultArgsRoundTrip | envsubst/parse/parse.go:326-356 | the pieces of a default value are read back one by one |
| Printer.SubstrRoundTrip | envsubst/parse/parse.go:188-234 | a printed substring is read back as itself |
| Printer.RemoveRoundTrip | envsubst/parse/parse.go:240-265 | a printed removal is read back as itself |
| Printer.ReplaceRoundTrip | envsubst/parse/parse.go:271-319 | a printed replacement is read back as itself |
| Printer.CasingRoundTrip | envsubst/parse/parse.go:362-376 | a printed case change is read back as itself |
| Printer.LenRoundTrip | envsubst/parse/parse.go:379-401 | a printed length is read back as itself |
| Printer.ItemsRoundTrip | envsubst/parse/parse.go:70-107 | a printed list of items, dollar signs doubled, is read back as itself |
| Image.ParsedIsWellFormed | envsubst/parse/parse.go:56-68 | every tree that the parser returns is well-formed |
| Image.WellFormedIffParsed | envsubst/parse/parse.go:56-68 | the well-formed trees are exactly the trees of templates |
| Image.ReprintKeepsTree | envsubst/parse/parse.go:56-68 | printing the tree of any template gives a template with the same tree |
| Image.FuncIsWellFormed | envsubst/parse/parse.go:109-151 | every substitution that parses is one the printer can write |
| Image.AnyIsWellFormed | envsubst/parse/parse.go:70-107 | no two texts are adjacent, and no text is empty |
| Spelling.ParsesIffSpelt | envsubst/parse/parse.go:56-411 | for every tree and every text, the parser returns the tree if and only if the text spells it, by a relation of trees and texts that does not mention the parser; so it fails exactly on the texts that spell none |
| Spelling.FuncIff | envsubst/parse/parse.go:109-411 | the same for a substitution at any position: which operators, arguments, delimiters and brackets belong to it |
| Spelling.FuncCloses | envsubst/parse/parse.go:405-411 | a substitution that parses ends with its own bracket |
| Spelling.PiecesIff | envsubst/parse/parse.go:326-356 | the loop over the pieces of a default finds exactly the pieces that are spelt up to the bracket |
| Spelling.SubstrIff | envsubst/parse/parse.go:188-234 | an offset, and after any number of colons a length |
| Spelling.ReplaceIff | envsubst/parse/parse.go:271-319 | a pattern, any number of slashes, and possibly a replacement, with their escapes |
| Spelling.RemoveIff | envsubst/parse/parse.go:240-265 | the operator is as long as it can be, and one argument follows |
| Spelling.TokenIff | envsubst/parse/scan.go:136-235 | a text token is what is written up to the first character that ends it, with doubled dollars and escaped slashes read as one |
| Spelling.SpellsOne | envsubst/parse/parse.go:56-411 | no text spells two trees |
| Evaluator.CallFunc | envsubst/template.go:164-202 | `#` and `##` remove the shortest and longest matching prefix, `%` and `%%` what the reversed strings give, which is the matching suffix if the operators of the pattern mirror; `#` without argument is the length, and a default replaces only an empty value |
| Evaluator.Execute | envsubst/template.go:70-81 | the shared writer notwithstanding, the result is the denotation of the tree; on failure it is empty |
| Evaluator.Evaluate | envsubst/template.go:83-93 | evaluating a node appends exactly its denotation to the writer that was set, and restores that writer |
| Evaluator.EvalList | envsubst/template.go:100-109 | a list appends the denotations of its nodes in order, up to the first failure |
| Evaluator.EvalFunc | envsubst/template.go:113-146 | arguments are evaluated into buffers of their own, and the writer is put back |
| Evaluator.FailsIffSomeNeeds | envsubst/template.go:113-160 | evaluation fails exactly when some substitution anywhere in the tree, in default values too, has an unset variable and no default operator; the error names such a variable |
| Evaluator.EvalTemplate | envsubst/eval.go:26-32 | scanning, parsing and executing together compute the denotation of the template; a template that does not parse is returned as it is, with the error |
| Evaluator.DoubledIsLiteral | envsubst/eval.go:26-32 | for every text without NUL and every mapping, the text with its dollar signs doubled evaluates to the text |
| Evaluator.ReprintKeepsMeaning | envsubst/eval.go:26-32 | printing the tree of a template does not change what it evaluates to |
| TemplateLaws.PlainIsValue | envsubst/template.go:113-202 | `${v}` expands to the value of the variable, and is missing if it is unset |
| TemplateLaws.DefaultIsValueOrText | envsubst/funcs.go:72-80 | `${v=w}`, `${v:=w}`, `${v:-w}`, `${v:?w}` and `${v:+w}` expand to the value, or to w if that is empty or unset |
| TemplateLaws.DefaultIsConcatenation | envsubst/funcs.go:72-80 | with any number of pieces, and substitutions nested to any depth, to the value or the expansions of the pieces in order |
| TemplateLaws.CasingChangesCase | envsubst/template.go:113-202 | which case change each of `,` `,,` `^` `^^` makes, and that mixed pairs make none |
| TemplateLaws.HashIsLength | envsubst/template.go:113-202 | `${#v}` expands to the length of the value |
| TemplateLaws.RemovalRemoves | envsubst/template.go:113-202 | which end and which match each of `#` `##` `%` `%%` removes, for every text that can be written as a pattern |
| TemplateLaws.OffsetIsSubstring | envsubst/template.go:113-202 | `${v:o}` hands value and offset to the substring function |
| TemplateLaws.LengthIsSubstring | envsubst/template.go:113-202 | `${v:o:l}` hands it offset and length, in this order |
| TemplateLaws.ReplacementReplaces | envsubst/template.go:113-202 | `/` `//` `/#` `/%` hand value, pattern and replacement, read without their escapes, to the replacing function of that name |
| TemplateLaws.PatternAlone | envsubst/template.go:113-202 | without a replacement only the pattern is handed over |
| TemplateLaws.PartsGoTogether | envsubst/template.go:100-109 | a template of parts expands to the expansions of the parts in order; the first missing variable counts |
| TemplateLaws.ArgumentsComeFirst | envsubst/template.go:113-140 | a variable missing in an argument is reported before the one that is substituted |
| LruCache.Lru.constructor | cache/lru.go:81-104 | the new list is its two sentinels |
| LruCache.Lru.Set | cache/lru.go:107-128 | the key becomes the newest entry; the oldest goes if there are too many; list and map stay in step |
| LruCache.Lru.Get | cache/lru.go:257-271 | returns the value of a present key, which becomes the newest, and otherwise an error without change |
| LruCache.Lru.GetIfOrSet | cache/lru.go:135-205 | a present value that meets the condition is a hit; otherwise the fetched value is stored, or on failure the key is dropped |
| LruCache.Lru.Delete | cache/lru.go:224-245 | removes the key and leaves the order of the others; the empty key is never removed |
| LruCache.Lru.Resize | cache/lru.go:286-309 | keeps exactly the newest entries that fit and counts the others |
| LruCache.Lru.Add | cache/lru.go:207-221 | links a node as the newest and unlinks the oldest on overflow |
| LruCache.Lru.DeleteNode | cache/lru.go:247-251 | the node leaves list and map; the rest of the list stays linked both ways |
| LruCache.UnlinkNode | cache/lru.go:247-251 | the pointer moves of removal keep a doubly linked chain |
| LruCache.LinkNode | cache/lru.go:207-221 | the pointer moves of insertion keep a doubly linked chain |
| LruLaws.RunIsSound | cache/lru.go:107-309 | in every run of all operations, keys are unique and there are at most capacity entries |
| LruLaws.StoredIsNewest | cache/lru.go:107-128 | after any run of Set, a cache of any capacity holds exactly the most recently written keys, as many as fit |
| LruLaws.RecentIsLastWrites | cache/lru.go:107-128 | the most recently written keys come with the value of their last write, in the order of these last writes |
| LruLaws.LargerHoldsMore | cache/lru.go:207-221 | after any run of Set, a larger cache holds all that a smaller one does, in the same order |
| LruLaws.AccessedAreNewest | cache/lru.go:107-205 | after any run of Set and of GetIfOrSet with fetches that succeed, whatever the conditions, the cache holds exactly the most recently accessed keys, as many as fit |
| LruLaws.LargerHoldsMoreKeys | cache/lru.go:107-205 | and a larger cache the keys of a smaller one, although they hit at different times |
| LruLaws.SmallerIsWithin | cache/lru.go:107-270 | after every run of Set, Get, Delete and GetIfOrSet, failing fetches included, the keys of a smaller cache are among those of a larger one, in the same order; the caches may hold different values |
| LruLaws.RunNested | cache/lru.go:107-270 | and the larger one has at most as many more entries as it has more capacity, so that it never evicts a key that the smaller one keeps |
| LruLaws.ResizeBreaksWithin | cache/lru.go:285-307 | a Resize of both caches to one size breaks this: a run of five calls that shows it |
| TokenCaching.LifetimeExact | cache/token.go:138-157 | without overflow the lifetime is 80% of what is left, or the maximum if that is less |
| TokenCaching.LifetimeSafeIff | cache/token.go:138-157 | a token is kept no longer than 80% of what is left exactly when eight times that does not wrap around below, or what it wraps to is nothing |
| TokenCaching.UnderflowKeepsExpired | cache/token.go:138-157 | a token long expired can be kept for the maximum |
| TokenCaching.ServedInTime | cache/token.go:138-162 | a token is served only strictly before its deadlines on both clocks, the wall one cut to seconds |
| TokenCaching.ServedIffInTime | cache/token.go:138-162 | a stored token counts as not expired exactly while less than its lifetime has passed on the monotonic clock and the wall clock is before the deadline cut to seconds |
| TokenCaching.TokenCache.constructor | cache/token.go:72-86 | the maximum duration is capped |
| TokenCaching.TokenCache.GetOrSet | cache/token.go:92-125 | acts on the LRU as one step of the recency sequence: hit, fetch and store, or drop on failure |
| TokenCaching.RunIsSound | cache/token.go:92-125 | every run keeps the LRU sound |
| TokenCaching.EntriesAreStored | cache/token.go:92-125 | in every run, every entry is what the last storing call for its own key stored |
| TokenCaching.HitIsFresh | cache/token.go:92-162 | in every run with arbitrary clocks, a hit returns the token last fetched for that key, within its lifetime on both clocks |
| TokenCaching.StoredIsServed | cache/token.go:92-162 | in every run: a stored token is served at every later call in time, as long as between two calls for its key fewer other keys than the capacity were called for |
| TokenCaching.TokenIsHeld | cache/lru.go:135-221 | until then the entry stays, and only keys called for since the last call for its own are newer |
| TokenCaching.FailedFetchIsLocal | cache/lru.go:135-205 | a failed fetch changes no other key |
| ExpiringCache.Cache.constructor | cache/cache.go:70-98 | a new cache is empty and open |
| ExpiringCache.Cache.Close | cache/cache.go:115-124 | closing works once, and keeps the entries |
| ExpiringCache.Cache.Set | cache/cache.go:128-153 | overwrites, or adds if there is room, and otherwise fails without change; the cache stays sound |
| ExpiringCache.Cache.Store | cache/cache.go:155-170 | a new key gets an entry and a live stamp; overwriting leaves the old stamp, no longer live |
| ExpiringCache.Cache.Get | cache/cache.go:175-199 | a hit exactly for an indexed key that never expires or expires no earlier than now |
| ExpiringCache.Cache.Delete | cache/cache.go:204-219 | the entry and its live stamp expire now, nothing else changes, the order is taken to be as before |
| ExpiringCache.Cache.Clear | cache/cache.go:225-233 | no entry is left and no stamp is live, but all stamps stay |
| ExpiringCache.Cache.Resize | cache/cache.go:254-296 | the first stamps of the arranged list go, as many as are too many, with the entries under their keys |
| ExpiringCache.Cache.SetExpiration | cache/cache.go:325-344 | the entry of a present key and its live stamp change, and the order is no longer taken for sorted |
| ExpiringCache.Cache.DeleteExpired | cache/cache.go:376-406 | exactly the stamps before the border of the search go, with the entries under their keys, in whatever order they are |
| ExpiringCache.Cache.HasExpired | cache/cache.go:299-321 | says that an absent key, or one whose expiry is before now, has expired |
| ExpiringCache.Cache.Expire | cache/cache.go:211-215 | an item is shared by index and list: changing it changes the entry and the live stamp of one key |
| ExpiringCache.Cache.Evict | cache/cache.go:285-292 | dropping items with their keys, a key that occurs twice included |
| ExpiringCache.SortItems | cache/cache.go:277-283 | the items in the order of expiry, none lost |
| ExpiringCache.Search | cache/cache.go:392-395 | the search by halves ends at the border of the list as it is |
| ExpiringModel.StepSound | cache/cache.go:128-406 | every call keeps every entry stamped, live stamps in step with their entries and alone under their keys, and the entries within the capacity |
| ExpiringLaws.CleanUpDrops | cache/cache.go:376-406 | if the items are sorted first, or no expired stamp stands behind one that has not expired, exactly the entries go under whose key some stamp has expired |
| ExpiringLaws.CleanUpIsExactIff | cache/cache.go:376-406 | in that case exactly the expired entries go if and only if the stamps tell of every key whether its entry has expired |
| ExpiringLaws.IntactCleanUpIsExactIff | cache/cache.go:376-406 | with no stamp left over, in whatever order they are: exactly the expired entries go if and only if the items are sorted first or no expired stamp stands behind one that has not expired |
| ExpiringLaws.DeleteThenCleanUpIff | cache/cache.go:204-219 | after a Delete in a cache in order, a later clean-up takes exactly the expired entries if and only if all entries that were to expire before the deleted one have expired |
| ExpiringLaws.ReadyAlwaysIff | cache/cache.go:376-406 | the order is good for a clean-up at every time exactly when the items are marked unsorted or are in order |
| ExpiringLaws.FaithfulAlwaysIff | cache/cache.go:376-406 | the stamps do so at all times exactly when under every key the first one expires with the entry |
| ExpiringLaws.IntactKeptIff | cache/cache.go:128-406 | of all calls exactly an overwriting Set and a Clear leave stamps over |
| ExpiringLaws.TrustedKept | cache/cache.go:204-344 | every call but Delete keeps the order trusted, Set if no stamp expires after the new one |
| ExpiringLaws.OverwrittenIsDropped | cache/cache.go:155-170 | Set, an expiry in the past, Set again: the clean-up takes an entry that is served |
| ExpiringLaws.DeletedTakesOther | cache/cache.go:204-219 | two entries, one deleted: the clean-up takes the other too |
| ExpiringLaws.ResizeDropsSoonest | cache/cache.go:254-296 | in a trusted order what a smaller size costs expires no later than what stays |
| ExpiringLaws.SaysExpiredIff | cache/cache.go:299-321 | HasExpired says when Get misses, except for entries that never expire |
| ExpiringLaws.SaysExpiredYetServed | cache/cache.go:299-321 | such an entry is served and said to have expired |
| ExpiringLaws.RunIsSound | cache/cache.go:128-406 | in every run, with Clear, Resize and clean-up, indexed keys are among those of the items, the index never exceeds the capacity, and every entry is the latest word on its key |
| ExpiringLaws.HitIsLatest | cache/cache.go:128-406 | in every run a hit returns the value of the latest Set of its key since the last Clear, with its latest expiry not before now |
| ExpiringLaws.HitIff | cache/cache.go:128-406 | in every run whose clean-ups find faithful stamps with the expired ones in front and whose Resizes cost no entry, Get hits exactly when the calls left a word on the key that is still served and was not swept away, and answers with it; Sets may overwrite or fail, and the cache may be cleared |
| ExpiringLaws.GentleRunTracks | cache/cache.go:128-406 | in such a run the entries are exactly the words on all keys, computed from the calls alone |
| ExpiringLaws.LosesNothingIff | cache/cache.go:128-406 | where no stamp is left over, or the stamps to go are known before the call, the entries are the words at all times if and only if every call is of that kind |
| ExpiringLaws.SetSucceedsIff | cache/cache.go:128-153 | in every run a Set succeeds exactly when the cache is open and its key has an entry or there are fewer entries than the capacity |
| ExpiringLaws.SetSucceedsByWords | cache/cache.go:115-296 | in gentle runs that is told by the calls alone: no Close before, and a word on the key or words on fewer keys than the size asked for last |
| ExpiringLaws.DeletedIsMissed | cache/cache.go:175-219 | in every run, after Delete every later Get misses, until the key is set again or given another expiry |
| LockedFile.OpenFile | lockedfile/lockedfile_filelock.go:16-53 | returns a file only with its lock held; the content is cut only after the lock is granted, and never when opening fails; a file created on the way stays, even when the lock or the truncation fails |
| LockedFile.CloseFile | lockedfile/lockedfile_filelock.go:55-65 | the lock is released while the descriptor is open, then it is closed; both are tried, and either error is reported |
| LockedFile.File.Close | lockedfile/lockedfile.go:82-95 | the first call closes and reports the errors of closing; every other reports an error and changes nothing |
| LockedFile.Transform | lockedfile/lockedfile.go:130-186 | for every choice of failing and partial writes: success leaves exactly the new content, failure exactly the old one if undoing works |
| LockedFile.Overwrite | lockedfile/lockedfile.go:158-185 | the old bytes are overwritten only after the tail is in place |
| LockProtocol.StepKeeps | lockedfile/lockedfile.go:98-186 | every system call of every process, complete, short or failing, keeps the invariant |
| LockProtocol.ChangeKeeps | lockedfile/lockedfile.go:130-186 | every write, truncation and undo of Write and Transform, complete or not, leaves what its place in the section allows, derived from the bytes that were read |
| LockProtocol.RunKeeps | lockedfile/lockedfile.go:98-186 | the invariant holds in every reachable state |
| LockProtocol.ChangesAreExclusive | lockedfile/lockedfile_filelock.go:16-65 | the content changes only while one process has the write lock and nobody else has any lock |
| LockProtocol.ReadsAreSnapshots | lockedfile/lockedfile.go:98-106 | every Read returns the whole content as it was between two write sections |
| LockProtocol.SectionsAreHonest | lockedfile/lockedfile.go:110-186 | in every run a section that succeeded left what it promises, and a failed Transform whose undoing worked what it found |
| LockProtocol.NoUpdateLost | lockedfile/lockedfile.go:98-186 | in every run of readers, writers, editors and Transforms, with nobody writing, the content is what all sections made of it in the order of their locks: a successful Write its data, a successful Transform its function of what it found, an undone one nothing |
| LockProtocol.WorkingSectionSucceeds | lockedfile/lockedfile.go:110-186 | in every run a section whose calls all work is recorded as a success and leaves what it promises |
| LockProtocol.SomeCallWorks | lockedfile/lockedfile.go:110-186 | until a section has ended, some call can be made that works |
| LockProtocol.EndOfReading | lockedfile/lockedfile.go:98-106 | in every run a Read that finds the end returns the whole content |
| MutexProtocol.StepKeeps | lockedfile/mutex.go:46-67 | taking and releasing the two locks keeps the invariant |
| MutexProtocol.MutualExclusion | lockedfile/mutex.go:46-67 | no two tasks, of one process or of several, are between lock and unlock |
| MutexProtocol.NeverStuck | lockedfile/mutex.go:46-67 | the inner lock is never waited for: whoever has the file lock can always go on |
| Symlinks.WithinIffPrefix | tar/symlinks.go:205-211 | the test on the relative path holds exactly for the root and what is below it |
| Symlinks.Copier.CopyDir | tar/symlinks.go:140-200 | ends on every finite directory graph, cyclic ones too; succeeds exactly when no entry on the way fails; writes exactly the unfolding of the graph cut at directories being copied; restores `visited`; reads nothing outside the root |
| Symlinks.Copier.CopyEntry | tar/symlinks.go:152-198 | the same for one entry: escaping links and broken links fail, files are copied, directories entered, other kinds skipped |
| Symlinks.DirCopied | tar/symlinks.go:181-189 | copying the target of an entry below its name is copying the entry |
| Symlinks.CopiedMore | tar/symlinks.go:152-198 | entries are copied independently of one another |
| Symlinks.DirFailure | tar/symlinks.go:181-189 | a directory entry fails exactly when it fails itself or copying below it does |
| Symlinks.ExpectIff | tar/symlinks.go:140-200 | below the copy there is a file with the same data, or a directory, exactly where a chain of entries and resolved links leads to one without entering a directory twice |
| Symlinks.ResolvedIsCopied | tar/symlinks.go:140-200 | if all entries exist, all links have targets within the root and nothing is in the way, the copy does not fail, whatever cycles there are |
| Symlinks.BrokenIsFailure | tar/symlinks.go:152-180 | the copy fails if it arrives at a directory with an entry that is missing, does not resolve or leaves the root |
| ModuleBumps.FileCountsForInnermost | cmd/internal/compute_module_bumps.go:110-128 | a changed file counts for exactly the innermost module that contains it |
| ModuleBumps.FileCountsOnce | cmd/internal/compute_module_bumps.go:110-128 | no file counts for two modules |
| ModuleBumps.IsFileChanged | cmd/internal/compute_module_bumps.go:110-128 | the nested loop decides whether a file counts for a module |
| ModuleBumps.HasChanged | cmd/internal/compute_module_bumps.go:129-136 | a module has changed exactly when some file of its diff, before or after, counts for it |
| ModuleBumps.ChangedIff | cmd/internal/compute_module_bumps.go:129-136 | a module has changed exactly when it was never tagged or a file that counts for it is on either side of a patch |
| ModuleBumps.Seeds | cmd/internal/compute_module_bumps.go:73-144 | exactly the new and changed modules, or the first failure |
| ModuleBumps.ComputeModuleBumps | cmd/internal/compute_module_bumps.go:73-200 | ends; the list holds, without duplicates, exactly the modules in every set that holds the new and changed ones and is closed under rewriting; each has exactly the modules its bump rewrites; fails exactly when a diff fails, or a required module gets no version or has a failing dry run; the targets of each are exactly the other modules whose dry run rewrites |
| ModuleBumps.TargetsAre | cmd/internal/compute_module_bumps.go:146-165 | the targets of a bump are, in order and once each, the other modules whose dry run rewrites their go.mod |
| ModuleBumps.WorkRound | cmd/internal/compute_module_bumps.go:149-195 | one round looks at every module, and adds only what has to be released |
| ModuleBumps.FinishedIsRequired | cmd/internal/compute_module_bumps.go:146-200 | when all rounds are done the list is closed, and nothing in it is superfluous |
| ManagedFields.PatchReplaceFieldsManagers | ssa/patch.go:114-171 | asks for a patch exactly when an entry is to be handed over; fails exactly when two field sets have to be joined and one cannot be read; the patch conserves ownership, keeps foreign entries in order, and ends with the target entry |
| ManagedFields.MatchIff | ssa/patch.go:71-80 | an entry matches by operation, outside any subresource, under the manager's name or, unless it has to be exact, one that starts with it |
| ManagedFields.MergeManagedFieldsV1 | ssa/patch.go:213-243 | the union, in a new object, of two readable sets; a missing set changes nothing |
| ManagedFields.OwnershipConserved | ssa/patch.go:114-171 | the entries together own the same field paths before and after |
| ManagedFields.MatchedIsMerged | ssa/patch.go:140-161 | all that the listed managers owned is owned by the target entry |
| ManagedFields.ForeignKept | ssa/patch.go:131-162 | entries of other managers keep content and order |
| ManagedFields.SettledNeedsNoPatch | ssa/patch.go:114-171 | a second run on the result asks for nothing, and has no field sets to join that could fail |
| ManagedFields.OldTargetStaysIff | ssa/patch.go:131-162 | the old target entry stays beside the merged one exactly when no listed manager claims it and an earlier claimed entry has a field set |
| ManagedFields.OldTargetLeftBehind | ssa/patch.go:131-162 | two entries with which that happens |
| JsonPointer.TwoPassesAreOne | ssa/manager_apply.go:763-767 | the two replacements in a row are the one-pass decoder of section 4 of RFC 6901, on every text |
| JsonPointer.DecodeUndoesEncode | ssa/manager_apply.go:763-767 | decoding undoes encoding, on every text |
| JsonPointer.SplitUndoesJoin | ssa/manager_apply.go:761-762 | splitting undoes joining of segments without slash |
| JsonPointer.NamesOfPointer | ssa/manager_apply.go:756-767 | a JSON pointer made of any non-empty list of names stands for that list; it is taken for empty only for a single empty name |
| JsonPointer.PointerToFieldsV1Segments | ssa/manager_apply.go:751-793 | every JSON pointer gives the segments of the names that it stands for, or the error of the first index without key |
| JsonPointer.SegmentsIff | ssa/manager_apply.go:751-793 | the segments are exactly those that are right one by one: a field, or for an index the key found with the names and segments before it |
| JsonPointer.FieldNamesRoundTrip | ssa/manager_apply.go:751-793 | every list of names that are no indices comes back as field segments, except a single empty name, which is an error |
| JsonPointer.AnnotationPathIff | ssa/patch.go:246-256 | the path of a removed annotation names its key exactly when the key holds neither `~0` nor `~1` |
| JsonPointer.EscapedKeyIsMissed | ssa/patch.go:246-256 | the removal of the annotation `a~1b` aims at `a/b` |
| GarbageSelection.GetGarbageFiles | artifact/storage/gc.go:41-126 | fails exactly when the walk had an error; otherwise no path twice, never the artifact in use, never a lock file, and exactly the chosen files; every visited regular file that is too old, within the limit, is chosen, and only regular files are |
| GarbageSelection.FilesAreVisits | artifact/storage/gc.go:53-83 | the counted files are distinct visited files, none of them a lock file |
| GarbageSelection.FilesAreShown | artifact/storage/gc.go:53-83 | the counted files are the first ones, up to the limit, of the visits that show a regular file that is no lock, in the order of the visits |
| GarbageSelection.FailsIff | artifact/storage/gc.go:53-83 | the walk fails exactly when it reaches an error before it ends |
| GarbageSelection.GarbageIsSafe | artifact/storage/gc.go:74-123 | all expired files are chosen, the artifact in use is not, and as many files as are to be retained remain if that many are left |
| GarbageSelection.GarbageIsShown | artifact/storage/gc.go:53-123 | every regular file within the limit that is no lock, not in use and too old is chosen, and only regular files are |
| GarbageSelection.ExpiredIff | artifact/storage/gc.go:66-76 | a file has expired exactly when it is not the one in use and older than the time to live |
| GarbageSelection.IsLockIff | artifact/storage/gc.go:73 | lock files are those whose path ends in `.lock` |
| GarbageSelection.OldestFirst | artifact/storage/gc.go:95-123 | a file that is the last of its instant, could be taken and is left is younger than all that are taken |
| GarbageSelection.PickCount | artifact/storage/gc.go:104-123 | of any list of paths, as many candidates are picked as the quota allows |
| GarbageSelection.PickedCount | artifact/storage/gc.go:104-123 | for every list of files, how many are taken: the quota, or all that can be taken if they are fewer |
| GarbageSelection.TakeableAre | artifact/storage/gc.go:78-102 | of the files of one instant only the last one walked can be taken, if it has not expired and is not in use |
| GarbageSelection.TakeableSize | artifact/storage/gc.go:78-102 | with distinct times every other file can |
| GarbageSelection.RetainsExactly | artifact/storage/gc.go:117-120 | with distinct times, nothing expired and at least one to retain, exactly that many remain |
| GarbageSelection.RetainsTooManyIff | artifact/storage/gc.go:104-123 | for every list of files, more remain than are to be retained exactly when there is a surplus and either fewer files can be taken than that, or something has expired and the surplus is two or more |
| GarbageSelection.KeepsTwoForOne | artifact/storage/gc.go:111-115 | four files with which that happens |
| GarbageSelection.OneInstantKeepsAll | artifact/storage/gc.go:78-123 | of files of one instant, the last of them in use, none is taken, however many there are |
| GarbageSelection.EqualTimesKeepAll | artifact/storage/gc.go:78-123 | three such files, one to retain: all remain |
| GarbageSelection.Collect | artifact/storage/gc.go:104-123 | the counting loop takes the first eligible files up to its quota |
| GarbageSelection.WalkFiles | artifact/storage/gc.go:53-83 | the walk records times, paths and expired files of what it counts, and stops at the limit |

## Left out

- Trim.SuffixRemovalRightIff: for a pattern that is well-formed both ways and does not mirror, when it is right on one given text is not told apart further; `SuffixLaws.AlwaysRightIff` says when it is right on all.
- SuffixLaws.AlwaysRightIff: patterns whose operators leave no character out, or with a class that takes none, are not decided by their form, since a class and its complement allow other identities: `*[^a]*a*` and `*[^a]a*` accept the same texts. For these, `Trim.RightForAllIff` has the condition on the languages.
- ExpiringLaws.CleanUpIsExactIff: for stamps that are taken to be sorted, are left over and stand out of order at once, what the search by halves probes decides; no condition simpler than that is given.
- ExpiringLaws.LosesNothingIff: a Resize that has to sort stamps left over may drop any of those that expire together, so that no condition before the call decides.
- Evaluator.CallFunc: case changes, replacement, substring and length are an abstract total library, because they are thin calls of the standard library; `toSubstr` with a negative length panics in the source and is not modelled.
- Scan.Scanner.Scan: characters wider than one byte and letters outside ASCII are not modelled.
- Evaluator.Execute: what a writer that fails does is not modelled; the writers of the source are buffers.
- LruCache.Lru.GetIfOrSet: the condition and the fetch are inputs; metrics and the cancellation of the context are not modelled.
- TokenCaching.TokenCache.GetOrSet: events and metrics are not modelled.
- ExpiringCache.Cache.Resize: metrics are not modelled, here and elsewhere.
- ExpiringCache.Cache.DeleteExpired: the goroutine that calls it and its stop channel are not modelled.
- LockedFile.OpenFile: file modes, and the platforms without file locks, are not modelled.
- LockProtocol.NoUpdateLost: fairness of the operating system's lock, and truncation on opening of what is no regular file, are not modelled.
- MutexProtocol.MutualExclusion: calling the returned unlock function twice panics in the source and is not modelled.
- Symlinks.Copier.CopyDir: file modes, directories that cannot be read, and links whose resolution changes while the copy runs, are not modelled; what a link resolves to is part of the source tree.
- ModuleBumps.ComputeModuleBumps: the latest tags, the files of the diffs, versions and dry runs are inputs; the order of tags is left out, since it is computed only when every target list is empty.
- ManagedFields.PatchReplaceFieldsManagers: the textual form of a field set is an abstract codec that reads back what it writes.
- JsonPointer.PointerToFieldsV1Segments: how an index is read and how the key of a list item is found are inputs.
- GarbageSelection.GetGarbageFiles: the deletion of the chosen files, with its timeout, is not modelled.
- The other removal and migration patches of ssa/patch.go, GetExpiration and ListKeys of the caches would add only easy members.
- Dry-run, apply and wait of the ssa manager depend on the API server.
- Cloud providers, registries, Git, OCI, HTTP, test servers and flag binding are I/O or thin wrappers.
- Chart values, history, dependency and revision strings, the version table and the ordering of kinds are short list facts.
