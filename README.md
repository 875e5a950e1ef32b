# Recipe finder: a verified model of its extraction and ranking core

This project models the core of `RecipeFinder`, a small recipe scraper. The scraper fetches
pages, reads the JSON-LD blocks embedded in them and pulls out a recipe's name, ingredients
and steps. It also ranks candidate URLs and removes duplicate search links. The project
proves what each of those steps computes. Modules:

- `Text`: Python's `str.strip` (with and without a character set), ASCII lower-casing,
  `endswith`, single-character `replace` and `count`.
- `Json`: a parsed JSON value, Python truthiness, `a or b` and `dict.get`.
- `Wrappers`: `Option` and `Result`. A `Result` carries the exception that escapes a call
  (`AttributeError` or `TypeError`).
- `Library`: the library calls the scraper makes, given as total functions in a `Lib`
  value:
  - `json.loads`, partial, so it returns an `Option`;
  - `html.unescape`;
  - the script-block regex of line 58;
  - the step-split regex of line 95;
  - `urlsplit(u).netloc`.
- `Locator`: `find_recipe_in_json`. The stack loop is a method. It is proved against a
  recursive search, its termination measure and a tree predicate.
- `Extract`: `extract_jsonld`. It skips blank blocks, repairs failed blocks, retries the
  parse and keeps going after a failure.
- `Instructions`: `norm_instructions`. The list branch is an accumulate loop. The string
  branch is a split followed by a filter.
- `Assembler`: the body of `scrape`. It covers the field fallbacks, the `mainEntity`
  fallback, the acceptance test, first match wins, and the scrape method itself. The robots
  permission and the fetch are inputs.
- `Ranking`: the constructor defaults and `prefer_sort` as a stable sort.
- `Dedup`: the first-occurrence, stop-at-`n` loop of `search_duckduckgo`.

Behaviours of the code that are easy to misread, each proved or shown in the model:

- **Length order in the ranker.** The key is `(preferred, -len(u))` and it is sorted with
  `reverse=True`. So within a tier, SHORTER URLs come first (`Ranking.PreferSortOrder`).
- **Two recipe objects written back to back** (`{…X…}{…Y…}`). The repair wraps the text as
  `[{…X…}{…Y…}]`. It adds no comma between the objects, and Python's `json.loads` rejects
  such text. Even when a parser does read it as a list, the stack pops the LAST sibling
  first, so the locator returns Y, not X. This is shown by `Extract.RepairWrapsConcatenated`,
  `Locator.LastSiblingWins` and `Locator.ConcatenatedRecipesGiveLast`.
- **Limit below 1 in the dedup loop.** The loop appends a link before it compares the length
  with `n`, so it keeps one link even when `n <= 0` (`Dedup.FirstDistinctSpec`).
- **Empty steps from the string branch.** A fragment such as `"-"` passes the `p.strip()`
  filter but is emptied by `strip(" -•\t")`, so the string branch can return an empty step
  (`Instructions.DashFragmentGivesEmptyStep`). The later filter at line 122 drops it.

## Model

| member | source | states |
|---|---|---|
| Text.StripChars | Recipe_finder.py:96 | `s.strip(chars)` is a slice of `s` with only characters of the set cut from its two ends; it starts and ends outside the set; it is empty exactly when every character is in the set |
| Text.Strip | Recipe_finder.py:62 | `str.strip()`: StripChars with the characters Python's `isspace` accepts, so it has the properties StripChars states |
| Text.StrippedClean | Recipe_finder.py:62 | `str.strip()` is idempotent |
| Text.StripCharsIdempotent | Recipe_finder.py:96 | stripping a character set twice equals stripping it once |
| Text.StripCharsOfTrimmed | Recipe_finder.py:117 | a string that neither starts nor ends with a stripped character is left unchanged |
| Text.AsciiLowerIsRecipe | Recipe_finder.py:83 | a string lower-cases to "recipe" exactly when it is the six letters of "recipe", each in either case |
| Text.ReplaceChar | Recipe_finder.py:68 | `replace` of one character: every occurrence becomes the new character and every other character stays in place, so none is left when the two differ and the count of every third character, such as the "{" the repair counts, is unchanged |
| Json.Or | Recipe_finder.py:81 | `a or b` is `a` when `a` is truthy and `b` otherwise, and is truthy iff either operand is |
| Json.Get | Recipe_finder.py:81 | `dict.get` returns None for an absent key and otherwise the value stored under that key |
| Locator.TypeValue | Recipe_finder.py:81 | the type value is `@type` if truthy, else `type` if truthy, else "" (by Json.Or and Json.Get) |
| Locator.TypeList | Recipe_finder.py:82 | a list type value is used as it is; any other value becomes a one-element list |
| Locator.NamesRecipe | Recipe_finder.py:83 | a type element names a recipe when it is a string that lower-cases to "recipe"; Text.AsciiLowerIsRecipe gives the accepted spellings |
| Locator.IsRecipe | Recipe_finder.py:80-84 | the test of lines 80-84: a dict whose type list holds an element naming "recipe" |
| Locator.Containers | Recipe_finder.py:88-89 | the list children pushed, in order, weigh no more than the list |
| Locator.ContainersMembers | Recipe_finder.py:88-89 | the list children pushed are exactly the dict and list elements |
| Locator.MemberContainers | Recipe_finder.py:85-86 | the dict values pushed, in order, weigh no more than the dict |
| Locator.MemberContainersMembers | Recipe_finder.py:85-86 | the dict values pushed are exactly the dict and list values |
| Locator.Pushed | Recipe_finder.py:79-89 | what one pop pushes weighs strictly less than the popped node, so the loop terminates |
| Locator.Search | Recipe_finder.py:77-90 | the pop-order search from a given stack; SearchCorrect states what it returns |
| Locator.SearchCorrect | Recipe_finder.py:77-90 | from any stack, a result is a recipe object nested in some stack entry, and None means no entry holds any recipe object |
| Locator.SearchStep | Recipe_finder.py:79-89 | one pop without a match leaves the search result unchanged and shrinks the stack's weight |
| Locator.SearchOne | Recipe_finder.py:76-90 | from one root, a result is a recipe object inside the root; None iff the tree has no recipe object |
| Locator.PushMemberValues | Recipe_finder.py:85-86 | the push loop over a dict's values appends exactly the container values, in order |
| Locator.PushElements | Recipe_finder.py:88-89 | the push loop over a list's elements appends exactly the container elements, in order |
| Locator.FindRecipeInJson | Recipe_finder.py:76-90 | the stack loop returns a recipe object found in the tree, and returns None exactly when the tree holds no object whose type names "recipe" |
| Locator.LastSiblingWins | Recipe_finder.py:78-79 | a recipe object that ends a list is returned, whatever recipe objects come before it |
| Locator.ConcatenatedRecipesGiveLast | Recipe_finder.py:76-90 | for the list [X, Y] of two recipe objects the locator returns Y |
| Extract.WrapObjects | Recipe_finder.py:69-70 | the bracket wrap of lines 69-70; RepairOfStripped states when it applies |
| Extract.Repair | Recipe_finder.py:68-70 | the repair of lines 68-70; RepairOfStripped gives its closed form and RepairIdempotent its idempotence |
| Extract.RepairOfStripped | Recipe_finder.py:68-70 | the repair of a stripped, non-empty text is the text with newlines as spaces, wrapped in brackets exactly when it does not start with "[" and has more than one "{" |
| Extract.RepairIdempotent | Recipe_finder.py:68-70 | repairing a repaired text changes nothing |
| Extract.RepairWrapsConcatenated | Recipe_finder.py:68-70 | two objects written back to back are wrapped in brackets with no separating comma |
| Extract.ParseBlock | Recipe_finder.py:62-73 | a block that is blank after decoding and stripping gives nothing; a block whose first parse succeeds gives that value; otherwise the result is the parse of the repaired text |
| Extract.ParseOne | Recipe_finder.py:62-73 | the try/except body computes ParseBlock: no parse of a blank block, the repaired retry only after a failed first parse |
| Extract.Extracted | Recipe_finder.py:61-73 | the values of the blocks that parse, in block order; ExtractedAppend and ExtractedBound state its properties |
| Extract.ExtractedAppend | Recipe_finder.py:61-73 | the blocks are processed independently, in order: the result for a concatenation joins the results |
| Extract.ExtractedBound | Recipe_finder.py:61-73 | at most one value per block; every block kept when all parse; none when none parse |
| Extract.ExtractJsonLd | Recipe_finder.py:57-74 | the loop returns the parsed values of the page's script blocks in order, skipping blank and unparsable ones without stopping |
| Instructions.TextSteps | Recipe_finder.py:95-96 | the string branch yields at most one step per fragment, each free of leading and trailing bullet characters |
| Instructions.TextStepsMembers | Recipe_finder.py:96 | the steps of the string branch are exactly the non-blank fragments, each with " -•\t" cut off both ends |
| Instructions.TextStepsAppend | Recipe_finder.py:96 | the string branch works fragment by fragment and keeps the fragments' order |
| Instructions.StepText | Recipe_finder.py:102 | a step object's text is `text` if truthy, else `name` if truthy, else "" |
| Instructions.ItemStep | Recipe_finder.py:99-103 | a non-blank string item gives its stripped form; a dict gives its stripped text-or-name when that is a non-blank string; blank ones and all other values give nothing; a dict whose text-or-name is truthy but not a string raises AttributeError |
| Instructions.ListSteps | Recipe_finder.py:97-103 | the list branch: the items' steps in order, or the exception of the first item that raises |
| Instructions.ListStepsSpec | Recipe_finder.py:97-103 | the list branch raises iff some item is a dict with a non-string text; otherwise every step is non-empty and stripped |
| Instructions.ListStepsAppend | Recipe_finder.py:98-103 | the steps of a concatenated list are the steps of its parts, in order |
| Instructions.ThenAssociative | Recipe_finder.py:98-103 | joining the step lists of consecutive items is associative, exceptions included |
| Instructions.InstructionSteps | Recipe_finder.py:92-104 | norm_instructions as a function: a string is split and filtered, a list goes item by item, anything else gives no steps |
| Instructions.NoStepsByDefault | Recipe_finder.py:93-104 | a value that is neither a string nor a list, and the empty list, give no steps |
| Instructions.BlankTextNoSteps | Recipe_finder.py:96 | fragments that are all blank give no steps |
| Instructions.DashFragmentGivesEmptyStep | Recipe_finder.py:96 | the fragment "-" passes the blank filter and becomes an empty step |
| Instructions.NormInstructions | Recipe_finder.py:92-104 | the method returns the steps of the string or list branch, or the AttributeError it raises |
| Assembler.NameValue | Recipe_finder.py:117 | the name value is `name` if truthy, else "" |
| Assembler.IngredientsValue | Recipe_finder.py:118 | the ingredients value is `recipeIngredient` if truthy, else `ingredients` if truthy, else [] |
| Assembler.InstructionsValue | Recipe_finder.py:119 | the instructions value is `recipeInstructions` if truthy, else `instructions` if truthy, else [] |
| Assembler.Iterate | Recipe_finder.py:121 | iterating a list gives its elements, a string its one-character strings, a dict its keys; null, booleans and numbers raise TypeError |
| Assembler.Cleaned | Recipe_finder.py:121-122 | the kept items are no more than the input items and are all stripped |
| Assembler.CleanedMembers | Recipe_finder.py:121 | the kept items are exactly the string items that are non-blank before decoding, each decoded and stripped |
| Assembler.CleanedAppend | Recipe_finder.py:121-122 | the comprehension works item by item and keeps the items' order |
| Assembler.Fields | Recipe_finder.py:117-122 | the fields are read without an exception iff the candidate is a dict with a string-or-falsy name, the instructions normalise and the ingredients value is iterable; the name is the stripped name value, the ingredients the cleaned ingredients value, the steps the cleaned normalised instructions; otherwise the normaliser's exception, or TypeError from the ingredients |
| Assembler.Assemble | Recipe_finder.py:117-124 | lines 117-124 for one candidate; AssembleSpec and AssembleRaises state what it returns |
| Assembler.AssembleSpec | Recipe_finder.py:123-124 | a record is returned iff the name, ingredients or steps are non-empty; its name is the stripped name or "Recipe", never empty; its url, ingredients and steps are the page's and the cleaned fields |
| Assembler.AssembleRaises | Recipe_finder.py:117-122 | an exception while reading the fields is exactly what the assembler raises |
| Assembler.FieldsAttributeError | Recipe_finder.py:117 | a non-dict candidate, or a truthy name that is not a string, raises AttributeError |
| Assembler.FalsyPrimaryFallsThrough | Recipe_finder.py:118-119 | a falsy recipeIngredient or recipeInstructions falls through to ingredients or instructions, and a truthy one is used as it is |
| Assembler.CleanedNonEmpty | Recipe_finder.py:121-122 | when decoding keeps non-blank text non-blank, no ingredient or step is empty |
| Assembler.EntityOnlyIngredientIsEmpty | Recipe_finder.py:121 | the ingredient "&nbsp;" passes the filter and decodes to an empty ingredient |
| Assembler.StringIngredientsAreCharacters | Recipe_finder.py:118-121 | an ingredients value given as one string becomes one ingredient per character |
| Assembler.Candidate | Recipe_finder.py:113-115 | what a block offers: the located recipe, or else the block's mainEntity when the block is a dict |
| Assembler.CandidateSpec | Recipe_finder.py:113-115 | the candidate is the located recipe when there is one; otherwise the mainEntity fallback holds no recipe object |
| Assembler.BlockOutcome | Recipe_finder.py:113-124 | one block is skipped when its candidate is falsy or yields no record, accepted with the record, or crashes with the exception |
| Assembler.Examine | Recipe_finder.py:113-124 | the loop body, calling the locator method, computes BlockOutcome |
| Assembler.Outcomes | Recipe_finder.py:112-124 | one outcome per parsed block, in block order, each that block's BlockOutcome |
| Assembler.FirstOf | Recipe_finder.py:112-125 | the loop on the blocks' outcomes: the first accepted record or exception ends it, otherwise "no recipe found" |
| Assembler.FirstOfFound | Recipe_finder.py:112-124 | on outcomes: a record is the result iff it is the first outcome that is not a skip |
| Assembler.FirstOfNotFound | Recipe_finder.py:112-125 | on outcomes: "no recipe found" iff every outcome is a skip |
| Assembler.FirstOfDecided | Recipe_finder.py:112-124 | on outcomes: once decided, appended outcomes change nothing |
| Assembler.FirstRecipe | Recipe_finder.py:112-125 | the loop over the parsed blocks; FirstRecipeFound, FirstRecipeNotFound and LaterBlocksIgnored state its result |
| Assembler.FirstRecipeFound | Recipe_finder.py:112-124 | the record found is that of the first block that is not skipped, and all earlier blocks are skipped |
| Assembler.FirstRecipeNotFound | Recipe_finder.py:112-125 | "no recipe found" is returned iff every block is skipped |
| Assembler.LaterBlocksIgnored | Recipe_finder.py:112-124 | once the blocks examined decide the result, appending blocks does not change it |
| Assembler.ScrapeResultOf | Recipe_finder.py:106-125 | scrape as a function: the robots reason, the fetch reason, or the first-match result over the parsed blocks |
| Assembler.Scrape | Recipe_finder.py:106-125 | scrape returns the robots or fetch failure reason, or the first-match result over the page's parsed blocks |
| Ranking.NewFinder | Recipe_finder.py:15-21 | a truthy argument overrides the default wrap width or suffix list; the settings are never falsy |
| Ranking.Preferred | Recipe_finder.py:129-130 | a URL is preferred when its lower-cased host ends with one of the configured suffixes |
| Ranking.Insert | Recipe_finder.py:132 | one step of the stable sort; InsertPermutes, InsertKeepsDescending and InsertKeepsKeyOrder state its properties |
| Ranking.PreferSort | Recipe_finder.py:127-132 | prefer_sort as a stable insertion sort by descending key; the lemmas below state what it returns |
| Ranking.PreferSortPermutes | Recipe_finder.py:127-132 | the ranking is a permutation of its input |
| Ranking.PreferSortDescending | Recipe_finder.py:128-132 | the ranking is ordered by descending (preferred, -length) key |
| Ranking.PreferSortOrder | Recipe_finder.py:129-132 | preferred URLs come before all others; within a tier lengths never decrease |
| Ranking.PreferSortStable | Recipe_finder.py:132 | URLs with equal keys keep their input order |
| Ranking.InsertPermutes | Recipe_finder.py:132 | inserting one URL adds exactly that URL |
| Ranking.InsertKeepsDescending | Recipe_finder.py:132 | inserting into a descending list keeps it descending |
| Ranking.InsertKeepsKeyOrder | Recipe_finder.py:132 | an inserted URL goes after every URL with the same key |
| Dedup.Distinct | Recipe_finder.py:50-53 | the first occurrences of the links, in order; DistinctSpec states what it holds |
| Dedup.DistinctSpec | Recipe_finder.py:50-53 | the first occurrences hold exactly the input's elements, each once, in order of first occurrence |
| Dedup.DistinctPrefix | Recipe_finder.py:51-54 | reading more links only extends the distinct list |
| Dedup.FirstDistinct | Recipe_finder.py:50-55 | the first max(n, 1) distinct links; FirstDistinctSpec states what it holds |
| Dedup.FirstDistinctSpec | Recipe_finder.py:50-55 | the kept links are duplicate-free input links in first-occurrence order; there are at most max(n, 1) of them, exactly that many when available, and all distinct links otherwise |
| Dedup.DedupLinks | Recipe_finder.py:50-55 | the loop with its seen set and early break returns the first max(n, 1) distinct links |

## Left out

- `get` and `can_fetch` (network and robots.txt I/O). `Assembler.Scrape` takes the
  permission and the fetch outcome, page or error text, as inputs.
- The DuckDuckGo query and the link regex of `search_duckduckgo` (lines 40-49). They depend
  on remote markup and on `urljoin` and `parse_qs`. Only the dedup loop is modelled.
- `json.loads`, `html.unescape`, the regexes of lines 58 and 95, and `urlsplit().netloc`.
  No model replaces these library calls: they are the fields of `Library.Lib`.
- `print_recipe` and `run`: console output, the interactive loop and `time.sleep` delays.
  Line 134 also lacks its colon, so the file does not parse as written.
- Ranking.PreferSort: `urlsplit` raises ValueError on a malformed bracketed host such as
  `http://[x`, and that exception would escape prefer_sort (line 129). The model takes the
  host lookup as a total function, so it does not capture this exception path.
- Numbers in JSON are reals. NaN, the infinities and integer/float distinctions are not
  modelled. The only property of a number that the core uses is its truthiness.
- JSON objects are member lists whose keys are taken to be distinct, as in a parsed dict.
- `Locator.NamesRecipe`: lower-casing is ASCII only. No other character lower-cases to a
  letter of "recipe", so the comparison is unaffected. Host lower-casing in
  `Ranking.Preferred` is also ASCII only.
- `Instructions.TextSteps`: the step-split regex is abstract, so the model does not state
  how a string is cut into fragments, only what happens to the fragments.
- `Assembler.CleanedNonEmpty`: "no empty ingredient or step" holds only when decoding keeps
  non-blank text non-blank. `Assembler.EntityOnlyIngredientIsEmpty` shows that it can fail.
- The code is sequential: no concurrency is modelled.
