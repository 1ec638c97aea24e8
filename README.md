# Selector builder, brace expansion and range extraction — a Dafny model

This project models three pieces of the `rolling-scopes-js-assignments` repository and proves what they promise.

- **CSS selector builder** (`task/08-objects-tasks.js`). A `CssSelector` holds six categories of simple selector: element name, id, classes, attributes, pseudo-classes and pseudo-element. Each fluent call (`element`, `id`, `class`, `attr`, `pseudoClass`, `pseudoElement`) checks its order and duplicate rules before it assigns anything. It then fills its own category and returns the same object. `stringify` joins the fragments in fixed category order. `CombinedSelector.combine` joins two selectors' fragment arrays around `" c "`. The `cssSelectorBuilder` facade starts each chain on a fresh selector. `Rectangle.getArea` multiplies width and height.
- **Brace expansion** (`expandBraces` in `task/10-katas-1-tasks.js`). A recursive-descent parser with one shared cursor. Every `{a,b,...}` group becomes its alternatives, multiplied out with the text around them by `combine`.
- **Range extraction** (`extractRanges` in `task/10-katas-1-tasks.js`). The compact text of a list of integers. Each maximal run of three or more consecutive values is written `first-last`, every other value on its own, and the items are joined by commas.

Files:
- `wrappers.dfy`: `Option` and `Result`.
- `strings.dfy`: `join`, `split` and the decimal rendering of integers.
- `rectangle.dfy`: module `Rectangles`.
- `css_selector.dfy`: module `CssSelectors`.
- `brace_expansion.dfy`: module `BraceExpansion`.
- `range_extraction.dfy`: module `RangeExtraction`.

How each part is modelled:

- **Selector state and checks.** A selector's fields are modelled twice.
  - As the class `CssSelector`, whose methods update the fields in place and return `Ok(this)` or the error the source throws.
  - As the value `Parts`, with the effect of one call given by the function `Step`.
  - Each method is proved to do exactly what `Step` says; on an error it changes nothing.
  - A chain of calls, `Run`, succeeds exactly when its categories never go backwards and no single-valued category is filled twice. It then renders as the calls' fragments in call order.
- **The brace parser.** Its three `while` loops are, first, three mutually recursive functions: `TopLoop` for `parse`, `ExprLoop` for `parseExpr` and `PartLoop` for `parseExprPart`. Each carries its loop's accumulators.
  - Reaching the end of the string inside a group makes the source loop forever; the functions return `None` for that case.
  - On every input, this outcome is proved to happen exactly when the input is not balanced.
  - The class `BraceParser` then runs the source's loops over a mutable cursor. It is proved to compute the same result and to stop at the end of the string.
- **Range extraction.** The tail recursion with its string accumulator is the function `Extract`.
  - `Tokens` gives the same output as structured items, each written greedily from the left; only one list of items writes the input that way.
  - `Decode` reads the text back, and reading back the output of `extractRanges` gives the input list.

## Model

| member | source | states |
|---|---|---|
| Rectangles.Rectangle.constructor | task/08-objects-tasks.js:25-28 | `new Rectangle(w, h)` stores both arguments unchanged as `width` and `height` |
| Rectangles.Rectangle.GetArea | task/08-objects-tasks.js:30-32 | the area is height times width; it is 0 when a side is 0 and non-negative when both sides are |
| Rectangles.RectangleArea | task/08-objects-tasks.js:25-32 | building a rectangle and asking for its area gives width times height |
| Rectangles.ExampleTenByTwenty | task/08-objects-tasks.js:19-23 | the documented 10 by 20 rectangle has width 10, height 20 and area 200 |
| CssSelectors.AnyExist | task/08-objects-tasks.js:209-211 | the result is true exactly when some value is true |
| CssSelectors.Parts.SelectorsArray | task/08-objects-tasks.js:176-180 | definition of `getSelectorsArray`: the truthy fields in category order; `StepAppendsFragment` and `RunDescribes` carry its properties |
| CssSelectors.Parts.Stringify | task/08-objects-tasks.js:182-185 | definition of `stringify`: the fragments joined with nothing between; `RunSucceedsIffWellOrdered` gives it as the concatenation of the calls' fragments |
| CssSelectors.Step | task/08-objects-tasks.js:116-174 | definition of the check-and-set bodies of `element` to `pseudoElement`; `StepAcceptsIffAdmissible`, the six `…Checks` lemmas, `StepFillsOwnCategory` and `StepAppendsFragment` carry its properties |
| CssSelectors.Run | task/08-objects-tasks.js:116-174 | definition of a chain of fluent calls on a fresh selector, ended by the first call that throws; `RunDescribes` and `RunSucceedsIffWellOrdered` carry its properties |
| CssSelectors.StepAcceptsIffAdmissible | task/08-objects-tasks.js:116-174 | a call is accepted exactly when no later category is present and it does not repeat a filled single-valued category; a rejection is "already defined" exactly when it repeats one, and "Wrong order" otherwise |
| CssSelectors.ElementChecks | task/08-objects-tasks.js:116-126 | `element` fails when a (non-empty) element name is set, else when any id, class, attribute, pseudo-class or pseudo-element is present; otherwise it is accepted |
| CssSelectors.IdChecks | task/08-objects-tasks.js:128-138 | `id` fails when an id is set, else when any class, attribute, pseudo-class or pseudo-element is present; otherwise it is accepted |
| CssSelectors.ClassChecks | task/08-objects-tasks.js:140-148 | `class` fails only when an attribute, pseudo-class or pseudo-element is present, always with "Wrong order" |
| CssSelectors.AttrChecks | task/08-objects-tasks.js:150-157 | `attr` fails only when a pseudo-class or pseudo-element is present, always with "Wrong order" |
| CssSelectors.PseudoClassChecks | task/08-objects-tasks.js:159-166 | `pseudoClass` fails only when a pseudo-element is set, with "Wrong order" |
| CssSelectors.PseudoElementChecks | task/08-objects-tasks.js:168-174 | `pseudoElement` fails only when a pseudo-element is already set, with "already defined"; it has no order check |
| CssSelectors.StepFillsOwnCategory | task/08-objects-tasks.js:116-174 | an accepted call appends its fragment (`v`, `#v`, `.v`, `[v]`, `:v`, `::v`) to its own category and leaves every other category as it was |
| CssSelectors.StepAppendsFragment | task/08-objects-tasks.js:176-185 | after an accepted call, `getSelectorsArray` gains the call's fragment at its end and `stringify` gains it as a suffix |
| CssSelectors.AdmissibleAfter | task/08-objects-tasks.js:116-174 | on a selector built by a chain of calls, a new call is accepted exactly when it may follow every earlier call of the chain |
| CssSelectors.StepExtends | task/08-objects-tasks.js:116-185 | one more call on a selector a well-ordered chain built succeeds exactly when the longer chain is well ordered, and then the longer chain still describes the selector |
| CssSelectors.RunDescribes | task/08-objects-tasks.js:116-185 | a chain succeeds exactly when it is well ordered, and then its selector renders as the calls' fragments and has a category exactly when some call filled it |
| CssSelectors.RunSucceedsIffWellOrdered | task/08-objects-tasks.js:116-185 | a chain of calls succeeds exactly when its categories never go backwards and no single-valued category is filled twice; then `stringify` is the concatenation of the calls' fragments in call order and a category is present exactly when some call filled it |
| CssSelectors.EmptyDescribed | task/08-objects-tasks.js:114-115 | a fresh selector renders as the empty string and has no category present |
| CssSelectors.CssSelector.constructor | task/08-objects-tasks.js:114-115 | `new CssSelector()` starts with no field defined |
| CssSelectors.CssSelector.Element | task/08-objects-tasks.js:116-126 | on success the fields become those `Step` gives for `element(value)` and the method returns the same object; on failure it returns `Step`'s error and changes no field |
| CssSelectors.CssSelector.Id | task/08-objects-tasks.js:128-138 | the same for `id`, which stores `#value` |
| CssSelectors.CssSelector.Class | task/08-objects-tasks.js:140-148 | the same for `class`, which appends `.value` to the class list |
| CssSelectors.CssSelector.Attr | task/08-objects-tasks.js:150-157 | the same for `attr`, which appends `[value]` to the attribute list |
| CssSelectors.CssSelector.PseudoClass | task/08-objects-tasks.js:159-166 | the same for `pseudoClass`, which appends `:value` |
| CssSelectors.CssSelector.PseudoElement | task/08-objects-tasks.js:168-174 | the same for `pseudoElement`, which stores `::value` |
| CssSelectors.Selector.SelectorsArray | task/08-objects-tasks.js:176-180 | definition of `getSelectorsArray` for either class (lines 193-195 for `CombinedSelector`); `CombinedSelector.Combine` states it for the combined result |
| CssSelectors.Selector.Stringify | task/08-objects-tasks.js:197-200 | definition of `stringify` for either class (lines 182-185 for `CssSelector`); `CombinedSelector.Combine` and `CombineArrays` give the combined string |
| CssSelectors.CombineArrays | task/08-objects-tasks.js:202-206 | the fragments of `combine(a, c, b)`, joined, are `a` joined, then ` c `, then `b` joined |
| CssSelectors.CombineNests | task/08-objects-tasks.js:97-109 | nested combinations give the same fragments however they are grouped |
| CssSelectors.CombinedSelector.constructor | task/08-objects-tasks.js:189-191 | the new combined selector keeps the given fragments |
| CssSelectors.CombinedSelector.Combine | task/08-objects-tasks.js:202-206 | `combine` returns a new object whose fragments are the left fragments, ` c `, then the right fragments; its `stringify` is `stringify(s1) + " " + c + " " + stringify(s2)`; the operands are not modified |
| CssSelectors.FreshAcceptsAnyCall | task/08-objects-tasks.js:213-237 | every facade entry starts on a fresh selector, which accepts any first call and renders exactly that call's fragment |
| CssSelectors.BuildElement | task/08-objects-tasks.js:215-217 | `cssSelectorBuilder.element(v)` is a new selector in the state `element(v)` gives a fresh one |
| CssSelectors.BuildId | task/08-objects-tasks.js:219-221 | the same for `id` |
| CssSelectors.BuildClass | task/08-objects-tasks.js:223-225 | the same for `class` |
| CssSelectors.BuildAttr | task/08-objects-tasks.js:227-229 | the same for `attr` |
| CssSelectors.BuildPseudoClass | task/08-objects-tasks.js:231-233 | the same for `pseudoClass` |
| CssSelectors.BuildPseudoElement | task/08-objects-tasks.js:235-237 | the same for `pseudoElement` |
| CssSelectors.BuildCombine | task/08-objects-tasks.js:239-241 | `cssSelectorBuilder.combine` renders as `stringify(s1) + " " + c + " " + stringify(s2)` |
| CssSelectors.ExampleIdAndClasses | task/08-objects-tasks.js:93 | `id('main').class('container').class('editable')` renders `#main.container.editable` |
| CssSelectors.ExampleAttrAndPseudoClass | task/08-objects-tasks.js:95 | `element('a').attr('href$=".png"').pseudoClass('focus')` renders `a[href$=".png"]:focus` |
| CssSelectors.ExampleErrors | task/08-objects-tasks.js:116-174 | `class` after `attr` and `pseudoClass` after `pseudoElement` are out of order, as is `id` after `class`; a second `id` or non-empty element name is already defined |
| CssSelectors.ExampleEmptyElementName | task/08-objects-tasks.js:117-124 | an empty element name counts as unset, so a second `element` call is accepted |
| CssSelectors.ExampleCombineWithItself | task/08-objects-tasks.js:202-206 | combining `a[href$=".png"]:focus` with itself around `~` renders both copies with ` ~ ` between them |
| CssSelectors.ExampleDiv | task/08-objects-tasks.js:98 | `element('div').id('main').class('container').class('draggable')` renders `div#main.container.draggable` |
| CssSelectors.ExampleTable | task/08-objects-tasks.js:101 | `element('table').id('data')` renders `table#data` |
| CssSelectors.ExampleRow | task/08-objects-tasks.js:104 | `element('tr').pseudoClass('nth-of-type(even)')` renders `tr:nth-of-type(even)` |
| CssSelectors.ExampleCell | task/08-objects-tasks.js:106 | `element('td').pseudoClass('nth-of-type(even)')` renders `td:nth-of-type(even)` |
| CssSelectors.ExampleNestedCombination | task/08-objects-tasks.js:97-109 | the documented nested combination renders `div#main.container.draggable + table#data ~ tr:nth-of-type(even)   td:nth-of-type(even)` |
| Strings.Concat | task/08-objects-tasks.js:182-185 | definition of `join('')`; `ConcatAppend` gives the join of two arrays put together |
| Strings.JoinWith | task/10-katas-1-tasks.js:229-232 | definition of joining texts with single commas, as `extract` builds `${acc},${val}`; `SplitJoin` undoes it |
| Strings.ConcatAppend | task/08-objects-tasks.js:182-185 | `join('')` of two arrays put together is the join of the first followed by the join of the second |
| Strings.IntToString | task/10-katas-1-tasks.js:236 | the decimal text of an integer is non-empty, has no comma, and has no `-` after its first character |
| Strings.IntToStringRoundTrip | task/10-katas-1-tasks.js:236 | reading back the decimal text of an integer gives the integer |
| Strings.SplitJoin | task/10-katas-1-tasks.js:232 | splitting at a separator that no part contains undoes joining the parts with it |
| RangeExtraction.StartsWithRange | task/10-katas-1-tasks.js:249-252 | definition of `startsWithRange`: the first three numbers are consecutive; `FirstPiece` and `TokensAreGreedy` carry its properties |
| RangeExtraction.Extract | task/10-katas-1-tasks.js:224-233 | definition of `extract` with its accumulator; `ExtractAccumulates`, `ExtractAppends` and `ExtractRangesJoins` carry its properties |
| RangeExtraction.ExtractRanges | task/10-katas-1-tasks.js:220-222 | definition of `extractRanges` as `extract('', nums)`; `ExtractRangesJoins` and `ExtractRangesRoundTrip` carry its properties |
| RangeExtraction.RunEnd | task/10-katas-1-tasks.js:242 | the `findIndex` search finds the first position whose successor is not one more than it; the last position always qualifies |
| RangeExtraction.ExtractSingle | task/10-katas-1-tasks.js:234-239 | `extractSingle` uses one number and its text reads back as that number |
| RangeExtraction.ExtractRange | task/10-katas-1-tasks.js:241-247 | `extractRange` consumes at least three numbers, all consecutive, stops where the run cannot be extended, and writes `first-last` |
| RangeExtraction.FirstPiece | task/10-katas-1-tasks.js:228 | one step of `extract` uses at least one number and writes the non-empty text of the first greedy item |
| RangeExtraction.TokensAreGreedy | task/10-katas-1-tasks.js:241-252 | each range item stands for a maximal run of at least three consecutive values; no single item starts three consecutive values |
| RangeExtraction.GreedyIsUnique | task/10-katas-1-tasks.js:241-252 | only one list of items writes a list greedily |
| RangeExtraction.MaximalRunIsRange | task/10-katas-1-tasks.js:241-252 | a maximal run of at least three values at the front makes `startsWithRange` true and `findIndex` end at the run's last value |
| RangeExtraction.GreedyCovers | task/10-katas-1-tasks.js:204-208 | the items of a greedy writing stand for exactly the numbers written, in order |
| RangeExtraction.ExtractAccumulates | task/10-katas-1-tasks.js:224-233 | `extract(acc, nums)` is the comma-join of the items when `acc` is empty, otherwise `acc` followed by a comma and that join (just `acc` when nothing is left) |
| RangeExtraction.ExtractAppends | task/10-katas-1-tasks.js:229-232 | with a non-empty accumulator, `extract` adds one comma and then the items |
| RangeExtraction.ExtractRangesJoins | task/10-katas-1-tasks.js:220-233 | `extractRanges` joins the item texts with single commas, and is empty exactly for the empty list |
| RangeExtraction.DecodeTokenText | task/10-katas-1-tasks.js:204-208 | the text of an item reads back as the numbers it stands for: `n` as `[n]`, `a-b` as the inclusive interval |
| RangeExtraction.DecodeTexts | task/10-katas-1-tasks.js:204-208 | a list of item texts reads back as the concatenation of their numbers |
| RangeExtraction.ExtractRangesRoundTrip | task/10-katas-1-tasks.js:220-254 | reading back the output of `extractRanges` gives the input list |
| RangeExtraction.ExampleWholeRun | task/10-katas-1-tasks.js:215 | `[0,1,2,3,4,5]` gives `0-5` |
| RangeExtraction.ExampleSinglesOnly | task/10-katas-1-tasks.js:216 | `[1,4,5]` gives `1,4,5` |
| RangeExtraction.ExampleMixed | task/10-katas-1-tasks.js:217 | `[0,1,2,5,7,8,9]` gives `0-2,5,7-9` |
| RangeExtraction.ExamplePairsStaySeparate | task/10-katas-1-tasks.js:218 | `[1,2,4,5]` gives `1,2,4,5`: two consecutive values stay separate |
| RangeExtraction.ExampleEmpty | task/10-katas-1-tasks.js:225-226 | the empty list gives the empty text |
| BraceExpansion.ReadWord | task/10-katas-1-tasks.js:131-137 | `readUntil` returns the text from the cursor up to a stop character or the end, and reads at least one character when the cursor is not at a stop character; with ReadWordAvoids, that stop character is the first one |
| BraceExpansion.ReadWordEndsAt | task/10-katas-1-tasks.js:131-137 | a run free of stop characters that ends at a stop character (or the end) is exactly what `readUntil` reads |
| BraceExpansion.ReadWordAvoids | task/10-katas-1-tasks.js:131-137 | the word `readUntil` reads contains no stop character |
| BraceExpansion.TopLoop | task/10-katas-1-tasks.js:65-78 | definition of `parse`'s loop, `None` where it never returns; `TopLoopDepth` and `TopLoopNonEmpty` carry its properties |
| BraceExpansion.Expand | task/10-katas-1-tasks.js:58-63 | definition of `parse` on the whole string; `ExpandReturnsIffBalanced`, `ExpandNonEmpty` and `ExpandWithoutBraces` carry its properties |
| BraceExpansion.ExprLoop | task/10-katas-1-tasks.js:80-98 | a group that returns moves the cursor forward, just past a `}` |
| BraceExpansion.PartLoop | task/10-katas-1-tasks.js:100-113 | an alternative that returns stops at a `,` or `}` and, unless it starts at one, moves the cursor forward |
| BraceExpansion.Product | task/10-katas-1-tasks.js:115-121 | definition of `combine`; `ProductLength`, `ProductEntry` and `ProductMembers` give its length and contents, and `Combine` is its loop form |
| BraceExpansion.ProductLength | task/10-katas-1-tasks.js:115-121 | `combine(L, R)` has \|L\|·\|R\| items |
| BraceExpansion.ProductEntry | task/10-katas-1-tasks.js:115-121 | `combine(L, R)` holds `L[i] + R[j]` at index `i·\|R\| + j`: left-major order |
| BraceExpansion.ProductMembers | task/10-katas-1-tasks.js:115-121 | every item of `combine(L, R)` is some `l + r`, and every such pair occurs |
| BraceExpansion.ProductUnitLeft | task/10-katas-1-tasks.js:66 | combining the initial `['']` with a list leaves the list unchanged |
| BraceExpansion.ProductUnitRight | task/10-katas-1-tasks.js:115-121 | combining a list with `['']` leaves the list unchanged |
| BraceExpansion.ExprLoopDepth | task/10-katas-1-tasks.js:84-98 | a group that returns leaves the brace depth where it found it; one that runs into the end of the string leaves it higher |
| BraceExpansion.PartLoopDepth | task/10-katas-1-tasks.js:103-110 | an alternative that returns keeps the brace depth; one that never returns leaves it at d or above, so never back to zero |
| BraceExpansion.TopLoopDepth | task/10-katas-1-tasks.js:69-76 | the top-level loop returns exactly when the rest of the string ends at depth zero |
| BraceExpansion.ExpandReturnsIffBalanced | task/10-katas-1-tasks.js:29-30 | the expansion returns exactly on balanced input, where every `{` has its `}` |
| BraceExpansion.ExprLoopNonEmpty | task/10-katas-1-tasks.js:93-97 | a closed group always yields at least one alternative, the empty one if need be |
| BraceExpansion.PartLoopNonEmpty | task/10-katas-1-tasks.js:100-113 | an alternative built on a non-empty list stays non-empty |
| BraceExpansion.TopLoopNonEmpty | task/10-katas-1-tasks.js:65-78 | the top-level loop keeps a non-empty list non-empty |
| BraceExpansion.ExpandNonEmpty | task/10-katas-1-tasks.js:58-78 | every input that expands yields at least one string |
| BraceExpansion.ExpandWithoutBraces | task/10-katas-1-tasks.js:56 | a string without `{` expands to itself alone; the empty string to `['']` |
| BraceExpansion.PartWord | task/10-katas-1-tasks.js:104-105 | proof helper: one unfolding of the word branch of `parseExprPart` |
| BraceExpansion.TopWord | task/10-katas-1-tasks.js:70-71 | proof helper: one unfolding of the word branch of `parse` |
| BraceExpansion.PartGroup | task/10-katas-1-tasks.js:106-108 | proof helper: one unfolding of the group branch of `parseExprPart` |
| BraceExpansion.TopGroup | task/10-katas-1-tasks.js:72-74 | proof helper: one unfolding of the group branch of `parse` |
| BraceExpansion.PartStop | task/10-katas-1-tasks.js:103 | proof helper: one unfolding of the loop test of `parseExprPart`, which stops at a `,` or `}` and does not consume it |
| BraceExpansion.ExprPart | task/10-katas-1-tasks.js:88-89 | proof helper: one unfolding of `parseExpr` reading an alternative and appending its items |
| BraceExpansion.ExprSeparator | task/10-katas-1-tasks.js:85-87 | proof helper: one unfolding of the separator branch of `parseExpr`, which consumes the `,` and adds one to the separator count |
| BraceExpansion.ExprClose | task/10-katas-1-tasks.js:93-96 | the closing `}` is consumed, and `''` is added only when there are fewer items than separators plus one |
| BraceExpansion.ExampleThumbnail | task/10-katas-1-tasks.js:52-54 | `thumbnail.{png,jp{e,}g}` expands to `thumbnail.png`, `thumbnail.jpeg` and `thumbnail.jpg` |
| BraceExpansion.ExamplePicturePaths | task/10-katas-1-tasks.js:38-43 | `~/{Downloads,Pictures}/*.{jpg,gif,png}` expands to its six paths in left-major order |
| BraceExpansion.ExampleEmptyAlternative | task/10-katas-1-tasks.js:94-96 | `{abc,}` expands to `abc` and the empty string |
| BraceExpansion.ExampleNestedEmptyAlternativeLost | task/10-katas-1-tasks.js:94-96 | `{{b,c},}` expands to `b` and `c` only: the inner group already gives two items, so the empty alternative is not added |
| BraceExpansion.ExampleNothingToDo | task/10-katas-1-tasks.js:56 | `nothing to do` expands to itself |
| BraceExpansion.ExampleEmptyString | task/10-katas-1-tasks.js:65-78 | the empty string expands to `['']` |
| BraceExpansion.Combine | task/10-katas-1-tasks.js:115-121 | the nested loops of `combine` build exactly the left-major product |
| BraceExpansion.BraceParser.constructor | task/10-katas-1-tasks.js:65-67 | the parser starts on the given string with the cursor at 0 |
| BraceExpansion.BraceParser.ReadUntil | task/10-katas-1-tasks.js:131-137 | the loop returns the word `ReadWord` describes and leaves the cursor at its end |
| BraceExpansion.BraceParser.ParseExpr | task/10-katas-1-tasks.js:80-98 | on a group that closes, the loop returns the group's alternatives and leaves the cursor just past its `}`, as `ExprLoop` says |
| BraceExpansion.BraceParser.ParseExprPart | task/10-katas-1-tasks.js:100-113 | on an alternative that ends, the loop returns its items and leaves the cursor at the `,` or `}` after it, as `PartLoop` says |
| BraceExpansion.BraceParser.Parse | task/10-katas-1-tasks.js:65-78 | on balanced input the top-level loop returns the expansion and stops with the cursor at the end of the string |
| BraceExpansion.ExpandBraces | task/10-katas-1-tasks.js:58-63 | on balanced input `expandBraces` yields the expansion, which has at least one string |

## Left out

- `getJSON` and `fromJSON` (task/08-objects-tasks.js:45-63) only call `JSON.stringify`, `JSON.parse` and `Object.setPrototypeOf`. They are library calls with no logic of their own.
- `createCompassPoints`, `getZigZagMatrix` and `canDominoesMakeRow` are not implemented in the source. They only throw "Not implemented".
- The generator of `expandBraces` (`function*`, `yield*`) is modelled as the finite list that `parse` returns. It is not modelled as a lazy sequence.
- ExpandBraces: requires balanced input, because the source never returns on unbalanced input; the functions `TopLoop`, `ExprLoop` and `PartLoop` give `None` there, and `ExpandReturnsIffBalanced` proves that `None` comes back exactly on unbalanced input.
- BraceExpansion.BraceParser.ParseExpr: requires that its group closes (`ExprLoop` is not `None`), for the same reason; `BraceParser.ParseExprPart` and `BraceParser.Parse` carry the matching requirement.
- Past the end of the string, `str[pos]` is `undefined` in the source. The loop tests of `parse` and `readUntil` are false there. Those of `parseExpr` and `parseExprPart` are true, so these two loops never return; the model renders that as `None`. The model compares the cursor with the length instead of reading past the end.
- JavaScript numbers are modelled as unbounded integers: the sides of a `Rectangle` and the values given to `extractRanges`. Floating point, `NaN` and `Infinity` are not modelled. `toString` is modelled as the decimal numeral of an integer.
- The exact error messages are not modelled. A failing call returns the error kind instead of throwing: `WrongOrder` or `AlreadyDefined(category)`.
- The lazy creation of the class, attribute and pseudo-class arrays is not modelled. A field the source leaves `undefined` is modelled as `""` or `[]`. This agrees with the source because every test of a field is a truthiness test, and a stored id or pseudo-element is never empty.
- `CombinedSelector`'s `selectors || []` fallback is not modelled: the constructor always receives an array.
- The `!nums` test of `extract` for a missing list is not modelled: the input is always a list.
- `extractRanges` is modelled for any list of integers, not only sorted ones. Its round trip does not need sortedness.
- `Selector` covers the two kinds of object that `combine` accepts. The source relies on duck typing through `getSelectorsArray` instead.
- The example `It{{em,alic}iz,erat}e{d,}, please.` (task/10-katas-1-tasks.js:45-50) is not proved. It uses the same rules as the thumbnail example: nested groups and the empty alternative.
