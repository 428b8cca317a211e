# tdt test-case generator — a Dafny model

tdt generates test-case tables from a decision-table style description.
The caller gives

- a *domain*: a nested object whose leaves are the level lists of the
  factors, flattened into dotted paths such as `Given.User.Age`;
- *defaults*: a nested object giving each factor its default level;
- *exclusions*: forbidden combinations, each a map from paths to an exact
  level or a pattern;
- *perspectives*: each with a title, constants that override the
  defaults, the variables to combine, an optional coverage strength and an
  `expect` callback that fills in the expected outcome.

For every perspective the generator lists the *requirements* (for every
subset of the variables of the chosen strength, every combination of their
levels that no exclusion forbids), packs them greedily into a covering
array, fills the unset cells from the defaults and the constants, drops the
excluded rows, writes the normalised title into the `Perspective` column and
runs the callback. The rows of all perspectives are concatenated and
numbered `1`, `2`, ... in the `ID` column.

The model follows the structure of `src/index.ts`, one module per stage:

| file | module | stage |
|---|---|---|
| `types.dfy` | `Types` | paths, levels, rows, perspectives, errors |
| `flatten.dfy` | `Flatten` | nested schema → dotted-path dictionary, duplicate detection |
| `subsets.dfy` | `Combinations` | the `m`-element subsets of the variable list |
| `exclusions.dfy` | `Exclusions` | the exclusion predicate and the filter |
| `requirements.dfy` | `Requirements` | the depth-first level expansion and the requirement list |
| `covering.dfy` | `Covering` | the greedy covering array and the default fill |
| `assembly.dfy` | `Assembly` | per-perspective pipeline, concatenation, titles and IDs |

A row is a `map<Path, Level>`; a path missing from the map is the source's
`undefined`. The source's JavaScript truthiness test on a cell (`!row[key]`,
`row[key] && ...`) is modelled as "the path is set to a non-empty level"
(`Covering.Filled`). The places where the source mutates objects keep that
form: `Flatten.FlatDict` is the result dictionary the flattening walk
writes into, `Requirements.RequirementList` is the list the recursive
expansion pushes into, and `Covering.CoveringArray` is the array of rows the
greedy packer appends to and fills in place. Each of their methods is
proved equal to a function on values, and the properties are proved about
those functions.

The errors the source throws are modelled as `Failure` results: a
duplicate dotted path in the domain or the defaults
(`DuplicateDefinition`), and a strength larger than the number of a
perspective's variables (`StrengthExceedsVariables`).

## Model

| member | source | states |
|---|---|---|
| Flatten.Flattened | src/index.ts:209-214 | Requires the tree to be an object (a group). Flattening a whole tree from the empty dictionary yields the dictionary of its leaves; it is the duplicate-definition error exactly when two leaves share a dotted path. |
| Flatten.FlatDict.AddTree | src/index.ts:291-310 | The walk succeeds exactly when no leaf path below the tree is already in the dictionary or repeats an earlier leaf's path; on success the dictionary is the old one with every leaf registered in visiting order. |
| Flatten.FlattenedContents | src/index.ts:291-339 | Flattening a whole tree fails exactly when two leaves share a dotted path; on success its keys are exactly the leaves' paths and each leaf's value is stored under its path. |
| Combinations.Subsets | src/index.ts:433-451 | Requires m ≥ 1. Gives [] when the list has fewer than m elements, the singletons in order when m = 1, and otherwise, for i = 0 … n − m in turn, a[i] in front of every (m − 1)-subset of a[i+1..]. Every result has exactly m elements. |
| Combinations.SubsetsCount | src/index.ts:433-451 | The recursion returns exactly C(n, m) subsets of an n-element list, none when m exceeds n. |
| Combinations.SubsetsPick | src/index.ts:433-451 | Every subset is the list's elements at some index selection, taken in the original order. |
| Combinations.RangeSubsetsShape | src/index.ts:433-451 | Every chosen index selection has m strictly increasing indices within the list. |
| Combinations.RangeSubsetsSorted | src/index.ts:433-451 | The selections come out in strictly increasing lexicographic order of their indices, so there are no repeats. |
| Combinations.RangeSubsetsComplete | src/index.ts:433-451 | Every strictly increasing selection of m indices appears among the results. |
| Exclusions.IsExcluded | src/index.ts:584-601 | Tries the exclusions in order. A row is excluded exactly when some exclusion has every condition met: an exact level equal to the cell, or a pattern accepting the cell's text (`undefined` for a missing cell). |
| Exclusions.EmptyExclusionExcludesAll | src/index.ts:588-590 | An exclusion with no conditions rejects every row. |
| Exclusions.ExcludedLocal | src/index.ts:584-601 | Whether a row is excluded depends only on the cells that some exclusion mentions. |
| Exclusions.Kept | src/index.ts:378-380 | The rows the filter lets through, in their original order. No kept row is excluded, and the list never grows. |
| Exclusions.KeptMembers | src/index.ts:378-380 | The filter keeps exactly the rows that are not excluded, and never lengthens the list. |
| Requirements.Expansion | src/index.ts:462-497 | Requires v ≤ the number of variables. With no variables left, it is the base row unless that row is excluded. Otherwise, for each level of variable v in list order, it expands the later variables with that level set. No returned row is excluded. |
| Requirements.RequirementList.FullCoverage | src/index.ts:462-497 | The recursive expansion appends exactly the level combinations of the remaining variables, in depth-first order, minus the excluded ones. |
| Requirements.ExpansionSound | src/index.ts:462-497 | Every pushed row sets exactly the base's paths and the remaining variables, gives each variable one of its levels, keeps the base elsewhere, and is not excluded. |
| Requirements.ExpansionComplete | src/index.ts:462-497 | Every such non-excluded assignment is pushed. |
| Requirements.ExpansionPruned | src/index.ts:490-495 | Dropping excluded rows at the leaves gives the same list as expanding everything and filtering afterwards. |
| Requirements.ExpansionCount | src/index.ts:462-497 | Without exclusions the expansion has as many rows as the product of the variables' level counts. |
| Requirements.OdometerOrder | src/index.ts:476-487 | The rows come in odometer order: the block for the c-th level of the current variable is the c-th block, with the last variable varying fastest. |
| Requirements.CoverageMembers | src/index.ts:407-423 | A row is a requirement of a list of subsets exactly when it assigns one of those subsets and is not excluded. |
| Requirements.GetRequirements | src/index.ts:394-424 | The requirement list is the concatenation of the expansions of every strength-sized subset, or the strength error. |
| Requirements.RequirementsOfMeaning | src/index.ts:394-424 | The requirements fail exactly when a strength is given and exceeds the variable count; otherwise a row is a requirement exactly when it assigns one strength-sized subset of the variables and no exclusion rejects it. |
| Covering.FirstAppendable | src/index.ts:521-542 | The chosen row is the first one that has an unset requested cell and no filled cell contradicting the requirement; when none exists, every row lacks one of these. |
| Covering.FillFrom | src/index.ts:543-547 | Filling a row from a source row never overwrites a set (non-empty) cell. It writes the source's level into every other cell the source names, and leaves the paths the source does not name as they were. The keys become those of both rows. |
| Covering.FillCompletes | src/index.ts:536-547 | Filling a row that does not contradict a requirement makes it cover the requirement. |
| Covering.Step | src/index.ts:508-556 | One requirement: nothing changes when some row already covers it; otherwise the first extendable row is filled from it; otherwise it is appended as a new row. Afterwards the requirement is covered, and at most one row has been added. |
| Covering.StepCovers | src/index.ts:508-556 | After one step the requirement is covered, no existing row loses a filled cell, and at most one row is added. |
| Covering.StepShape | src/index.ts:510-556 | A step changes nothing when some row already covers the requirement. Otherwise it changes only the first extendable row, which becomes that row filled from the requirement. It appends a row only when no row covers or can be extended to cover the requirement; the appended row is the requirement. |
| Covering.StepKeepsCover | src/index.ts:508-556 | A later step never uncovers a requirement with non-empty levels. |
| Covering.Pack | src/index.ts:504-558 | Handles the requirements in order, one step each. The old rows are kept, and at most one row per requirement is added. |
| Covering.PackCovers | src/index.ts:504-558 | After all steps every requirement with non-empty levels is covered, rows only grow, and there are at most as many new rows as requirements. |
| Covering.EmptyLevelUncovered | src/index.ts:533-546 | A requirement whose level is the empty string can be lost: the next requirement overwrites that cell because it counts as unset. |
| Covering.FillEachMeaning | src/index.ts:563-576 | Applying the base keeps every filled cell, sets every base path in every row, and preserves coverage of requirements with non-empty levels. |
| Covering.FillCells | src/index.ts:543-547 | The cell-by-cell fill loop yields the filled row described by Covering.FillFrom. |
| Covering.CoveringArray.Add | src/index.ts:509-556 | Handling one requirement updates the array as one greedy step. |
| Covering.CoveringArray.Generate | src/index.ts:504-558 | Handling the requirements in order gives the greedy packing of them. |
| Covering.CoveringArray.ApplyBase | src/index.ts:563-576 | Every row's unset or empty cells are filled from the base test. |
| Assembly.NormalizeTitle | src/index.ts:386 | Replaces `(` by its full-width form and then `)` by its full-width form. The length is unchanged and no ASCII parenthesis remains. |
| Assembly.ReplaceAll | src/index.ts:386 | Replacing a character keeps the length and changes exactly the occurrences of that character. |
| Assembly.TitleMeaning | src/index.ts:386 | The normalised title has the same length, each ASCII parenthesis becomes its full-width form, no ASCII parenthesis remains, and normalising twice changes nothing. |
| Assembly.DecimalRoundTrip | src/index.ts:244-248 | A number's decimal text reads back as the number and has no leading zero. |
| Assembly.DecimalInjective | src/index.ts:244-248 | Different numbers get different decimal texts. |
| Assembly.BaseTestMeaning | src/index.ts:225-228 | The base test sets the defaults' and the constants' paths; a constant wins over a default. |
| Assembly.BuildBase | src/index.ts:225-228 | The copy-then-overwrite loop yields that base test. |
| Assembly.GenerateTestsByPerspective | src/index.ts:351-392 | One perspective's rows are its packed, base-filled, filtered, titled and outcome-completed requirements, or the strength error. |
| Assembly.Label | src/index.ts:384-389 | Every row gets the normalised title and then the outcome callback's effect. |
| Assembly.PerspectiveFails | src/index.ts:360-364 | A perspective fails exactly when its given strength exceeds its variable count, with the strength error. |
| Assembly.PerspectiveTitles | src/index.ts:384-389 | When the outcome callback leaves the Perspective cell alone, every row of a perspective carries its normalised title. |
| Assembly.PerspectiveNotExcluded | src/index.ts:373-389 | When the title column and the callback do not touch the cells the exclusions mention, no row of a perspective is excluded. |
| Assembly.PerspectiveCoverage | src/index.ts:368-373 | Before filtering, a perspective's array covers every requirement with non-empty levels and has no more rows than requirements. |
| Assembly.CollectAll | src/index.ts:218-241 | The perspective loop concatenates each perspective's rows in order, or stops with the first error. |
| Assembly.CollectFails | src/index.ts:218-241 | Collecting fails exactly when some perspective's strength exceeds its variable count, with the strength error. |
| Assembly.CollectNotExcluded | src/index.ts:218-241 | Under the same conditions, no collected row is excluded. |
| Assembly.Number | src/index.ts:244-248 | The numbering loop writes the IDs "1", "2", ... in row order. |
| Assembly.IdsNumbered | src/index.ts:244-248 | Each row's ID reads back as its position plus one, and no two rows share an ID. |
| Assembly.GenerateTests | src/index.ts:201-249 | The run flattens the domain and the defaults, collects every perspective's rows and numbers them, or fails with the first error. |
| Assembly.GeneratedFails | src/index.ts:201-249 | A run fails exactly when the domain or the defaults define a path twice, or some perspective is too strong; a duplicate definition is reported first. |
| Assembly.GeneratedIds | src/index.ts:244-248 | A successful run numbers its rows from one in order with pairwise different IDs. |
| Assembly.GeneratedNotExcluded | src/index.ts:201-249 | When the exclusions do not mention the Perspective and ID columns and the callbacks keep the mentioned cells, no output row is excluded. |

## Left out

- Writing the tables to files and the table and Markdown renderers (`toTable`, `toMarkdown`, the file-output option): output formatting, not generation.
- The type-level machinery at the top of `src/index.ts` (path types, the typed `Perspective` and `Exclusion` shapes): it only constrains callers at compile time.
- Regular-expression semantics: a pattern condition is represented by the answer its `test` gives on a string; the statefulness of a global (`/g`) pattern's `lastIndex` between calls is not modelled.
- String leaves in the domain: the source also accepts a string as a level list and then iterates over its characters; the model takes level lists only, so such a leaf must be given as the list of its characters.
- Non-string, non-array values in the defaults: the source walks them as empty groups; the model's defaults tree has string leaves only.
- Inherited object keys: the source's duplicate check also fires on paths such as `constructor` that the empty result object inherits; the model treats every path as fresh.
- A factor path named `index`: the source spreads each row into an object with an `index` field, which such a path would overwrite; the model keeps the row's own index.
- Member order: object members are modelled in the order the object enumerates them, so the JavaScript rule that integer-like keys come first is assumed to be reflected in that order.
- Flatten.FlatDict.AddTree: the dictionary's contents after a duplicate is found are unspecified, because the source abandons the run by throwing.
- Requirements.GetRequirements: requires a resolved strength of at least one, because the source's subset recursion never ends for strength zero (an explicit `0`, or no variables and no strength).
- Assembly.GenerateTests: requires the domain and defaults to be objects, and every perspective's resolved strength to be at least one. This requirement also excludes runs that the source ends before it reaches a strength-zero perspective: a duplicate path in the domain or defaults, or an earlier perspective that is too strong. Assembly.GeneratedFails says nothing about those runs.
- Covering.PackCovers: guarantees coverage only of requirements whose levels are non-empty strings; Covering.EmptyLevelUncovered shows an empty level being lost.
- Assembly.PerspectiveCoverage: states coverage before the exclusion filter; after filtering, a requirement may only have been covered by a row the filter drops.
- Assembly.GeneratedNotExcluded: needs the callbacks to keep the cells the exclusions mention, because the source lets the callback edit any cell after filtering.
- Member order within a row: rows are unordered maps. In the source the cells of a returned object come in a fixed order: the requirement's cells, then cells added by later fills, then the base cells, then `Perspective`, then `ID`. That order shows in the rendered output and is not modelled.
- The `expect` callback is modelled by its effect on the row; any other side effect it has is outside the model.
- Number formatting of IDs of 10^21 and above (JavaScript switches to exponent notation); IDs are modelled as plain decimal text.
- Examples and the command-line wiring around `generateTests`: callers, not the generator.
