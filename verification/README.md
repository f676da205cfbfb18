# A CSS-like selector engine, modelled in Dafny

`qualifier/qualifier.py` answers `query_selector_all(root, "div#topDiv.container, p")`.
It returns every node of a tree, root included, that some clause of a comma-separated
selector list matches. The nodes come back in pre-order. The code has two stages, and
the model follows both.

- **Parsing.** `Selector.from_str` scans one clause left to right. It keeps a mode
  (`Tag`, `Id` or `Class`) and a character accumulator. At every `.` or `#`,
  `update_by_mode` flushes the accumulator into the field that the current mode
  selects, and the scan switches mode. A last flush happens at the end of the clause.
  `Selectors.from_str` splits the list on `,`, strips each piece and parses it.
- **Matching and walking.** `Selector.match_node` ANDs a tag check, an id check and
  a class-subset check. `Selectors.match_node` ORs its members. `verify_node` visits
  a node and then its children, appending every match to the caller's list.

The files, one module each:

- `lists.dfy` (`Lists`): the shared, mutable Python list (`append`, `clear`).
- `text.dfy` (`Text`): `str.strip()` and `str.split(sep)` with their partner `join`.
- `parsing.dfy` (`SelectorParsing`): the selector value, the flush, and the parse as
  a pure function. The clause is cut into *runs*, the stretches between separators.
  The parse flushes the runs in order.
- `selector.dfy` (`SelectorObject`): the `Selector` class as the source runs it. Its
  fields are updated in place, and `from_str` is a loop proved equal to the pure parse.
- `matching.dfy` (`Matching`): `match_node`, class tokens, the selector list and `any`.
- `traversal.dfy` (`Traversal`): `verify_node` as a recursive method appending to a
  shared list, proved equal to a filter of the pre-order walk. Also `query_selector_all`.
- `scenarios.dfy` (`Scenarios`): the docstring's selector table worked through the model.
  Tags, ids and classes are arbitrary names, not fixed strings.

## Model

| member | source | states |
|---|---|---|
| Lists.MutableList.constructor | qualifier/qualifier.py:53 | `[]`: a new list is empty (the accumulator here, the result list at line 135) |
| Lists.MutableList.Append | qualifier/qualifier.py:64 | `list.append`: the item goes at the end, and nothing else changes |
| Lists.MutableList.Clear | qualifier/qualifier.py:40 | `list.clear`: the list is empty afterwards |
| SelectorParsing.Flush | qualifier/qualifier.py:35-47 | An empty accumulator leaves the selector unchanged. A non-empty one overwrites `id_` in ID mode, adds itself to `klass` in CLASS mode, and overwrites `tag` in TAG mode. The other fields are unchanged, and classes are never removed |
| SelectorObject.Selector.constructor | qualifier/qualifier.py:31-33 | A fresh selector has an empty id, no classes and an empty tag |
| SelectorObject.Selector.UpdateByMode | qualifier/qualifier.py:35-47 | The object's new value is the flush of its old value with the old accumulator, and the accumulator is empty afterwards |
| SelectorObject.Selector.FromStr | qualifier/qualifier.py:50-68 | The scan loop, including the skip on `.` and `#` and the final flush, returns exactly `Parse(selector)`. Its invariant ties the object, mode and accumulator to the runs of the prefix read so far |
| SelectorParsing.RunsWellFormed | qualifier/qualifier.py:52-64 | The runs of any clause are well formed: the first is in TAG mode, every later run is in ID or CLASS mode, and no run's text contains `.` or `#` |
| SelectorParsing.StepWellFormed | qualifier/qualifier.py:54-64 | One character of the scan keeps the runs well formed |
| SelectorParsing.RunsRoundTrip | qualifier/qualifier.py:54-64 | Writing the runs back with their separators gives the clause: the scan drops no character |
| SelectorParsing.UnrunRoundTrip | qualifier/qualifier.py:54-64 | Scanning the text of well-formed runs gives back those runs |
| SelectorParsing.ApplyRunsFields | qualifier/qualifier.py:35-47 | Flushing runs in order yields: as id, the last non-empty ID run; as classes, the set of non-empty CLASS runs; as tag, the last non-empty TAG run |
| SelectorParsing.ParseFields | qualifier/qualifier.py:50-68 | The parsed selector field by field. Repeated `#` runs keep only the last id, class runs accumulate, and the tag is the text before the first separator |
| SelectorParsing.ParseOfRuns | qualifier/qualifier.py:50-68 | Parsing the text of well-formed runs flushes exactly those runs, and gives the same field-by-field reading |
| SelectorParsing.Parse | qualifier/qualifier.py:50-68 | `Selector.from_str` as a pure function: the clause's runs flushed in order into the universal selector. For every input, `klass` has no empty string, and no `.` or `#` occurs in the id, the tag or any class |
| SelectorParsing.ParseTag | qualifier/qualifier.py:50-68 | The tag is the longest prefix of the clause without `.` or `#` |
| SelectorParsing.UnrunHead | qualifier/qualifier.py:54-64 | The first run is a prefix of the clause, followed by a separator or by the end |
| SelectorParsing.ParseNoSeparator | qualifier/qualifier.py:50-68 | A clause without separators parses to tag = clause, with an empty id and no classes |
| SelectorParsing.ParseTrailingSeparator | qualifier/qualifier.py:35-37 | A trailing `.` or `#` opens an empty run, and flushing it is a no-op: `s.` and `s#` parse like `s` |
| SelectorParsing.ParseThreeRuns | qualifier/qualifier.py:50-68 | A clause of a tag run and two separator-introduced runs parses to the three flushes in order |
| Text.TrimStart | qualifier/qualifier.py:84 | Leading whitespace is dropped. The result is a suffix that starts with a non-space, and everything cut off is whitespace |
| Text.TrimEnd | qualifier/qualifier.py:84 | Trailing whitespace is dropped. The result is a prefix that ends with a non-space, and everything cut off is whitespace |
| Text.Strip | qualifier/qualifier.py:84 | `str.strip()`: the result neither starts nor ends with whitespace |
| Text.StripIsInfix | qualifier/qualifier.py:84 | `strip` keeps an infix of the string and cuts off only whitespace on either side |
| Text.StripKeepsOut | qualifier/qualifier.py:84 | `strip` never introduces a character, so a stripped piece of a `split(" ")` has no space |
| Text.StripAllSpace | qualifier/qualifier.py:109 | An all-whitespace piece strips to the empty string |
| Text.StripUnpadded | qualifier/qualifier.py:109 | A piece with no whitespace at its ends is left unchanged |
| Text.StripLeadingSpaces | qualifier/qualifier.py:109 | Whitespace in front of an unpadded word strips off, leaving the word |
| Text.TrimStartPadded | qualifier/qualifier.py:109 | Leading whitespace in front of a word that starts with a non-space trims to the word |
| Text.Split | qualifier/qualifier.py:106 | `str.split(sep)` gives one piece more than there are separators, and no piece contains the separator |
| Text.JoinSplit | qualifier/qualifier.py:106 | Joining the pieces of a split with the separator gives back the string |
| Text.SplitJoin | qualifier/qualifier.py:106 | Splitting a join of at least one separator-free piece gives back the pieces, empty pieces included |
| Text.JoinAppend | qualifier/qualifier.py:106 | Joining two lists of pieces is joining each and putting a separator between them |
| Text.SplitNoSeparator | qualifier/qualifier.py:106 | A string without the separator splits into itself alone |
| Text.SplitAppend | qualifier/qualifier.py:106 | Splitting at one separator splits the two sides independently and concatenates the pieces |
| Matching.MatchSelector | qualifier/qualifier.py:70-89 | True iff all three hold: the tag is empty or equals the node's tag; the id is empty or the node has an `id` attribute equal to it; every required class is among the node's class tokens |
| Matching.UniversalMatchesAll | qualifier/qualifier.py:70-89 | A selector with all three fields empty matches every node |
| Matching.ClassTokensOf | qualifier/qualifier.py:81-86 | The `class_set` of a class value: an empty value has no tokens, and every token is non-empty, has no space, and does not start or end with whitespace |
| Matching.ClassTokens | qualifier/qualifier.py:81-86 | A node without a `class` attribute has no class tokens, as `get("class", "")` gives the empty string |
| Matching.Get | qualifier/qualifier.py:76 | `attributes.get("id")`: a value exactly when the key is present, and then the attribute's value; otherwise `None` |
| Matching.ClassTokensOfJoin | qualifier/qualifier.py:81-86 | Take a class value made of words joined by single spaces, where empty words stand for extra spaces. Its tokens are exactly the non-empty words |
| Matching.TokensOfUnpadded | qualifier/qualifier.py:82-86 | Unpadded pieces strip to themselves, so the tokens are the non-empty pieces |
| Matching.ClassTokensTabIsNotSeparator | qualifier/qualifier.py:81 | Splitting on `" "` only: `a<TAB>b` is one class token, not two |
| Matching.SelectorsFromStr | qualifier/qualifier.py:105-110 | A list with n commas yields n + 1 selectors |
| Matching.ParseEach | qualifier/qualifier.py:107-110 | One selector per piece, in piece order |
| Matching.SelectorsAppend | qualifier/qualifier.py:105-110 | A comma splits the list into two halves that are parsed independently, in input order |
| Matching.BlankPieceIsUniversal | qualifier/qualifier.py:105-110 | An empty or all-whitespace piece yields the match-all selector |
| Matching.EmptySelectorList | qualifier/qualifier.py:105-110 | The empty string is a list of one match-all selector |
| Matching.TrailingComma | qualifier/qualifier.py:105-110 | A trailing comma appends a match-all selector |
| Matching.MatchesAny | qualifier/qualifier.py:112-116 | True iff some member of the list matches the node |
| Matching.MatchesAnyAppend | qualifier/qualifier.py:112-116 | Matching a concatenated list is the OR of matching each part |
| Traversal.Preorder | qualifier/qualifier.py:118-128 | The walk of a subtree starts at its root |
| Traversal.PreorderSize | qualifier/qualifier.py:127-128 | The walk has one entry per node of the tree: each node is visited once |
| Traversal.Filter | qualifier/qualifier.py:124-125 | The kept nodes are never more than the visited ones, and each one occurs in the walk and matches |
| Traversal.FilterAppend | qualifier/qualifier.py:124-128 | Filtering distributes over concatenation, keeping order |
| Traversal.FilterSnoc | qualifier/qualifier.py:124-125 | Visiting one more node appends it exactly when it matches |
| Traversal.FilterMembership | qualifier/qualifier.py:124-125 | A node is kept iff it is visited and matches |
| Traversal.FilterKeepsAll | qualifier/qualifier.py:124-125 | When every visited node matches, all are kept, in order |
| Traversal.VisitedStep | qualifier/qualifier.py:127-128 | Handling one more child appends exactly that child's filtered subtree |
| Traversal.VerifyNode | qualifier/qualifier.py:118-128 | The shared list grows by exactly the matching nodes of the subtree, in pre-order, after what it held before |
| Traversal.QuerySelectorAll | qualifier/qualifier.py:130-142 | Returns the nodes of the pre-order walk, root included, that the parsed list matches, in walk order |
| Traversal.QueryMembership | qualifier/qualifier.py:130-142 | A node is in the result iff it is in the tree and some clause matches it |
| Traversal.QueryBound | qualifier/qualifier.py:130-142 | The result is never longer than the number of nodes in the tree |
| Traversal.QueryWithUniversal | qualifier/qualifier.py:130-142 | A list containing a match-all clause, such as one left by a trailing comma, returns the whole walk |
| Traversal.QueryEmptySelector | qualifier/qualifier.py:130-142 | The selector `""` returns every node of the tree in pre-order |
| Scenarios.OrderIndependence | qualifier/qualifier.py:27-28 | `tag.class#id` and `tag#id.class` parse to the same selector, with that tag, that id and that single class |
| Scenarios.ClassesAccumulate | qualifier/qualifier.py:44-45 | `.a.b` requires the classes `a` and `b` and nothing else |
| Scenarios.LastIdWins | qualifier/qualifier.py:42-43 | For `#a#b`, the later id `b` wins |
| Scenarios.TrailingDots | qualifier/qualifier.py:35-37 | `div`, `div.` and `div..` all parse to the tag alone, with no empty class |
| Scenarios.ClassSelectorMatchesSuperset | qualifier/qualifier.py:81-88 | `.a.b` matches a node with `class="a b c"` |
| Scenarios.ClassSelectorIgnoresExtraSpaces | qualifier/qualifier.py:81-88 | `.a.b` matches a node with `class="a   b"` |
| Scenarios.ClassSelectorNeedsEveryClass | qualifier/qualifier.py:87-88 | `.a.b` does not match a node with `class="a"` |
| Scenarios.TwoTagList | qualifier/qualifier.py:105-110 | `t1, t2` (such as `div, p`) is the list of the two tag selectors; the space after the comma is stripped |
| Scenarios.TwoTagListMatches | qualifier/qualifier.py:112-116 | `t1, t2` matches exactly the nodes tagged `t1` or `t2` |
| Scenarios.QueryFollowsTreeOrder | qualifier/qualifier.py:118-142 | Results follow tree order, not clause order. With a `t2` leaf before a `t1` leaf, `t1, t2` returns the two children in tree order |

## Left out

- Logging (qualifier/qualifier.py:10, 67, 91-97, 141) is left out. It only emits diagnostics and has no effect on any result.
- The `node` module imported at qualifier/qualifier.py:7 is not part of this model. A node is a value with a tag, an attribute map and an ordered sequence of children.
- Results are sequences of node values, not of Python object references. Two equal subtrees at different places in the tree cannot be told apart in the model. Aliasing between nodes is not represented.
- Python's recursion limit on very deep trees is not modelled. `VerifyNode` recurses on any finite tree.
- `typing` and `dataclass` mechanics (generated `__init__`, `__repr__`, `__eq__`) are not modelled. The constructor models only the three field defaults.
- Splitting of class values: the code splits on the single character `" "` (qualifier/qualifier.py:81), and `strip` then removes whitespace at the ends of each piece (line 84). A tab or newline between two names therefore stays inside one token; see `Matching.ClassTokensTabIsNotSeparator`.
- `Text.IsSpace` lists the code points that Python's `str.isspace` accepts. `str.strip` and `str.split` are modelled only for the no-argument strip and a one-character separator, the only forms the code uses.
