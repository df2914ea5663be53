# Calculator: The Game — solver core in Dafny

A model of the solver behind the "Calculator: The Game" helper page (`solver.js`). The
player types one calculator button per line ("+3", "x2", "1", "<<", "1=>2", "x^2",
"²", "+/-", "reverse"), a start value, a number of moves and a goal. The solver:

- compiles each line into a button: an ordered table of recognisers, the first match
  wins, and lines that match none are dropped;
- runs a breadth-first search from the start value, pressing every button on every
  value that still has moves left;
- records a graph of nodes (value and moves left) and labelled edges, each edge
  marked forward when it leads one level down;
- marks the goal value's node;
- reads off a tree of forward edges (children sorted by value, a node flagged as a
  goal when a goal lies below it) and a Graphviz export (forward edges, and one rank
  per moves-left level).

Modules, in dependency order:

- `Wrappers`: `Option`.
- `Text`: JavaScript's `String.prototype.trim`, the decimal text of an integer, and
  `parseInt(…, 10)` on the texts the solver builds.
- `Operations`: the eight operations behind the nine patterns as the `Op` datatype
  (`x^k` and the superscript powers are both `Power`), and what each does to a
  value (`Apply`; `None` where the JavaScript result is not an integer).
- `Grammar`: `parse_single_operation` and `parse_operations`. Each recogniser is
  hand-written after its regular expression. Operations are rendered back to button
  text, and every rendering is proved to parse back to itself.
- `Graphs`: `map_get_or_set`, `Node`, `Edge` and the class `Graph` with its node list,
  node map and moves-left groups.
- `Search`: what one press of the buttons does from a value, and the expansion of one
  node as imperative code over a `Graph`.
- `BreadthFirst`: the search loop, its termination measure, soundness and completeness.
- `Views`: the stable sort of a node's forward edges, the solution tree of
  `createTreeFromGraph`/`createSubtreeElement`, and the data of `explored_nodes_to_dot`.
- `Solver`: `do_it` without its page.

Where the page reads the operations text, the start value, the budget and the goal,
the model takes them as parameters.

## Model

| member | source | states |
|---|---|---|
| Text.TrimStartFacts | solver.js:156 | the trimmed-start text is a suffix of the input, every dropped character is white space, and what remains does not start with white space |
| Text.TrimEndFacts | solver.js:156 | the trimmed-end text is a prefix of the input, every dropped character is white space, and what remains does not end with white space |
| Text.TrimSlice | solver.js:156 | `trim` returns a contiguous slice of its input |
| Text.TrimDropsSpace | solver.js:156 | everything `trim` drops before and after that slice is white space |
| Text.TrimEnds | solver.js:156 | a trimmed text is empty or neither begins nor ends with white space |
| Text.TrimOfSpaceFree | solver.js:156 | `trim` leaves a text unchanged when it neither begins nor ends with white space |
| Text.TrimIdempotent | solver.js:172 | trimming twice is trimming once (lines are trimmed at 172 and again at 156) |
| Text.NatText | solver.js:148 | the decimal text of a natural number is a non-empty digit string, denotes the number, and has no leading zero |
| Text.NatTextOfValue | solver.js:148-150 | a digit string without a leading zero is the decimal text of its own value |
| Text.DigitPrefix | solver.js:89 | `parseInt` reads the longest run of leading digits, stopping at the first non-digit |
| Text.ParseDigits | solver.js:150 | `parseInt` of a non-empty digit string, such as the reversed digits `r`, is its decimal value |
| Text.ParseNegatedDigits | solver.js:89 | `parseInt` of a minus sign followed by digits, such as a negative value's text with digits appended, is the negated value |
| Text.ParseIntText | solver.js:89 | `parseInt` of an integer's text (`value + ''`) gives the integer back |
| Text.ParseIntTextDigitByDigit | solver.js:89 | appending one more digit to an integer's text multiplies what `parseInt` reads by ten, then adds the digit (subtracts it for a negative value) |
| Operations.TruncRem | solver.js:99 | JavaScript's `%` by a positive divisor: the remainder is smaller than the divisor, takes the dividend's sign, and leaves a multiple of the divisor with the quotient rounded toward zero |
| Operations.AddSubInverse | solver.js:63-70 | pressing `+n` then `-n` returns to the value |
| Operations.DivisionIsExact | solver.js:71-84 | `/n` gives an integer `q` exactly when `n` is not zero and `q * n` is the value; every other quotient is not an integer and the search skips it (line 192) |
| Operations.DivideUndoesMultiply | solver.js:71-84 | for a non-zero `n`, `xn` then `/n` returns to the value |
| Operations.AppendNothing | solver.js:85-91 | appending no digits leaves the value unchanged |
| Operations.AppendDigitByDigit | solver.js:85-91 | appending digits always gives an integer; one more digit gives ten times the previous result plus the digit, or minus the digit for a negative value |
| Operations.AppendOneDigit | solver.js:85-91 | appending one digit to any value gives ten times the value plus the digit, or minus the digit for a negative value |
| Operations.BackspaceDropsLastDigit | solver.js:92-101 | backspace is division by ten rounded toward zero: a one-digit value becomes 0, and otherwise the result's text is the value's text without its last character |
| Operations.BackspaceUndoesAppend | solver.js:85-101 | backspace undoes appending one digit, for negative values too |
| Operations.ReplaceAllSame | solver.js:106-107 | a global replacement of a text by itself changes nothing |
| Operations.ReplaceAllAbsent | solver.js:106-107 | a global replacement of a non-empty text that does not occur leaves the text unchanged |
| Operations.SubstChar | solver.js:106-107 | substituting a text for one character: the character is gone when the substitute does not contain it, and every other character comes from the input or the substitute |
| Operations.ReplaceAllChar | solver.js:106-107 | replacing a one-character pattern globally is substituting every occurrence of that character, character by character |
| Operations.ReplaceDigitRemovesAll | solver.js:106-107 | after replacing a one-digit pattern by a text without that digit, the digit no longer occurs |
| Operations.ReplaceMissing | solver.js:102-109 | a `from=>to` button whose `from` does not occur in the value's text leaves the value unchanged |
| Operations.ReplaceBySelf | solver.js:102-109 | the button `a=>a` leaves every value unchanged |
| Operations.PowerComposes | solver.js:110-117 | raising to `x` and then to `y` is raising to `x * y` |
| Operations.NegateInvolution | solver.js:135-141 | pressing `+/-` twice returns to the value |
| Operations.ReversedTwice | solver.js:149 | reversing the characters twice gives the text back |
| Operations.ReverseDigitsTwice | solver.js:146-151 | the digits of a natural number whose last digit is not 0, reversed and read, are positive, and reversing and reading those gives the number back |
| Operations.ReverseInvolution | solver.js:142-153 | pressing `reverse` twice returns to any value whose last digit is not 0 |
| Operations.ReverseKeepsSign | solver.js:146-151 | `reverse` always gives an integer, negative exactly when the value is and zero exactly when the value is |
| Operations.ReverseDropsZeros | solver.js:142-153 | trailing zeros are lost: 120 reverses to 21 and -120 to -21, so `reverse` is not an involution on them |
| Grammar.FirstMatchIsFirst | solver.js:157-162 | no button exactly when no pattern matches; otherwise the button comes from the first pattern that matches, carries its name, and is labelled with the text |
| Grammar.LowerAscii | solver.js:143 | the case-insensitive `reverse` pattern: upper-case ASCII letters are read as their lower-case letters, every other character as itself |
| Grammar.ParseSingleTrims | solver.js:156 | a line is recognised as its trimmed text is, and a button is labelled with the trimmed text |
| Grammar.AddSubReads | solver.js:64-68 | a sign followed by digits is an `addsub` button that adds the signed number |
| Grammar.MulDivReads | solver.js:72-79 | `x`, `X`, `*` or `/` followed by a (possibly negative) number is a `muldiv` button multiplying, or dividing for `/`, by that number, and not an `addsub` button |
| Grammar.ReplaceReads | solver.js:103-107 | two digit strings around `=>` make a `replace` button from the first to the second |
| Grammar.MatchesWellFormed | solver.js:62-154 | every pattern builds an operation of its own category, with a one-digit exponent and digit-string operands |
| Grammar.CompiledButtons | solver.js:156-160 | a compiled button holds a well-formed operation of its own category and is labelled with the trimmed line, never blank |
| Grammar.RenderAddSub | solver.js:63-70 | the text of any `addsub` operation parses back to that operation |
| Grammar.RenderMulDiv | solver.js:71-84 | the text of any `muldiv` operation parses back to that operation |
| Grammar.RenderAppend | solver.js:85-91 | a digit string parses as appending those digits |
| Grammar.RenderBackspace | solver.js:92-101 | `<` parses as backspace |
| Grammar.RenderReplace | solver.js:102-109 | `f=>t` parses as replacing `f` by `t` |
| Grammar.RenderPower | solver.js:110-117 | `x^k` parses as raising to `k`, for every one-digit `k` |
| Grammar.RenderNegate | solver.js:135-141 | `+/-` parses as a sign change and is matched by no earlier pattern |
| Grammar.RenderReverse | solver.js:142-153 | `r` parses as `reverse` and is matched by no earlier pattern |
| Grammar.ParseRender | solver.js:61-166 | every well-formed operation has a text that parses back to exactly that operation, with its category |
| Grammar.ParseSingleOperation | solver.js:156-165 | the loop over the patterns returns what the first matching pattern builds from the trimmed line, or nothing |
| Grammar.BreakIndex | solver.js:169-170 | the first line break of a text: none before it, and it is one when it is not the end |
| Grammar.SplitLinesAt | solver.js:169-170 | splitting a text at a break is splitting each side and joining the results |
| Grammar.SplitLinesHaveNoBreaks | solver.js:169-170 | no piece of the split contains a line break |
| Grammar.SplitLinesOfLine | solver.js:169-170 | a text without breaks is a single piece |
| Grammar.ParseLinesAppend | solver.js:171-181 | compiling lines distributes over joining lists of lines |
| Grammar.ParseOperationsJoin | solver.js:168-182 | the buttons of two texts joined by a newline are the buttons of the first followed by those of the second |
| Grammar.ParseLinesMembers | solver.js:171-181 | a button is in the result exactly when some line, trimmed and non-blank, compiles to it |
| Grammar.ParseOperationsButtons | solver.js:168-182 | every button of the text holds a well-formed operation of its own category, and its label is non-empty, trimmed and free of line breaks |
| Grammar.ParseOperationsOfRender | solver.js:168-182 | the text of one operation compiles to exactly one button for that operation |
| Grammar.ParseRenderLines | solver.js:168-182 | operations written one per line compile back to the same operations, in order |
| Grammar.BackspaceExample | solver.js:93 | `<<` is a backspace button |
| Grammar.BackspaceValueExample | solver.js:96-99 | backspace takes -97 to -9 |
| Grammar.ReplaceExample | solver.js:103 | `3=>5` replaces 3 by 5 |
| Grammar.ReplaceValueExample | solver.js:106-107 | `3=>5` takes 13 to 15 |
| Grammar.SquareExample | solver.js:119-131 | `²` is a power button with exponent 2 |
| Grammar.SquareValueExample | solver.js:132 | `²` takes 4 to 16 |
| Graphs.Find | solver.js:4 | a found group has the looked-up moves-left count |
| Graphs.FindMisses | solver.js:3-7 | the lookup misses exactly when no group has that count |
| Graphs.GetOrSet | solver.js:3-7 | `map_get_or_set` returns a group with the requested count |
| Graphs.GetOrSetAdds | solver.js:3-7 | the groups are unchanged when the count is present; otherwise an empty group is added at the end |
| Graphs.PlaceNew | solver.js:34 | a node with a new moves-left count starts a new group at the end |
| Graphs.PlaceExisting | solver.js:34 | a node with a known count is appended to that group and nothing else changes |
| Graphs.PlaceKeepsKeysDistinct | solver.js:34 | no two groups share a moves-left count |
| Graphs.FirstAt | solver.js:3-7 | the position of the first listed node with a count: that node has the count and none before it does, or the list's length when there is none |
| Graphs.FirstAtOccurs | solver.js:3-7 | a count has a first position inside the list exactly when its level is non-empty |
| Graphs.AtLevelHead | solver.js:34 | a non-empty level's group starts with the first listed node of that count |
| Graphs.PlaceKeepsOrder | solver.js:28-35 | after `add_node`, the groups are still ordered by the first position of their counts in the node list, a new count's group coming last |
| Graphs.PlaceKeepsGroups | solver.js:28-35 | after `add_node`, the groups have distinct counts, each lists exactly the nodes with its count in list order, every count of a listed node has a group, and the groups are ordered by the first position of their counts in the list (insertion order of the JavaScript `Map`) |
| Graphs.GroupsDescend | solver.js:28-35 | over a node list whose moves left never increase, the groups have strictly decreasing counts, the first being the count of the first listed node |
| Graphs.BucketsOfGroups | solver.js:28-35 | the grouping built by `add_node` over any node list meets that description, including the order of the groups |
| Graphs.AtLevelMembers | solver.js:34 | a value is in a level's group exactly when it is a listed node with that count |
| Graphs.GroupsFrame | solver.js:286-290 | changing edges or goal flags leaves the groups valid |
| Graphs.ConsistentSingle | solver.js:15-21 | a one-node graph is consistent |
| Graphs.ConsistentAdd | solver.js:28-35 | adding a node with a new value keeps list, map and groups consistent |
| Graphs.ConsistentUpdate | solver.js:198-202 | replacing a node by one with the same value and count keeps the graph consistent |
| Graphs.Graph.constructor | solver.js:15-21 | the new graph holds just the start node, in the list, the map and its own group |
| Graphs.Graph.GetNode | solver.js:23-26 | the node with that value, or nothing exactly when there is none |
| Graphs.Graph.AddNode | solver.js:28-35 | a new value is appended to the list, entered in the map and placed in its group; a value already present changes nothing |
| Graphs.Graph.PushEdge | solver.js:198-202 | the edge is appended to that node's edges and nothing else changes |
| Graphs.Graph.MarkGoal | solver.js:286-290 | the goal value's node, if any, gets its goal flag and nothing else changes |
| Search.SuccessorIsMove | solver.js:190-192 | every integer result of a button is one press away |
| Search.MoveIsSuccessor | solver.js:190-192 | every value one press away is among the integer results of the buttons |
| Search.Record | solver.js:193-202 | an unseen result becomes a node one level down, appended to the list; the pressed node gains an edge labelled with the button, forward exactly when the destination has fewer moves left |
| Search.NewValuesMembers | solver.js:193-196 | the values queued by one expansion are distinct, and are exactly the results not already nodes |
| Search.NewValuesInOrder | solver.js:191-196 | the values queued by one expansion come in the order of the buttons that first produced them |
| Search.ApplyButton | solver.js:191-202 | pressing one more button extends the expansion by that button's result, if it is an integer; the discovered values grow by that result exactly when it is an integer and not yet a node |
| Search.Expand | solver.js:190-203 | the node gains one edge per integer result, in button order; exactly the new values are discovered, each one press away, at most one per button, in the order of the first button producing each; no other node changes |
| BreadthFirst.SearchStarts | solver.js:185-186 | the graph of the start node and the queue holding it satisfy the loop invariant |
| BreadthFirst.SkipStep | solver.js:188-189 | dropping a node with no moves left keeps the invariant and lowers the measure |
| BreadthFirst.FrontierStep | solver.js:188-196 | after an expansion, the queue still holds distinct, unexpanded nodes |
| BreadthFirst.LayeredStep | solver.js:188-196 | after an expansion, the queue still descends level by level, and nothing lies more than one level below its front |
| BreadthFirst.DoneStep | solver.js:188-203 | after an expansion, every node off the queue has all its edges, each at most one level down |
| BreadthFirst.ParentsStep | solver.js:193-196 | every discovered node has a parent one level up, one press away |
| BreadthFirst.ExpandStep | solver.js:187-203 | one expansion keeps the whole loop invariant |
| BreadthFirst.WeightStep | solver.js:187-203 | the loop ends: replacing the front by at most one new node per button, one level lower, lowers the measure |
| BreadthFirst.AllSound | solver.js:184-206 | every node is reached from the start by exactly its budget minus its moves left in presses |
| BreadthFirst.AllComplete | solver.js:184-206 | every value reachable in `n` presses within the budget is a node with at least budget minus `n` moves left |
| BreadthFirst.ExploredRelabel | solver.js:286-290 | setting goal flags keeps everything the search established |
| BreadthFirst.DescendStep | solver.js:193-196 | appending nodes one level below the front keeps the node list in non-increasing order of moves left |
| BreadthFirst.BreadthFirstSearch | solver.js:184-206 | a fresh graph rooted at the start; every node expanded, none a goal; soundness, completeness and non-negative budgets as above; the start is listed first and moves left never increase along the node list |
| Views.InsertSorted | solver.js:50-58 | inserting into a list sorted by destination keeps it sorted |
| Views.InsertPermutes | solver.js:50-58 | insertion adds exactly one edge |
| Views.SortByDestSorted | solver.js:50-58 | `sorted(…, edge => edge.dest)` orders edges by destination |
| Views.SortByDestPermutes | solver.js:50-58 | the sort keeps exactly the same edges, with multiplicity |
| Views.ForwardMembers | solver.js:265 | the filter keeps exactly the forward edges |
| Views.ChildrenMembers | solver.js:265 | a node's children are exactly its forward edges, sorted by destination |
| Views.SubtreeLeaf | solver.js:245-266 | a subtree is marked `leaf` exactly when its node has no forward edge |
| Views.SubtreeBeforeLeaves | solver.js:248-266 | a subtree is marked `before_leaves` exactly when its node has a forward edge and every forward edge leads to a node with none |
| Views.ForestShape | solver.js:266 | one child subtree per edge, in order, showing the edge's destination and labelled with its text |
| Views.SubtreeChildren | solver.js:264-268 | a subtree shows its node's value under the given tooltip, with one child per forward edge in order of destination |
| Views.ForwardPathSnoc | solver.js:265-266 | a forward path followed by a forward edge is a forward path |
| Views.GoalPathMarks | solver.js:253-255 | a subtree from which a goal node is reached along forward edges is marked as a goal |
| Views.GoalMarkHasPath | solver.js:231-255 | a subtree marked as a goal has a forward path to a goal node |
| Views.SubtreeGoal | solver.js:227-268 | a subtree is marked as a goal exactly when a goal node is reached from it along forward edges |
| Views.ForwardOutMembers | solver.js:211-214 | the lines of one node are exactly its forward edges |
| Views.ForwardEdgesMembers | solver.js:210-215 | the export lists exactly the forward edges of the listed nodes |
| Views.RanksShape | solver.js:216-222 | one rank per moves-left group, listing that group's values |
| Views.RanksInOrder | solver.js:216-222 | the ranks follow the groups' order: each rank starts with the first listed node of its count, and the ranks are ordered by where their counts first occur in the node list |
| Views.RanksPartition | solver.js:216-222 | the ranks are the levels of the node list: every node is in exactly one rank, the one of its own count |
| Views.NodeForwardEdges | solver.js:211-214 | the loop over a node's edges yields its forward edges |
| Views.DotEdges | solver.js:210-215 | the loop over the node list yields the forward edges of every node |
| Views.DotRanks | solver.js:216-222 | the loop over the groups yields the ranks |
| Solver.MoveIsApply | solver.js:190-192 | a compiled button takes `u` to `w` exactly when its operation applied to `u` gives the integer `w` |
| Solver.ExploredDescending | solver.js:193-202 | in a searched graph every forward edge goes to a node exactly one level lower down, never below zero, so the tree is finite |
| Solver.ForwardReachable | solver.js:263-271 | every node of a searched graph is reached from the start along forward edges |
| Solver.GoalFound | solver.js:284-290 | the goal has a node exactly when it is reachable from the start within the budget |
| Solver.MarkedOnce | solver.js:286-290 | after marking, exactly the goal's node is a goal, and budgets and edges are unchanged |
| Solver.TreeMarksGoal | solver.js:263-271 | when the goal node is reachable along forward edges, the root is a goal exactly when the goal is a node |
| Solver.TreeGoal | solver.js:263-296 | the root of the solution tree is a goal exactly when the goal is reachable within the budget |
| Solver.LevelsAfterMarking | solver.js:286-290 | marking the goal keeps the node list's level order; the groups then start at the budget and strictly decrease |
| Solver.GoalMarked | solver.js:284-290 | after marking, the search's guarantees hold, the goal is the only goal node, the tree is a goal exactly when the goal is reachable within the budget, and the level order of list and groups holds |
| Solver.Solve | solver.js:273-297 | a searched graph with only the goal marked; its tree is a goal exactly when the goal is reachable within the budget; plus the export's forward edges and ranks, the ranks ordered by where their counts first occur in the node list, each starting with that first node; the start is listed first, moves left never increase along the list, and the groups' counts strictly decrease from the budget |

## Left out

- The page: reading the inputs, writing the error list (line 164), the Graphviz text
  (only its edges and ranks are modelled), and the tree's DOM elements and CSS classes
  other than `goal`, `leaf` and `before_leaves`. Collapsing subtrees is not modelled.
- JavaScript numbers are modelled as unbounded integers. Precision loss above 2^53,
  `Infinity`, `NaN`, `-0`, and the exponential notation of very large values in
  `value + ''` are not modelled.
- `Operations.Apply`: a division whose quotient is not an integer, or a text that
  `parseInt` cannot read, gives `None`; the search skips it as line 192 does.
  `Math.pow` never overflows in the model.
- The regular expressions are not run by a regex engine. Each recogniser is
  hand-written to accept the same language, with `\s` as JavaScript's white-space
  class.
- `parseInt` is modelled on the texts the solver builds (an optional sign, then
  digits). Leading white space and non-decimal prefixes never reach it.
- Graph nodes are values in a map keyed by node value, not shared objects. The
  graph's `start_node` is kept as its value.
- `queue.shift()` is modelled as dropping the first element of a sequence; its cost is
  not modelled.
- `parse_operations` splits at every single line break instead of at runs of breaks.
  The empty pieces this adds are blank and are filtered out, so the buttons are the
  same.
- `CalculatorButton`'s closure is modelled as the `Op` datatype interpreted by
  `Apply`, and its `type` as the `kind` string.
- Graphs.Graph.AddNode: the source throws when the value is already present. The
  model returns `false` and changes nothing. The search never adds a present value.
- Views.SortByDestSorted: only sortedness and permutation are stated. That the sort
  is stable (edges with the same destination keep their order, as
  `Array.prototype.sort` guarantees) is not stated.
- Operations.ReverseInvolution: stated only for values whose last digit is not 0.
  `Operations.ReverseDropsZeros` shows why.
- BreadthFirst.BreadthFirstSearch: the start value, budget and goal are integers. The
  page's `valueAsNumber` may be `NaN` or fractional, and the model does not cover
  that.
