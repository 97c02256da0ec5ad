# import-linter: suppression of ignored imports

This project models the part of import-linter that decides which import edges a
contract check must not see (`src/importlinter/application/contract_utils.py`):

- **Inline ignores.** `GetInlineIgnoredLines` walks every module of the import graph, every
  module it imports directly and every occurrence record of that edge, and collects the
  `(importer, imported, line number)` of each record whose line text contains the inline-ignore
  keyword (`HasInlineIgnore`, plain substring containment). A record without line text reads as
  the empty line, so an empty keyword marks every record.
- **Ignore rules.** `RemoveIgnoredImports` resolves each ignore expression against the graph,
  collects the union of the matched edges and the set of expressions that match nothing, applies
  the alert policy to the latter (`HandleUnresolvedImportExpressions`: silent at `NONE`, one
  message per expression at `WARN`, a `MissingImport` failure naming the expression with the
  smallest string form at `ERROR`), and only then removes the matched edges from the graph. A
  failure therefore leaves the graph exactly as it was. The removal loop draws the edges from a
  set, so each matched edge is removed once, and its invariant keeps every edge still to be
  removed present in the graph.
- **Filtering.** `FilterIgnoredLines` keeps, in order, the occurrence records whose key is not
  among the inline-ignored lines.

The graph itself belongs to the grimp library. `Graph.ImportGraph` stands for it with just what
this code uses: the modules, the direct-import edges, the occurrence records of each edge, the
matching of an expression's string form (`pattern(s)` restricted to the edges present) and
the removal of one edge together with its records. An import expression is a value of a type
parameter `E` with its string form given by a function `str: E -> string`. The string order that
`sorted` uses is the code-point lexicographic order `Strings.LexLess` (Dafny's own `<` on
sequences is the proper-prefix relation, `Strings.ProperPrefixIsLexLess`).

Files: `domain.dfy` (values), `strings.dfy` (substring and string order), `graph.dfy` (the graph),
`contract_utils.dfy` (the modelled code and its properties), `scenarios.dfy` (clients on a
three-module graph: the scan finds the one marked line; at `WARN` the rule `"a -> b"` removes
its edge and `"x -> y"` yields one warning; at `ERROR` the call fails with the message naming
`"x -> y"` and both edges remain).

## Model

| member | source | states |
|---|---|---|
| ContractUtils.AlertLevelOf | src/importlinter/application/contract_utils.py:10-13 | a configured value selects the level whose value it is, and a string that is no level's value selects none |
| ContractUtils.HasInlineIgnore | src/importlinter/application/contract_utils.py:16-17 | true exactly when the keyword occurs somewhere in the line as a substring |
| ContractUtils.RecordWithoutTextIsEmptyLine | src/importlinter/application/contract_utils.py:32 | a record without line text is tested as the empty line: the empty keyword marks it, as it marks every record, and no other keyword does |
| ContractUtils.GetInlineIgnoredLines | src/importlinter/application/contract_utils.py:20-38 | `(a, b, n)` is returned exactly when `a -> b` is an edge with an occurrence record at line `n` whose text (empty when absent) contains the keyword; reads the graph and changes nothing |
| ContractUtils.FilterIgnoredLines | src/importlinter/application/contract_utils.py:93-101 | the result is a subsequence of the input, in the same order, and a record is in it exactly when it is in the input and its key is not ignored |
| ContractUtils.FilterKeepsMultiplicities | src/importlinter/application/contract_utils.py:97-101 | each record whose key is not ignored occurs in the result as often as in the input; a record whose key is ignored does not occur |
| ContractUtils.FilterWithoutIgnoredLinesIsIdentity | src/importlinter/application/contract_utils.py:93-101 | with no ignored line the filter returns its input unchanged |
| ContractUtils.FilterDistributes | src/importlinter/application/contract_utils.py:97-101 | the filter decides each record on its own: filtering a concatenation is concatenating the filtered parts |
| ContractUtils.FilterIsIdempotent | src/importlinter/application/contract_utils.py:93-101 | filtering an already filtered list by the same lines changes nothing |
| ContractUtils.FilterDropsInlineIgnoredRecords | src/importlinter/application/contract_utils.py:93-101 | filtering an edge's records by the scan's result drops a record exactly when some record of that edge at the same line carries the keyword |
| ContractUtils.BuildMissingImportMessage | src/importlinter/application/contract_utils.py:131-132 | the message is the fixed prefix, then the expression's string form, then a full stop |
| ContractUtils.MessageNamesItsExpression | src/importlinter/application/contract_utils.py:131-132 | the expression's string form can be read back from its message, so distinct forms give distinct messages |
| ContractUtils.HandleUnresolvedImportExpressions | src/importlinter/application/contract_utils.py:108-128 | at NONE, or with no unresolved expression, returns no warning; at WARN returns one message per unresolved expression in some order; at ERROR fails with the message of an expression no other's string form is smaller than |
| ContractUtils.OnlyErrorFails | src/importlinter/application/contract_utils.py:119-128 | the policy fails only at ERROR and only when some expression is unresolved |
| ContractUtils.WarningsAreTheMessages | src/importlinter/application/contract_utils.py:124-125 | at WARN there are as many warnings as unresolved expressions, each expression's message is among them and every warning is such a message |
| ContractUtils.ErrorMessageIsDetermined | src/importlinter/application/contract_utils.py:126-128 | at ERROR the failure is the same whichever smallest expression is picked: the sort's tie-break does not show |
| Strings.LeastIsUnique | src/importlinter/application/contract_utils.py:127 | two strings neither of which sorts before the other are equal, so the first string of a sort is unique |
| Strings.LexLessTransitive | src/importlinter/application/contract_utils.py:127 | the order the sort uses on string forms is transitive |
| ContractUtils.RemoveIgnoredImports | src/importlinter/application/contract_utils.py:41-90 | the result follows the alert policy for the expressions that matched nothing; on failure the edges and records are unchanged; otherwise the edges are the old edges minus every edge some expression matched, those edges' records are gone and nothing else changes; an absent list removes nothing |
| ContractUtils.SecondResolutionRemovesNothing | src/importlinter/application/contract_utils.py:60-88 | resolving the same expressions again on the graph a resolution left matches no edge, and every expression is then unresolved, so the edges stay as after one run |

## Left out

- The grimp graph's own workings (how modules and records are stored, how an import expression's
  pattern with wildcards is matched, how records are built) belong to another library. Matching is
  the function `pattern` of the expression's string form, restricted to the edges present;
  removing an edge is assumed to drop its occurrence records with it.
- `Module`, `DirectImport`, `ImportExpression` and `MissingImport` come from `importlinter.domain`,
  which is not part of this model: modules are strings, direct imports pairs of them, an
  expression an arbitrary value with a string form, and raising `MissingImport` a `Failure` result.
- HandleUnresolvedImportExpressions: the Python function is pure, but it iterates a set, whose
  order Python does not define; the model is a method that picks elements one at a time, and its
  contract promises the warnings of the WARN branch in no particular order. The code does not sort
  them, so no sorted order is claimed.
- RemoveIgnoredImports: the docstring speaks of raising for "the first one encountered"; the code
  raises for the expression whose string form sorts first, and that is what is modelled.
- GetInlineIgnoredLines: that the scan leaves the graph alone is a consequence of the method having
  no `modifies` clause, and that repeated scans of one graph agree follows from its postcondition
  fixing the result; neither is a separate member.
- Formatting the message is string concatenation with the expression's string form; Python's
  `str()` of an expression is the given function `str`.
