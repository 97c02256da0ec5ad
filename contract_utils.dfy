/** The import-suppression logic a contract check runs before it examines the graph:
    finding the import lines marked with an inline-ignore keyword, removing the edges
    that the configured ignore rules match (with a three-way policy for rules that
    match nothing), and filtering occurrence records by the inline-ignored lines.

    An import expression is any value of a type `E` together with its string form
    `str`; the graph resolves an expression through the string form only. */
module ContractUtils {
  import opened Domain
  import opened Strings
  import opened Graph

  /** How to handle an ignore rule that matches nothing. */
  datatype AlertLevel = NONE | WARN | ERROR
  {
    /** The value each level is configured by. */
    function Value(): (v: string)
      ensures v in {"none", "warn", "error"}
    {
      match this
      case NONE => "none"
      case WARN => "warn"
      case ERROR => "error"
    }
  }

  /** The level configured by `value`, if any. */
  function AlertLevelOf(value: string): (r: Option<AlertLevel>)
    ensures r.Some? ==> r.value.Value() == value
    ensures forall level: AlertLevel :: level.Value() == value ==> r == Some(level)
  {
    if value == "none" then Some(NONE)
    else if value == "warn" then Some(WARN)
    else if value == "error" then Some(ERROR)
    else None
  }

  // ---------------------------------------------------------------------------
  // Inline ignores

  /** Whether the line holds the keyword: plain substring containment. */
  function HasInlineIgnore(lineContents: string, keyword: string): (r: bool)
    ensures r <==> IsSubstring(keyword, lineContents)
    decreases |lineContents|
  {
    if |keyword| > |lineContents| then false
    else if lineContents[..|keyword|] == keyword then
      assert OccursAt(keyword, lineContents, 0);
      true
    else
      SubstringOfTail(keyword, lineContents);
      HasInlineIgnore(lineContents[1..], keyword)
  }

  /** A record without line text is tested as the empty line: the empty keyword marks
      it, as it marks every line, and no other keyword does. */
  lemma RecordWithoutTextIsEmptyLine(d: ImportDetail, keyword: string)
    ensures HasInlineIgnore(LineText(d), "")
    ensures d.lineContents.None? ==> (HasInlineIgnore(LineText(d), keyword) <==> keyword == "")
  {
    assert OccursAt("", LineText(d), 0);
  }

  /** The keys of the records in `ds` whose line holds the keyword. */
  ghost function MarkedKeys(ds: seq<ImportDetail>, keyword: string): set<LineKey>
  {
    set d | d in ds && IsSubstring(keyword, LineText(d)) :: Key(d)
  }

  lemma MarkedKeysExtend(ds: seq<ImportDetail>, i: nat, keyword: string)
    requires i < |ds|
    ensures MarkedKeys(ds[..i + 1], keyword)
         == MarkedKeys(ds[..i], keyword) + (if IsSubstring(keyword, LineText(ds[i])) then {Key(ds[i])} else {})
  {
    assert ds[..i + 1] == ds[..i] + [ds[i]];
  }

  /** The keys of the marked records of the edges in `es`. */
  ghost function MarkedKeysOfEdges(graph: ImportGraph, es: set<DirectImport>, keyword: string): set<LineKey>
    reads graph
  {
    set e, d | e in es && d in graph.GetImportDetails(e.importer, e.imported)
                 && IsSubstring(keyword, LineText(d)) :: Key(d)
  }

  lemma MarkedKeysOfEdgesAdd(graph: ImportGraph, es: set<DirectImport>, e: DirectImport, keyword: string)
    ensures MarkedKeysOfEdges(graph, es + {e}, keyword)
         == MarkedKeysOfEdges(graph, es, keyword) + MarkedKeys(graph.GetImportDetails(e.importer, e.imported), keyword)
  {
  }

  /** The set of (importer, imported, line number) of every occurrence record of every
      edge whose line holds the keyword. A record without line text counts as the
      empty line. */
  method GetInlineIgnoredLines(graph: ImportGraph, inlineIgnoreKeyword: string)
    returns (ignoredLines: set<LineKey>)
    requires graph.Valid()
    ensures forall a, b, n :: (a, b, n) in ignoredLines <==>
      && DirectImport(a, b) in graph.edges
      && exists d :: d in graph.GetImportDetails(a, b) && d.lineNumber == n
                     && IsSubstring(inlineIgnoreKeyword, LineText(d))
  {
    ignoredLines := {};
    ghost var done: set<DirectImport> := {};
    var pendingModules := graph.modules;
    while pendingModules != {}
      invariant pendingModules <= graph.modules
      invariant forall e :: e in done <==> e in graph.edges && e.importer !in pendingModules
      invariant ignoredLines == MarkedKeysOfEdges(graph, done, inlineIgnoreKeyword)
      decreases pendingModules
    {
      var importer :| importer in pendingModules;
      var pendingImported := graph.FindModulesDirectlyImportedBy(importer);
      while pendingImported != {}
        invariant pendingImported <= graph.FindModulesDirectlyImportedBy(importer)
        invariant forall e :: e in done <==>
          e in graph.edges && (e.importer !in pendingModules || (e.importer == importer && e.imported !in pendingImported))
        invariant ignoredLines == MarkedKeysOfEdges(graph, done, inlineIgnoreKeyword)
        decreases pendingImported
      {
        var imported :| imported in pendingImported;
        var importDetails := graph.GetImportDetails(importer, imported);
        ghost var before := ignoredLines;
        for i := 0 to |importDetails|
          invariant ignoredLines == before + MarkedKeys(importDetails[..i], inlineIgnoreKeyword)
        {
          var detail := importDetails[i];
          MarkedKeysExtend(importDetails, i, inlineIgnoreKeyword);
          if HasInlineIgnore(LineText(detail), inlineIgnoreKeyword) {
            ignoredLines := ignoredLines + {Key(detail)};
          }
        }
        assert importDetails[..|importDetails|] == importDetails;
        MarkedKeysOfEdgesAdd(graph, done, DirectImport(importer, imported), inlineIgnoreKeyword);
        done := done + {DirectImport(importer, imported)};
        pendingImported := pendingImported - {imported};
      }
      pendingModules := pendingModules - {importer};
    }
    assert done == graph.edges;
    MarkedKeysOfEdgesExact(graph, inlineIgnoreKeyword);
  }

  /** Over all edges of a well-formed graph, a key is marked exactly when a record of
      that very edge, at that line, holds the keyword. */
  lemma MarkedKeysOfEdgesExact(graph: ImportGraph, keyword: string)
    requires graph.Valid()
    ensures forall a, b, n :: (a, b, n) in MarkedKeysOfEdges(graph, graph.edges, keyword) <==>
      && DirectImport(a, b) in graph.edges
      && exists d :: d in graph.GetImportDetails(a, b) && d.lineNumber == n
                     && IsSubstring(keyword, LineText(d))
  {
    forall a, b, n | (a, b, n) in MarkedKeysOfEdges(graph, graph.edges, keyword)
      ensures DirectImport(a, b) in graph.edges
      ensures exists d :: d in graph.GetImportDetails(a, b) && d.lineNumber == n
                          && IsSubstring(keyword, LineText(d))
    {
      var e, d :| e in graph.edges && d in graph.GetImportDetails(e.importer, e.imported)
                  && IsSubstring(keyword, LineText(d)) && Key(d) == (a, b, n);
      assert e in graph.details;
      assert e == DirectImport(a, b);
    }
    forall a, b, n | && DirectImport(a, b) in graph.edges
                     && (exists d :: d in graph.GetImportDetails(a, b) && d.lineNumber == n
                                     && IsSubstring(keyword, LineText(d)))
      ensures (a, b, n) in MarkedKeysOfEdges(graph, graph.edges, keyword)
    {
      var d :| d in graph.GetImportDetails(a, b) && d.lineNumber == n && IsSubstring(keyword, LineText(d));
      assert DirectImport(a, b) in graph.details;
      assert Key(d) == (a, b, n);
    }
  }

  // ---------------------------------------------------------------------------
  // Filtering occurrence records

  /** `a` is obtained from `b` by deleting elements: a subsequence in the same order. */
  ghost predicate IsSubsequence<T>(a: seq<T>, b: seq<T>)
    decreases |b|
  {
    a == [] || (b != [] && ((a[0] == b[0] && IsSubsequence(a[1..], b[1..])) || IsSubsequence(a, b[1..])))
  }

  /** The records of `importDetails` whose key is not inline-ignored, in their order. */
  function FilterIgnoredLines(importDetails: seq<ImportDetail>, inlineIgnoredLines: set<LineKey>)
    : (r: seq<ImportDetail>)
    ensures IsSubsequence(r, importDetails)
    ensures forall d :: d in r <==> d in importDetails && Key(d) !in inlineIgnoredLines
  {
    if importDetails == [] then []
    else
      var head := importDetails[0];
      var rest := FilterIgnoredLines(importDetails[1..], inlineIgnoredLines);
      assert importDetails == [head] + importDetails[1..];
      if Key(head) in inlineIgnoredLines then rest else [head] + rest
  }

  // ---------------------------------------------------------------------------
  // Ignore rules

  const MissingImportPrefix := "No matches for ignored import "

  /** The message that names an ignore rule with string form `expression`. */
  function BuildMissingImportMessage(expression: string): (r: string)
    ensures |r| == |MissingImportPrefix| + |expression| + 1
    ensures r[..|MissingImportPrefix|] == MissingImportPrefix
    ensures r[|MissingImportPrefix|..|r| - 1] == expression
    ensures r[|r| - 1] == '.'
  {
    MissingImportPrefix + expression + "."
  }

  /** The string form of the rule a missing-import message names, if it is one. */
  function ExpressionOfMessage(message: string): (r: Option<string>)
    ensures r.Some? ==> BuildMissingImportMessage(r.value) == message
  {
    var n := |MissingImportPrefix|;
    if |message| >= n + 1 && message[..n] == MissingImportPrefix && message[|message| - 1] == '.' then
      var expression := message[n..|message| - 1];
      assert message == MissingImportPrefix + expression + ".";
      Some(expression)
    else None
  }

  /** A message names exactly one rule string: building and reading back agree. */
  lemma MessageNamesItsExpression(expression: string)
    ensures ExpressionOfMessage(BuildMissingImportMessage(expression)) == Some(expression)
  {
    var m := BuildMissingImportMessage(expression);
    assert m[..|MissingImportPrefix|] == MissingImportPrefix;
  }

  /** Each expression of the list may be matched against the graph: the edges all
      the expressions that match something select together. */
  ghost function ImportsToRemove<E>(
    edges: set<DirectImport>, pattern: string -> set<DirectImport>, expressions: seq<E>, str: E -> string)
    : set<DirectImport>
  {
    set e | e in edges && exists x :: x in expressions && e in pattern(str(x))
  }

  /** The expressions of the list that match no edge. */
  ghost function UnresolvedExpressions<E>(
    edges: set<DirectImport>, pattern: string -> set<DirectImport>, expressions: seq<E>, str: E -> string)
    : set<E>
  {
    set x | x in expressions && pattern(str(x)) * edges == {}
  }

  /** `order` lists every element of `s` once. */
  ghost predicate Enumerates<E(!new)>(order: seq<E>, s: set<E>)
  {
    && (forall x :: x in order <==> x in s)
    && (forall i, j :: 0 <= i < j < |order| ==> order[i] != order[j])
  }

  /** `warnings` holds the missing-import message of each element of `order`, in turn. */
  ghost predicate MessagesOf<E>(warnings: seq<string>, order: seq<E>, str: E -> string)
  {
    && |warnings| == |order|
    && forall i :: 0 <= i < |order| ==> warnings[i] == BuildMissingImportMessage(str(order[i]))
  }

  /** `warnings` holds one message per expression of `expressions`, in some order. */
  ghost predicate WarnsOfEach<E(!new)>(warnings: seq<string>, expressions: set<E>, str: E -> string)
  {
    exists order :: Enumerates(order, expressions) && MessagesOf(warnings, order, str)
  }

  /** `m` is an expression whose string form no other expression's is smaller than:
      the first of the set once sorted by string form. */
  ghost predicate IsLeastByStr<E>(m: E, expressions: set<E>, str: E -> string)
  {
    m in expressions && forall y :: y in expressions ==> !LexLess(str(y), str(m))
  }

  /** The alert policy for the unresolved expressions: silent at NONE, one message per
      expression at WARN, and at ERROR a failure naming the least expression. With no
      unresolved expression there is never an alert. */
  ghost predicate FollowsAlertPolicy<E(!new)>(
    r: Result<seq<string>, MissingImport>, unresolved: set<E>, level: AlertLevel, str: E -> string)
  {
    && (level == NONE ==> r == Success([]))
    && (unresolved == {} ==> r == Success([]))
    && (level == WARN ==> r.Success? && WarnsOfEach(r.value, unresolved, str))
    && (level == ERROR && unresolved != {} ==>
          r.Failure? && exists m :: IsLeastByStr(m, unresolved, str)
                                   && r.error == MissingImport(BuildMissingImportMessage(str(m))))
  }

  method HandleUnresolvedImportExpressions<E(==,!new)>(
    expressions: set<E>, alertLevel: AlertLevel, str: E -> string)
    returns (r: Result<seq<string>, MissingImport>)
    ensures FollowsAlertPolicy(r, expressions, alertLevel, str)
  {
    if alertLevel == NONE {
      return Success([]);
    }
    if expressions == {} {
      assert Enumerates([], expressions);
      return Success([]);
    }
    if alertLevel == WARN {
      var warnings: seq<string> := [];
      ghost var order: seq<E> := [];
      var pending := expressions;
      while pending != {}
        invariant pending <= expressions
        invariant Enumerates(order, expressions - pending)
        invariant MessagesOf(warnings, order, str)
        decreases pending
      {
        var x :| x in pending;
        warnings := warnings + [BuildMissingImportMessage(str(x))];
        order := order + [x];
        pending := pending - {x};
      }
      return Success(warnings);
    } else {
      var least :| least in expressions;
      var pending := expressions - {least};
      LexLessIrreflexive(str(least));
      while pending != {}
        invariant pending <= expressions
        invariant least in expressions && least !in pending
        invariant forall y :: y in expressions - pending ==> !LexLess(str(y), str(least))
        decreases pending
      {
        var x :| x in pending;
        LexLessIrreflexive(str(x));
        if LexLess(str(x), str(least)) {
          forall y | y in expressions - pending
            ensures !LexLess(str(y), str(x))
          {
            if LexLess(str(y), str(x)) {
              LexLessTransitive(str(y), str(x), str(least));
            }
          }
          least := x;
        }
        pending := pending - {x};
      }
      assert IsLeastByStr(least, expressions, str);
      return Failure(MissingImport(BuildMissingImportMessage(str(least))));
    }
  }

  /** The expressions a possibly absent list of ignore rules stands for. */
  function ExpressionsOf<E>(ignoreImports: Option<seq<E>>): (r: seq<E>)
    ensures ignoreImports.None? ==> r == []
    ensures ignoreImports.Some? ==> r == ignoreImports.value
  {
    match ignoreImports
    case None => []
    case Some(expressions) => expressions
  }

  /** Removes from the graph every edge that some ignore rule matches, after applying
      the alert policy to the rules that match nothing. A failure at ERROR happens
      before any edge is removed, so the graph is then left exactly as it was. */
  method RemoveIgnoredImports<E(==,!new)>(
    graph: ImportGraph, ignoreImports: Option<seq<E>>, unmatchedAlerting: AlertLevel, str: E -> string)
    returns (r: Result<seq<string>, MissingImport>)
    requires graph.Valid()
    modifies graph
    ensures graph.Valid() && graph.modules == old(graph.modules)
    ensures FollowsAlertPolicy(r, UnresolvedExpressions(old(graph.edges), graph.pattern, ExpressionsOf(ignoreImports), str),
                               unmatchedAlerting, str)
    ensures r.Failure? ==> graph.edges == old(graph.edges) && graph.details == old(graph.details)
    ensures r.Success? ==>
      var removed := ImportsToRemove(old(graph.edges), graph.pattern, ExpressionsOf(ignoreImports), str);
      && graph.edges == old(graph.edges) - removed
      && graph.details == old(graph.details) - removed
    ensures ignoreImports.None? ==> r == Success([]) && graph.edges == old(graph.edges)
  {
    var expressions := ExpressionsOf(ignoreImports);
    var importsToRemove: set<DirectImport> := {};
    var unresolvedExpressions: set<E> := {};
    for i := 0 to |expressions|
      invariant importsToRemove == ImportsToRemove(graph.edges, graph.pattern, expressions[..i], str)
      invariant unresolvedExpressions == UnresolvedExpressions(graph.edges, graph.pattern, expressions[..i], str)
    {
      assert expressions[..i + 1] == expressions[..i] + [expressions[i]];
      var matchedImports := graph.FindMatchingDirectImports(str(expressions[i]));
      if matchedImports != {} {
        importsToRemove := importsToRemove + matchedImports;
      } else {
        unresolvedExpressions := unresolvedExpressions + {expressions[i]};
      }
    }
    assert expressions[..|expressions|] == expressions;

    r := HandleUnresolvedImportExpressions(unresolvedExpressions, unmatchedAlerting, str);
    if r.Failure? {
      return;
    }

    var pending := importsToRemove;
    while pending != {}
      invariant graph.Valid() && graph.modules == old(graph.modules)
      invariant pending <= importsToRemove && pending <= graph.edges
      invariant graph.edges == old(graph.edges) - (importsToRemove - pending)
      invariant graph.details == old(graph.details) - (importsToRemove - pending)
      decreases pending
    {
      var importToRemove :| importToRemove in pending;
      graph.RemoveImport(importToRemove.importer, importToRemove.imported);
      pending := pending - {importToRemove};
    }
  }

  // ---------------------------------------------------------------------------
  // Properties of the ignore-rule resolution

  /** Rules that match nothing never raise except at ERROR. */
  lemma OnlyErrorFails<E(!new)>(
    r: Result<seq<string>, MissingImport>, unresolved: set<E>, level: AlertLevel, str: E -> string)
    requires FollowsAlertPolicy(r, unresolved, level, str)
    requires r.Failure?
    ensures level == ERROR && unresolved != {}
  {
  }

  /** At WARN the warnings are exactly the messages of the unresolved rules: one per
      rule, and nothing else. */
  lemma WarningsAreTheMessages<E(!new)>(
    r: Result<seq<string>, MissingImport>, unresolved: set<E>, str: E -> string)
    requires FollowsAlertPolicy(r, unresolved, WARN, str)
    ensures r.Success? && |r.value| == |unresolved|
    ensures forall x :: x in unresolved ==> BuildMissingImportMessage(str(x)) in r.value
    ensures forall w :: w in r.value ==> exists x :: x in unresolved && w == BuildMissingImportMessage(str(x))
  {
    var order :| Enumerates(order, unresolved) && MessagesOf(r.value, order, str);
    EnumerationSize(order, unresolved);
    forall x | x in unresolved
      ensures BuildMissingImportMessage(str(x)) in r.value
    {
      assert x in order;
      var i :| 0 <= i < |order| && order[i] == x;
      assert r.value[i] == BuildMissingImportMessage(str(x));
    }
    forall w | w in r.value
      ensures exists x :: x in unresolved && w == BuildMissingImportMessage(str(x))
    {
      var i :| 0 <= i < |r.value| && r.value[i] == w;
      assert order[i] in order;
      assert w == BuildMissingImportMessage(str(order[i]));
    }
  }

  /** A list that holds each element of a set once is as long as the set is large. */
  lemma {:induction false} EnumerationSize<E(!new)>(order: seq<E>, s: set<E>)
    requires Enumerates(order, s)
    ensures |order| == |s|
  {
    if order != [] {
      var last := order[|order| - 1];
      var init := order[..|order| - 1];
      assert last !in init;
      assert forall x :: x in init <==> x in s - {last} by {
        forall x ensures x in init <==> x in s - {last} {
          assert order == init + [last];
        }
      }
      EnumerationSize(init, s - {last});
    }
  }

  /** At ERROR every failure names the same message, whichever least rule is chosen:
      the least string form is unique. */
  lemma ErrorMessageIsDetermined<E(!new)>(
    r1: Result<seq<string>, MissingImport>, r2: Result<seq<string>, MissingImport>,
    unresolved: set<E>, str: E -> string)
    requires FollowsAlertPolicy(r1, unresolved, ERROR, str)
    requires FollowsAlertPolicy(r2, unresolved, ERROR, str)
    ensures r1 == r2
  {
    if unresolved != {} {
      var m1 :| IsLeastByStr(m1, unresolved, str) && r1.error == MissingImport(BuildMissingImportMessage(str(m1)));
      var m2 :| IsLeastByStr(m2, unresolved, str) && r2.error == MissingImport(BuildMissingImportMessage(str(m2)));
      LeastIsUnique(str(m1), str(m2));
    }
  }

  /** Resolving the same rules a second time against the graph the first resolution left
      removes nothing more; every rule now matches nothing, so a second run at ERROR
      fails and leaves the graph as it is. Either way the edges end up as after one run. */
  lemma SecondResolutionRemovesNothing<E>(
    edges: set<DirectImport>, pattern: string -> set<DirectImport>, expressions: seq<E>, str: E -> string)
    ensures var rest := edges - ImportsToRemove(edges, pattern, expressions, str);
      && ImportsToRemove(rest, pattern, expressions, str) == {}
      && UnresolvedExpressions(rest, pattern, expressions, str) == set x | x in expressions
  {
    var rest := edges - ImportsToRemove(edges, pattern, expressions, str);
    forall x | x in expressions
      ensures pattern(str(x)) * rest == {}
    {
      assert forall e :: e in pattern(str(x)) * rest ==> e in ImportsToRemove(edges, pattern, expressions, str);
    }
  }

  // ---------------------------------------------------------------------------
  // Properties of the filter

  /** The filter keeps every record whose key is not ignored as often as it occurs in
      the input, and no record whose key is ignored. */
  lemma {:induction false} FilterKeepsMultiplicities(s: seq<ImportDetail>, ignored: set<LineKey>, d: ImportDetail)
    ensures multiset(FilterIgnoredLines(s, ignored))[d] == if Key(d) in ignored then 0 else multiset(s)[d]
  {
    if s != [] {
      FilterKeepsMultiplicities(s[1..], ignored, d);
      assert s == [s[0]] + s[1..];
      FilterStep(s[0], s[1..], ignored);
    }
  }

  /** Filtering with no ignored line keeps every record. */
  lemma {:induction false} FilterWithoutIgnoredLinesIsIdentity(importDetails: seq<ImportDetail>)
    ensures FilterIgnoredLines(importDetails, {}) == importDetails
  {
    if importDetails != [] {
      FilterWithoutIgnoredLinesIsIdentity(importDetails[1..]);
    }
  }

  /** One step of the filter: the first record is kept or dropped on its own key. */
  lemma FilterStep(d: ImportDetail, s: seq<ImportDetail>, ignored: set<LineKey>)
    ensures FilterIgnoredLines([d] + s, ignored)
         == (if Key(d) in ignored then [] else [d]) + FilterIgnoredLines(s, ignored)
  {
    assert ([d] + s)[0] == d && ([d] + s)[1..] == s;
  }

  /** The filter acts on each record separately: it distributes over concatenation. */
  lemma {:induction false} FilterDistributes(s: seq<ImportDetail>, t: seq<ImportDetail>, ignored: set<LineKey>)
    ensures FilterIgnoredLines(s + t, ignored) == FilterIgnoredLines(s, ignored) + FilterIgnoredLines(t, ignored)
  {
    if s == [] {
      assert s + t == t;
    } else {
      var head, tail := s[0], s[1..];
      var kept: seq<ImportDetail> := if Key(head) in ignored then [] else [head];
      calc {
        FilterIgnoredLines(s + t, ignored);
      == { assert s + t == [head] + (tail + t); }
        FilterIgnoredLines([head] + (tail + t), ignored);
      == { FilterStep(head, tail + t, ignored); }
        kept + FilterIgnoredLines(tail + t, ignored);
      == { FilterDistributes(tail, t, ignored); }
        kept + (FilterIgnoredLines(tail, ignored) + FilterIgnoredLines(t, ignored));
      ==
        (kept + FilterIgnoredLines(tail, ignored)) + FilterIgnoredLines(t, ignored);
      == { FilterStep(head, tail, ignored); assert s == [head] + tail; }
        FilterIgnoredLines(s, ignored) + FilterIgnoredLines(t, ignored);
      }
    }
  }

  /** Filtering twice by the same lines is filtering once. */
  lemma {:induction false} FilterIsIdempotent(s: seq<ImportDetail>, ignored: set<LineKey>)
    ensures FilterIgnoredLines(FilterIgnoredLines(s, ignored), ignored) == FilterIgnoredLines(s, ignored)
  {
    if s != [] {
      FilterIsIdempotent(s[1..], ignored);
      if Key(s[0]) !in ignored {
        assert ([s[0]] + FilterIgnoredLines(s[1..], ignored))[1..] == FilterIgnoredLines(s[1..], ignored);
      }
    }
  }

  /** Filtering the records of an edge by the lines the scan found drops a record
      exactly when some record of that edge at the same line holds the keyword. */
  lemma FilterDropsInlineIgnoredRecords(graph: ImportGraph, e: DirectImport, keyword: string, d: ImportDetail)
    requires graph.Valid() && e in graph.edges
    requires d in graph.GetImportDetails(e.importer, e.imported)
    ensures var ignored := MarkedKeysOfEdges(graph, graph.edges, keyword);
      d in FilterIgnoredLines(graph.GetImportDetails(e.importer, e.imported), ignored) <==>
        !exists d' :: d' in graph.GetImportDetails(e.importer, e.imported) && d'.lineNumber == d.lineNumber
                      && IsSubstring(keyword, LineText(d'))
  {
    MarkedKeysOfEdgesExact(graph, keyword);
    assert e in graph.details;
    assert Key(d) == (e.importer, e.imported, d.lineNumber);
    var ds := graph.GetImportDetails(e.importer, e.imported);
    var ignored := MarkedKeysOfEdges(graph, graph.edges, keyword);
  }
}
