/** Clients of the suppression logic on a small graph: module `a` imports `b` on line 3
    with an inline-ignore marker and `c` on line 5 without one. What is asserted here
    follows from the contracts alone. */
module Scenarios {
  import opened Domain
  import opened Graph
  import opened ContractUtils

  const MarkedLine := "import b  # lint-ignore"
  const PlainLine := "import c"

  method SmallGraph() returns (graph: ImportGraph)
    ensures fresh(graph) && graph.Valid()
    ensures graph.edges == {DirectImport("a", "b"), DirectImport("a", "c")}
    ensures graph.GetImportDetails("a", "b") == [ImportDetail("a", "b", 3, Some(MarkedLine))]
    ensures graph.GetImportDetails("a", "c") == [ImportDetail("a", "c", 5, Some(PlainLine))]
    ensures graph.pattern("a -> b") == {DirectImport("a", "b")}
    ensures graph.pattern("x -> y") == {}
  {
    var ab, ac := DirectImport("a", "b"), DirectImport("a", "c");
    var details := map[ab := [ImportDetail("a", "b", 3, Some(MarkedLine))],
                       ac := [ImportDetail("a", "c", 5, Some(PlainLine))]];
    graph := new ImportGraph({"a", "b", "c"}, {ab, ac}, details,
                             (s: string) => if s == "a -> b" then {ab} else {});
  }

  /** Rules are plain strings here, their own string form. */
  function Text(rule: string): string { rule }

  method ScanMarkedLine() {
    var graph := SmallGraph();
    var ignored := GetInlineIgnoredLines(graph, "lint-ignore");
    assert Strings.OccursAt("lint-ignore", MarkedLine, 12);
    assert ("a", "b", 3) in ignored;
    forall k | k in ignored ensures k == ("a", "b", 3) {
      var a, b, n := k.0, k.1, k.2;
      assert (a, b, n) in ignored;
      var d :| d in graph.GetImportDetails(a, b) && d.lineNumber == n && Strings.IsSubstring("lint-ignore", LineText(d));
      assert DirectImport(a, b) != DirectImport("a", "c");
      assert DirectImport(a, b) == DirectImport("a", "b");
      assert d == ImportDetail("a", "b", 3, Some(MarkedLine));
    }
    assert ignored == {("a", "b", 3)};
  }

  /** Of the rules "a -> b" and "x -> y", only the second matches nothing. */
  lemma OnlySecondRuleUnmatched(graph: ImportGraph)
    requires graph.edges == {DirectImport("a", "b"), DirectImport("a", "c")}
    requires graph.pattern("a -> b") == {DirectImport("a", "b")}
    requires graph.pattern("x -> y") == {}
    ensures UnresolvedExpressions(graph.edges, graph.pattern, ["a -> b", "x -> y"], Text) == {"x -> y"}
    ensures ImportsToRemove(graph.edges, graph.pattern, ["a -> b", "x -> y"], Text) == {DirectImport("a", "b")}
  {
    var rules := ["a -> b", "x -> y"];
    assert Text(rules[0]) == "a -> b" && Text(rules[1]) == "x -> y";
    assert DirectImport("a", "b") in graph.pattern(Text(rules[0])) * graph.edges;
    assert forall x :: x in rules ==> x == rules[0] || x == rules[1];
  }

  /** The alert at WARN for the one unmatched rule "x -> y". */
  lemma WarningForSecondRule(r: Result<seq<string>, MissingImport>)
    requires FollowsAlertPolicy(r, {"x -> y"}, WARN, Text)
    ensures r == Success(["No matches for ignored import x -> y."])
  {
    WarningsAreTheMessages(r, {"x -> y"}, Text);
    assert BuildMissingImportMessage("x -> y") == "No matches for ignored import x -> y.";
    assert r.value[0] in r.value;
    assert r.value == [r.value[0]];
  }

  /** The alert at ERROR for the one unmatched rule "x -> y". */
  lemma FailureForSecondRule(r: Result<seq<string>, MissingImport>)
    requires FollowsAlertPolicy(r, {"x -> y"}, ERROR, Text)
    ensures r == Failure(MissingImport("No matches for ignored import x -> y."))
  {
    var m :| IsLeastByStr(m, {"x -> y"}, Text) && r.error == MissingImport(BuildMissingImportMessage(Text(m)));
    assert m == "x -> y";
    assert BuildMissingImportMessage("x -> y") == "No matches for ignored import x -> y.";
  }

  method WarnOnUnmatchedRule() {
    var graph := SmallGraph();
    OnlySecondRuleUnmatched(graph);
    var r := RemoveIgnoredImports(graph, Some(["a -> b", "x -> y"]), WARN, Text);
    WarningForSecondRule(r);
    assert graph.edges == {DirectImport("a", "c")};
  }

  method FailOnUnmatchedRule() {
    var graph := SmallGraph();
    OnlySecondRuleUnmatched(graph);
    var r := RemoveIgnoredImports(graph, Some(["a -> b", "x -> y"]), ERROR, Text);
    FailureForSecondRule(r);
    assert graph.edges == {DirectImport("a", "b"), DirectImport("a", "c")};
  }
}
