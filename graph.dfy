/** The import graph the suppression logic borrows from its caller. Only the part of
    the graph the logic touches is modelled: its modules, its direct-import edges, the
    occurrence records of each edge, the matching of an import expression against the
    edges, and the removal of one edge. How an import expression's pattern is read is
    not modelled: `pattern` gives, for the string form of an expression, the edges
    that pattern describes, and a match is always restricted to the edges present. */
module Graph {
  import opened Domain

  /** The graph's well-formedness: every edge joins two modules of the graph, only
      edges carry occurrence records, and every record of an edge names that edge. */
  ghost predicate WellFormed(
    modules: set<Module>,
    edges: set<DirectImport>,
    details: map<DirectImport, seq<ImportDetail>>)
  {
    && (forall e :: e in edges ==> e.importer in modules && e.imported in modules)
    && details.Keys <= edges
    && (forall e :: e in details ==> RecordsOf(e, details[e]))
  }

  ghost predicate RecordsOf(e: DirectImport, ds: seq<ImportDetail>)
  {
    forall d :: d in ds ==> d.importer == e.importer && d.imported == e.imported
  }

  class ImportGraph {
    var modules: set<Module>
    var edges: set<DirectImport>
    var details: map<DirectImport, seq<ImportDetail>>
    /** The edges an import expression's string form describes. */
    const pattern: string -> set<DirectImport>

    ghost predicate Valid()
      reads this
    {
      WellFormed(modules, edges, details)
    }

    constructor (
      modules: set<Module>,
      edges: set<DirectImport>,
      details: map<DirectImport, seq<ImportDetail>>,
      pattern: string -> set<DirectImport>)
      requires WellFormed(modules, edges, details)
      ensures Valid()
      ensures this.modules == modules && this.edges == edges && this.details == details
      ensures this.pattern == pattern
    {
      this.modules := modules;
      this.edges := edges;
      this.details := details;
      this.pattern := pattern;
    }

    /** The modules that `importer` imports directly. */
    function FindModulesDirectlyImportedBy(importer: Module): (r: set<Module>)
      reads this
      ensures forall m :: m in r <==> DirectImport(importer, m) in edges
    {
      set e | e in edges && e.importer == importer :: e.imported
    }

    /** The occurrence records of the edge `importer` -> `imported`; none when the
        edge has no line information. */
    function GetImportDetails(importer: Module, imported: Module): (r: seq<ImportDetail>)
      reads this
      ensures DirectImport(importer, imported) in details ==> r == details[DirectImport(importer, imported)]
      ensures DirectImport(importer, imported) !in details ==> r == []
    {
      var e := DirectImport(importer, imported);
      if e in details then details[e] else []
    }

    /** The edges of the graph that the expression with string form `expression`
        matches. */
    function FindMatchingDirectImports(expression: string): (r: set<DirectImport>)
      reads this
      ensures r <= edges
      ensures forall e :: e in r <==> e in edges && e in pattern(expression)
    {
      pattern(expression) * edges
    }

    /** Removes the edge `importer` -> `imported` together with all its occurrence
        records. */
    method RemoveImport(importer: Module, imported: Module)
      requires Valid()
      modifies this
      ensures Valid()
      ensures edges == old(edges) - {DirectImport(importer, imported)}
      ensures details == old(details) - {DirectImport(importer, imported)}
      ensures modules == old(modules)
    {
      var e := DirectImport(importer, imported);
      edges := edges - {e};
      details := details - {e};
    }
  }
}
