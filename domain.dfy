/** Values shared by the import graph and the suppression logic: modules, direct
    imports, the per-line occurrence records of an import, and the error carried by a
    rule that matched nothing. */
module Domain {

  datatype Option<+T> = None | Some(value: T)

  datatype Result<+T, +Err> = Success(value: T) | Failure(error: Err)

  /** A module is named by its dotted path. */
  type Module = string

  /** One directed edge of the import graph: `importer` imports `imported`. */
  datatype DirectImport = DirectImport(importer: Module, imported: Module)

  /** One occurrence record of an edge, as the graph reports it: the line of the
      importer that holds the import statement and, when known, that line's text. */
  datatype ImportDetail = ImportDetail(
    importer: Module,
    imported: Module,
    lineNumber: int,
    lineContents: Option<string>)

  /** The key an inline ignore is recorded under: (importer, imported, line number). */
  type LineKey = (Module, Module, int)

  /** The error raised when an ignore rule matches nothing at the strictest alert level. */
  datatype MissingImport = MissingImport(message: string)

  function Key(d: ImportDetail): (k: LineKey)
    ensures k.0 == d.importer && k.1 == d.imported && k.2 == d.lineNumber
  {
    (d.importer, d.imported, d.lineNumber)
  }

  /** The line text of a record; a record without one reads as the empty line. */
  function LineText(d: ImportDetail): (t: string)
    ensures d.lineContents.Some? ==> t == d.lineContents.value
    ensures d.lineContents.None? ==> t == ""
  {
    match d.lineContents
    case Some(text) => text
    case None => ""
  }
}
