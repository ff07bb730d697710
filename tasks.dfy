/**
  * The records that flow through the task pipeline: declarative checks and
  * tasks, in both the legacy shape (a type, a description and checks) and the
  * Task DSL shape (the same record with subject and path fields filled in).
  * A field the source leaves undefined, null or "" is "" here.
  */
module Tasks {
  import opened Wrappers

  /** A configuration field that should hold a list: missing (undefined, null, ""), some other value, or a list. */
  datatype ListField<T> = Missing | NotList | Items(items: seq<T>)

  /** An `expectEntries` element: a bare name, a `{name, type}` object, or anything else. */
  datatype Entry = NamedEntry(name: string) | TypedEntry(name: string, kind: string) | Malformed

  /** A declarative check, e.g. `{type: "file-moved", from, to}`. */
  datatype Check = Check(
    kind: string,
    path: string,
    from: string,
    to: string,
    zipPath: string,
    destinationFolder: string,
    entries: ListField<string>,
    expectEntries: ListField<Entry>,
    mode: string)

  const NoCheckFields: Check := Check("", "", "", "", "", "", Missing, Missing, "")

  /** A check about one path. */
  function PathCheck(kind: string, path: string): (c: Check)
    ensures c.kind == kind && c.path == path
  {
    NoCheckFields.(kind := kind, path := path)
  }

  /** A check about a from/to pair. */
  function FromToCheck(kind: string, from: string, to: string): (c: Check)
    ensures c.kind == kind && c.from == from && c.to == to
  {
    NoCheckFields.(kind := kind, from := from, to := to)
  }

  /**
    * A task. Legacy tasks use `kind`, `description` and `checks`, and the
    * zip tasks of the editor also `zipPath`, `destinationFolder` and
    * `entries`; DSL tasks carry a subject and the fields their type
    * requires. A `checks` value that is not an array reads as the empty
    * list; `inputIds` is None where the task has no such property.
    */
  datatype Task = Task(
    kind: string,
    description: string,
    checks: seq<Check>,
    subjectId: string,
    fromPath: string,
    toPath: string,
    fromName: string,
    toName: string,
    inputIds: Option<seq<string>>,
    outputName: string,
    outputPath: string,
    archiveId: string,
    destPath: string,
    strict: Option<bool>,
    zipPath: string,
    destinationFolder: string,
    entries: ListField<string>)

  /** A task in the legacy shape. */
  function LegacyTask(kind: string, description: string, checks: seq<Check>): (t: Task)
    ensures t.kind == kind && t.description == description && t.checks == checks
  {
    Task(kind, description, checks, "", "", "", "", "", None, "", "", "", "", None, "", "", Missing)
  }
}
