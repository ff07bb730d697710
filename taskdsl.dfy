/**
  * The Task DSL contract shared by teacher export and config loading: the
  * closed table from task type to required fields, the `hasValue` test and
  * the validator, which reports one error message per violation. The
  * validator inspects untyped configuration data, so it is stated over a
  * JSON-like `Value`.
  */
module TaskDsl {
  import opened Wrappers
  import opened Text

  /** A JavaScript value as the validator can observe it; an object is its own properties. */
  datatype Value =
    | Undefined
    | Null
    | Bool(b: bool)
    | Num(n: int)
    | Str(s: string)
    | Arr(items: seq<Value>)
    | Obj(fields: map<string, Value>)

  /** JavaScript truthiness (`!!v`): undefined, null, false, 0 and "" are falsy; arrays and objects are truthy. */
  predicate Truthy(v: Value)
  {
    match v
    case Undefined => false
    case Null => false
    case Bool(b) => b
    case Num(n) => n != 0
    case Str(s) => s != ""
    case Arr(_) => true
    case Obj(_) => true
  }

  /** The nine DSL task types (`TASK_TYPES`). */
  datatype DslType = Move | Rename | Delete | PermanentlyDelete | Create | Restore | Copy | ZipCreate | ZipExtract

  /** The wire name of each type. */
  function TypeName(t: DslType): (name: string)
    ensures name != [] && 'a' <= name[0] <= 'z'
  {
    match t
    case Move => "move"
    case Rename => "rename"
    case Delete => "delete"
    case PermanentlyDelete => "permanently-delete"
    case Create => "create"
    case Restore => "restore"
    case Copy => "copy"
    case ZipCreate => "zip-create"
    case ZipExtract => "zip-extract"
  }

  const TaskTypes: seq<string> :=
    ["move", "rename", "delete", "permanently-delete", "create", "restore", "copy", "zip-create", "zip-extract"]

  /** The type a string names, if it names one of the nine. */
  function ParseType(name: string): (r: Option<DslType>)
    ensures r.Some? ==> TypeName(r.value) == name
    ensures r.None? ==> forall t :: TypeName(t) != name
  {
    if name == "move" then Some(Move)
    else if name == "rename" then Some(Rename)
    else if name == "delete" then Some(Delete)
    else if name == "permanently-delete" then Some(PermanentlyDelete)
    else if name == "create" then Some(Create)
    else if name == "restore" then Some(Restore)
    else if name == "copy" then Some(Copy)
    else if name == "zip-create" then Some(ZipCreate)
    else if name == "zip-extract" then Some(ZipExtract)
    else None
  }

  /** `ParseType` accepts exactly the names listed in `TaskTypes`. */
  lemma ParseTypeAcceptsTaskTypes(name: string)
    ensures ParseType(name).Some? <==> name in TaskTypes
  {
  }

  /** Distinct types have distinct names, so a name round-trips through `ParseType`. */
  lemma ParseTypeName(t: DslType)
    ensures ParseType(TypeName(t)) == Some(t)
  {
  }

  /** `REQUIRED_FIELDS_BY_TYPE`: every type needs two or three fields, all but the zip types a subject. */
  function RequiredFields(t: DslType): (fields: seq<string>)
    ensures 2 <= |fields| <= 3
    ensures !t.ZipCreate? && !t.ZipExtract? ==> fields[0] == "subjectId"
  {
    match t
    case Move => ["subjectId", "fromPath", "toPath"]
    case Rename => ["subjectId", "fromName", "toName"]
    case Delete => ["subjectId", "fromPath"]
    case PermanentlyDelete => ["subjectId", "fromPath"]
    case Create => ["subjectId", "toPath"]
    case Restore => ["subjectId", "toPath"]
    case Copy => ["subjectId", "fromPath", "toPath"]
    case ZipCreate => ["inputIds", "outputName", "outputPath"]
    case ZipExtract => ["archiveId", "destPath"]
  }

  /**
    * hasValue: the task has the field as an own property and its value is an
    * array (even an empty one), a string with a non-white-space character, or
    * any other value except null and undefined.
    */
  predicate HasValue(task: map<string, Value>, field: string)
    ensures HasValue(task, field) ==> field in task && !task[field].Null? && !task[field].Undefined?
    ensures field in task && task[field].Arr? ==> HasValue(task, field)
    ensures field in task && task[field].Str? ==>
      (HasValue(task, field) <==> exists i :: 0 <= i < |task[field].s| && !IsWhitespace(task[field].s[i]))
  {
    field in task &&
    match task[field]
    case Arr(_) => true
    case Str(s) => !IsBlank(s)
    case Null => false
    case Undefined => false
    case _ => true
  }

  /** A string value has a value exactly when it does not trim to "". */
  lemma HasValueIffTrimmed(task: map<string, Value>, field: string)
    requires field in task && task[field].Str?
    ensures HasValue(task, field) <==> Trim(task[field].s) != ""
  {
    BlankIffTrimsEmpty(task[field].s);
  }

  /** normalizeTasks: an array is kept as it is, anything else becomes the empty list. */
  function NormalizeTasks(tasks: Value): (r: seq<Value>)
    ensures tasks.Arr? ==> r == tasks.items
    ensures !tasks.Arr? ==> r == []
  {
    if tasks.Arr? then tasks.items else []
  }

  datatype Validation = Validation(valid: bool, errors: seq<string>)

  /** The prefix of every message about the task at `index`. */
  function At(index: nat): string
  {
    "tasks[" + NatToString(index) + "]"
  }

  /** `task.type`: the own property, or undefined. */
  function TypeOf(task: map<string, Value>): Value
  {
    if "type" in task then task["type"] else Undefined
  }

  function FieldMessage(at: string, field: string, kind: string): string
  {
    at + "." + field + " is required for type \"" + kind + "\""
  }

  function ObjectMessage(at: string): string
  {
    at + " must be an object"
  }

  function TypeRequiredMessage(at: string): string
  {
    at + ".type is required"
  }

  function UnknownTypeMessage(at: string, name: string): string
  {
    at + ".type \"" + name + "\" is unknown"
  }

  function StrictMessage(at: string): string
  {
    at + ".strict must be boolean when provided"
  }

  /** The required fields that fail `hasValue`, in table order. */
  function FailingFields(task: map<string, Value>, fields: seq<string>): (r: seq<string>)
    ensures forall f :: f in r <==> f in fields && !HasValue(task, f)
    ensures |r| <= |fields|
  {
    if fields == [] then []
    else
      assert forall f :: f in fields <==> f == fields[0] || f in fields[1..];
      (if HasValue(task, fields[0]) then [] else [fields[0]]) + FailingFields(task, fields[1..])
  }

  /** One message per required field that fails `hasValue`, in table order. */
  function FieldErrors(task: map<string, Value>, fields: seq<string>, at: string, kind: string): (errs: seq<string>)
    ensures |errs| == |FailingFields(task, fields)|
    ensures forall i :: 0 <= i < |errs| ==> errs[i] == FieldMessage(at, FailingFields(task, fields)[i], kind)
  {
    if fields == [] then []
    else (if HasValue(task, fields[0]) then [] else [FieldMessage(at, fields[0], kind)]) + FieldErrors(task, fields[1..], at, kind)
  }

  /** How the validator sees a task before checking its fields. */
  datatype Shape = NotAnObject | NoType | UnknownType(name: string) | Known(kind: DslType, fields: map<string, Value>)

  /** Not an object (or an array, or null); no non-blank string `type`; a type outside the table; or a known type. */
  function Classify(task: Value): (c: Shape)
    ensures c.Known? ==> task.Obj? && c.fields == task.fields && TypeOf(task.fields) == Str(TypeName(c.kind))
    ensures c.UnknownType? ==> task.Obj? && TypeOf(task.fields) == Str(c.name) && ParseType(c.name).None?
  {
    if !task.Obj? then NotAnObject
    else
      var kind := TypeOf(task.fields);
      if !kind.Str? || IsBlank(kind.s) then NoType
      else match ParseType(kind.s)
        case None => UnknownType(kind.s)
        case Some(t) => Known(t, task.fields)
  }

  /** A known type's name is never blank, so an object is classified Known exactly when its own type names a table entry. */
  lemma ClassifyKnown(task: Value)
    ensures Classify(task).Known? <==> task.Obj? && TypeOf(task.fields).Str? && ParseType(TypeOf(task.fields).s).Some?
  {
    if task.Obj? && TypeOf(task.fields).Str? && ParseType(TypeOf(task.fields).s).Some? {
      var t := ParseType(TypeOf(task.fields).s).value;
      VisibleFirstNotBlank(TypeName(t));
    }
  }

  lemma VisibleFirstNotBlank(s: string)
    requires s != [] && !IsWhitespace(s[0])
    ensures !IsBlank(s)
  {
    assert !IsWhitespace(s[0]);
  }

  function StrictErrors(fields: map<string, Value>, at: string): (errs: seq<string>)
    ensures |errs| <= 1
    ensures errs == [] <==> ("strict" in fields ==> fields["strict"].Bool?)
  {
    if "strict" in fields && !fields["strict"].Bool? then [StrictMessage(at)] else []
  }

  /** The messages for one task, each starting with `tasks[index]`. */
  function TaskErrors(task: Value, index: nat): (errs: seq<string>)
  {
    var at := At(index);
    match Classify(task)
    case NotAnObject => [ObjectMessage(at)]
    case NoType => [TypeRequiredMessage(at)]
    case UnknownType(name) => [UnknownTypeMessage(at, name)]
    case Known(kind, fields) => FieldErrors(fields, RequiredFields(kind), at, TypeName(kind)) + StrictErrors(fields, at)
  }

  /** The messages `check` gives each task of a list, the first task having index `start`. */
  function ConcatErrors(tasks: seq<Value>, start: nat, check: (Value, nat) -> seq<string>): seq<string>
  {
    if tasks == [] then [] else check(tasks[0], start) + ConcatErrors(tasks[1..], start + 1, check)
  }

  /** The messages for a list of tasks whose first has index `start`. */
  function ListErrors(tasks: seq<Value>, start: nat): seq<string>
  {
    ConcatErrors(tasks, start, TaskErrors)
  }

  /**
    * validateTasks: undefined and null are valid, a non-array is one error,
    * and an array is valid exactly when no task produced a message.
    */
  function ValidateTasks(tasks: Value): (r: Validation)
    ensures r.valid <==> r.errors == []
    ensures tasks.Undefined? || tasks.Null? ==> r == Validation(true, [])
    ensures !tasks.Arr? && !tasks.Undefined? && !tasks.Null? ==> !r.valid && |r.errors| == 1
  {
    if tasks.Undefined? || tasks.Null? then Validation(true, [])
    else if !tasks.Arr? then Validation(false, ["tasks must be an array"])
    else
      var errs := ListErrors(tasks.items, 0);
      Validation(errs == [], errs)
  }

  lemma ValidateArray(tasks: seq<Value>)
    ensures ValidateTasks(Arr(tasks)) == Validation(ListErrors(tasks, 0) == [], ListErrors(tasks, 0))
  {
  }

  /**
    * A reference definition of an acceptable task: an object whose own
    * `type` is a known type, whose required fields all have a value and
    * whose `strict`, when present, is a boolean.
    */
  predicate WellFormedTask(task: Value)
  {
    task.Obj? && TypeOf(task.fields).Str? && ParseType(TypeOf(task.fields).s).Some? &&
    (forall f :: f in RequiredFields(ParseType(TypeOf(task.fields).s).value) ==> HasValue(task.fields, f)) &&
    ("strict" in task.fields ==> task.fields["strict"].Bool?)
  }

  /** A task produces no message exactly when it is well formed. */
  lemma TaskErrorsIffMalformed(task: Value, index: nat)
    ensures TaskErrors(task, index) == [] <==> WellFormedTask(task)
  {
    ClassifyKnown(task);
    var c := Classify(task);
    if c.Known? {
      var failing := FailingFields(c.fields, RequiredFields(c.kind));
      ParseTypeName(c.kind);
      assert failing == [] <==> forall f :: f in RequiredFields(c.kind) ==> HasValue(c.fields, f) by {
        if failing != [] {
          assert failing[0] in failing;
        }
      }
    }
  }

  /**
    * A task rejected for its shape (not an object, no usable type, an
    * unknown type) gets exactly one message and no field is examined; a
    * task of a known type gets, in table order, one message per required
    * field without a value, then one for a non-boolean `strict`.
    */
  lemma TaskErrorsCount(task: Value, index: nat)
    ensures !Classify(task).Known? ==> |TaskErrors(task, index)| == 1
    ensures Classify(task).Known? ==>
      var c := Classify(task);
      var failing := FailingFields(c.fields, RequiredFields(c.kind));
      TaskErrors(task, index) == FieldErrors(c.fields, RequiredFields(c.kind), At(index), TypeName(c.kind)) + StrictErrors(c.fields, At(index)) &&
      |TaskErrors(task, index)| == |failing| + |StrictErrors(c.fields, At(index))| &&
      forall i :: 0 <= i < |failing| ==> TaskErrors(task, index)[i] == FieldMessage(At(index), failing[i], TypeName(c.kind))
  {
  }

  /** The messages of a concatenation are those of each part, the second part's indices shifted. */
  lemma {:induction false} ConcatErrorsAppend(a: seq<Value>, b: seq<Value>, start: nat, check: (Value, nat) -> seq<string>)
    ensures ConcatErrors(a + b, start, check) == ConcatErrors(a, start, check) + ConcatErrors(b, start + |a|, check)
  {
    if a != [] {
      assert (a + b)[0] == a[0];
      assert (a + b)[1..] == a[1..] + b;
      ConcatErrorsAppend(a[1..], b, start + 1, check);
    } else {
      assert a + b == b;
    }
  }

  /** A list produces no message exactly when no task in it does. */
  lemma {:induction false} ConcatErrorsEmpty(tasks: seq<Value>, start: nat, check: (Value, nat) -> seq<string>)
    ensures ConcatErrors(tasks, start, check) == [] <==> forall i :: 0 <= i < |tasks| ==> check(tasks[i], start + i) == []
  {
    if tasks != [] {
      ConcatErrorsEmpty(tasks[1..], start + 1, check);
      var head, rest := check(tasks[0], start), ConcatErrors(tasks[1..], start + 1, check);
      assert |head + rest| == |head| + |rest|;
      assert forall i :: 1 <= i < |tasks| ==> tasks[i] == tasks[1..][i - 1];
    }
  }

  /** A list produces no message exactly when every task in it is well formed. */
  lemma ListErrorsIffMalformed(tasks: seq<Value>, start: nat)
    ensures ListErrors(tasks, start) == [] <==> forall i :: 0 <= i < |tasks| ==> WellFormedTask(tasks[i])
  {
    ConcatErrorsEmpty(tasks, start, TaskErrors);
    forall i | 0 <= i < |tasks|
      ensures TaskErrors(tasks[i], start + i) == [] <==> WellFormedTask(tasks[i])
    {
      TaskErrorsIffMalformed(tasks[i], start + i);
    }
  }

  /** An array of tasks is valid exactly when each of its tasks is well formed. */
  lemma ValidIffAllWellFormed(tasks: seq<Value>)
    ensures ValidateTasks(Arr(tasks)).valid <==> forall i :: 0 <= i < |tasks| ==> WellFormedTask(tasks[i])
  {
    ListErrorsIffMalformed(tasks, 0);
  }

  /** Validity composes over concatenation, since each task is checked on its own. */
  lemma ValidityComposes(a: seq<Value>, b: seq<Value>)
    ensures ValidateTasks(Arr(a + b)).valid <==> ValidateTasks(Arr(a)).valid && ValidateTasks(Arr(b)).valid
    ensures ValidateTasks(Arr(a + b)).errors == ValidateTasks(Arr(a)).errors + ListErrors(b, |a|)
  {
    ValidateArray(a + b);
    ValidateArray(a);
    ValidateArray(b);
    ListErrorsComposes(a, b);
  }

  lemma ListErrorsComposes(a: seq<Value>, b: seq<Value>)
    ensures ListErrors(a + b, 0) == ListErrors(a, 0) + ListErrors(b, |a|)
    ensures ListErrors(a + b, 0) == [] <==> ListErrors(a, 0) == [] && ListErrors(b, 0) == []
  {
    ConcatErrorsAppend(a, b, 0, TaskErrors);
    var ea, eb := ListErrors(a, 0), ListErrors(b, |a|);
    assert |ea + eb| == |ea| + |eb|;
    TaskErrorsIndexFree();
    ConcatErrorsEmptyAnyStart(b, |a|, 0, TaskErrors);
  }

  /** Whether a task produces a message does not depend on its index. */
  lemma TaskErrorsIndexFree()
    ensures forall t, x: nat, y: nat :: TaskErrors(t, x) == [] <==> TaskErrors(t, y) == []
  {
    forall t, x: nat, y: nat
      ensures TaskErrors(t, x) == [] <==> TaskErrors(t, y) == []
    {
      TaskErrorsIffMalformed(t, x);
      TaskErrorsIffMalformed(t, y);
    }
  }

  /** For a check whose verdict ignores the index, whether a list produces a message ignores where indices start. */
  lemma {:induction false} ConcatErrorsEmptyAnyStart(tasks: seq<Value>, i: nat, j: nat, check: (Value, nat) -> seq<string>)
    requires forall t, x: nat, y: nat :: check(t, x) == [] <==> check(t, y) == []
    ensures ConcatErrors(tasks, i, check) == [] <==> ConcatErrors(tasks, j, check) == []
  {
    if tasks != [] {
      ConcatErrorsEmptyAnyStart(tasks[1..], i + 1, j + 1, check);
      var hi, ri := check(tasks[0], i), ConcatErrors(tasks[1..], i + 1, check);
      var hj, rj := check(tasks[0], j), ConcatErrors(tasks[1..], j + 1, check);
      assert |hi + ri| == |hi| + |ri| && |hj + rj| == |hj| + |rj|;
    }
  }

  /** Normalising an array, undefined or null input does not change the verdict. */
  lemma NormalizeKeepsVerdict(tasks: Value)
    requires tasks.Arr? || tasks.Undefined? || tasks.Null?
    ensures ValidateTasks(Arr(NormalizeTasks(tasks))) == ValidateTasks(tasks)
  {
  }

  /**
    * The names every object literal inherits from `Object.prototype`; each
    * one is a function or an object, so reading it from the required-field
    * table gives a value that is truthy and not an array.
    */
  const ObjectPrototypeMembers: set<string> := {
    "constructor", "hasOwnProperty", "isPrototypeOf", "propertyIsEnumerable",
    "toString", "toLocaleString", "valueOf", "__proto__",
    "__defineGetter__", "__defineSetter__", "__lookupGetter__", "__lookupSetter__"
  }

  /** What reading `REQUIRED_FIELDS_BY_TYPE[name]` gives: an own entry, an inherited member, or undefined. */
  datatype TableRead = Entry(fields: seq<string>) | Inherited | NoEntry

  function TableReadAsWritten(name: string): (r: TableRead)
    ensures r.Entry? <==> ParseType(name).Some?
  {
    match ParseType(name)
    case Some(t) => Entry(RequiredFields(t))
    case None => if name in ObjectPrototypeMembers then Inherited else NoEntry
  }

  /**
    * The validator as written, for one task: a type naming an inherited
    * member passes the unknown-type test, and `forEach` is then called on a
    * value that has none, which throws (None); otherwise the same messages.
    */
  function TaskErrorsAsWritten(task: Value, index: nat): (r: Option<seq<string>>)
    ensures r.None? <==> Classify(task).UnknownType? && Classify(task).name in ObjectPrototypeMembers
  {
    var c := Classify(task);
    if c.UnknownType? && TableReadAsWritten(c.name).Inherited? then None
    else Some(TaskErrors(task, index))
  }

  function ListErrorsAsWritten(tasks: seq<Value>, start: nat): Option<seq<string>>
  {
    if tasks == [] then Some([])
    else match TaskErrorsAsWritten(tasks[0], start)
      case None => None
      case Some(first) =>
        match ListErrorsAsWritten(tasks[1..], start + 1)
        case None => None
        case Some(rest) => Some(first + rest)
  }

  function ValidateTasksAsWritten(tasks: Value): Option<Validation>
  {
    if tasks.Undefined? || tasks.Null? then Some(Validation(true, []))
    else if !tasks.Arr? then Some(Validation(false, ["tasks must be an array"]))
    else match ListErrorsAsWritten(tasks.items, 0)
      case None => None
      case Some(errs) => Some(Validation(errs == [], errs))
  }

  lemma ToStringIsUnknown()
    ensures Classify(Obj(map["type" := Str("toString")])) == UnknownType("toString")
  {
    VisibleFirstNotBlank("toString");
  }

  /** A task whose type is "toString" makes the validator as written throw instead of reporting it. */
  lemma InheritedTypeThrows()
    ensures ValidateTasksAsWritten(Arr([Obj(map["type" := Str("toString")])])) == None
  {
    var task := Obj(map["type" := Str("toString")]);
    ToStringIsUnknown();
    assert TaskErrorsAsWritten(task, 0) == None;
  }

  lemma ToStringMessageAt(index: nat)
    ensures TaskErrors(Obj(map["type" := Str("toString")]), index) == [UnknownTypeMessage(At(index), "toString")]
  {
    ToStringIsUnknown();
  }

  lemma FirstIndexPrefix()
    ensures At(0) == "tasks[0]"
  {
    assert NatToString(0) == "0";
  }

  /** The corrected validator reports the same task as one unknown-type error. */
  lemma InheritedTypeReported()
    ensures ValidateTasks(Arr([Obj(map["type" := Str("toString")])])) ==
      Validation(false, [UnknownTypeMessage("tasks[0]", "toString")])
  {
    var task := Obj(map["type" := Str("toString")]);
    ToStringMessageAt(0);
    FirstIndexPrefix();
    assert [task][1..] == [];
    assert ListErrors([task], 0) == TaskErrors(task, 0) + ListErrors([], 1);
    ValidateArray([task]);
  }

  /** Where no task's type names an inherited member, the validator as written agrees with the corrected one. */
  lemma {:induction false} AsWrittenAgrees(tasks: seq<Value>, start: nat)
    requires forall i :: 0 <= i < |tasks| ==> !Classify(tasks[i]).UnknownType? || Classify(tasks[i]).name !in ObjectPrototypeMembers
    ensures ListErrorsAsWritten(tasks, start) == Some(ListErrors(tasks, start))
  {
    if tasks != [] {
      assert forall i :: 1 <= i < |tasks| ==> tasks[1..][i - 1] == tasks[i];
      AsWrittenAgrees(tasks[1..], start + 1);
    }
  }
}
