/**
 Recorded agent actions: their translation into worker operations and the
 checkpoint strategy of the node that holds them.
 */
module Actions {
  import opened Prelude
  import opened Schedule

  datatype FileRow = FileRow(filePath: string, startLine: Option<int>, endLine: Option<int>)

  datatype Args = Args(
    files: seq<FileRow>, filePattern: string, className: string, functionName: string,
    codeSnippet: string, path: Option<string>, oldStr: string, newStr: string,
    fileText: string, testFiles: seq<string>)

  /** An action is a JSON object with an optional dotted argument class and an
      optional legacy name, or something that is not an object at all. Absent
      string and list arguments are empty. */
  datatype Action =
    | NotAnObject
    | Action(cls: Option<string>, name: Option<string>, args: Args)

  const MUTATING: set<string> := {
    "StringReplaceArgs", "CreateFileArgs", "AppendStringArgs",
    "InsertLineArgs", "RewriteFileArgs", "RunTestsArgs", "EditCode" }

  /** The part of a dotted name after its last dot. */
  function ShortName(s: string): string {
    if s == [] || Last(s) == '.' then [] else ShortName(DropLast(s)) + [Last(s)]
  }

  function OrDefault(s: string, default: string): string {
    if s == "" then default else s
  }

  function ViewRow(row: FileRow): seq<Op> {
    if row.filePath == "" then [] else [ViewFile(row.filePath, row.startLine, row.endLine)]
  }

  function ViewOps(files: seq<FileRow>): seq<Op> {
    if files == [] then [] else ViewRow(files[0]) + ViewOps(files[1..])
  }

  /** The operations of an action, by the short name of its argument class. */
  function ClassOps(cls: string, a: Args): seq<Op> {
    if cls == "ViewCodeArgs" then
      var ops := ViewOps(a.files);
      if ops != [] then ops else [Noop("view_code_no_files")]
    else if cls == "FindClassArgs" then
      [FindSymbol("class", OrDefault(a.filePattern, "**/*.py"), a.className)]
    else if cls == "FindFunctionArgs" then
      [FindSymbol("function", OrDefault(a.filePattern, "**/*.py"), a.functionName)]
    else if cls == "FindCodeSnippetArgs" then
      [Grep(OrDefault(a.filePattern, "**/*"), a.codeSnippet)]
    else if cls == "StringReplaceArgs" then
      [Replace(a.path, a.oldStr, a.newStr)]
    else if cls == "CreateFileArgs" then
      [WriteFile(a.path, a.fileText)]
    else if cls == "AppendStringArgs" then
      [AppendFile(a.path, a.newStr)]
    else if cls == "RunTestsArgs" then
      [RunTests(a.testFiles)]
    else if cls == "VerifiedFinishArgs" then
      [Noop("verified_finish")]
    else
      [Noop("unhandled_action:" + cls)]
  }

  function ClassOf(action: Action): string
    requires action.Action?
  {
    if action.cls.Some? then ShortName(action.cls.value) else ""
  }

  function ActionOps(action: Action): seq<Op> {
    if action.NotAnObject? then [] else ClassOps(ClassOf(action), action.args)
  }

  function NodeOps(steps: seq<Action>): seq<Op> {
    FlatMap(ActionOps, steps)
  }

  predicate Mutates(action: Action) {
    action.Action? &&
    (ClassOf(action) in MUTATING || (action.name.Some? && action.name.value in MUTATING))
  }

  function NodeStrategy(steps: seq<Action>): Strategy {
    if exists i | 0 <= i < |steps| :: Mutates(steps[i]) then Standard else Lightweight
  }

  predicate AllReadOnly(ops: seq<Op>) {
    forall i | 0 <= i < |ops| :: ReadOnly(ops[i])
  }

  lemma {:induction false} ViewOpsReadOnly(files: seq<FileRow>)
    ensures AllReadOnly(ViewOps(files))
  {
    if files != [] {
      ViewOpsReadOnly(files[1..]);
    }
  }

  /** Tagging and translation agree: a node tagged lightweight carries no
      operation that can change a file. */
  lemma {:induction false} LightweightIsReadOnly(steps: seq<Action>)
    requires NodeStrategy(steps).Lightweight?
    ensures AllReadOnly(NodeOps(steps))
  {
    if steps != [] {
      var prefix := DropLast(steps);
      assert forall i | 0 <= i < |prefix| :: prefix[i] == steps[i];
      LightweightIsReadOnly(prefix);
      assert !Mutates(Last(steps));
      var action := Last(steps);
      if action.Action? {
        ViewOpsReadOnly(action.args.files);
      }
      assert AllReadOnly(ActionOps(action));
    }
  }

  // ----- Which recorded actions can be replayed -----

  const HANDLED: set<string> := {
    "ViewCodeArgs", "FindClassArgs", "FindFunctionArgs", "FindCodeSnippetArgs", "StringReplaceArgs",
    "CreateFileArgs", "AppendStringArgs", "RunTestsArgs", "VerifiedFinishArgs" }

  predicate Supported(action: Action) {
    action.Action? ==> ClassOf(action) in HANDLED
  }

  ghost predicate AllHandled(ops: seq<Op>) {
    forall i | 0 <= i < |ops| :: !Unhandled(ops[i])
  }

  /** Every class in the list has a translation, */
  lemma ListedHandled(cls: string, a: Args)
    requires cls in HANDLED
    ensures AllHandled(ClassOps(cls, a))
  {
    ViewOpsHandled(a.files);
    assert "view_code_no_files"[0] == 'v' && "verified_finish"[0] == 'v';
  }

  /** and no other class has. */
  lemma UnlistedUnhandled(cls: string, a: Args)
    requires cls !in HANDLED
    ensures ClassOps(cls, a) == [Noop("unhandled_action:" + cls)]
    ensures !AllHandled(ClassOps(cls, a))
  {
    assert ClassOps(cls, a) == [Noop("unhandled_action:" + cls)];
    assert StartsWith("unhandled_action:" + cls, "unhandled_action:");
    assert Unhandled(ClassOps(cls, a)[0]);
  }

  lemma ActionHandled(action: Action)
    ensures AllHandled(ActionOps(action)) <==> Supported(action)
  {
    if action.Action? {
      if ClassOf(action) in HANDLED {
        ListedHandled(ClassOf(action), action.args);
      } else {
        UnlistedUnhandled(ClassOf(action), action.args);
      }
    }
  }

  lemma {:induction false} ViewOpsHandled(files: seq<FileRow>)
    ensures AllHandled(ViewOps(files))
  {
    if files != [] {
      ViewOpsHandled(files[1..]);
    }
  }

  lemma HandledAppend(a: seq<Op>, b: seq<Op>)
    ensures AllHandled(a + b) <==> AllHandled(a) && AllHandled(b)
  {
    if AllHandled(a + b) {
      assert forall i | 0 <= i < |a| :: a[i] == (a + b)[i];
      assert forall i | 0 <= i < |b| :: b[i] == (a + b)[|a| + i];
    }
  }

  /** The validator's test of a node's operations rejects exactly the nodes with
      an action that has no translation. Actions tagged as mutating need not
      have one. */
  lemma {:induction false} HandledIffSupported(steps: seq<Action>)
    ensures AllHandled(NodeOps(steps)) <==> forall i | 0 <= i < |steps| :: Supported(steps[i])
  {
    if steps != [] {
      HandledIffSupported(DropLast(steps));
      HandledAppend(NodeOps(DropLast(steps)), ActionOps(Last(steps)));
      ActionHandled(Last(steps));
      assert forall i | 0 <= i < |steps| - 1 :: DropLast(steps)[i] == steps[i];
    }
  }

  /** Only entries that are no objects translate to nothing. */
  lemma {:induction false} NodeOpsEmpty(steps: seq<Action>)
    ensures NodeOps(steps) == [] <==> forall i | 0 <= i < |steps| :: steps[i].NotAnObject?
  {
    if steps != [] {
      NodeOpsEmpty(DropLast(steps));
      assert forall i | 0 <= i < |steps| - 1 :: DropLast(steps)[i] == steps[i];
    }
  }

  /** The steps hold an action, and only actions with a translation. */
  ghost predicate Replayable(steps: seq<Action>) {
    (exists i :: 0 <= i < |steps| && steps[i].Action?) && forall i | 0 <= i < |steps| :: Supported(steps[i])
  }

  /** A node's operations pass the validator exactly when its steps are replayable. */
  lemma ReplayableIff(steps: seq<Action>)
    ensures NodeOps(steps) != [] && AllHandled(NodeOps(steps)) <==> Replayable(steps)
  {
    NodeOpsEmpty(steps);
    HandledIffSupported(steps);
  }

  /** Rewrites and line insertions are tagged as mutating, yet not replayable. */
  lemma RewritesUnsupported(action: Action)
    requires action.Action? && ClassOf(action) in {"RewriteFileArgs", "InsertLineArgs"}
    ensures Mutates(action) && !Supported(action)
  {
  }

  // ----- What a node's operations are -----

  lemma NodeOpsSingle(x: Action)
    ensures NodeOps([x]) == ActionOps(x)
  {
    FlatMapSnoc(ActionOps, [], x);
    assert [] + [x] == [x];
  }

  /** Steps are translated one by one, in the order they were recorded. */
  lemma NodeOpsAppend(a: seq<Action>, b: seq<Action>)
    ensures NodeOps(a + b) == NodeOps(a) + NodeOps(b)
  {
    FlatMapAppend(ActionOps, a, b);
  }

  lemma {:induction false} ViewOpsSnoc(files: seq<FileRow>, row: FileRow)
    ensures ViewOps(files + [row]) == ViewOps(files) + ViewRow(row)
  {
    var more := files + [row];
    if files == [] {
      assert more[1..] == [];
    } else {
      ViewOpsSnoc(files[1..], row);
      assert more[1..] == files[1..] + [row];
    }
  }

  lemma ShortNameSnoc(s: string, c: char)
    ensures ShortName(s + [c]) == if c == '.' then [] else ShortName(s) + [c]
  {
    assert DropLast(s + [c]) == s;
  }

  /** The part of a dotted name after its last dot. */
  lemma {:induction false} ShortNameOfDotted(path: string, name: string)
    requires '.' !in name
    ensures ShortName(path + "." + name) == name
  {
    if name == [] {
      ShortNameSnoc(path, '.');
      assert path + "." + name == path + ['.'];
    } else {
      var init, c := DropLast(name), Last(name);
      assert path + "." + name == (path + "." + init) + [c] && name == init + [c];
      ShortNameOfDotted(path, init);
      ShortNameSnoc(path + "." + init, c);
    }
  }

  /** A name without dots is short already. */
  lemma {:induction false} ShortNamePlain(name: string)
    requires '.' !in name
    ensures ShortName(name) == name
  {
    if name != [] {
      assert name == DropLast(name) + [Last(name)];
      ShortNamePlain(DropLast(name));
    }
  }

  /** The class and the arguments that one operation came from. */
  datatype Origin = Origin(cls: string, target: Option<string>, texts: seq<string>)

  /** An operation read backwards. */
  function OriginOf(op: Op): Option<Origin> {
    match op
    case FindSymbol(kind, pattern, name) =>
      if kind == "class" then Some(Origin("FindClassArgs", None, [pattern, name]))
      else if kind == "function" then Some(Origin("FindFunctionArgs", None, [pattern, name]))
      else None
    case Grep(pattern, text) => Some(Origin("FindCodeSnippetArgs", None, [pattern, text]))
    case Replace(path, oldStr, newStr) => Some(Origin("StringReplaceArgs", path, [oldStr, newStr]))
    case WriteFile(path, content) => Some(Origin("CreateFileArgs", path, [content]))
    case AppendFile(path, content) => Some(Origin("AppendStringArgs", path, [content]))
    case RunTests(files) => Some(Origin("RunTestsArgs", None, files))
    case ViewFile(_, _, _) => None
    case Noop(_) => None
    case ApplyRecordedDiff(_) => None
  }

  /** The recorded arguments that matter for a class. */
  function Arguments(cls: string, a: Args): Option<Origin> {
    var pattern := if a.filePattern != "" then a.filePattern else "**/*.py";
    var text := if a.filePattern != "" then a.filePattern else "**/*";
    if cls == "FindClassArgs" then Some(Origin(cls, None, [pattern, a.className]))
    else if cls == "FindFunctionArgs" then
      Some(Origin(cls, None, [pattern, a.functionName]))
    else if cls == "FindCodeSnippetArgs" then
      Some(Origin(cls, None, [text, a.codeSnippet]))
    else if cls == "StringReplaceArgs" then Some(Origin(cls, a.path, [a.oldStr, a.newStr]))
    else if cls == "CreateFileArgs" then Some(Origin(cls, a.path, [a.fileText]))
    else if cls == "AppendStringArgs" then Some(Origin(cls, a.path, [a.newStr]))
    else if cls == "RunTestsArgs" then Some(Origin(cls, None, a.testFiles))
    else None
  }

  /** The translation of a search, an edit or a test run loses nothing: its one
      operation tells the class and every argument that matters. */
  lemma TranslationRoundTrip(cls: string, a: Args)
    requires Arguments(cls, a).Some?
    ensures |ClassOps(cls, a)| == 1 && OriginOf(ClassOps(cls, a)[0]) == Arguments(cls, a)
  {
  }

  /** The file rows that name a file. */
  function NamedRows(files: seq<FileRow>): seq<FileRow> {
    if files == [] then [] else NamedRows(DropLast(files)) + if Last(files).filePath == "" then [] else [Last(files)]
  }

  /** A view reads the named files in order, each with its own lines. */
  lemma {:induction false} ViewOpsAt(files: seq<FileRow>)
    ensures var ops, rows := ViewOps(files), NamedRows(files);
            && |ops| == |rows|
            && forall k | 0 <= k < |ops| :: ops[k] == ViewFile(rows[k].filePath, rows[k].startLine, rows[k].endLine)
  {
    if files != [] {
      ViewOpsAt(DropLast(files));
      ViewOpsSnoc(DropLast(files), Last(files));
      assert files == DropLast(files) + [Last(files)];
    }
  }

  /** No legacy name in the action calls it mutating. */
  predicate PlainName(action: Action) {
    action.Action? && action.name.Some? ==> action.name.value !in MUTATING
  }

  lemma ActionReadsIff(action: Action)
    requires Supported(action) && PlainName(action)
    ensures AllReadOnly(ActionOps(action)) <==> !Mutates(action)
  {
    if action.Action? {
      var cls := ClassOf(action);
      ViewOpsReadOnly(action.args.files);
      if cls in {"StringReplaceArgs", "CreateFileArgs", "AppendStringArgs", "RunTestsArgs"} {
        assert !ReadOnly(ActionOps(action)[0]);
      }
    }
  }

  lemma ReadOnlyAppend(a: seq<Op>, b: seq<Op>)
    ensures AllReadOnly(a + b) <==> AllReadOnly(a) && AllReadOnly(b)
  {
    if AllReadOnly(a + b) {
      assert forall i | 0 <= i < |a| :: a[i] == (a + b)[i];
      assert forall i | 0 <= i < |b| :: b[i] == (a + b)[|a| + i];
    }
  }

  /** One step more. */
  lemma LightweightSnoc(steps: seq<Action>, x: Action)
    ensures NodeStrategy(steps + [x]).Lightweight? <==> NodeStrategy(steps).Lightweight? && !Mutates(x)
  {
    var more := steps + [x];
    assert more[|steps|] == x;
    assert forall i | 0 <= i < |steps| :: more[i] == steps[i];
  }

  /** Tagging is exact for supported actions: a node is lightweight if and only
      if all its operations only read. */
  lemma {:induction false} LightweightIffReadOnly(steps: seq<Action>)
    requires forall i | 0 <= i < |steps| :: Supported(steps[i]) && PlainName(steps[i])
    ensures NodeStrategy(steps).Lightweight? <==> AllReadOnly(NodeOps(steps))
    ensures NodeStrategy(steps).Standard? <==> !AllReadOnly(NodeOps(steps))
  {
    if steps != [] {
      var init, x := DropLast(steps), Last(steps);
      assert steps == init + [x];
      LightweightIffReadOnly(init);
      LightweightSnoc(init, x);
      ActionReadsIff(x);
      NodeOpsAppend(init, [x]);
      NodeOpsSingle(x);
      ReadOnlyAppend(NodeOps(init), ActionOps(x));
    }
  }
}
