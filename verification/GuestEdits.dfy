/**
 What the guest does with the operations of an edit: the recorded arguments of
 an action, translated and executed, have the effect the action names.
 */
module GuestEdits {
  import opened Prelude
  import opened Schedule
  import opened Actions
  import opened Files

  /** The text of every file, by path. */
  type Tree = map<string, string>

  /** What test runs and the patch tool do to files, which is not modelled. */
  datatype Tools = Tools(tests: (Tree, seq<string>) -> Tree, patch: (Tree, string) -> Tree)

  // ----- Replacing text -----

  predicate OccursAt(text: string, part: string, i: nat) {
    i + |part| <= |text| && text[i..i + |part|] == part
  }

  /** The first place at or after `from` where the part occurs. */
  function FirstAt(text: string, part: string, from: nat): (r: Option<nat>)
    requires from <= |text|
    ensures r.Some? ==> from <= r.value && OccursAt(text, part, r.value)
    ensures forall i: nat | from <= i && (r.Some? ==> i < r.value) :: !OccursAt(text, part, i)
    decreases |text| - from
  {
    if OccursAt(text, part, from) then Some(from)
    else if from == |text| then None
    else FirstAt(text, part, from + 1)
  }

  function ReplaceFirst(text: string, oldStr: string, newStr: string): string {
    var at := FirstAt(text, oldStr, 0);
    if at.None? then text else text[..at.value] + newStr + text[at.value + |oldStr|..]
  }

  // ----- Operations -----

  function TextOf(files: Tree, path: string): string {
    if path in files then files[path] else ""
  }

  /** An operation that names no file, or edits one that is not there, changes nothing. */
  function Execute(tools: Tools, files: Tree, op: Op): Tree {
    match op
    case Replace(Some(path), oldStr, newStr) =>
      if path in files then files[path := ReplaceFirst(files[path], oldStr, newStr)] else files
    case WriteFile(Some(path), content) => files[path := content]
    case AppendFile(Some(path), content) => files[path := TextOf(files, path) + content]
    case RunTests(testFiles) => tools.tests(files, testFiles)
    case ApplyRecordedDiff(diff) => tools.patch(files, diff)
    case _ => files
  }

  function Guest(tools: Tools): (Tree, Op) -> Tree {
    (files: Tree, op: Op) => Execute(tools, files, op)
  }

  lemma GuestLeavesReadsAlone(tools: Tools)
    ensures LeavesReadsAlone(Guest(tools))
  {
  }

  lemma ExecuteOne(tools: Tools, files: Tree, op: Op)
    ensures ApplyAll(Guest(tools), files, [op]) == Execute(tools, files, op)
  {
    assert DropLast([op]) == [];
    assert ApplyAll(Guest(tools), files, []) == files;
  }

  // ----- Recorded edits -----

  /** The files after an action. */
  function After(tools: Tools, files: Tree, action: Action): Tree {
    ApplyAll(Guest(tools), files, ActionOps(action))
  }

  predicate Edits(action: Action, cls: string, path: string) {
    action.Action? && ClassOf(action) == cls && action.args.path == Some(path)
  }

  /** Creating a file leaves its text there, and every other file alone. */
  lemma CreateFileWrites(tools: Tools, files: Tree, action: Action, path: string)
    requires Edits(action, "CreateFileArgs", path)
    ensures After(tools, files, action) == files[path := action.args.fileText]
  {
    ExecuteOne(tools, files, WriteFile(Some(path), action.args.fileText));
  }

  lemma AppendStringAppends(tools: Tools, files: Tree, action: Action, path: string)
    requires Edits(action, "AppendStringArgs", path)
    ensures After(tools, files, action) == files[path := TextOf(files, path) + action.args.newStr]
  {
    ExecuteOne(tools, files, AppendFile(Some(path), action.args.newStr));
  }

  /** Replacing exchanges the first occurrence of the old text for the new, and
      changes nothing if there is none. */
  lemma StringReplaceEdits(tools: Tools, files: Tree, action: Action, path: string, before: string, after: string)
    requires Edits(action, "StringReplaceArgs", path) && path in files
    requires files[path] == before + action.args.oldStr + after
    requires forall i: nat | i < |before| :: !OccursAt(files[path], action.args.oldStr, i)
    ensures After(tools, files, action) == files[path := before + action.args.newStr + after]
  {
    var text, oldStr, newStr := files[path], action.args.oldStr, action.args.newStr;
    ReplaceBetween(before, oldStr, after, newStr);
    ExecuteOne(tools, files, Replace(Some(path), oldStr, newStr));
  }

  lemma ReplaceBetween(before: string, oldStr: string, after: string, newStr: string)
    requires forall i: nat | i < |before| :: !OccursAt(before + oldStr + after, oldStr, i)
    ensures ReplaceFirst(before + oldStr + after, oldStr, newStr) == before + newStr + after
  {
    var text, n := before + oldStr + after, |before|;
    assert text[n..n + |oldStr|] == oldStr;
    assert OccursAt(text, oldStr, n);
    assert FirstAt(text, oldStr, 0) == Some(n);
    assert text[..n] == before && text[n + |oldStr|..] == after;
  }

  lemma StringReplaceMisses(tools: Tools, files: Tree, action: Action, path: string)
    requires Edits(action, "StringReplaceArgs", path)
    requires path in files ==> forall i: nat :: !OccursAt(files[path], action.args.oldStr, i)
    ensures After(tools, files, action) == files
  {
    ExecuteOne(tools, files, Replace(Some(path), action.args.oldStr, action.args.newStr));
  }

  /** Steps take effect in their recorded order: a file is created and then edited. */
  lemma CreateThenReplace(tools: Tools, files: Tree, create: Action, edit: Action, path: string, before: string,
                          after: string)
    requires Edits(create, "CreateFileArgs", path) && Edits(edit, "StringReplaceArgs", path)
    requires create.args.fileText == before + edit.args.oldStr + after
    requires forall i: nat | i < |before| :: !OccursAt(create.args.fileText, edit.args.oldStr, i)
    ensures ApplyAll(Guest(tools), files, NodeOps([create, edit]))
            == files[path := before + edit.args.newStr + after]
  {
    var created := files[path := create.args.fileText];
    CreateFileWrites(tools, files, create, path);
    StringReplaceEdits(tools, created, edit, path, before, after);
    assert [create] + [edit] == [create, edit];
    StepsInOrder(Guest(tools), files, [create], edit);
    NodeOpsSingle(create);
    assert created[path := before + edit.args.newStr + after] == files[path := before + edit.args.newStr + after];
  }
}
