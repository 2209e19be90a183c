/**
 The host-policy transaction over OpenSSH files: KRL compilation, diff, apply, rollback
 (`compile_host_krls`, `compile_krl`, `host_policy_changes`, `apply_host_policy_locked` and
 `restore_host_policy_files` in src/bin/grafhome-ca.rs).
 */
module HostPolicy {
  import opened Wrappers
  import Text
  import Templates

  type Path = string

  /** File bytes: text, or a KRL by the keys it revokes (`serial` tells encodings apart). */
  datatype Content = Plain(text: string) | Krl(keys: set<string>, serial: nat)

  datatype File = File(mode: nat, content: Content)

  type FileMap = map<Path, File>

  function At(files: FileMap, path: Path): Option<File> { if path in files then Some(files[path]) else None }

  function Put(files: FileMap, path: Path, file: Option<File>): FileMap {
    match file case Some(f) => files[path := f] case None => files - {path}
  }

  lemma PutExact(files: FileMap, path: Path, file: Option<File>)
    ensures At(Put(files, path, file), path) == file
    ensures forall other :: other != path ==> At(Put(files, path, file), other) == At(files, other)
  {}

  lemma SameAtEverywhere(a: FileMap, b: FileMap)
    requires forall p :: At(a, p) == At(b, p)
    ensures a == b
  {
    forall p ensures (p in a <==> p in b) && (p in a ==> a[p] == b[p]) { assert At(a, p) == At(b, p); }
  }

  // ---- What Grafhome manages ----

  /** The fixed targets, the principals directory, and the targets holding a KRL. */
  datatype Layout = Layout(fixed: set<Path>, principals: Path, krls: set<Path>)

  predicate InDirectory(path: Path, directory: Path) {
    Text.StartsWith(path, directory + "/") && '/' !in path[|directory| + 1..]
  }

  function Managed(layout: Layout, files: FileMap, desired: FileMap): set<Path> {
    desired.Keys + layout.fixed + (set p | p in files.Keys && InDirectory(p, layout.principals))
  }

  /** The managed paths in the order the source's sorted map visits them. */
  ghost predicate Enumerates(order: seq<Path>, paths: set<Path>) {
    (forall p :: p in order <==> p in paths) && forall i, j :: 0 <= i < j < |order| ==> order[i] != order[j]
  }

  // ---- The diff ----

  datatype Change = Create | Update | Remove

  function ChangeOf(current: Option<File>, wanted: Option<File>): Option<Change> {
    match (current, wanted)
    case (None, Some(_)) => Some(Create)
    case (Some(c), Some(w)) => if c != w then Some(Update) else None
    case (Some(_), None) => Some(Remove)
    case (None, None) => None
  }

  function Changes(files: FileMap, desired: FileMap, order: seq<Path>): (r: seq<Path>)
    ensures forall p :: p in r <==> p in order && At(files, p) != At(desired, p)
  {
    if order == [] then []
    else (if ChangeOf(At(files, order[0]), At(desired, order[0])).Some? then [order[0]] else [])
         + Changes(files, desired, order[1..])
  }

  lemma {:induction false} NoChanges(files: FileMap, desired: FileMap, order: seq<Path>)
    ensures Changes(files, desired, order) == [] <==> forall p :: p in order ==> At(files, p) == At(desired, p)
  {
    if order != [] {
      NoChanges(files, desired, order[1..]);
      assert forall p :: p in order <==> p == order[0] || p in order[1..];
    }
  }

  /** What the plan calls a change: by whether the path is there before and after. */
  lemma ChangeIsLabelled(files: FileMap, desired: FileMap, p: Path)
    ensures ChangeOf(At(files, p), At(desired, p)) == Some(Create) <==> p !in files && p in desired
    ensures ChangeOf(At(files, p), At(desired, p)) == Some(Remove) <==> p in files && p !in desired
    ensures ChangeOf(At(files, p), At(desired, p)) == Some(Update) <==>
            p in files && p in desired && files[p] != desired[p]
  {}

  // ---- Applying and restoring ----

  datatype Act = Lands | Fails | DiesBefore | DiesAfter
  {
    predicate Landed() { Lands? || DiesAfter? }
  }

  datatype Ended = Succeeded | Failed | Died

  function EndOf(act: Act): Ended { match act case Lands => Succeeded case Fails => Failed case _ => Died }

  /** Bring each path to its state in `target`, stopping at the first failure. */
  function SetAll(files: FileMap, target: FileMap, paths: seq<Path>, act: Path -> Act): (FileMap, Ended)
    decreases |paths|
  {
    if paths == [] then (files, Succeeded)
    else
      var p := paths[0];
      var next := if act(p).Landed() then Put(files, p, At(target, p)) else files;
      if act(p) != Lands then (next, EndOf(act(p))) else SetAll(next, target, paths[1..], act)
  }

  /**
   Paths outside the list never change; inside it each holds the old or the target file, and all the
   target on success.
   */
  lemma {:induction false} SetAllExact(files: FileMap, target: FileMap, paths: seq<Path>, act: Path -> Act)
    ensures var (next, ended) := SetAll(files, target, paths, act);
            && (forall p :: p !in paths ==> At(next, p) == At(files, p))
            && (forall p :: p in paths ==> At(next, p) == At(files, p) || At(next, p) == At(target, p))
            && (ended == Succeeded ==> forall p :: p in paths ==> At(next, p) == At(target, p))
    decreases |paths|
  {
    if paths != [] {
      var first, rest := paths[0], paths[1..];
      PutExact(files, first, At(target, first));
      assert forall p :: p in paths <==> p == first || p in rest;
      if act(first) == Lands { SetAllExact(Put(files, first, At(target, first)), target, rest, act); }
    }
  }

  predicate AllLand(paths: seq<Path>, act: Path -> Act) { forall p :: p in paths ==> act(p) == Lands }

  /** The first write that does not land kills the run, or else reports an error. */
  predicate StopsAt(paths: seq<Path>, act: Path -> Act, dies: bool) {
    exists k ::
      0 <= k < |paths| && (if dies then act(paths[k]).DiesBefore? || act(paths[k]).DiesAfter? else act(paths[k]).Fails?)
      && forall j :: 0 <= j < k ==> act(paths[j]) == Lands
  }

  /** The first write that does not land decides how the loop ends. */
  lemma {:induction false} SetAllEnds(files: FileMap, target: FileMap, paths: seq<Path>, act: Path -> Act)
    ensures var ended := SetAll(files, target, paths, act).1;
            && (ended == Succeeded <==> AllLand(paths, act)) && (ended == Failed <==> StopsAt(paths, act, false))
            && (ended == Died <==> StopsAt(paths, act, true))
    decreases |paths|
  {
    if paths != [] {
      var first, rest := paths[0], paths[1..];
      assert forall p :: p in paths <==> p == first || p in rest;
      if act(first) == Lands {
        SetAllEnds(Put(files, first, At(target, first)), target, rest, act);
        forall dies: bool | StopsAt(rest, act, dies) ensures StopsAt(paths, act, dies) {
          var k :| 0 <= k < |rest|
            && (if dies then act(rest[k]).DiesBefore? || act(rest[k]).DiesAfter? else act(rest[k]).Fails?)
            && forall j :: 0 <= j < k ==> act(rest[j]) == Lands;
          assert paths[k + 1] == rest[k] && forall j :: 0 < j <= k ==> paths[j] == rest[j - 1];
        }
        assert AllLand(paths, act) <==> AllLand(rest, act);
        StopsOnce(paths, act);
      } else {
        assert StopsAt(paths, act, act(first) != Fails);
        StopsOnce(paths, act);
      }
    }
  }

  lemma StopsOnce(paths: seq<Path>, act: Path -> Act)
    ensures AllLand(paths, act) ==> !StopsAt(paths, act, true) && !StopsAt(paths, act, false)
    ensures !(StopsAt(paths, act, true) && StopsAt(paths, act, false))
  {
    if StopsAt(paths, act, true) {
      var i :| 0 <= i < |paths| && (act(paths[i]).DiesBefore? || act(paths[i]).DiesAfter?)
        && forall j :: 0 <= j < i ==> act(paths[j]) == Lands;
      forall k | 0 <= k < |paths| && act(paths[k]).Fails? ensures exists j :: 0 <= j < k && act(paths[j]) != Lands {
        assert i < k && act(paths[i]) != Lands;
      }
    }
  }

  datatype Check = Passes | Breaks | Kills

  /** `validate` is sshd and KRL validation with the reload; `revalidate` is the same after a rollback. */
  datatype Env = Env(apply: Path -> Act, validate: Check, restore: Path -> Act, revalidate: Check)

  datatype Outcome = AlreadyCurrent | Applied | Restored | RestoreFailed | Invalid | Dead

  function Transact(files: FileMap, desired: FileMap, order: seq<Path>, validateWhenCurrent: bool,
                    env: Env): (FileMap, Outcome) {
    var changes := Changes(files, desired, order);
    if changes == [] then
      (files, if !validateWhenCurrent || env.validate == Passes then AlreadyCurrent
        else if env.validate == Breaks then Invalid else Dead)
    else
      var (applied, ended) := SetAll(files, desired, changes, env.apply);
      if ended == Died || (ended == Succeeded && env.validate == Kills) then (applied, Dead)
      else if ended == Succeeded && env.validate == Passes then (applied, Applied)
      else
        var (restored, ended') := SetAll(applied, files, changes, env.restore);
        if ended' == Died || (ended' == Succeeded && env.revalidate == Kills) then (restored, Dead)
        else (restored, if ended' == Succeeded && env.revalidate == Passes then Restored else RestoreFailed)
  }

  /**
   Success leaves every managed path as desired, absent when not desired; a restored failure
   leaves the initial files; and on every outcome, death included, unmanaged paths are untouched
   and each managed path holds its old or its desired file.
   */
  lemma TransactionIsAtomic(files: FileMap, desired: FileMap, order: seq<Path>, validateWhenCurrent: bool, env: Env)
    ensures var (next, outcome) := Transact(files, desired, order, validateWhenCurrent, env);
            && (outcome.Applied? || outcome.AlreadyCurrent? ==> forall p :: p in order ==>
                At(next, p) == At(desired, p))
            && (outcome.Restored? || outcome.AlreadyCurrent? || outcome.Invalid? ==> next == files)
            && (forall p :: p !in order ==> At(next, p) == At(files, p))
            && (forall p :: p in order ==> At(next, p) == At(files, p) || At(next, p) == At(desired, p))
  {
    var changes := Changes(files, desired, order);
    if changes != [] {
      var (applied, ended) := SetAll(files, desired, changes, env.apply);
      SetAllExact(files, desired, changes, env.apply);
      SetAllExact(applied, files, changes, env.restore);
      var (restored, ended') := SetAll(applied, files, changes, env.restore);
      if ended' == Succeeded { SameAtEverywhere(restored, files); }
    } else {
      NoChanges(files, desired, order);
    }
  }

  // ---- KRL compilation ----

  /** The nonempty trimmed lines of a rendered key list. */
  function KeysOf(text: string): set<string>
    decreases |text|
  {
    match Text.SplitOnce(text, '\n')
    case None => LineKey(text)
    case Some((line, rest)) => LineKey(line) + KeysOf(rest)
  }

  function LineKey(line: string): set<string> { if Templates.Trim(line) == "" then {} else {Templates.Trim(line)} }

  /** `line` is one whole line of the text, between what precedes and follows it. */
  predicate IsLine(text: string, before: string, line: string, after: string) {
    && text == before + line + after && '\n' !in line
    && (before == "" || before[|before| - 1] == '\n') && (after == "" || after[0] == '\n')
  }

  /** The nonempty trimmed lines of a rendered key list are its keys. */
  lemma {:induction false} LineIsKey(text: string, before: string, line: string, after: string)
    requires IsLine(text, before, line, after) && Templates.Trim(line) != ""
    ensures Templates.Trim(line) in KeysOf(text)
    decreases |text|
  {
    if before == "" {
      assert text == line + after;
      if after == "" {
        assert text == line;
      } else {
        assert after == "\n" + after[1..];
        Text.SplitOnceFinds(line, '\n', after[1..]);
        assert text == line + "\n" + after[1..];
      }
    } else {
      assert text[|before| - 1] == '\n';
      var (first, rest) := Text.SplitOnce(text, '\n').value;
      FirstLineIsBefore(text, before, line + after, first, rest);
      var tail := before[|first| + 1..];
      assert rest == tail + (line + after);
      assert IsLine(rest, tail, line, after);
      LineIsKey(rest, tail, line, after);
    }
  }

  /** The first line of a text ends within any part of it that ends in a newline. */
  lemma FirstLineIsBefore(text: string, before: string, others: string, first: string, rest: string)
    requires text == before + others && before != "" && before[|before| - 1] == '\n'
    requires text == first + ['\n'] + rest && '\n' !in first
    ensures |first| < |before| && rest == before[|first| + 1..] + others
  {
    assert text[|before| - 1] == '\n' && forall k :: 0 <= k < |first| ==> text[k] == first[k];
    assert text[|first| + 1..] == rest;
  }

  /** One of the text's lines, trimmed. */
  ghost predicate HasLine(text: string, key: string) {
    exists before, line, after :: IsLine(text, before, line, after) && Templates.Trim(line) == key
  }

  /** The keys of a text are its trimmed lines, but for empty ones. */
  lemma KeysAreLines(text: string, key: string)
    ensures key in KeysOf(text) <==> key != "" && HasLine(text, key)
  {
    if key in KeysOf(text) { KeyIsLine(text, key); }
    if key != "" && HasLine(text, key) {
      var before, line, after :| IsLine(text, before, line, after) && Templates.Trim(line) == key;
      LineIsKey(text, before, line, after);
    }
  }

  lemma {:induction false} KeyIsLine(text: string, key: string)
    requires key in KeysOf(text)
    ensures key != "" && HasLine(text, key)
    decreases |text|
  {
    match Text.SplitOnce(text, '\n')
    case None => WholeLine(text);
    case Some((first, rest)) =>
      if key in LineKey(first) {
        FirstIsLine(text, first, rest);
      } else {
        assert key in KeysOf(rest);
        KeyIsLine(rest, key);
        LaterLines(text, first, rest, key);
      }
  }

  lemma LaterLines(text: string, first: string, rest: string, key: string)
    requires text == first + ['\n'] + rest && HasLine(rest, key)
    ensures HasLine(text, key)
  {
    var before, line, after :| IsLine(rest, before, line, after) && Templates.Trim(line) == key;
    LaterIsLine(text, first, rest, before, line, after);
  }

  lemma WholeLine(text: string)
    requires '\n' !in text
    ensures IsLine(text, "", text, "")
  {
    assert "" + text + "" == text;
  }

  lemma FirstIsLine(text: string, first: string, rest: string)
    requires text == first + ['\n'] + rest && '\n' !in first
    ensures IsLine(text, "", first, "\n" + rest)
  {
    assert "" + first + ("\n" + rest) == text;
  }

  lemma LaterIsLine(text: string, first: string, rest: string, before: string, line: string, after: string)
    requires text == first + ['\n'] + rest && IsLine(rest, before, line, after)
    ensures IsLine(text, first + "\n" + before, line, after)
  {
    assert (first + "\n" + before) + line + after == text;
  }

  /** One target's `ssh-keygen`: whether its queries and its generation work, and the new encoding. */
  datatype Tool = Tool(queries: bool, generates: bool, serial: nat)

  /** Reuse a complete valid KRL byte for byte; otherwise update it, or start afresh. */
  function CompileKrl(installed: Option<File>, text: string, tool: Tool): Option<Content> {
    var valid := installed.Some? && installed.value.content.Krl?;
    if !tool.queries then None
    else if valid && KeysOf(text) <= installed.value.content.keys then Some(installed.value.content)
    else if !tool.generates then None
    else Some(Krl((if valid then installed.value.content.keys else {}) + KeysOf(text), tool.serial))
  }

  /** A compiled KRL revokes every rendered key and every key the installed one did, and no other. */
  lemma CompileKrlExact(installed: Option<File>, text: string, tool: Tool)
    requires CompileKrl(installed, text, tool).Some?
    ensures var krl := CompileKrl(installed, text, tool).value;
            var earlier := if installed.Some? && installed.value.content.Krl? then installed.value.content.keys else {};
            krl.Krl? && krl.keys == earlier + KeysOf(text)
  {}

  /**
   A list compiles exactly when the queries work and generation does too or is not needed; a complete KRL
   is reused as it is, and any other is made anew with its own serial.
   */
  lemma KrlIsReusedExactly(installed: Option<File>, text: string, tool: Tool)
    ensures var complete := installed.Some? && installed.value.content.Krl?
                && forall key :: key != "" && HasLine(text, key) ==> key in installed.value.content.keys;
            && (CompileKrl(installed, text, tool).Some? <==> tool.queries && (tool.generates || complete))
            && (CompileKrl(installed, text, tool).Some? ==>
                  var krl := CompileKrl(installed, text, tool).value;
                  if complete then krl == installed.value.content else krl.Krl? && krl.serial == tool.serial)
  {
    forall key ensures key in KeysOf(text) <==> key != "" && HasLine(text, key) { KeysAreLines(text, key); }
  }

  /** Replace each rendered key list by its KRL. */
  function CompileAll(files: FileMap, rendered: FileMap, targets: seq<Path>, tools: Path -> Tool): Option<FileMap>
    decreases |targets|
  {
    if targets == [] then Some(rendered)
    else
      var t := targets[0];
      if t !in rendered || !rendered[t].content.Plain? then None
      else match CompileKrl(At(files, t), rendered[t].content.text, tools(t))
        case None => None
        case Some(content) => CompileAll(files, rendered[t := rendered[t].(content := content)], targets[1..], tools)
  }

  /** The KRL targets of a rendering, in map order. */
  ghost predicate Targets(layout: Layout, rendered: FileMap, targets: seq<Path>) {
    Enumerates(targets, layout.krls * rendered.Keys)
  }

  predicate Distinct(targets: seq<Path>) { forall i, j :: 0 <= i < j < |targets| ==> targets[i] != targets[j] }

  lemma DistinctTail(targets: seq<Path>)
    requires Distinct(targets) && targets != []
    ensures targets[0] !in targets[1..] && Distinct(targets[1..])
  {
    forall j | 0 <= j < |targets| - 1
      ensures targets[1..][j] != targets[0]
    {
      assert targets[1..][j] == targets[j + 1];
    }
  }

  lemma {:induction false} CompileAllExact(files: FileMap, rendered: FileMap, targets: seq<Path>, tools: Path -> Tool)
    requires Distinct(targets) && CompileAll(files, rendered, targets, tools).Some?
    ensures var desired := CompileAll(files, rendered, targets, tools).value;
            && desired.Keys == rendered.Keys
            && (forall p :: p in rendered && p !in targets ==> desired[p] == rendered[p])
            && (forall t :: t in targets ==>
                  && t in rendered && rendered[t].content.Plain? && desired[t].mode == rendered[t].mode
                  && Some(desired[t].content) == CompileKrl(At(files, t), rendered[t].content.text, tools(t)))
    decreases |targets|
  {
    if targets != [] {
      var t, rest := targets[0], targets[1..];
      var content := CompileKrl(At(files, t), rendered[t].content.text, tools(t)).value;
      DistinctTail(targets);
      CompileAllExact(files, rendered[t := rendered[t].(content := content)], rest, tools);
      assert forall p :: p in targets <==> p == t || p in rest;
    }
  }

  /** Compiling against files that already hold the compiled KRLs reuses them all. */
  lemma {:induction false} CompileAgain(files: FileMap, desired: FileMap, rendered: FileMap, targets: seq<Path>,
                                        tools: Path -> Tool)
    requires Distinct(targets) && desired.Keys == rendered.Keys
    requires forall p :: p in rendered && p !in targets ==> desired[p] == rendered[p]
    requires forall t :: t in targets ==>
        && t in rendered && rendered[t].content.Plain? && At(files, t) == Some(desired[t])
        && desired[t].mode == rendered[t].mode
        && desired[t].content.Krl? && KeysOf(rendered[t].content.text) <= desired[t].content.keys && tools(t).queries
    ensures CompileAll(files, rendered, targets, tools) == Some(desired)
    decreases |targets|
  {
    if targets == [] {
      assert desired == rendered;
    } else {
      var t, rest := targets[0], targets[1..];
      assert t in targets && forall p :: p in rest ==> p in targets;
      DistinctTail(targets);
      CompileAgain(files, desired, rendered[t := desired[t]], rest, tools);
      assert rendered[t].(content := desired[t].content) == desired[t];
    }
  }

  // ---- The whole command ----

  datatype Apply = Apply(rendered: FileMap, targets: seq<Path>, tools: Path -> Tool, order: seq<Path>, env: Env)

  datatype Result = Completed(outcome: Outcome) | NotCompiled

  function Desired(files: FileMap, a: Apply): Option<FileMap> { CompileAll(files, a.rendered, a.targets, a.tools) }

  /** The enumerations a command works with are those of its own maps. */
  ghost predicate WellOrdered(layout: Layout, files: FileMap, a: Apply) {
    && Targets(layout, a.rendered, a.targets)
    && (Desired(files, a).Some? ==> Enumerates(a.order, Managed(layout, files, Desired(files, a).value)))
  }

  function Execute(files: FileMap, a: Apply): (FileMap, Result) {
    match Desired(files, a)
    case None => (files, NotCompiled)
    case Some(desired) =>
      var (next, outcome) := Transact(files, desired, a.order, false, a.env);
      (next, Completed(outcome))
  }

  lemma ManagedAfter(layout: Layout, files: FileMap, next: FileMap, desired: FileMap, order: seq<Path>)
    requires Enumerates(order, Managed(layout, files, desired))
    requires forall p :: p !in order ==> At(next, p) == At(files, p)
    ensures Managed(layout, next, desired) <= Managed(layout, files, desired)
  {
    forall p | p in next && InDirectory(p, layout.principals) ensures p in Managed(layout, files, desired) {
      assert p !in order ==> At(next, p) == At(files, p);
    }
  }

  /** Right after a successful apply the same rendering compiles to the same files and finds no change. */
  lemma SecondApplyIsCurrent(layout: Layout, files: FileMap, a: Apply, again: Apply)
    requires WellOrdered(layout, files, a) && WellOrdered(layout, Execute(files, a).0, again)
    requires Execute(files, a).1 == Completed(Applied) || Execute(files, a).1 == Completed(AlreadyCurrent)
    requires again.rendered == a.rendered && again.targets == a.targets && forall t :: t in a.targets ==>
             again.tools(t).queries
    ensures Execute(Execute(files, a).0, again) == (Execute(files, a).0, Completed(AlreadyCurrent))
  {
    var desired, next := Desired(files, a).value, Execute(files, a).0;
    TransactionIsAtomic(files, desired, a.order, false, a.env);
    CompileAllExact(files, a.rendered, a.targets, a.tools);
    forall t | t in a.targets
      ensures At(next, t) == Some(desired[t]) && desired[t].content.Krl?
              && KeysOf(a.rendered[t].content.text) <= desired[t].content.keys
    {
      assert t in desired && t in Managed(layout, files, desired) && t in a.order;
      CompileKrlExact(At(files, t), a.rendered[t].content.text, a.tools(t));
    }
    CompileAgain(next, desired, a.rendered, a.targets, again.tools);
    ManagedAfter(layout, files, next, desired, a.order);
    forall p | p in again.order ensures At(next, p) == At(desired, p) {
      assert p in Managed(layout, next, desired);
      assert p in a.order;
    }
    NoChanges(next, desired, again.order);
  }

  /** An apply that succeeds leaves at each target a KRL that revokes every nonempty line of the rendered list. */
  lemma RenderedLinesAreRevoked(layout: Layout, files: FileMap, a: Apply, target: Path, before: string, line: string,
                                after: string)
    requires WellOrdered(layout, files, a) && target in a.targets
    requires Execute(files, a).1 == Completed(Applied) || Execute(files, a).1 == Completed(AlreadyCurrent)
    requires target in a.rendered && a.rendered[target].content.Plain?
    requires IsLine(a.rendered[target].content.text, before, line, after) && Templates.Trim(line) != ""
    ensures var next := Execute(files, a).0;
            target in next && next[target].content.Krl? && Templates.Trim(line) in next[target].content.keys
  {
    var desired := Desired(files, a).value;
    CompileAllExact(files, a.rendered, a.targets, a.tools);
    CompileKrlExact(At(files, target), a.rendered[target].content.text, a.tools(target));
    LineIsKey(a.rendered[target].content.text, before, line, after);
    TransactionIsAtomic(files, desired, a.order, false, a.env);
    assert target in Managed(layout, files, desired) && target in a.order;
  }

  /** A successful apply removes what the fixed paths and the principals directory hold unrendered, and nothing else. */
  lemma StaleFilesGo(layout: Layout, files: FileMap, a: Apply, p: Path)
    requires WellOrdered(layout, files, a) && p !in a.rendered
    requires Execute(files, a).1 == Completed(Applied) || Execute(files, a).1 == Completed(AlreadyCurrent)
    ensures var next := Execute(files, a).0;
            var listed := layout.principals + "/" <= p && '/' !in p[|layout.principals| + 1..];
            if p in layout.fixed || listed then p !in next else At(next, p) == At(files, p)
  {
    var desired := Desired(files, a).value;
    CompileAllExact(files, a.rendered, a.targets, a.tools);
    TransactionIsAtomic(files, desired, a.order, false, a.env);
    if p in a.order { assert p in Managed(layout, files, desired); }
    if p in Managed(layout, files, desired) { assert p in a.order; }
  }

  /** The changed paths were all written, or some were, and the previous files are put back. */
  predicate PutsBack(changes: seq<Path>, env: Env) {
    StopsAt(changes, env.apply, false) || (AllLand(changes, env.apply) && env.validate == Breaks)
  }

  /** Exactly when each outcome comes about; `changes` are the paths that differ. */
  lemma OutcomesExactly(files: FileMap, desired: FileMap, order: seq<Path>, validateWhenCurrent: bool, env: Env)
    ensures var outcome := Transact(files, desired, order, validateWhenCurrent, env).1;
            var changes := Changes(files, desired, order);
            if forall p :: p in order ==> At(files, p) == At(desired, p) then
              && (outcome.AlreadyCurrent? <==> (validateWhenCurrent ==> env.validate == Passes))
              && (outcome.Invalid? <==> validateWhenCurrent && env.validate == Breaks)
              && (outcome.Dead? <==> validateWhenCurrent && env.validate == Kills)
            else
              && (outcome.Applied? <==> AllLand(changes, env.apply) && env.validate == Passes)
              && (outcome.Restored? <==>
                    PutsBack(changes, env) && AllLand(changes, env.restore) && env.revalidate == Passes)
              && (outcome.RestoreFailed? <==>
                  && PutsBack(changes, env)
                  && (StopsAt(changes, env.restore, false)
                      || (AllLand(changes, env.restore) && env.revalidate == Breaks)))
              && !outcome.AlreadyCurrent? && !outcome.Invalid?
  {
    NoChanges(files, desired, order);
    var changes := Changes(files, desired, order);
    if changes != [] {
      SetAllEnds(files, desired, changes, env.apply);
      SetAllEnds(SetAll(files, desired, changes, env.apply).0, files, changes, env.restore);
      StopsOnce(changes, env.apply);
      StopsOnce(changes, env.restore);
    }
  }

  lemma {:induction false} RunSnoc(files: FileMap, applies: seq<Apply>, a: Apply)
    ensures Run(files, applies + [a]) == Execute(Run(files, applies), a).0
    decreases |applies|
  {
    if applies == [] {
      assert Run(Execute(files, a).0, []) == Execute(files, a).0;
    } else {
      assert (applies + [a])[1..] == applies[1..] + [a];
      RunSnoc(Execute(files, applies[0]).0, applies[1..], a);
    }
  }

  // ---- Revocations over runs ----

  predicate Revokes(files: FileMap, target: Path, keys: set<string>) {
    target in files && files[target].content.Krl? && keys <= files[target].content.keys
  }

  function Run(files: FileMap, applies: seq<Apply>): FileMap
    decreases |applies|
  {
    if applies == [] then files else Run(Execute(files, applies[0]).0, applies[1..])
  }

  lemma ApplyKeepsRevocations(files: FileMap, a: Apply, target: Path, keys: set<string>)
    requires Revokes(files, target, keys) && target in a.targets && Distinct(a.targets)
    ensures Revokes(Execute(files, a).0, target, keys)
  {
    if Desired(files, a).Some? {
      var desired := Desired(files, a).value;
      CompileAllExact(files, a.rendered, a.targets, a.tools);
      CompileKrlExact(At(files, target), a.rendered[target].content.text, a.tools(target));
      TransactionIsAtomic(files, desired, a.order, false, a.env);
      var next := Execute(files, a).0;
      assert At(next, target) == At(files, target) || At(next, target) == At(desired, target);
    }
  }

  /**
   A key once revoked at a target stays revoked there over every run of applies, failed and
   interrupted ones included.
   */
  lemma {:induction false} RunsKeepRevocations(files: FileMap, applies: seq<Apply>, target: Path, keys: set<string>)
    requires Revokes(files, target, keys)
    requires forall a :: a in applies ==> target in a.targets && Distinct(a.targets)
    ensures Revokes(Run(files, applies), target, keys)
    decreases |applies|
  {
    if applies != [] {
      assert applies[0] in applies;
      ApplyKeepsRevocations(files, applies[0], target, keys);
      RunsKeepRevocations(Execute(files, applies[0]).0, applies[1..], target, keys);
    }
  }

  // ---- The files of one host ----

  lemma {:induction false} ChangesSnoc(files: FileMap, desired: FileMap, order: seq<Path>, path: Path)
    ensures Changes(files, desired, order + [path]) ==
            Changes(files, desired, order) + (if ChangeOf(At(files, path), At(desired, path)).Some? then [path] else [])
  {
    var added: seq<Path> := if ChangeOf(At(files, path), At(desired, path)).Some? then [path] else [];
    if order == [] {
      assert order + [path] == [path] && [path][1..] == [] && added + [] == added == [] + added;
    } else {
      var first: seq<Path> := if ChangeOf(At(files, order[0]), At(desired, order[0])).Some? then [order[0]] else [];
      assert (order + [path])[0] == order[0] && (order + [path])[1..] == order[1..] + [path];
      ChangesSnoc(files, desired, order[1..], path);
      assert first + (Changes(files, desired, order[1..]) + added)
          == first + Changes(files, desired, order[1..]) + added;
    }
  }

  class HostFiles {
    var files: FileMap

    constructor (initial: FileMap)
      ensures files == initial
    {
      files := initial;
    }

    /** `compile_host_krls`: replace each rendered key list, target by target. */
    method CompileKrls(rendered: FileMap, targets: seq<Path>, tools: Path -> Tool) returns (r: Option<FileMap>)
      ensures r == CompileAll(files, rendered, targets, tools)
    {
      var desired := rendered;
      for i := 0 to |targets|
        invariant CompileAll(files, rendered, targets, tools) == CompileAll(files, desired, targets[i..], tools)
      {
        var target := targets[i];
        assert targets[i..][0] == target && targets[i..][1..] == targets[i + 1..];
        if target !in desired || !desired[target].content.Plain? { return None; }
        var content := CompileKrl(At(files, target), desired[target].content.text, tools(target));
        if content.None? { return None; }
        desired := desired[target := desired[target].(content := content.value)];
      }
      r := Some(desired);
    }

    /** `host_policy_changes`: the diff, path by path. */
    method Diff(desired: FileMap, order: seq<Path>) returns (changes: seq<Path>)
      ensures changes == Changes(files, desired, order)
    {
      changes := [];
      for i := 0 to |order|
        invariant changes == Changes(files, desired, order[..i])
      {
        var path := order[i];
        assert order[..i + 1] == order[..i] + [path];
        ChangesSnoc(files, desired, order[..i], path);
        if ChangeOf(At(files, path), At(desired, path)).Some? { changes := changes + [path]; }
      }
      assert order[..|order|] == order;
    }

    /** The write or removal loop; restoring is the same loop towards the previous files. */
    method SetEach(target: FileMap, paths: seq<Path>, act: Path -> Act) returns (ended: Ended)
      modifies this
      ensures (files, ended) == SetAll(old(files), target, paths, act)
    {
      for i := 0 to |paths|
        invariant SetAll(old(files), target, paths, act) == SetAll(files, target, paths[i..], act)
      {
        var path := paths[i];
        assert paths[i..][0] == path && paths[i..][1..] == paths[i + 1..];
        if act(path).Landed() {
          if path in target { files := files[path := target[path]]; } else { files := files - {path}; }
        }
        if act(path) != Lands { return EndOf(act(path)); }
      }
      ended := Succeeded;
    }

    /** The previous files of the changed paths, as the source's `previous` map records them. */
    method Remember(paths: seq<Path>) returns (previous: map<Path, Option<File>>)
      ensures previous.Keys == (set p | p in paths) && forall p :: p in paths ==> previous[p] == At(files, p)
    {
      previous := map[];
      for i := 0 to |paths|
        invariant previous.Keys == (set p | p in paths[..i]) && forall p :: p in paths[..i] ==>
                  previous[p] == At(files, p)
      {
        assert paths[..i + 1] == paths[..i] + [paths[i]];
        previous := previous[paths[i] := At(files, paths[i])];
      }
    }

    /** `apply_host_policy_locked`: diff, remember, apply and validate, or restore. */
    method ApplyLocked(desired: FileMap, order: seq<Path>, validateWhenCurrent: bool, env: Env)
      returns (outcome: Outcome)
      modifies this
      ensures (files, outcome) == Transact(old(files), desired, order, validateWhenCurrent, env)
    {
      var changes := Diff(desired, order);
      if changes == [] {
        return if !validateWhenCurrent || env.validate == Passes then AlreadyCurrent
          else if env.validate == Breaks then Invalid else Dead;
      }
      var previous := Remember(changes);
      var before := map p | p in previous && previous[p].Some? :: previous[p].value;
      var ended := SetEach(desired, changes, env.apply);
      if ended == Died { return Dead; }
      if ended == Succeeded {
        if env.validate == Kills { return Dead; }
        if env.validate == Passes { return Applied; }
      }
      RestoreFromMemory(files, old(files), before, changes, env.restore);
      var restored := SetEach(before, changes, env.restore);
      if restored == Died || (restored == Succeeded && env.revalidate == Kills) { return Dead; }
      outcome := if restored == Succeeded && env.revalidate == Passes then Restored else RestoreFailed;
    }
  }

  /** Restoring needs only the remembered paths. */
  lemma {:induction false} RestoreFromMemory(files: FileMap, initial: FileMap, before: FileMap, paths: seq<Path>,
                                             act: Path -> Act)
    requires forall p :: p in paths ==> At(before, p) == At(initial, p)
    ensures SetAll(files, before, paths, act) == SetAll(files, initial, paths, act)
    decreases |paths|
  {
    if paths != [] {
      var p := paths[0];
      assert p in paths;
      var next := if act(p).Landed() then Put(files, p, At(initial, p)) else files;
      RestoreFromMemory(next, initial, before, paths[1..], act);
    }
  }
}
