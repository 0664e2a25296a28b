/** The two operation interpreters (installOperation, uninstallOperation). Each walks its list
    strictly in order; the filesystem reached so far is returned even when a step fails, since
    nothing already applied is rolled back. */
module Operations {
  import opened Wrappers
  import opened InstallTypes
  import Paths

  datatype OpFailure = CopyFailed(source: Path) | ExtractFailed(archive: Path, reason: string)

  /** The state an operation list leaves behind: filesystem, effects in order, and the error
      that stopped it, if any. */
  datatype Exec = Exec(fs: FileSystem, log: seq<Effect>, failure: Option<OpFailure>)

  /** `${dir}\${name}` */
  function Under(dir: Path, name: string): Path
  {
    dir + "\\" + name
  }

  predicate IsInstallAction(action: string)
  {
    action == "copy" || action == "run"
  }

  predicate IsUninstallAction(action: string)
  {
    action == "delete" || action == "run"
  }

  /** One step of installOperation. A copy copies `parent\file` to `destination\file` and, for a
      zip/tar/gz file, then extracts the working copy into `destination\file`; a run opens
      `parent\file`; any other action does nothing. */
  function InstallStep(host: Host, parent: Path, op: Operation, fs: FileSystem): Exec
  {
    var fileName := host.resolve(op.source);
    var temp := Under(parent, fileName);
    if op.action == "copy" then
      var dest := Under(host.resolve(op.destination), fileName);
      if temp !in fs then Exec(fs, [], Some(CopyFailed(temp)))
      else
        var copied := fs[dest := fs[temp]];
        if Paths.IsArchive(Paths.GetExtension(fileName)) then
          match host.extract(copied, temp, dest)
          case Ok(extracted) => Exec(extracted, [Copied(temp, dest), Extracted(temp, dest)], None)
          case Err(reason) => Exec(copied, [Copied(temp, dest)], Some(ExtractFailed(temp, reason)))
        else Exec(copied, [Copied(temp, dest)], None)
    else if op.action == "run" then Exec(fs, [Opened(temp)], None)
    else Exec(fs, [], None)
  }

  /** installOperation: the steps in list order, stopping at the first failure. */
  function InstallOperations(host: Host, parent: Path, ops: seq<Operation>, fs: FileSystem): (e: Exec)
    ensures (forall i :: 0 <= i < |ops| ==> !IsInstallAction(ops[i].action)) ==> e == Exec(fs, [], None)
    ensures e.failure.Some? ==> exists i :: 0 <= i < |ops| && ops[i].action == "copy"
    decreases |ops|
  {
    if |ops| == 0 then Exec(fs, [], None)
    else
      var first := InstallStep(host, parent, ops[0], fs);
      if first.failure.Some? then first
      else
        var rest := InstallOperations(host, parent, ops[1..], first.fs);
        assert forall i :: 0 <= i < |ops| - 1 ==> ops[1..][i] == ops[i + 1];
        Exec(rest.fs, first.log + rest.log, rest.failure)
  }

  /** One step of uninstallOperation. A delete removes the resolved file itself (not a file in
      the working directory) and a missing file is silently accepted; a run opens
      `parent\file`; any other action does nothing. */
  function UninstallStep(host: Host, parent: Path, op: Operation, fs: FileSystem): Exec
  {
    var fileName := host.resolve(op.source);
    if op.action == "delete" then
      if fileName in fs then Exec(fs - {fileName}, [Deleted(fileName)], None)
      else Exec(fs, [], None)
    else if op.action == "run" then Exec(fs, [Opened(Under(parent, fileName))], None)
    else Exec(fs, [], None)
  }

  /** uninstallOperation: the steps in list order. No step can fail, so neither can the list. */
  function UninstallOperations(host: Host, parent: Path, ops: seq<Operation>, fs: FileSystem): (e: Exec)
    ensures e.failure.None?
    ensures (forall i :: 0 <= i < |ops| ==> !IsUninstallAction(ops[i].action)) ==> e == Exec(fs, [], None)
    decreases |ops|
  {
    if |ops| == 0 then Exec(fs, [], None)
    else
      var first := UninstallStep(host, parent, ops[0], fs);
      var rest := UninstallOperations(host, parent, ops[1..], first.fs);
      assert forall i :: 0 <= i < |ops| - 1 ==> ops[1..][i] == ops[i + 1];
      Exec(rest.fs, first.log + rest.log, None)
  }

  /** Running `b` after `a` from where `a` left off, unless `a` failed. */
  function AndThen(ea: Exec, eb: Exec): Exec
  {
    if ea.failure.Some? then ea else Exec(eb.fs, ea.log + eb.log, eb.failure)
  }

  /** `AndThen` is associative. */
  lemma AndThenAssociative(e1: Exec, e2: Exec, e3: Exec)
    ensures AndThen(e1, AndThen(e2, e3)) == AndThen(AndThen(e1, e2), e3)
  {
    if e1.failure.None? && e2.failure.None? {
      assert e1.log + (e2.log + e3.log) == (e1.log + e2.log) + e3.log;
    }
  }

  /** A non-empty install list is its first step followed by the rest. */
  lemma InstallOperationsCons(host: Host, parent: Path, ops: seq<Operation>, fs: FileSystem)
    requires |ops| > 0
    ensures var first := InstallStep(host, parent, ops[0], fs);
      InstallOperations(host, parent, ops, fs) == AndThen(first, InstallOperations(host, parent, ops[1..], first.fs))
  {
  }

  /** Install lists run strictly in order: the list `a + b` is `a`, then (only if `a`
      succeeded) `b` started on the filesystem `a` left. */
  lemma {:induction false} InstallOperationsAppend(host: Host, parent: Path, a: seq<Operation>, b: seq<Operation>, fs: FileSystem)
    ensures var ea := InstallOperations(host, parent, a, fs);
      InstallOperations(host, parent, a + b, fs) == AndThen(ea, InstallOperations(host, parent, b, ea.fs))
    decreases |a|
  {
    if |a| == 0 {
      assert a + b == b;
    } else {
      assert (a + b)[0] == a[0];
      assert (a + b)[1..] == a[1..] + b;
      var first := InstallStep(host, parent, a[0], fs);
      InstallOperationsCons(host, parent, a + b, fs);
      InstallOperationsCons(host, parent, a, fs);
      InstallOperationsAppend(host, parent, a[1..], b, first.fs);
      var ea' := InstallOperations(host, parent, a[1..], first.fs);
      AndThenAssociative(first, ea', InstallOperations(host, parent, b, ea'.fs));
    }
  }

  /** A non-empty uninstall list is its first step followed by the rest. */
  lemma UninstallOperationsCons(host: Host, parent: Path, ops: seq<Operation>, fs: FileSystem)
    requires |ops| > 0
    ensures var first := UninstallStep(host, parent, ops[0], fs);
      first.failure.None? &&
      UninstallOperations(host, parent, ops, fs) == AndThen(first, UninstallOperations(host, parent, ops[1..], first.fs))
  {
  }

  /** Uninstall lists run strictly in order: the list `a + b` is `a`, then `b` started on the
      filesystem `a` left, with the effects of `a` first. */
  lemma {:induction false} UninstallOperationsAppend(host: Host, parent: Path, a: seq<Operation>, b: seq<Operation>, fs: FileSystem)
    ensures var ea := UninstallOperations(host, parent, a, fs);
      var eb := UninstallOperations(host, parent, b, ea.fs);
      UninstallOperations(host, parent, a + b, fs) == Exec(eb.fs, ea.log + eb.log, None)
    decreases |a|
  {
    if |a| == 0 {
      assert a + b == b;
    } else {
      assert (a + b)[0] == a[0];
      assert (a + b)[1..] == a[1..] + b;
      var first := UninstallStep(host, parent, a[0], fs);
      UninstallOperationsCons(host, parent, a + b, fs);
      UninstallOperationsCons(host, parent, a, fs);
      UninstallOperationsAppend(host, parent, a[1..], b, first.fs);
      var ea' := UninstallOperations(host, parent, a[1..], first.fs);
      var eb := UninstallOperations(host, parent, b, ea'.fs);
      AndThenAssociative(first, ea', eb);
    }
  }

  /** The first failing install step stops the list: its error is the list's error, the
      filesystem is the one that step left, and no later step runs. */
  lemma InstallStopsAtFailure(host: Host, parent: Path, ops: seq<Operation>, i: nat, fs: FileSystem)
    requires i < |ops|
    requires InstallOperations(host, parent, ops[..i], fs).failure.None?
    requires InstallStep(host, parent, ops[i], InstallOperations(host, parent, ops[..i], fs).fs).failure.Some?
    ensures var before := InstallOperations(host, parent, ops[..i], fs);
      var step := InstallStep(host, parent, ops[i], before.fs);
      InstallOperations(host, parent, ops, fs) == Exec(step.fs, before.log + step.log, step.failure)
  {
    var before := InstallOperations(host, parent, ops[..i], fs);
    InstallOperationsAppend(host, parent, ops[..i], ops[i..], fs);
    assert ops[..i] + ops[i..] == ops;
    assert ops[i..][0] == ops[i];
  }

  /** The install list keeping only its copy and run entries. */
  function InstallActions(ops: seq<Operation>): (kept: seq<Operation>)
    ensures forall i :: 0 <= i < |kept| ==> IsInstallAction(kept[i].action)
    decreases |ops|
  {
    if |ops| == 0 then []
    else if IsInstallAction(ops[0].action) then [ops[0]] + InstallActions(ops[1..])
    else InstallActions(ops[1..])
  }

  /** Unknown actions are skipped: an install list behaves exactly like its copy/run entries. */
  lemma {:induction false} InstallIgnoresUnknownActions(host: Host, parent: Path, ops: seq<Operation>, fs: FileSystem)
    ensures InstallOperations(host, parent, ops, fs) == InstallOperations(host, parent, InstallActions(ops), fs)
    decreases |ops|
  {
    if |ops| > 0 {
      var first := InstallStep(host, parent, ops[0], fs);
      if IsInstallAction(ops[0].action) {
        var kept := [ops[0]] + InstallActions(ops[1..]);
        assert kept[0] == ops[0] && kept[1..] == InstallActions(ops[1..]);
        if first.failure.None? {
          InstallIgnoresUnknownActions(host, parent, ops[1..], first.fs);
        }
      } else {
        assert first == Exec(fs, [], None);
        InstallIgnoresUnknownActions(host, parent, ops[1..], fs);
      }
    }
  }

  /** The uninstall list keeping only its delete and run entries. */
  function UninstallActions(ops: seq<Operation>): (kept: seq<Operation>)
    ensures forall i :: 0 <= i < |kept| ==> IsUninstallAction(kept[i].action)
    decreases |ops|
  {
    if |ops| == 0 then []
    else if IsUninstallAction(ops[0].action) then [ops[0]] + UninstallActions(ops[1..])
    else UninstallActions(ops[1..])
  }

  /** Unknown actions are skipped: an uninstall list behaves exactly like its delete/run entries. */
  lemma {:induction false} UninstallIgnoresUnknownActions(host: Host, parent: Path, ops: seq<Operation>, fs: FileSystem)
    ensures UninstallOperations(host, parent, ops, fs) == UninstallOperations(host, parent, UninstallActions(ops), fs)
    decreases |ops|
  {
    if |ops| > 0 {
      var first := UninstallStep(host, parent, ops[0], fs);
      if IsUninstallAction(ops[0].action) {
        var kept := [ops[0]] + UninstallActions(ops[1..]);
        assert kept[0] == ops[0] && kept[1..] == UninstallActions(ops[1..]);
        UninstallIgnoresUnknownActions(host, parent, ops[1..], first.fs);
      } else {
        assert first == Exec(fs, [], None);
        UninstallIgnoresUnknownActions(host, parent, ops[1..], fs);
      }
    }
  }

  /** A copy of a file that is not an archive copies it and does nothing else. */
  lemma CopyPlainFile(host: Host, parent: Path, op: Operation, fs: FileSystem)
    requires op.action == "copy"
    requires Under(parent, host.resolve(op.source)) in fs
    requires !Paths.IsArchive(Paths.GetExtension(host.resolve(op.source)))
    ensures var fileName := host.resolve(op.source);
      var temp := Under(parent, fileName);
      var dest := Under(host.resolve(op.destination), fileName);
      InstallStep(host, parent, op, fs) == Exec(fs[dest := fs[temp]], [Copied(temp, dest)], None)
  {
  }

  /** A copy of a zip/tar/gz file extracts it into the destination after copying; when the
      extraction fails the copy stays in place and the step fails. */
  lemma CopyArchive(host: Host, parent: Path, op: Operation, fs: FileSystem)
    requires op.action == "copy"
    requires Under(parent, host.resolve(op.source)) in fs
    requires Paths.IsArchive(Paths.GetExtension(host.resolve(op.source)))
    ensures var fileName := host.resolve(op.source);
      var temp := Under(parent, fileName);
      var dest := Under(host.resolve(op.destination), fileName);
      var copied := fs[dest := fs[temp]];
      var e := InstallStep(host, parent, op, fs);
      match host.extract(copied, temp, dest)
      case Ok(extracted) => e == Exec(extracted, [Copied(temp, dest), Extracted(temp, dest)], None)
      case Err(reason) => e == Exec(copied, [Copied(temp, dest)], Some(ExtractFailed(temp, reason)))
  {
  }

  /** Deleting a missing file is no error and changes nothing. */
  lemma DeleteMissingFile(host: Host, parent: Path, op: Operation, fs: FileSystem)
    requires op.action == "delete" && host.resolve(op.source) !in fs
    ensures UninstallStep(host, parent, op, fs) == Exec(fs, [], None)
  {
  }

  predicate AllDeletes(ops: seq<Operation>)
  {
    forall i :: 0 <= i < |ops| ==> ops[i].action == "delete"
  }

  /** The files a delete list names, once resolved. */
  function DeleteTargets(host: Host, ops: seq<Operation>): set<Path>
    decreases |ops|
  {
    if |ops| == 0 then {} else {host.resolve(ops[0].source)} + DeleteTargets(host, ops[1..])
  }

  /** A delete-only uninstall list removes exactly the files it names, whether they exist or not. */
  lemma {:induction false} DeletesRemoveTargets(host: Host, parent: Path, ops: seq<Operation>, fs: FileSystem)
    requires AllDeletes(ops)
    ensures UninstallOperations(host, parent, ops, fs).fs == fs - DeleteTargets(host, ops)
    decreases |ops|
  {
    if |ops| > 0 {
      var t := host.resolve(ops[0].source);
      var first := UninstallStep(host, parent, ops[0], fs);
      assert first.fs == fs - {t};
      assert AllDeletes(ops[1..]) by {
        forall i | 0 <= i < |ops| - 1 ensures ops[1..][i].action == "delete" {
          assert ops[1..][i] == ops[i + 1];
        }
      }
      DeletesRemoveTargets(host, parent, ops[1..], first.fs);
      assert (fs - {t}) - DeleteTargets(host, ops[1..]) == fs - DeleteTargets(host, ops);
    }
  }

  /** Delete-only uninstall lists are idempotent: a second run also succeeds and leaves the
      same filesystem as the first. */
  lemma DeletesIdempotent(host: Host, parent: Path, ops: seq<Operation>, fs: FileSystem)
    requires AllDeletes(ops)
    ensures var first := UninstallOperations(host, parent, ops, fs);
      var second := UninstallOperations(host, parent, ops, first.fs);
      first.failure.None? && second.failure.None? && second.fs == first.fs
  {
    var first := UninstallOperations(host, parent, ops, fs);
    DeletesRemoveTargets(host, parent, ops, fs);
    DeletesRemoveTargets(host, parent, ops, first.fs);
    assert (fs - DeleteTargets(host, ops)) - DeleteTargets(host, ops) == fs - DeleteTargets(host, ops);
  }
}
