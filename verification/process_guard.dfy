/** The process guard (checkForProcessesOpen): the manifest's `processes` entries, in order,
    against one snapshot of running process names. */
module ProcessGuard {
  import opened Wrappers
  import opened InstallTypes

  /** Entry `i` is running and no entry before it is. */
  predicate IsFirstRunning(entries: seq<ProcessConfig>, running: seq<string>, i: nat)
    requires i < |entries|
  {
    entries[i].name in running && forall j :: 0 <= j < i ==> entries[j].name !in running
  }

  /** Index of the first entry whose name is, exactly, the name of a running process. */
  function FirstRunning(entries: seq<ProcessConfig>, running: seq<string>): (r: Option<nat>)
    ensures r.Some? ==> r.value < |entries| && entries[r.value].name in running
    ensures r.Some? ==> forall j :: 0 <= j < r.value ==> entries[j].name !in running
    ensures r.None? ==> forall j :: 0 <= j < |entries| ==> entries[j].name !in running
    decreases |entries|
  {
    if |entries| == 0 then None
    else if entries[0].name in running then Some(0)
    else match FirstRunning(entries[1..], running)
      case None => None
      case Some(k) => Some(k + 1)
  }

  /** The name of the conflicting process, if any; an absent or empty list checks nothing. */
  function CheckForProcessesOpen(processes: Option<seq<ProcessConfig>>, running: seq<string>): (conflict: Option<string>)
    ensures processes.None? ==> conflict.None?
    ensures conflict.None? <==>
      processes.None? || forall i :: 0 <= i < |processes.value| ==> processes.value[i].name !in running
    ensures conflict.Some? ==> conflict.value in running
    ensures conflict.Some? ==> exists i :: 0 <= i < |processes.value| &&
                                 IsFirstRunning(processes.value, running, i) &&
                                 processes.value[i].name == conflict.value
  {
    match processes
    case None => None
    case Some(entries) =>
      if |entries| == 0 then None
      else match FirstRunning(entries, running)
        case None => None
        case Some(i) => Some(entries[i].name)
  }

  /** The message the guard's error carries. */
  function CloseMessage(name: string): string
  {
    "Please close " + name + " first!"
  }

  /** A different process name gives a different message, so the message identifies the
      process to close. */
  lemma CloseMessageNamesProcess(a: string, b: string)
    requires CloseMessage(a) == CloseMessage(b)
    ensures a == b
  {
    var prefix := "Please close ";
    assert |a| == |b|;
    assert a == CloseMessage(a)[|prefix|..|prefix| + |a|];
    assert b == CloseMessage(b)[|prefix|..|prefix| + |b|];
  }
}
