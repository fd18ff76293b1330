/**
 pkg/mustgather/mustgather.go: the run of the collectors, what each is recorded to
 have done, and the files of the bundle.

 A collector is the list of things it does to the gather, with which of its file
 operations fail, and how it ends: whatever a collector decides along the way, it
 comes down to one such list.
 */
module Gather {
  import opened Prefixes

  const TEMP_SUFFIX := ".part"

  function Temp(name: string): string { name + TEMP_SUFFIX }

  predicate IsTemp(name: string) { |name| >= |TEMP_SUFFIX| && name[|name| - |TEMP_SUFFIX|..] == TEMP_SUFFIX }

  /** The file operations of one write that fail. */
  datatype Faults = Faults(create: bool, write: bool, close: bool, rename: bool, remove: bool)

  datatype Action =
    | WriteFile(name: string, data: string, partial: string, faults: Faults)  // writeArtifactFile
    | CopyOut(name: string, data: string, fails: bool, removeFails: bool)     // a file copied out of a pod
    | Marker(name: string, data: string, fails: bool)                         // writeMarker
    | DenyExec(section: string)                                               // a refused exec, noted in the state

  datatype Ending = Fine | Skips(reason: string) | Fails(message: string)

  datatype Collector = Collector(name: string, actions: seq<Action>, ending: Ending)

  datatype Status = Unfinished | Ok | Skipped(reason: string) | Error(message: string)

  datatype CollectorStatus = CollectorStatus(name: string, status: Status, artifacts: seq<string>)

  datatype Verdict = Complete | ExecDenied(sections: seq<string>) | CollectorsFailed(names: seq<string>)

  type Files = map<string, string>

  // ----- what one action does, said of values -----

  predicate Commits(a: Action) {
    match a
    case WriteFile(_, _, _, f) => !f.create && !f.write && !f.close && !f.rename
    case CopyOut(_, _, fails, _) => !fails
    case Marker(_, _, fails) => !fails
    case DenyExec(_) => false
  }

  /** A write that was begun, went wrong, and could not be taken back. */
  predicate LeavesTemp(a: Action) {
    a.WriteFile? && !a.faults.create && !Commits(a) && a.faults.remove
  }

  /** The file an action touches while at it. */
  predicate Opens(a: Action, name: string) { a.WriteFile? && !a.faults.create && a.name == name }

  function StatusOf(e: Ending): Status {
    match e
    case Fine => Ok
    case Skips(reason) => Skipped(reason)
    case Fails(message) => Error(message)
  }

  function Committed(actions: seq<Action>): seq<string> {
    if actions == [] then []
    else
      var last := actions[|actions| - 1];
      if Commits(last) then Committed(actions[..|actions| - 1]) + [last.name] else Committed(actions[..|actions| - 1])
  }

  function Denied(actions: seq<Action>): seq<string> {
    if actions == [] then []
    else
      var last := actions[|actions| - 1];
      if last.DenyExec? then Denied(actions[..|actions| - 1]) + [last.section] else Denied(actions[..|actions| - 1])
  }

  predicate CollectsSomething(actions: seq<Action>) {
    exists a :: a in actions && Commits(a) && !a.Marker?
  }

  function AllActions(collectors: seq<Collector>): seq<Action> {
    if collectors == [] then [] else AllActions(collectors[..|collectors| - 1]) + collectors[|collectors| - 1].actions
  }

  function FailedNames(collectors: seq<Collector>): seq<string> {
    if collectors == [] then []
    else
      var last := collectors[|collectors| - 1];
      if last.ending.Fails? then FailedNames(collectors[..|collectors| - 1]) + [last.name]
      else FailedNames(collectors[..|collectors| - 1])
  }

  /** The last result with one more artifact, and with its status. */
  function Indexed(results: seq<CollectorStatus>, name: string): seq<CollectorStatus> {
    if results == [] then []
    else
      var last := results[|results| - 1];
      results[..|results| - 1] + [last.(artifacts := last.artifacts + [name])]
  }

  function Ended(results: seq<CollectorStatus>, status: Status): seq<CollectorStatus> {
    if results == [] then [] else results[..|results| - 1] + [results[|results| - 1].(status := status)]
  }

  function StatusFor(c: Collector): CollectorStatus {
    CollectorStatus(c.name, StatusOf(c.ending), Committed(c.actions))
  }

  /** One status per collector, in the order of the registry. */
  function Statuses(collectors: seq<Collector>): seq<CollectorStatus> {
    seq(|collectors|, i requires 0 <= i < |collectors| => StatusFor(collectors[i]))
  }

  // ----- the gatherer -----

  class Gatherer {
    var results: seq<CollectorStatus>
    var current: bool           // whether the last of the results is being collected
    var collected: bool
    var execDenied: seq<string>
    var files: Files

    constructor ()
      ensures results == [] && !current && !collected && execDenied == [] && files == map[]
    {
      results, current, collected, execDenied, files := [], false, false, [], map[];
    }

    ghost predicate Collecting(name: string, before: seq<CollectorStatus>, artifacts: seq<string>)
      reads this
    {
      current && results == before + [CollectorStatus(name, Unfinished, artifacts)]
    }

    method Begin(name: string)
      modifies `results, `current
      ensures Collecting(name, old(results), [])
    {
      results := results + [CollectorStatus(name, Unfinished, [])];
      current := true;
    }

    method End(status: Status)
      requires current ==> results != []
      modifies `results, `current
      ensures !current
      ensures results == if old(current) then Ended(old(results), status) else old(results)
    {
      if current {
        results := results[|results| - 1 := results[|results| - 1].(status := status)];
        current := false;
      }
    }

    method IndexArtifact(name: string)
      requires current ==> results != []
      modifies `results
      ensures results == if current then Indexed(old(results), name) else old(results)
    {
      if current {
        var last := results[|results| - 1];
        results := results[|results| - 1 := last.(artifacts := last.artifacts + [name])];
      }
    }

    method RecordArtifact(name: string)
      requires current ==> results != []
      modifies `results, `collected
      ensures collected
      ensures results == if current then Indexed(old(results), name) else old(results)
    {
      collected := true;
      IndexArtifact(name);
    }

    method Remove(name: string, fails: bool)
      modifies `files
      ensures files == if fails then old(files) else old(files) - {name}
    {
      if !fails { files := files - {name}; }
    }

    /** A file lands under a temporary name and is renamed into place, recorded only
        then; a write that goes wrong is taken back. */
    method WriteArtifactFile(a: Action) returns (ok: bool)
      requires a.WriteFile? && current && results != []
      modifies `results, `collected, `files
      ensures ok == Commits(a) && files == FilesAfter(old(files), a)
      ensures collected == (old(collected) || ok)
      ensures results == if ok then Indexed(old(results), a.name) else old(results)
    {
      if a.faults.create { return false; }
      files := files[Temp(a.name) := ""];
      if a.faults.write {
        files := files[Temp(a.name) := a.partial];
        Remove(Temp(a.name), a.faults.remove);
        return false;
      }
      files := files[Temp(a.name) := a.data];
      if a.faults.close || a.faults.rename {
        Remove(Temp(a.name), a.faults.remove);
        return false;
      }
      files := (files - {Temp(a.name)})[a.name := a.data];
      RecordArtifact(a.name);
      return true;
    }

    method Perform(a: Action)
      requires current && results != []
      modifies this
      ensures current
      ensures files == FilesAfter(old(files), a)
      ensures collected == (old(collected) || (Commits(a) && !a.Marker?))
      ensures execDenied == old(execDenied) + if a.DenyExec? then [a.section] else []
      ensures results == if Commits(a) then Indexed(old(results), a.name) else old(results)
    {
      match a {
        case WriteFile(_, _, _, _) =>
          var _ := WriteArtifactFile(a);
        case CopyOut(name, data, fails, removeFails) =>
          files := files[name := data];
          if fails {
            Remove(name, removeFails);
          } else {
            RecordArtifact(name);
          }
        case Marker(name, data, fails) =>
          if !fails {
            files := files[name := data];
            IndexArtifact(name);
          }
        case DenyExec(section) =>
          execDenied := execDenied + [section];
      }
    }

    method RunCollector(c: Collector)
      modifies this
      ensures !current
      ensures results == old(results) + [StatusFor(c)]
      ensures files == FilesAfterAll(old(files), c.actions)
      ensures collected == (old(collected) || CollectsSomething(c.actions))
      ensures execDenied == old(execDenied) + Denied(c.actions)
    {
      Begin(c.name);
      ghost var before := old(results);
      for i := 0 to |c.actions|
        invariant Collecting(c.name, before, Committed(c.actions[..i]))
        invariant files == FilesAfterAll(old(files), c.actions[..i])
        invariant collected == (old(collected) || CollectsSomething(c.actions[..i]))
        invariant execDenied == old(execDenied) + Denied(c.actions[..i])
      {
        PrefixSnoc(c.actions, i);
        if !c.actions[i].DenyExec? { IndexedLast(before, c.name, Committed(c.actions[..i]), c.actions[i]); }
        Perform(c.actions[i]);
      }
      WholePrefix(c.actions);
      End(StatusOf(c.ending));
    }

    /** A collector that fails does not stop the ones behind it. */
    method Collect(collectors: seq<Collector>) returns (verdict: Verdict)
      requires results == [] && !collected && execDenied == []
      modifies this
      ensures results == Statuses(collectors)
      ensures files == FilesAfterAll(old(files), AllActions(collectors))
      ensures collected <==> CollectsSomething(AllActions(collectors))
      ensures verdict ==
        if Denied(AllActions(collectors)) != [] then ExecDenied(Denied(AllActions(collectors)))
        else if FailedNames(collectors) != [] then CollectorsFailed(FailedNames(collectors))
        else Complete
    {
      var failed: seq<string> := [];
      for i := 0 to |collectors|
        invariant results == Statuses(collectors[..i])
        invariant files == FilesAfterAll(old(files), AllActions(collectors[..i]))
        invariant collected <==> CollectsSomething(AllActions(collectors[..i]))
        invariant execDenied == Denied(AllActions(collectors[..i]))
        invariant failed == FailedNames(collectors[..i])
      {
        var c := collectors[i];
        OneCollectorMore(collectors, i, old(files));
        RunCollector(c);
        if c.ending.Fails? { failed := failed + [c.name]; }
      }
      WholePrefix(collectors);
      if |execDenied| > 0 { return ExecDenied(execDenied); }
      if |failed| > 0 { return CollectorsFailed(failed); }
      return Complete;
    }
  }

  lemma IndexedLast(before: seq<CollectorStatus>, name: string, artifacts: seq<string>, a: Action)
    requires !a.DenyExec?
    ensures Indexed(before + [CollectorStatus(name, Unfinished, artifacts)], a.name) ==
      before + [CollectorStatus(name, Unfinished, artifacts + [a.name])]
  {}

  /** What one more collector adds to the record. */
  lemma OneCollectorMore(collectors: seq<Collector>, i: nat, files: Files)
    requires i < |collectors|
    ensures Statuses(collectors[..i + 1]) == Statuses(collectors[..i]) + [StatusFor(collectors[i])]
    ensures FilesAfterAll(files, AllActions(collectors[..i + 1])) ==
      FilesAfterAll(FilesAfterAll(files, AllActions(collectors[..i])), collectors[i].actions)
    ensures CollectsSomething(AllActions(collectors[..i + 1])) <==>
      CollectsSomething(AllActions(collectors[..i])) || CollectsSomething(collectors[i].actions)
    ensures Denied(AllActions(collectors[..i + 1])) == Denied(AllActions(collectors[..i])) + Denied(collectors[i].actions)
    ensures FailedNames(collectors[..i + 1]) ==
      FailedNames(collectors[..i]) + if collectors[i].ending.Fails? then [collectors[i].name] else []
  {
    var before, actions := AllActions(collectors[..i]), collectors[i].actions;
    PrefixSnoc(collectors, i);
    assert AllActions(collectors[..i + 1]) == before + actions;
    FilesAfterAppend(files, before, actions);
    DeniedAppend(before, actions);
    CollectsAppend(before, actions);
  }

  lemma CollectsAppend(a: seq<Action>, b: seq<Action>)
    ensures CollectsSomething(a + b) <==> CollectsSomething(a) || CollectsSomething(b)
  {
    assert forall x :: x in a + b <==> x in a || x in b;
  }

  lemma {:induction false} DeniedAppend(a: seq<Action>, b: seq<Action>)
    ensures Denied(a + b) == Denied(a) + Denied(b)
  {
    if b == [] {
      assert a + b == a;
    } else {
      DeniedAppend(a, b[..|b| - 1]);
      assert (a + b)[..|a + b| - 1] == a + b[..|b| - 1];
    }
  }

  /** The gather reports success exactly when no collector failed and no exec was
      refused. */
  lemma {:induction false} CompleteExactlyWhen(collectors: seq<Collector>)
    ensures FailedNames(collectors) == [] <==> forall c :: c in collectors ==> !c.ending.Fails?
    ensures Denied(AllActions(collectors)) == [] <==> forall c, a :: c in collectors && a in c.actions ==> !a.DenyExec?
  {
    if collectors != [] {
      var init, last := collectors[..|collectors| - 1], collectors[|collectors| - 1];
      assert collectors == init + [last];
      CompleteExactlyWhen(init);
      DeniedAppend(AllActions(init), last.actions);
      DeniedExactlyWhen(last.actions);
    }
  }

  lemma {:induction false} DeniedExactlyWhen(actions: seq<Action>)
    ensures Denied(actions) == [] <==> forall a :: a in actions ==> !a.DenyExec?
  {
    if actions != [] {
      DeniedExactlyWhen(actions[..|actions| - 1]);
      assert actions == actions[..|actions| - 1] + [actions[|actions| - 1]];
    }
  }

  // ----- the record, spelt out -----

  /** How a collector ended is what its status says. */
  lemma StatusInWords(collectors: seq<Collector>, i: nat)
    requires i < |collectors|
    ensures var s := Statuses(collectors)[i];
      && s.name == collectors[i].name && s.status != Unfinished
      && (s.status == Ok <==> collectors[i].ending == Fine)
      && (forall reason :: s.status == Skipped(reason) <==> collectors[i].ending == Skips(reason))
      && (forall message :: s.status == Error(message) <==> collectors[i].ending == Fails(message))
  {}

  /** The action puts its artifact into the bundle: nothing goes wrong on the way. */
  ghost predicate Done(a: Action) {
    || (a.WriteFile? && !a.faults.create && !a.faults.write && !a.faults.close && !a.faults.rename)
    || (a.CopyOut? && !a.fails)
    || (a.Marker? && !a.fails)
  }

  ghost predicate PutBy(actions: seq<Action>, name: string) { exists a :: a in actions && Done(a) && a.name == name }

  /** A status lists exactly what was put into the bundle while its collector ran. */
  lemma {:induction false} CommittedInWords(actions: seq<Action>)
    ensures forall name :: name in Committed(actions) <==> PutBy(actions, name)
  {
    if actions != [] {
      var init, last := actions[..|actions| - 1], actions[|actions| - 1];
      CommittedInWords(init);
      assert actions == init + [last];
      forall name ensures PutBy(actions, name) <==> (Done(last) && last.name == name) || PutBy(init, name) {
        if a :| a in init && Done(a) && a.name == name { assert a in actions; }
        assert last in actions;
      }
    }
  }

  /** The sections a gather names as refused are those that were, in order. */
  lemma {:induction false} DeniedInWords(actions: seq<Action>)
    ensures forall section :: section in Denied(actions) <==> DenyExec(section) in actions
  {
    if actions != [] {
      DeniedInWords(actions[..|actions| - 1]);
      assert actions == actions[..|actions| - 1] + [actions[|actions| - 1]];
    }
  }

  /** And the collectors it names as failed. */
  lemma {:induction false} FailedInWords(collectors: seq<Collector>)
    ensures forall name :: name in FailedNames(collectors) <==> exists c :: c in collectors && c.name == name && c.ending.Fails?
  {
    if collectors != [] {
      var init, last := collectors[..|collectors| - 1], collectors[|collectors| - 1];
      FailedInWords(init);
      assert collectors == init + [last];
    }
  }

  /** Something was collected exactly when a file was written or copied out; markers do not
      count. */
  lemma CollectedInWords(actions: seq<Action>)
    ensures CollectsSomething(actions) <==> exists a :: a in actions && Done(a) && !a.Marker?
  {
    if a :| a in actions && Done(a) && !a.Marker? { assert Commits(a); }
    if a :| a in actions && Commits(a) && !a.Marker? { assert Done(a); }
  }

  // ----- the files of the bundle -----

  function FilesAfter(files: Files, a: Action): Files {
    match a
    case WriteFile(name, data, partial, f) =>
      if f.create then files
      else if Commits(a) then (files - {Temp(name)})[name := data]
      else if f.remove then files[Temp(name) := if f.write then partial else data]
      else files - {Temp(name)}
    case CopyOut(name, data, fails, removeFails) =>
      if fails && !removeFails then files - {name} else files[name := data]
    case Marker(name, data, fails) => if fails then files else files[name := data]
    case DenyExec(_) => files
  }

  function FilesAfterAll(files: Files, actions: seq<Action>): Files {
    if actions == [] then files
    else FilesAfter(FilesAfterAll(files, actions[..|actions| - 1]), actions[|actions| - 1])
  }

  lemma {:induction false} FilesAfterAppend(files: Files, a: seq<Action>, b: seq<Action>)
    ensures FilesAfterAll(files, a + b) == FilesAfterAll(FilesAfterAll(files, a), b)
  {
    if b == [] {
      assert a + b == a;
    } else {
      FilesAfterAppend(files, a, b[..|b| - 1]);
      assert (a + b)[..|a + b| - 1] == a + b[..|b| - 1];
    }
  }

  lemma TempIsTemp(name: string)
    ensures IsTemp(Temp(name)) && Temp(name) != name
  {
    assert Temp(name)[|name|..] == TEMP_SUFFIX;
  }

  lemma TempInWords(name: string)
    ensures Temp(name) == name + ".part"
    ensures IsTemp(name) <==> exists stem :: name == stem + ".part"
  {
    if IsTemp(name) { assert name == name[..|name| - 5] + ".part"; }
    if stem :| name == stem + ".part" { assert name[|name| - 5..] == ".part"; }
  }

  lemma TempInjective(a: string, b: string)
    requires Temp(a) == Temp(b)
    ensures a == b
  {
    assert Temp(a)[..|a|] == a && Temp(b)[..|b|] == b;
  }

  ghost predicate NamesArtifacts(actions: seq<Action>) {
    forall a :: a in actions && !a.DenyExec? ==> !IsTemp(a.name)
  }

  /** An unfinished file is there in the end exactly when a write of it could not be
      taken back and no later write of it so much as opened it. */
  lemma {:induction false} UnfinishedExactlyWhen(actions: seq<Action>, name: string)
    requires NamesArtifacts(actions)
    ensures Temp(name) in FilesAfterAll(map[], actions) <==>
      exists i :: 0 <= i < |actions| && LeavesTemp(actions[i]) && actions[i].name == name
        && forall j :: i < j < |actions| ==> !Opens(actions[j], name)
  {
    if actions != [] {
      var n := |actions| - 1;
      var init, last := actions[..n], actions[n];
      assert actions == init + [last];
      UnfinishedExactlyWhen(init, name);
      TempIsTemp(name);
      if last.WriteFile? && Temp(last.name) == Temp(name) { TempInjective(last.name, name); }
      if Opens(last, name) {
        if LeavesTemp(last) { assert LeavesTemp(actions[n]); }
      } else {
        assert Temp(name) in FilesAfterAll(map[], actions) <==> Temp(name) in FilesAfterAll(map[], init);
        if i :| 0 <= i < |init| && LeavesTemp(init[i]) && init[i].name == name && forall j :: i < j < |init| ==> !Opens(init[j], name) {
          assert actions[i] == init[i] && forall j :: i < j < |actions| ==> !Opens(actions[j], name);
        }
        if i :| 0 <= i < |actions| && LeavesTemp(actions[i]) && actions[i].name == name && forall j :: i < j < |actions| ==> !Opens(actions[j], name) {
          assert i < n && init[i] == actions[i];
          assert forall j :: i < j < n ==> init[j] == actions[j];
        }
      }
    }
  }

  /** When removing works, no unfinished file survives the run. */
  lemma NoUnfinishedFile(actions: seq<Action>, name: string)
    requires NamesArtifacts(actions)
    requires forall a :: a in actions && a.WriteFile? ==> !a.faults.remove
    ensures Temp(name) !in FilesAfterAll(map[], actions)
  {
    UnfinishedExactlyWhen(actions, name);
  }

  /** What was committed and not copied over, marked over or taken back since is in
      the bundle as it was written. */
  lemma {:induction false} CommittedStays(actions: seq<Action>, i: nat)
    requires NamesArtifacts(actions) && i < |actions| && Commits(actions[i])
    requires forall j :: i < j < |actions| && !actions[j].DenyExec? ==> actions[j].name != actions[i].name
    ensures actions[i].name in FilesAfterAll(map[], actions)
    ensures FilesAfterAll(map[], actions)[actions[i].name] == actions[i].data
  {
    var n := |actions| - 1;
    var init, last := actions[..n], actions[n];
    assert actions == init + [last];
    if i < n {
      assert init[i] == actions[i];
      CommittedStays(init, i);
      if last.WriteFile? { TempIsTemp(last.name); }
      assert actions[i] in actions;
    }
  }
}
