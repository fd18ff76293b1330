/**
 pkg/mustgather/redact.go: the rewrite of a bundle directory, in which any step may
 fail, and what is left when one does.

 Which operations fail is given. Every change of the directory is recorded in a ghost
 trace, so that what holds "at every step" can be said.
 */
module RedactDirectory {
  import opened Prefixes
  import opened Sorting

  const MANIFEST := "manifest.json"
  const PRIVATE_MODE: nat := 384

  datatype Entry = File(bytes: string, mode: nat) | Link | Dir

  /** What redactContent makes of some bytes: it rewrites them, it cannot and the file
      goes, or it fails. */
  datatype Outcome = Rewritten(bytes: string) | Unrewritable | Broken

  /** One run's redaction: the rewrite of contents and the rename of files. */
  datatype Redaction = Redaction(content: string -> Outcome, rename: string -> string)

  /** The operations on one file that fail: reading its mode for the listing and again to
      rewrite it, reading it, the steps of its temporary file, which holds `written` when
      the write breaks off, taking that one back, and removing the file itself. */
  datatype Faults = Faults(
    info: bool, stat: bool, read: bool, create: bool, write: bool, written: string, close: bool, chmod: bool,
    rename: bool, undo: bool, remove: bool)

  /** The faults of a run: of the listing, of each file, and of the discard after it. */
  datatype Troubles = Troubles(readDir: bool, file: string -> Faults, discardDir: bool, sticks: string -> bool)

  type Listing = map<string, Entry>

  /** The shape of the temporary names: ".<name>.redacting-<random>". */
  predicate IsTempName(n: string) {
    exists i, j :: 0 < i <= j <= |n| && n == "." + n[1..i] + ".redacting-" + n[j..]
  }

  function TempName(name: string, suffix: string): string { "." + name + ".redacting-" + suffix }

  lemma TempNamesAreTemp(name: string, suffix: string)
    ensures IsTempName(TempName(name, suffix))
  {
    var n := TempName(name, suffix);
    var i, j := 1 + |name|, 1 + |name| + |".redacting-"|;
    assert n[1..i] == name && n[j..] == suffix;
  }

  lemma TempNamesInWords(n: string)
    ensures IsTempName(n) <==> exists name, suffix :: n == "." + name + ".redacting-" + suffix
  {
    if name, suffix :| n == "." + name + ".redacting-" + suffix { TempNamesAreTemp(name, suffix); }
    if i, j :| 0 < i <= j <= |n| && n == "." + n[1..i] + ".redacting-" + n[j..] {
      assert exists name, suffix :: n == "." + name + ".redacting-" + suffix by {
        var name, suffix := n[1..i], n[j..];
        assert n == "." + name + ".redacting-" + suffix;
      }
    }
  }

  lemma {:induction false} LengthsAreBounded(keys: set<string>) returns (longest: nat)
    ensures forall k :: k in keys ==> |k| <= longest
    decreases keys
  {
    if keys == {} { return 0; }
    var k :| k in keys;
    longest := LengthsAreBounded(keys - {k});
    if |k| > longest { longest := |k|; }
  }

  /** There is always a temporary name that is not taken. */
  lemma FreeSuffix(keys: set<string>, name: string)
    ensures exists suffix :: TempName(name, suffix) !in keys
  {
    var longest := LengthsAreBounded(keys);
    var suffix := seq(longest, i => '0');
    assert |TempName(name, suffix)| > longest;
  }

  /** A directory, and every listing it has had. */
  class Directory {
    var entries: Listing
    ghost var trace: seq<Listing>

    ghost predicate Valid() reads this { trace != [] && trace[|trace| - 1] == entries }

    constructor (initial: Listing)
      ensures Valid() && entries == initial && trace == [initial]
    {
      entries := initial;
      trace := [initial];
    }

    method Set(now: Listing)
      requires Valid()
      modifies this
      ensures Valid() && entries == now && trace == old(trace) + [now]
    {
      entries := now;
      trace := trace + [now];
    }

    /** A file that does not exist is not removed, and that is not a failure here. */
    method Remove(name: string, fails: bool)
      requires Valid()
      modifies this
      ensures Valid()
      ensures !fails ==> entries == old(entries) - {name} && trace == old(trace) + [entries]
      ensures fails ==> entries == old(entries) && trace == old(trace)
    {
      if !fails { Set(entries - {name}); }
    }
  }

  ghost predicate Extends(longer: seq<Listing>, shorter: seq<Listing>) {
    |shorter| <= |longer| && longer[..|shorter|] == shorter
  }

  // ----- one file -----

  /** The listing with the entry under its final name in place of the file. */
  function Moved(now: Listing, name: string, final: string, entry: Entry): Listing {
    now[final := entry] - if final != name then {name} else {}
  }

  /** The listing while a file is rewritten: all as it was, but for a temporary file that
      was not there before; or the rewritten file in place, the old one still beside it
      or gone. */
  ghost predicate OnTheWay(now: Listing, before: Listing, name: string, final: string, rewritten: Entry) {
    || (exists tmp :: IsTempName(tmp) && tmp !in before && now - {tmp} == before)
    || now == before[final := rewritten]
    || now == Moved(before, name, final, rewritten)
  }

  ghost predicate Steps(trace: seq<Listing>, since: nat, before: Listing, name: string, final: string, rewritten: Entry) {
    forall i :: since <= i < |trace| ==> OnTheWay(trace[i], before, name, final, rewritten)
  }

  /** Every listing since the given point is the one before and the temporary file. */
  ghost predicate TempOnly(trace: seq<Listing>, since: nat, before: Listing, tmp: string) {
    tmp !in before && forall i :: since <= i < |trace| ==> trace[i] - {tmp} == before
  }

  method SetTemp(d: Directory, tmp: string, entry: Entry, ghost since: nat, ghost before: Listing)
    requires d.Valid() && TempOnly(d.trace, since, before, tmp) && d.entries - {tmp} == before
    modifies d
    ensures d.Valid() && Extends(d.trace, old(d.trace)) && TempOnly(d.trace, since, before, tmp)
    ensures d.entries == before[tmp := entry]
  {
    assert d.entries[tmp := entry] == before[tmp := entry] by { SameBut(d.entries, before, tmp, entry); }
    assert before[tmp := entry] - {tmp} == before;
    d.Set(d.entries[tmp := entry]);
  }

  lemma SameBut(a: Listing, b: Listing, k: string, entry: Entry)
    requires a - {k} == b && k !in b
    ensures a[k := entry] == b[k := entry]
  {
    forall n | n in a && n != k ensures n in b && b[n] == a[n] { assert n in a - {k}; }
  }

  method UndoTemp(d: Directory, tmp: string, fails: bool, ghost since: nat, ghost before: Listing)
    requires d.Valid() && TempOnly(d.trace, since, before, tmp) && d.entries - {tmp} == before
    modifies d
    ensures d.Valid() && Extends(d.trace, old(d.trace)) && TempOnly(d.trace, since, before, tmp)
  {
    assert d.entries - {tmp} - {tmp} == before;
    d.Remove(tmp, fails);
  }

  predicate TempWorks(f: Faults) { !f.write && !f.close && !f.chmod }

  /** The temporary file is written, closed and given its mode; a failure takes it
      back, as far as that works. */
  method FillTemp(d: Directory, tmp: string, data: string, mode: nat, f: Faults) returns (ok: bool)
    requires d.Valid() && tmp !in d.entries
    modifies d
    ensures d.Valid() && Extends(d.trace, old(d.trace))
    ensures ok <==> TempWorks(f)
    ensures TempOnly(d.trace, |old(d.trace)|, old(d.entries), tmp)
    ensures ok ==> d.entries == old(d.entries)[tmp := File(data, mode)]
  {
    ghost var since, before := |d.trace|, d.entries;
    assert d.entries - {tmp} == before;
    SetTemp(d, tmp, File("", PRIVATE_MODE), since, before);
    assert d.entries - {tmp} == before;
    SetTemp(d, tmp, File(if f.write then f.written else data, PRIVATE_MODE), since, before);
    assert d.entries - {tmp} == before;
    if f.write || f.close || f.chmod {
      UndoTemp(d, tmp, f.undo, since, before);
      return false;
    }
    SetTemp(d, tmp, File(data, mode), since, before);
    return true;
  }

  predicate WriteWorks(f: Faults, name: string, final: string) {
    !f.create && TempWorks(f) && !f.rename && (final != name ==> !f.remove)
  }

  method WriteThenRename(d: Directory, name: string, final: string, data: string, mode: nat, f: Faults) returns (ok: bool)
    requires d.Valid() && name in d.entries
    modifies d
    ensures d.Valid() && Extends(d.trace, old(d.trace))
    ensures ok <==> WriteWorks(f, name, final)
    ensures Steps(d.trace, |old(d.trace)|, old(d.entries), name, final, File(data, mode))
    ensures ok ==> d.entries == Moved(old(d.entries), name, final, File(data, mode))
  {
    ghost var since, before, rewritten := |d.trace|, d.entries, File(data, mode);
    if f.create { return false; }
    FreeSuffix(d.entries.Keys, name);
    var suffix: string :| TempName(name, suffix) !in d.entries.Keys;
    var tmp := TempName(name, suffix);
    TempNamesAreTemp(name, suffix);
    ok := FillTemp(d, tmp, data, mode, f);
    TempIsOnTheWay(d.trace, since, before, tmp, name, final, rewritten);
    if !ok { return; }
    if f.rename {
      assert d.entries - {tmp} == before;
      UndoTemp(d, tmp, f.undo, since, before);
      TempIsOnTheWay(d.trace, since, before, tmp, name, final, rewritten);
      return false;
    }
    assert (d.entries - {tmp})[final := d.entries[tmp]] == before[final := rewritten];
    d.Set((d.entries - {tmp})[final := d.entries[tmp]]);
    if final != name {
      d.Remove(name, f.remove);
      ok := !f.remove;
    }
  }

  lemma TempIsOnTheWay(trace: seq<Listing>, since: nat, before: Listing, tmp: string, name: string, final: string, rewritten: Entry)
    requires IsTempName(tmp) && TempOnly(trace, since, before, tmp)
    ensures Steps(trace, since, before, name, final, rewritten)
  {}

  datatype Dropped = Dropped(path: string)

  /** No step of one file fails, and its content can be dealt with. */
  predicate FileWorks(f: Faults, outcome: Outcome, name: string, final: string) {
    !f.stat && !f.read && match outcome
      case Broken => false
      case Unrewritable => !f.remove
      case Rewritten(_) => WriteWorks(f, name, final)
  }

  method RedactFile(d: Directory, r: Redaction, name: string, dropped0: seq<Dropped>, f: Faults) returns (ok: bool, dropped: seq<Dropped>)
    requires d.Valid() && name in d.entries && d.entries[name].File?
    modifies d
    ensures d.Valid() && Extends(d.trace, old(d.trace))
    ensures ok <==> FileWorks(f, r.content(old(d.entries)[name].bytes), name, r.rename(name))
    ensures !ok ==> dropped == dropped0
    ensures match r.content(old(d.entries)[name].bytes)
      case Rewritten(data) =>
        var rewritten := File(data, old(d.entries)[name].mode);
        && Steps(d.trace, |old(d.trace)|, old(d.entries), name, r.rename(name), rewritten)
        && (ok ==> dropped == dropped0 && d.entries == Moved(old(d.entries), name, r.rename(name), rewritten))
      case Unrewritable =>
        if ok then dropped == dropped0 + [Dropped(r.rename(name))] && d.entries == old(d.entries) - {name} && d.trace == old(d.trace) + [d.entries]
        else d.entries == old(d.entries) && d.trace == old(d.trace)
      case Broken => d.entries == old(d.entries) && d.trace == old(d.trace)
  {
    dropped := dropped0;
    if f.stat || f.read { return false, dropped; }
    var raw := d.entries[name];
    match r.content(raw.bytes) {
      case Broken => return false, dropped;
      case Unrewritable =>
        d.Remove(name, f.remove);
        ok := !f.remove;
        if ok { dropped := dropped + [Dropped(r.rename(name))]; }
      case Rewritten(data) =>
        ok := WriteThenRename(d, name, r.rename(name), data, raw.mode, f);
    }
  }

  /** Each of the steps matters, and only the ones that are taken do: a file whose content
      is rewritten under another name takes them all, one that is dropped only its removal,
      and a content that fails is never dealt with. */
  lemma WorksInWords(f: Faults, name: string, final: string, data: string)
    ensures FileWorks(f, Rewritten(data), name, final) <==>
      !(f.stat || f.read || f.create || f.write || f.close || f.chmod || f.rename || (final != name && f.remove))
    ensures FileWorks(f, Unrewritable, name, final) <==> !(f.stat || f.read || f.remove)
    ensures !FileWorks(f, Broken, name, final)
  {}

  // ----- the whole directory -----

  /** The names a redaction works on: the regular files but the manifest. */
  ghost predicate Subject(before: Listing, n: string) { n in before && before[n].File? && n != MANIFEST }

  /** No two files end under one name, and none under the name of another. */
  ghost predicate NamesKeepApart(before: Listing, r: Redaction) {
    && (forall m, n :: Subject(before, m) && Subject(before, n) && r.rename(m) == r.rename(n) ==> m == n)
    && (forall m :: Subject(before, m) && r.rename(m) != m ==> r.rename(m) !in before)
  }

  /** What becomes of one file's content. */
  function OutcomeOf(before: Listing, r: Redaction, n: string): Outcome {
    if n in before && before[n].File? then r.content(before[n].bytes) else Broken
  }

  ghost predicate Rewrites(before: Listing, r: Redaction, n: string) {
    Subject(before, n) && OutcomeOf(before, r, n).Rewritten?
  }

  ghost function NewEntry(before: Listing, r: Redaction, n: string): Entry
    requires Rewrites(before, r, n)
  {
    File(OutcomeOf(before, r, n).bytes, before[n].mode)
  }

  /** The listing once the files in done are dealt with: the others as they were, the
      rewrites under their new names, and nothing else. */
  ghost predicate After(now: Listing, before: Listing, r: Redaction, done: set<string>) {
    && (forall n :: n in before && n !in done ==> n in now && now[n] == before[n])
    && (forall m :: m in done && Rewrites(before, r, m) ==> r.rename(m) in now && now[r.rename(m)] == NewEntry(before, r, m))
    && (forall n :: n in now ==> (n in before && n !in done) || exists m :: m in done && Rewrites(before, r, m) && r.rename(m) == n)
  }

  /** The files that were dealt with could be. */
  ghost predicate Finished(before: Listing, r: Redaction, done: set<string>) {
    forall m :: m in done ==> Subject(before, m) && !OutcomeOf(before, r, m).Broken?
  }

  /** Whatever is there is wholly old or wholly rewritten; a temporary file under way is
      neither. */
  ghost predicate Sound(now: Listing, before: Listing, r: Redaction) {
    forall n :: n in now && !IsTempName(n) ==>
      (n in before && now[n] == before[n]) || exists m :: Rewrites(before, r, m) && r.rename(m) == n && now[n] == NewEntry(before, r, m)
  }

  /** A file is there as it was, or rewritten under its redacted name, or cannot be
      rewritten and is gone. */
  ghost predicate Survives(now: Listing, before: Listing, r: Redaction, n: string) {
    || (n in before && n in now && now[n] == before[n])
    || (Rewrites(before, r, n) && r.rename(n) in now && now[r.rename(n)] == NewEntry(before, r, n))
    || (Subject(before, n) && OutcomeOf(before, r, n).Unrewritable? && (n !in now || IsTempName(n)))
  }

  /** No file is lost, and no entry that is not worked on is touched. */
  ghost predicate Kept(now: Listing, before: Listing, r: Redaction) {
    && (forall n :: n in before && !Subject(before, n) ==> n in now && now[n] == before[n])
    && (forall n :: Subject(before, n) ==> Survives(now, before, r, n))
  }

  ghost predicate Atomic(now: Listing, before: Listing, r: Redaction) { Sound(now, before, r) && Kept(now, before, r) }

  ghost predicate AlwaysAtomic(trace: seq<Listing>, before: Listing, r: Redaction) {
    forall i :: 0 <= i < |trace| ==> Atomic(trace[i], before, r)
  }

  /** The same in words: in every listing of a redaction the manifest, links and directories
      are as they were, and a regular file is as it was, or has its rewritten bytes and old
      mode under its new name, or cannot be rewritten and is gone. */
  lemma NothingIsLost(now: Listing, before: Listing, r: Redaction, n: string)
    requires Atomic(now, before, r) && n in before
    ensures before[n].File? && n != "manifest.json" ==>
      || (n in now && now[n] == before[n])
      || (match r.content(before[n].bytes)
          case Rewritten(data) => r.rename(n) in now && now[r.rename(n)] == File(data, before[n].mode)
          case Unrewritable => n !in now || IsTempName(n)
          case Broken => false)
    ensures !before[n].File? || n == "manifest.json" ==> n in now && now[n] == before[n]
  {
    if Subject(before, n) { assert Survives(now, before, r, n); }
  }

  lemma AfterIsSound(now: Listing, before: Listing, r: Redaction, done: set<string>)
    requires After(now, before, r, done)
    ensures Sound(now, before, r)
  {
    forall n | n in now && !IsTempName(n)
      ensures (n in before && now[n] == before[n]) ||
        exists m :: Rewrites(before, r, m) && r.rename(m) == n && now[n] == NewEntry(before, r, m)
    {
      if !(n in before && n !in done) {
        var m :| m in done && Rewrites(before, r, m) && r.rename(m) == n;
        assert now[r.rename(m)] == NewEntry(before, r, m);
      }
    }
  }

  lemma AfterIsKept(now: Listing, before: Listing, r: Redaction, done: set<string>)
    requires After(now, before, r, done) && NamesKeepApart(before, r) && Finished(before, r, done)
    ensures Kept(now, before, r)
  {
    forall n | Subject(before, n) && n in done && !Rewrites(before, r, n) ensures n !in now {
      forall m | m in done && Rewrites(before, r, m) ensures r.rename(m) != n { EarlierStays(before, r, n, m); }
    }
  }

  /** A temporary file on top changes nothing. */
  lemma TempStaysAtomic(next: Listing, now: Listing, before: Listing, r: Redaction, tmp: string)
    requires Atomic(now, before, r) && IsTempName(tmp) && tmp !in now && next - {tmp} == now
    ensures Atomic(next, before, r)
  {
    forall n | n in now ensures n in next && next[n] == now[n] { assert n in next - {tmp}; }
    forall n | n in next && n != tmp ensures n in now && now[n] == next[n] { assert n in next - {tmp}; }
    forall n | Subject(before, n) ensures Survives(next, before, r, n) { assert Survives(now, before, r, n); }
  }

  /** The rewritten file under a name of its own, its old name kept or not, is one of
      the two things a file may become. */
  lemma RewriteStaysSound(next: Listing, now: Listing, before: Listing, r: Redaction, n: string)
    requires Sound(now, before, r) && Rewrites(before, r, n)
    requires forall x :: x in next && x != r.rename(n) ==> x in now && next[x] == now[x]
    requires r.rename(n) in next && next[r.rename(n)] == NewEntry(before, r, n)
    ensures Sound(next, before, r)
  {}

  lemma RewriteStaysKept(next: Listing, now: Listing, before: Listing, r: Redaction, n: string)
    requires Kept(now, before, r) && NamesKeepApart(before, r) && Rewrites(before, r, n)
    requires next == now[r.rename(n) := NewEntry(before, r, n)] || next == Moved(now, n, r.rename(n), NewEntry(before, r, n))
    ensures Kept(next, before, r)
  {
    forall m | m in before && !Subject(before, m) ensures m in next && next[m] == before[m] {
      assert m != n && m != r.rename(n) && m in now;
    }
    forall m | Subject(before, m) ensures Survives(next, before, r, m) { SurvivesRewrite(next, now, before, r, n, m); }
  }

  lemma SurvivesRewrite(next: Listing, now: Listing, before: Listing, r: Redaction, n: string, m: string)
    requires Subject(before, m) && Survives(now, before, r, m) && NamesKeepApart(before, r) && Rewrites(before, r, n)
    requires next == now[r.rename(n) := NewEntry(before, r, n)] || next == Moved(now, n, r.rename(n), NewEntry(before, r, n))
    ensures Survives(next, before, r, m)
  {
    if m != n { EarlierStays(before, r, n, m); }
  }

  /** What another file ended as is not touched. */
  lemma EarlierStays(before: Listing, r: Redaction, n: string, m: string)
    requires NamesKeepApart(before, r) && Subject(before, n) && Subject(before, m) && m != n
    ensures r.rename(m) != n && r.rename(m) != r.rename(n) && m != r.rename(n)
  {}

  lemma StepsStayAtomic(trace: seq<Listing>, since: nat, now: Listing, before: Listing, r: Redaction, n: string)
    requires Atomic(now, before, r) && NamesKeepApart(before, r) && Rewrites(before, r, n)
    requires Steps(trace, since, now, n, r.rename(n), NewEntry(before, r, n))
    ensures forall i :: since <= i < |trace| ==> Atomic(trace[i], before, r)
  {
    forall i | since <= i < |trace| ensures Atomic(trace[i], before, r) {
      assert OnTheWay(trace[i], now, n, r.rename(n), NewEntry(before, r, n));
      if tmp :| IsTempName(tmp) && tmp !in now && trace[i] - {tmp} == now {
        TempStaysAtomic(trace[i], now, before, r, tmp);
      } else {
        RewriteStaysKept(trace[i], now, before, r, n);
        RewriteStaysSound(trace[i], now, before, r, n);
      }
    }
  }

  /** What the rewrites done so far ended as is not touched by the next one. */
  lemma EarlierRewritesStay(now: Listing, before: Listing, r: Redaction, done: set<string>, n: string)
    requires After(now, before, r, done) && NamesKeepApart(before, r)
    requires n !in done && Subject(before, n)
    requires forall m :: m in done ==> Subject(before, m)
    ensures forall m :: m in done && Rewrites(before, r, m) ==>
      r.rename(m) != n && r.rename(m) != r.rename(n) && r.rename(m) in now && now[r.rename(m)] == NewEntry(before, r, m)
  {
    forall m | m in done && Rewrites(before, r, m) ensures r.rename(m) != n && r.rename(m) != r.rename(n) {
      assert Subject(before, m) && m != n;
    }
  }

  lemma NothingElse(now: Listing, next: Listing, before: Listing, r: Redaction, done: set<string>, n: string)
    requires After(now, before, r, done) && n !in done
    requires forall x :: x in next ==> (x in now && x != n) || (Rewrites(before, r, n) && x == r.rename(n))
    ensures forall x :: x in next ==>
      (x in before && x !in done + {n}) || exists m :: m in done + {n} && Rewrites(before, r, m) && r.rename(m) == x
  {
    forall x | x in next
      ensures (x in before && x !in done + {n}) || exists m :: m in done + {n} && Rewrites(before, r, m) && r.rename(m) == x
    {
      if Rewrites(before, r, n) && x == r.rename(n) {
        assert n in done + {n};
      } else if !(x in before && x !in done) {
        var m :| m in done && Rewrites(before, r, m) && r.rename(m) == x;
        assert m in done + {n};
      }
    }
  }

  lemma OneMoreRewritten(now: Listing, before: Listing, r: Redaction, done: set<string>, n: string)
    requires After(now, before, r, done) && NamesKeepApart(before, r)
    requires n !in done && Rewrites(before, r, n)
    requires forall m :: m in done ==> Subject(before, m)
    ensures After(Moved(now, n, r.rename(n), NewEntry(before, r, n)), before, r, done + {n})
  {
    var next := Moved(now, n, r.rename(n), NewEntry(before, r, n));
    RewritesThere(now, before, r, done, n);
    UntouchedThere(now, before, r, done, n);
    NothingElse(now, next, before, r, done, n);
  }

  lemma RewritesThere(now: Listing, before: Listing, r: Redaction, done: set<string>, n: string)
    requires After(now, before, r, done) && NamesKeepApart(before, r)
    requires n !in done && Rewrites(before, r, n)
    requires forall m :: m in done ==> Subject(before, m)
    ensures var next := Moved(now, n, r.rename(n), NewEntry(before, r, n));
      forall m :: m in done + {n} && Rewrites(before, r, m) ==> r.rename(m) in next && next[r.rename(m)] == NewEntry(before, r, m)
  {
    EarlierRewritesStay(now, before, r, done, n);
  }

  lemma UntouchedThere(now: Listing, before: Listing, r: Redaction, done: set<string>, n: string)
    requires After(now, before, r, done) && NamesKeepApart(before, r) && Rewrites(before, r, n)
    ensures var next := Moved(now, n, r.rename(n), NewEntry(before, r, n));
      forall m :: m in before && m !in done + {n} ==> m in next && next[m] == before[m]
  {
    assert r.rename(n) == n || r.rename(n) !in before;
  }

  lemma OneMoreDropped(now: Listing, before: Listing, r: Redaction, done: set<string>, n: string)
    requires After(now, before, r, done) && NamesKeepApart(before, r)
    requires n !in done && Subject(before, n) && !Rewrites(before, r, n)
    requires forall m :: m in done ==> Subject(before, m)
    ensures After(now - {n}, before, r, done + {n})
  {
    RewritesStay(now, before, r, done, n);
    NothingElse(now, now - {n}, before, r, done, n);
  }

  lemma RewritesStay(now: Listing, before: Listing, r: Redaction, done: set<string>, n: string)
    requires After(now, before, r, done) && NamesKeepApart(before, r)
    requires n !in done && Subject(before, n) && !Rewrites(before, r, n)
    requires forall m :: m in done ==> Subject(before, m)
    ensures forall m :: m in done + {n} && Rewrites(before, r, m) ==>
      r.rename(m) in now - {n} && (now - {n})[r.rename(m)] == NewEntry(before, r, m)
  {
    EarlierRewritesStay(now, before, r, done, n);
  }

  /** The names the listing yields: a file whose mode cannot be read is passed over. */
  ghost function Listed(before: Listing, t: Troubles): set<string> {
    set n | n in before && Subject(before, n) && !t.file(n).info
  }

  method ListFiles(d: Directory, t: Troubles) returns (ok: bool, files: seq<string>)
    requires d.Valid()
    ensures ok <==> !t.readDir
    ensures ok ==> Lists(files, Listed(d.entries, t))
  {
    if t.readDir { return false, []; }
    var names := SortedKeys(d.entries.Keys);
    files := [];
    for i := 0 to |names|
      invariant Distinct(files) && Sorted(files, StrLe)
      invariant forall n :: n in files <==> n in Listed(d.entries, t) && n in names[..i]
    {
      PrefixSnoc(names, i);
      assert names[i] in names;
      assert names[i] !in names[..i];
      if t.file(names[i]).info || !d.entries[names[i]].File? || names[i] == MANIFEST { continue; }
      forall k | 0 <= k < |files| ensures StrLe(files[k], names[i]) {
        assert files[k] in files;
        var j :| 0 <= j < i && names[j] == files[k];
      }
      files := files + [names[i]];
    }
    WholePrefix(names);
    return true, files;
  }

  ghost function DroppedOf(files: seq<string>, before: Listing, r: Redaction): seq<Dropped> {
    if files == [] then []
    else
      var last := files[|files| - 1];
      if OutcomeOf(before, r, last).Unrewritable?
      then DroppedOf(files[..|files| - 1], before, r) + [Dropped(r.rename(last))]
      else DroppedOf(files[..|files| - 1], before, r)
  }

  ghost predicate Works(before: Listing, r: Redaction, t: Troubles, n: string) {
    FileWorks(t.file(n), OutcomeOf(before, r, n), n, r.rename(n))
  }

  /** One file more of a bundle some files of which are done. */
  method RedactNext(d: Directory, r: Redaction, name: string, dropped0: seq<Dropped>, t: Troubles, ghost before: Listing, ghost done: set<string>)
    returns (ok: bool, dropped: seq<Dropped>)
    requires d.Valid() && AlwaysAtomic(d.trace, before, r) && NamesKeepApart(before, r)
    requires After(d.entries, before, r, done) && Finished(before, r, done)
    requires name !in done && Subject(before, name)
    modifies d
    ensures d.Valid() && AlwaysAtomic(d.trace, before, r)
    ensures ok <==> Works(before, r, t, name)
    ensures ok ==> After(d.entries, before, r, done + {name}) && Finished(before, r, done + {name})
    ensures ok ==> dropped == dropped0 + if OutcomeOf(before, r, name).Unrewritable? then [Dropped(r.rename(name))] else []
  {
    ghost var now, trace := d.entries, d.trace;
    assert now[name] == before[name];
    ok, dropped := RedactFile(d, r, name, dropped0, t.file(name));
    NextIsAtomic(d.trace, trace, d.entries, now, before, r, done, name, ok);
  }

  /** One file dealt with, or the attempt broken off. */
  ghost predicate Attempt(trace: seq<Listing>, earlier: seq<Listing>, next: Listing, now: Listing, before: Listing, r: Redaction, n: string, ok: bool) {
    && Extends(trace, earlier)
    && (if Rewrites(before, r, n) then Steps(trace, |earlier|, now, n, r.rename(n), NewEntry(before, r, n))
        else trace == if ok then earlier + [next] else earlier)
    && (ok ==> !OutcomeOf(before, r, n).Broken? && DealtWith(next, now, before, r, n))
  }

  lemma NextIsAtomic(trace: seq<Listing>, earlier: seq<Listing>, next: Listing, now: Listing, before: Listing, r: Redaction,
                     done: set<string>, n: string, ok: bool)
    requires AlwaysAtomic(earlier, before, r) && Attempt(trace, earlier, next, now, before, r, n, ok)
    requires After(now, before, r, done) && NamesKeepApart(before, r) && Finished(before, r, done)
    requires n !in done && Subject(before, n)
    ensures AlwaysAtomic(trace, before, r)
    ensures ok ==> After(next, before, r, done + {n}) && Finished(before, r, done + {n})
  {
    if ok {
      OneMoreDone(next, now, before, r, done, n);
      FinishedIsAtomic(next, before, r, done + {n});
    }
    if Rewrites(before, r, n) { KeepAtomic(trace, earlier, now, before, r, done, n); }
  }

  /** What dealing with one file leaves of a listing. */
  ghost predicate DealtWith(next: Listing, now: Listing, before: Listing, r: Redaction, n: string) {
    next == if Rewrites(before, r, n) then Moved(now, n, r.rename(n), NewEntry(before, r, n)) else now - {n}
  }

  lemma OneMoreDone(next: Listing, now: Listing, before: Listing, r: Redaction, done: set<string>, n: string)
    requires After(now, before, r, done) && NamesKeepApart(before, r) && Finished(before, r, done)
    requires n !in done && Subject(before, n) && !OutcomeOf(before, r, n).Broken? && DealtWith(next, now, before, r, n)
    ensures After(next, before, r, done + {n}) && Finished(before, r, done + {n})
  {
    if Rewrites(before, r, n) { OneMoreRewritten(now, before, r, done, n); } else { OneMoreDropped(now, before, r, done, n); }
  }

  lemma FinishedIsAtomic(now: Listing, before: Listing, r: Redaction, done: set<string>)
    requires After(now, before, r, done) && NamesKeepApart(before, r) && Finished(before, r, done)
    ensures Atomic(now, before, r)
  {
    AfterIsSound(now, before, r, done);
    AfterIsKept(now, before, r, done);
  }

  lemma KeepAtomic(trace: seq<Listing>, earlier: seq<Listing>, now: Listing, before: Listing, r: Redaction, done: set<string>, n: string)
    requires Extends(trace, earlier) && AlwaysAtomic(earlier, before, r)
    requires After(now, before, r, done) && NamesKeepApart(before, r) && Finished(before, r, done)
    requires Rewrites(before, r, n)
    requires Steps(trace, |earlier|, now, n, r.rename(n), NewEntry(before, r, n))
    ensures AlwaysAtomic(trace, before, r)
  {
    FinishedIsAtomic(now, before, r, done);
    StepsStayAtomic(trace, |earlier|, now, before, r, n);
    forall i | 0 <= i < |trace| ensures Atomic(trace[i], before, r) {
      if i < |earlier| { assert trace[i] == earlier[i]; }
    }
  }

  function Names(files: seq<string>): set<string> { set n | n in files }

  lemma NextName(files: seq<string>, i: nat)
    requires i < |files| && Distinct(files)
    ensures files[i] in files && files[i] !in Names(files[..i])
    ensures Names(files[..i + 1]) == Names(files[..i]) + {files[i]}
    ensures forall n :: n in files[..i] ==> n in files
    ensures forall n :: n in files[..i + 1] ==> n in files[..i] || n == files[i]
  {
    PrefixSnoc(files, i);
  }

  lemma DroppedSnoc(files: seq<string>, i: nat, before: Listing, r: Redaction)
    requires i < |files|
    ensures DroppedOf(files[..i + 1], before, r) == DroppedOf(files[..i], before, r) +
      if OutcomeOf(before, r, files[i]).Unrewritable? then [Dropped(r.rename(files[i]))] else []
  {
    PrefixSnoc(files, i);
    assert files[..i + 1][..i] == files[..i];
  }

  /** Succeeds exactly when the directory can be listed and every file the listing yields
      can be dealt with, and then every one is. */
  method RedactBundle(d: Directory, r: Redaction, t: Troubles) returns (ok: bool, dropped: seq<Dropped>, ghost files: seq<string>)
    requires d.Valid() && |d.trace| == 1 && NamesKeepApart(d.entries, r)
    modifies d
    ensures d.Valid() && AlwaysAtomic(d.trace, old(d.entries), r)
    ensures ok <==> !t.readDir && forall n :: n in Listed(old(d.entries), t) ==> Works(old(d.entries), r, t, n)
    ensures ok ==> Lists(files, Listed(old(d.entries), t))
    ensures ok ==> After(d.entries, old(d.entries), r, Listed(old(d.entries), t))
    ensures ok ==> dropped == DroppedOf(files, old(d.entries), r)
  {
    ghost var before := d.entries;
    FinishedIsAtomic(before, before, r, {});
    var list;
    ok, list := ListFiles(d, t);
    files, dropped := list, [];
    if !ok { return; }
    for i := 0 to |list|
      invariant d.Valid() && AlwaysAtomic(d.trace, before, r)
      invariant UpTo(d.entries, dropped, list, i, before, r, t)
    {
      ghost var now, was := d.entries, dropped;
      NextName(list, i);
      ok, dropped := RedactNext(d, r, list[i], dropped, t, before, Names(list[..i]));
      if !ok { return; }
      UpToNext(d.entries, dropped, now, was, list, i, before, r, t);
    }
    UpToEnd(d.entries, dropped, list, before, r, t);
  }

  /** The first i of the listed files are dealt with. */
  ghost predicate UpTo(now: Listing, dropped: seq<Dropped>, list: seq<string>, i: nat, before: Listing, r: Redaction, t: Troubles)
    requires i <= |list|
  {
    && After(now, before, r, Names(list[..i])) && Finished(before, r, Names(list[..i]))
    && dropped == DroppedOf(list[..i], before, r)
    && forall n :: n in Names(list[..i]) ==> Works(before, r, t, n)
  }

  lemma UpToNext(next: Listing, dropped: seq<Dropped>, now: Listing, was: seq<Dropped>, list: seq<string>, i: nat,
                 before: Listing, r: Redaction, t: Troubles)
    requires i < |list| && Distinct(list) && UpTo(now, was, list, i, before, r, t) && Works(before, r, t, list[i])
    requires After(next, before, r, Names(list[..i]) + {list[i]}) && Finished(before, r, Names(list[..i]) + {list[i]})
    requires dropped == was + if OutcomeOf(before, r, list[i]).Unrewritable? then [Dropped(r.rename(list[i]))] else []
    ensures UpTo(next, dropped, list, i + 1, before, r, t)
  {
    NextName(list, i);
    DroppedSnoc(list, i, before, r);
  }

  lemma UpToEnd(now: Listing, dropped: seq<Dropped>, list: seq<string>, before: Listing, r: Redaction, t: Troubles)
    requires UpTo(now, dropped, list, |list|, before, r, t) && Lists(list, Listed(before, t))
    ensures After(now, before, r, Listed(before, t)) && dropped == DroppedOf(list, before, r)
    ensures forall n :: n in Listed(before, t) ==> Works(before, r, t, n)
  {
    WholePrefix(list);
    assert Names(list) == Listed(before, t);
  }

  // ----- discarding what a failed redaction left -----

  /** The listing has some of the entries, as they are. */
  ghost predicate Within(now: Listing, before: Listing) { forall n :: n in now ==> n in before && now[n] == before[n] }

  /** What a discard cannot or does not remove. */
  ghost predicate Stays(before: Listing, t: Troubles, n: string) { n in before && (before[n].Dir? || t.discardDir || t.sticks(n)) }

  /** Removes whatever is not a directory and does not stick. */
  method DiscardBundle(d: Directory, t: Troubles)
    requires d.Valid()
    modifies d
    ensures d.Valid() && Extends(d.trace, old(d.trace))
    ensures forall i :: |old(d.trace)| <= i < |d.trace| ==> Within(d.trace[i], old(d.entries))
    ensures Within(d.entries, old(d.entries))
    ensures forall n :: n in d.entries <==> Stays(old(d.entries), t, n)
  {
    if t.discardDir { return; }
    var names := SortedKeys(d.entries.Keys);
    for i := 0 to |names|
      invariant d.Valid() && Extends(d.trace, old(d.trace))
      invariant forall i :: |old(d.trace)| <= i < |d.trace| ==> Within(d.trace[i], old(d.entries))
      invariant Within(d.entries, old(d.entries))
      invariant forall n :: n in d.entries <==> n in old(d.entries) && (Stays(old(d.entries), t, n) || n !in names[..i])
    {
      PrefixSnoc(names, i);
      assert names[i] in names && names[i] !in names[..i];
      if d.entries[names[i]].Dir? { continue; }
      d.Remove(names[i], t.sticks(names[i]));
    }
    WholePrefix(names);
  }

  /** A redaction that could not finish takes the bundle with it. Until the discard begins
      every listing is atomic; from then on files only go. */
  method RedactOrDiscard(d: Directory, r: Redaction, t: Troubles)
    returns (ok: bool, dropped: seq<Dropped>, ghost files: seq<string>, ghost until: nat)
    requires d.Valid() && |d.trace| == 1 && NamesKeepApart(d.entries, r)
    modifies d
    ensures d.Valid() && 0 < until <= |d.trace| && AlwaysAtomic(d.trace[..until], old(d.entries), r)
    ensures ok <==> !t.readDir && forall n :: n in Listed(old(d.entries), t) ==> Works(old(d.entries), r, t, n)
    ensures ok ==> until == |d.trace| && Lists(files, Listed(old(d.entries), t))
    ensures ok ==> After(d.entries, old(d.entries), r, Listed(old(d.entries), t)) && dropped == DroppedOf(files, old(d.entries), r)
    ensures !ok ==> forall i :: until <= i < |d.trace| ==> Within(d.trace[i], d.trace[until - 1])
    ensures !ok ==> forall n :: n in d.entries <==> Stays(d.trace[until - 1], t, n)
    ensures !ok && !t.discardDir && (forall n :: !t.sticks(n)) ==> forall n :: n in d.entries ==> d.entries[n].Dir?
  {
    ok, dropped, files := RedactBundle(d, r, t);
    until := |d.trace|;
    ghost var redacted := d.trace;
    if !ok { DiscardBundle(d, t); }
    assert d.trace[..until] == redacted;
    assert redacted[until - 1] == d.trace[until - 1];
  }

  // ----- what success means for one file -----

  /** The file is rewritten under its redacted name, or gone and listed as dropped. */
  ghost predicate Redacted(now: Listing, dropped: seq<Dropped>, before: Listing, r: Redaction, n: string)
    requires Subject(before, n)
  {
    if OutcomeOf(before, r, n).Rewritten?
    then r.rename(n) in now && now[r.rename(n)] == NewEntry(before, r, n) && (r.rename(n) != n ==> n !in now)
    else n !in now && Dropped(r.rename(n)) in dropped
  }

  lemma {:induction false} DroppedMembers(files: seq<string>, before: Listing, r: Redaction, n: string)
    requires forall f :: f in files ==> Subject(before, f)
    requires n in files && OutcomeOf(before, r, n).Unrewritable?
    ensures Dropped(r.rename(n)) in DroppedOf(files, before, r)
  {
    var init, last := files[..|files| - 1], files[|files| - 1];
    assert files == init + [last];
    if n != last { DroppedMembers(init, before, r, n); }
  }

  /** Nothing is listed as dropped but what could not be rewritten. */
  lemma {:induction false} DroppedInWords(files: seq<string>, before: Listing, r: Redaction)
    requires forall f :: f in files ==> Subject(before, f)
    ensures forall d :: d in DroppedOf(files, before, r) <==> exists n :: n in files && OutcomeOf(before, r, n).Unrewritable? && d == Dropped(r.rename(n))
  {
    if files != [] {
      var init, last := files[..|files| - 1], files[|files| - 1];
      assert files == init + [last];
      assert forall f :: f in init ==> f in files;
      DroppedInWords(init, before, r);
    }
  }

  /** After a redaction that succeeded, a regular file other than the manifest is
      redacted exactly when its mode could be read for the listing, or its rewrite would
      change neither its bytes nor its name. */
  lemma SuccessMeansRedacted(now: Listing, dropped: seq<Dropped>, files: seq<string>, before: Listing, r: Redaction, t: Troubles, n: string)
    requires NamesKeepApart(before, r) && Subject(before, n)
    requires forall m :: m in Listed(before, t) ==> Works(before, r, t, m)
    requires Lists(files, Listed(before, t)) && dropped == DroppedOf(files, before, r)
    requires After(now, before, r, Listed(before, t))
    ensures Redacted(now, dropped, before, r, n) <==>
      !t.file(n).info || (Rewrites(before, r, n) && r.rename(n) == n && NewEntry(before, r, n) == before[n])
    ensures t.file(n).info ==> n in now && now[n] == before[n]
  {
    if n in Listed(before, t) {
      assert Works(before, r, t, n);
      if !Rewrites(before, r, n) { DroppedMembers(files, before, r, n); }
      forall m | m in Listed(before, t) && Rewrites(before, r, m) && m != n ensures r.rename(m) != n {
        EarlierStays(before, r, n, m);
      }
    }
  }

  /** When every mode can be read, success means that every file is redacted. */
  lemma AllRedacted(now: Listing, dropped: seq<Dropped>, files: seq<string>, before: Listing, r: Redaction, t: Troubles)
    requires NamesKeepApart(before, r)
    requires forall m :: m in Listed(before, t) ==> Works(before, r, t, m)
    requires Lists(files, Listed(before, t)) && dropped == DroppedOf(files, before, r)
    requires After(now, before, r, Listed(before, t))
    requires forall n :: Subject(before, n) ==> !t.file(n).info
    ensures forall n :: Subject(before, n) ==> Redacted(now, dropped, before, r, n)
    ensures forall n :: n in before && before[n].File? && n != "manifest.json" ==>
      match r.content(before[n].bytes)
      case Rewritten(data) => r.rename(n) in now && now[r.rename(n)] == File(data, before[n].mode) && (r.rename(n) != n ==> n !in now)
      case Unrewritable => n !in now && Dropped(r.rename(n)) in dropped
      case Broken => false
  {
    forall n | Subject(before, n) ensures Redacted(now, dropped, before, r, n) {
      SuccessMeansRedacted(now, dropped, files, before, r, t, n);
    }
    forall n | n in before && before[n].File? && n != "manifest.json" ensures Subject(before, n) && Works(before, r, t, n) {
      assert n in Listed(before, t);
    }
  }

  const NO_FAULT := Faults(false, false, false, false, false, "", false, false, false, false, false)

  const ONE_FILE: Listing := map["node.yaml" := File("worker-1", 384)]

  /** Blanks every content and keeps every name. */
  const BLANK := Redaction((bytes: string) => Rewritten(""), (name: string) => name)

  const UNREADABLE_MODE := Troubles(false, (n: string) => NO_FAULT.(info := true), false, (n: string) => false)

  /** A bundle of one file whose mode cannot be read when the directory is listed: the
      run meets the conditions of success, and whatever it leaves, the file in it is not
      redacted. */
  lemma PassedOver()
    ensures NamesKeepApart(ONE_FILE, BLANK) && Subject(ONE_FILE, "node.yaml") && Rewrites(ONE_FILE, BLANK, "node.yaml")
    ensures !UNREADABLE_MODE.readDir && forall n :: n in Listed(ONE_FILE, UNREADABLE_MODE) ==> Works(ONE_FILE, BLANK, UNREADABLE_MODE, n)
    ensures forall now :: After(now, ONE_FILE, BLANK, Listed(ONE_FILE, UNREADABLE_MODE)) ==>
      now["node.yaml"] == File("worker-1", 384) && forall dropped :: !Redacted(now, dropped, ONE_FILE, BLANK, "node.yaml")
  {
    assert Listed(ONE_FILE, UNREADABLE_MODE) == {};
  }

  /** Two files that end under one name, not taken before: the second rewrite overwrites
      the first, and what was in that file is nowhere. */
  lemma ClashLosesAFile(before: Listing, r: Redaction, m: string, n: string)
    requires Rewrites(before, r, m) && Rewrites(before, r, n) && m != n
    requires r.rename(m) == r.rename(n) && r.rename(m) !in before
    ensures var first := Moved(before, m, r.rename(m), NewEntry(before, r, m));
      && n in first && first[n] == before[n]
      && Moved(first, n, r.rename(n), NewEntry(before, r, n)) == (before - {m, n})[r.rename(n) := NewEntry(before, r, n)]
  {}
}
