/**
 * The revision transaction (src/controller.rs, `RevisionTransaction` and the non-Windows branch
 * of `write_pointer`) on a filesystem whose every operation may fail. Calls run one at a time.
 */
module Revision {
  import opened Bytes

  type Dir = map<string, seq<byte>>

  /** The part of the filesystem below the transaction root. `pointer` is `current`, `temporary` is `.current.tmp`. */
  datatype Files = Files(
    candidates: map<string, Dir>, revisions: map<string, Dir>, pointer: Option<string>, temporary: Option<string>)

  datatype Phase = Candidate | Validated | Committed | RolledBack

  datatype Failure = Io | InvalidState | InvalidArtifactName | Validation | NoPreviousRevision

  datatype Transaction = Transaction(id: string, previous: Option<string>, phase: Phase)

  /** A path without its trailing `/` and `/.`, which name the same file. */
  function Component(name: string): string {
    var n := |name|;
    if n >= 1 && name[n - 1] == '/' then Component(name[..n - 1])
    else if n >= 2 && name[n - 2] == '/' && name[n - 1] == '.' then Component(name[..n - 2])
    else name
  }

  /** `is_plain_file_name`: one ordinary path component, perhaps with a trailing separator. */
  predicate IsPlainFileName(name: string) {
    var c := Component(name);
    c != "" && '/' !in c && c != "." && c != ".."
  }

  lemma ComponentOfPlain(name: string)
    requires '/' !in name
    ensures Component(name) == name
  {
  }

  /** Which operations of a call succeed; a write that fails may leave any bytes behind. */
  datatype Faults = Faults(
    createDir: bool, open: bool, write: bool, partial: seq<byte>, sync: bool, rename: bool, remove: bool,
    moveIn: bool, pointerOpen: bool, pointerWrite: bool, pointerPartial: string, pointerSync: bool, pointerRename: bool,
    moveBack: bool)

  function TempName(name: string): string { "." + name + ".tmp" }

  /** `begin`; `id` is the clock and process id it is made from. */
  function BeginStep(fs: Files, id: string, previous: Option<string>, f: Faults)
    : (Files, Result<Transaction, Failure>)
  {
    if previous.Some? && !IsPlainFileName(previous.value) then (fs, Err(InvalidArtifactName))
    else if !f.createDir || id in fs.candidates then (fs, Err(Io))
    else (fs.(candidates := fs.candidates[id := map[]]), Ok(Transaction(id, previous, Candidate)))
  }

  /** What `stage` does to the candidate directory; a name with a separator has no place for its temporary file. */
  function StageDir(d: Dir, name: string, bytes: seq<byte>, f: Faults): (Dir, Result<(), Failure>) {
    var temp := TempName(name);
    if !f.open || '/' in name || temp in d then (d, Err(Io))
    else if !f.write || !f.sync then
      (if f.remove then d - {temp} else d[temp := if f.write then bytes else f.partial], Err(Io))
    else if !f.rename then (if f.remove then d - {temp} else d[temp := bytes], Err(Io))
    else ((d - {temp})[name := bytes], Ok(()))
  }

  function StageStep(fs: Files, tx: Transaction, name: string, bytes: seq<byte>, f: Faults)
    : (Files, Result<(), Failure>)
  {
    if tx.phase != Candidate then (fs, Err(InvalidState))
    else if !IsPlainFileName(name) then (fs, Err(InvalidArtifactName))
    else if tx.id !in fs.candidates then (fs, Err(Io))
    else
      var (d, r) := StageDir(fs.candidates[tx.id], name, bytes, f);
      (fs.(candidates := fs.candidates[tx.id := d]), r)
  }

  /** `validate`; the validator sees the candidate directory, or none if it is missing. */
  function ValidateStep(fs: Files, tx: Transaction, validator: Option<Dir> -> bool)
    : (Transaction, Result<(), Failure>)
  {
    if tx.phase != Candidate then (tx, Err(InvalidState))
    else if !validator(if tx.id in fs.candidates then Some(fs.candidates[tx.id]) else None) then (tx, Err(Validation))
    else (tx.(phase := Validated), Ok(()))
  }

  /** `write_pointer`: a new temporary file, then an atomic rename over `current`. */
  function WritePointer(fs: Files, revision: string, f: Faults): (Files, Result<(), Failure>) {
    if !f.pointerOpen || fs.temporary.Some? then (fs, Err(Io))
    else if !f.pointerWrite then (fs.(temporary := Some(f.pointerPartial)), Err(Io))
    else if !f.pointerSync || !f.pointerRename then (fs.(temporary := Some(revision)), Err(Io))
    else (fs.(pointer := Some(revision)), Ok(()))
  }

  /** Moving a directory needs the source, and no non-empty directory in its place. */
  predicate CanMove(from: map<string, Dir>, to: map<string, Dir>, id: string) {
    id in from && (id in to ==> to[id] == map[])
  }

  function CommitStep(fs: Files, tx: Transaction, f: Faults): (Files, Transaction, Result<(), Failure>) {
    if tx.phase != Validated then (fs, tx, Err(InvalidState))
    else if !f.moveIn || !CanMove(fs.candidates, fs.revisions, tx.id) then (fs, tx, Err(Io))
    else
      var moved := fs.(candidates := fs.candidates - {tx.id}, revisions := fs.revisions[tx.id := fs.candidates[tx.id]]);
      match WritePointer(moved, tx.id, f)
      case (fs1, Ok(_)) => (fs1, tx.(phase := Committed), Ok(()))
      case (fs1, Err(e)) =>
        if f.moveBack && CanMove(fs1.revisions, fs1.candidates, tx.id) then
          (fs1.(revisions := fs1.revisions - {tx.id}, candidates := fs1.candidates[tx.id := fs1.revisions[tx.id]]),
           tx, Err(e))
        else (fs1, tx, Err(e))
  }

  function RollbackStep(fs: Files, tx: Transaction, f: Faults): (Files, Transaction, Result<(), Failure>) {
    if tx.phase != Committed then (fs, tx, Err(InvalidState))
    else if tx.previous.None? || Component(tx.previous.value) !in fs.revisions then (fs, tx, Err(NoPreviousRevision))
    else
      match WritePointer(fs, tx.previous.value, f)
      case (fs1, Ok(_)) => (fs1, tx.(phase := RolledBack), Ok(()))
      case (fs1, Err(e)) => (fs1, tx, Err(e))
  }

  // ----- The code -----

  class FileSystem {
    var candidates: map<string, Dir>
    var revisions: map<string, Dir>
    var pointer: Option<string>
    var temporary: Option<string>

    function State(): Files
      reads this
    {
      Files(candidates, revisions, pointer, temporary)
    }

    method PointAt(revision: string, f: Faults) returns (r: Result<(), Failure>)
      modifies this
      ensures (State(), r) == WritePointer(old(State()), revision, f)
    {
      if !f.pointerOpen || temporary.Some? { return Err(Io); }
      temporary := Some("");
      if !f.pointerWrite {
        temporary := Some(f.pointerPartial);
        return Err(Io);
      }
      temporary := Some(revision);
      if !f.pointerSync || !f.pointerRename { return Err(Io); }
      pointer, temporary := temporary, None;
      return Ok(());
    }
  }

  class RevisionTransaction {
    const fs: FileSystem
    const id: string
    const previous: Option<string>
    var phase: Phase

    function State(): Transaction
      reads this
    {
      Transaction(id, previous, phase)
    }

    constructor (fs: FileSystem, id: string, previous: Option<string>)
      ensures State() == Transaction(id, previous, Candidate) && this.fs == fs
    {
      this.fs, this.id, this.previous, phase := fs, id, previous, Candidate;
    }

    method Stage(name: string, bytes: seq<byte>, f: Faults) returns (r: Result<(), Failure>)
      modifies fs
      ensures (fs.State(), r) == StageStep(old(fs.State()), old(State()), name, bytes, f) && State() == old(State())
    {
      if phase != Candidate { return Err(InvalidState); }
      if !IsPlainFileName(name) { return Err(InvalidArtifactName); }
      if id !in fs.candidates { return Err(Io); }
      var d, temp := fs.candidates[id], TempName(name);
      ghost var before := d;
      if !f.open || '/' in name || temp in d {
        assert old(fs.candidates)[id := d] == old(fs.candidates);
        return Err(Io);
      }
      d := d[temp := if f.write then bytes else f.partial];
      if !f.write || !f.sync || !f.rename {
        if f.remove { d := d - {temp}; }
        assert f.remove ==> d == before - {temp};
        r := Err(Io);
      } else {
        d := (d - {temp})[name := bytes];
        assert d == (before - {temp})[name := bytes];
        r := Ok(());
      }
      fs.candidates := fs.candidates[id := d];
    }

    method Validate(validator: Option<Dir> -> bool) returns (r: Result<(), Failure>)
      modifies this
      ensures (State(), r) == ValidateStep(fs.State(), old(State()), validator)
    {
      if phase != Candidate { return Err(InvalidState); }
      if !validator(if id in fs.candidates then Some(fs.candidates[id]) else None) { return Err(Validation); }
      phase := Validated;
      return Ok(());
    }

    method Commit(f: Faults) returns (r: Result<(), Failure>)
      modifies this, fs
      ensures (fs.State(), State(), r) == CommitStep(old(fs.State()), old(State()), f)
    {
      if phase != Validated { return Err(InvalidState); }
      if !f.moveIn || !CanMove(fs.candidates, fs.revisions, id) { return Err(Io); }
      var d := fs.candidates[id];
      fs.candidates, fs.revisions := fs.candidates - {id}, fs.revisions[id := d];
      r := fs.PointAt(id, f);
      if r.Err? {
        if f.moveBack && CanMove(fs.revisions, fs.candidates, id) {
          fs.revisions, fs.candidates := fs.revisions - {id}, fs.candidates[id := fs.revisions[id]];
        }
        return;
      }
      phase := Committed;
    }

    method Rollback(f: Faults) returns (r: Result<(), Failure>)
      modifies this, fs
      ensures (fs.State(), State(), r) == RollbackStep(old(fs.State()), old(State()), f)
    {
      if phase != Committed { return Err(InvalidState); }
      if previous.None? || Component(previous.value) !in fs.revisions { return Err(NoPreviousRevision); }
      r := fs.PointAt(previous.value, f);
      if r.Ok? { phase := RolledBack; }
    }
  }

  // ----- Safety over every run of any number of transactions -----

  datatype Call =
    | Begin(id: string, previous: Option<string>, f: Faults)
    | Stage(stage: nat, name: string, bytes: seq<byte>, sf: Faults)
    | Validate(validate: nat, validator: Option<Dir> -> bool)
    | Commit(commit: nat, cf: Faults)
    | Rollback(rollback: nat, rf: Faults)

  /** Transactions are numbered as they begin; `approved[n]` is what the validator of number `n` saw. */
  datatype System = System(fs: Files, txs: seq<Transaction>, approved: map<nat, Option<Dir>>, used: set<string>)

  /** Revision ids are digits of the clock and the process id, so they are plain and never used twice. */
  ghost predicate Allowed(s: System, c: Call) {
    match c
    case Begin(id, _, _) => id !in s.used && '/' !in id
    case Stage(n, _, _, _) => n < |s.txs|
    case Validate(n, _) => n < |s.txs|
    case Commit(n, _) => n < |s.txs|
    case Rollback(n, _) => n < |s.txs|
  }

  ghost function Do(s: System, c: Call): System
    requires Allowed(s, c)
  {
    match c
    case Begin(id, previous, f) =>
      var (fs, r) := BeginStep(s.fs, id, previous, f);
      s.(fs := fs, txs := if r.Ok? then s.txs + [r.value] else s.txs, used := s.used + {id})
    case Stage(n, name, bytes, f) => s.(fs := StageStep(s.fs, s.txs[n], name, bytes, f).0)
    case Validate(n, validator) =>
      var (tx, r) := ValidateStep(s.fs, s.txs[n], validator);
      var seen := if tx.id in s.fs.candidates then Some(s.fs.candidates[tx.id]) else None;
      s.(txs := s.txs[n := tx], approved := if r.Ok? then s.approved[n := seen] else s.approved)
    case Commit(n, f) =>
      var (fs, tx, r) := CommitStep(s.fs, s.txs[n], f);
      s.(fs := fs, txs := s.txs[n := tx])
    case Rollback(n, f) =>
      var (fs, tx, r) := RollbackStep(s.fs, s.txs[n], f);
      s.(fs := fs, txs := s.txs[n := tx])
  }

  /** A transaction's directory: still a candidate, or moved to the revisions. */
  ghost predicate HeldAs(fs: Files, id: string, d: Option<Dir>) {
    || (d.Some? && id in fs.candidates && fs.candidates[id] == d.value && id !in fs.revisions)
    || (d.Some? && id in fs.revisions && fs.revisions[id] == d.value && id !in fs.candidates)
  }

  /** The pointer leads to the directory `id`. */
  ghost predicate PointsTo(pointer: Option<string>, id: string) {
    pointer.Some? && Component(pointer.value) == id
  }

  ghost predicate TxOk(s: System, base: set<string>, n: nat)
    requires n < |s.txs|
  {
    var tx := s.txs[n];
    && tx.id in s.used && tx.id !in base && '/' !in tx.id
    && (tx.phase == Candidate ==>
          tx.id in s.fs.candidates && tx.id !in s.fs.revisions && !PointsTo(s.fs.pointer, tx.id))
    && (tx.phase != Candidate ==> n in s.approved && HeldAs(s.fs, tx.id, s.approved[n]))
    && (tx.phase == Validated && tx.id in s.fs.candidates ==> !PointsTo(s.fs.pointer, tx.id))
    && (tx.phase == Committed || tx.phase == RolledBack ==>
          tx.id in s.fs.revisions && s.approved[n] == Some(s.fs.revisions[tx.id]))
  }

  /** `base` are the revisions and the pointer value there were before the first call. */
  ghost predicate Safe(s: System, base: set<string>, first: Option<string>) {
    && base <= s.fs.revisions.Keys && base <= s.used
    && (first.Some? ==> Component(first.value) in s.used)
    && (s.fs.pointer == first || (s.fs.pointer.Some? && Component(s.fs.pointer.value) in s.fs.revisions))
    && s.fs.candidates.Keys <= s.used && s.fs.revisions.Keys <= s.used
    && (forall m, n :: 0 <= m < n < |s.txs| ==> s.txs[m].id != s.txs[n].id)
    && (forall n :: 0 <= n < |s.txs| ==> TxOk(s, base, n) && !PointsTo(first, s.txs[n].id))
  }

  /**
   * Staging is atomic: on success the artifact is there in full and every other file is as it
   * was; on failure every file is as it was, but for the temporary one.
   */
  lemma StageAtomic(d: Dir, name: string, bytes: seq<byte>, f: Faults, other: string)
    requires other != TempName(name)
    ensures
      var (d', r) := StageDir(d, name, bytes, f);
      if r.Ok? && other == name then other in d' && d'[other] == bytes
      else (other in d' <==> other in d) && (other in d ==> d'[other] == d[other])
    ensures StageDir(d, name, bytes, f).1.Ok? ==> TempName(name) !in StageDir(d, name, bytes, f).0
  {
    assert |TempName(name)| > |name|;
  }

  lemma BeginSafe(s: System, base: set<string>, first: Option<string>, id: string, previous: Option<string>, f: Faults)
    requires Safe(s, base, first) && id !in s.used && '/' !in id
    ensures Safe(Do(s, Begin(id, previous, f)), base, first)
  {
    var s' := Do(s, Begin(id, previous, f));
    forall n | 0 <= n < |s'.txs| ensures TxOk(s', base, n) && !PointsTo(first, s'.txs[n].id) {
      if n < |s.txs| { assert TxOk(s, base, n); }
    }
  }

  lemma StageSafe(s: System, base: set<string>, first: Option<string>, n: nat, name: string, bytes: seq<byte>,
                  f: Faults)
    requires Safe(s, base, first) && n < |s.txs|
    ensures Safe(Do(s, Stage(n, name, bytes, f)), base, first)
  {
    hide StageDir;
    var s' := Do(s, Stage(n, name, bytes, f));
    assert TxOk(s, base, n);
    forall m | 0 <= m < |s'.txs| ensures TxOk(s', base, m) {
      assert TxOk(s, base, m);
      assert m != n ==> s.txs[m].id != s.txs[n].id;
    }
  }

  lemma ValidateSafe(s: System, base: set<string>, first: Option<string>, n: nat, validator: Option<Dir> -> bool)
    requires Safe(s, base, first) && n < |s.txs|
    ensures Safe(Do(s, Validate(n, validator)), base, first)
  {
    var s' := Do(s, Validate(n, validator));
    assert TxOk(s, base, n);
    forall m | 0 <= m < |s'.txs| ensures TxOk(s', base, m) && !PointsTo(first, s'.txs[m].id) {
      assert TxOk(s, base, m);
    }
  }

  /** What a commit may change: its own directory's place, the temporary file and, on success, the pointer. */
  lemma CommitTouches(fs: Files, tx: Transaction, f: Faults)
    ensures
      var (fs', tx', r) := CommitStep(fs, tx, f);
      && (forall id :: id != tx.id ==> (id in fs'.candidates <==> id in fs.candidates))
      && (forall id :: id != tx.id ==> (id in fs'.revisions <==> id in fs.revisions))
      && (forall id :: id != tx.id && id in fs.candidates ==> fs'.candidates[id] == fs.candidates[id])
      && (forall id :: id != tx.id && id in fs.revisions ==> fs'.revisions[id] == fs.revisions[id])
      && fs'.pointer == (if r.Ok? then Some(tx.id) else fs.pointer)
      && tx' == (if r.Ok? then tx.(phase := Committed) else tx)
      && (tx.phase != Validated ==> fs' == fs && r.Err?)
  {
  }

  /** The committing transaction's own directory. */
  lemma CommitOwn(fs: Files, tx: Transaction, f: Faults, d: Option<Dir>)
    requires tx.phase == Validated && HeldAs(fs, tx.id, d)
    ensures
      var (fs', _, r) := CommitStep(fs, tx, f);
      && HeldAs(fs', tx.id, d)
      && (r.Ok? ==> tx.id in fs'.revisions)
      && (tx.id in fs'.candidates ==> tx.id in fs.candidates)
      && (r.Err? && tx.id in fs'.candidates ==> fs'.pointer == fs.pointer)
      && (tx.id !in fs.candidates ==> r.Err? && fs'.candidates == fs.candidates && fs'.revisions == fs.revisions)
  {
  }

  lemma CommitSafe(s: System, base: set<string>, first: Option<string>, n: nat, f: Faults)
    requires Safe(s, base, first) && n < |s.txs|
    ensures Safe(Do(s, Commit(n, f)), base, first)
  {
    hide CommitStep;
    var s', tx := Do(s, Commit(n, f)), s.txs[n];
    assert TxOk(s, base, n);
    ComponentOfPlain(tx.id);
    CommitTouches(s.fs, tx, f);
    if tx.phase == Validated {
      CommitOwn(s.fs, tx, f, s.approved[n]);
      forall m | 0 <= m < |s'.txs| ensures TxOk(s', base, m) && !PointsTo(first, s'.txs[m].id) {
        assert TxOk(s, base, m);
        assert m != n ==> s.txs[m].id != tx.id;
      }
    } else {
      assert s'.txs == s.txs;
    }
  }

  lemma RollbackSafe(s: System, base: set<string>, first: Option<string>, n: nat, f: Faults)
    requires Safe(s, base, first) && n < |s.txs|
    ensures Safe(Do(s, Rollback(n, f)), base, first)
  {
    var s' := Do(s, Rollback(n, f));
    assert TxOk(s, base, n);
    forall m | 0 <= m < |s'.txs| ensures TxOk(s', base, m) && !PointsTo(first, s'.txs[m].id) {
      assert TxOk(s, base, m);
    }
  }

  lemma DoSafe(s: System, base: set<string>, first: Option<string>, c: Call)
    requires Safe(s, base, first) && Allowed(s, c)
    ensures Safe(Do(s, c), base, first)
  {
    hide Safe, Do;
    match c
    case Begin(id, previous, f) => BeginSafe(s, base, first, id, previous, f);
    case Stage(n, name, bytes, f) => StageSafe(s, base, first, n, name, bytes, f);
    case Validate(n, validator) => ValidateSafe(s, base, first, n, validator);
    case Commit(n, f) => CommitSafe(s, base, first, n, f);
    case Rollback(n, f) => RollbackSafe(s, base, first, n, f);
  }

  /** A run from any filesystem: every call is allowed when it is made. */
  ghost predicate RunOf(fs: Files, calls: seq<Call>, states: seq<System>) {
    && |states| == |calls| + 1
    && states[0] == System(fs, [], map[],
                           fs.candidates.Keys + fs.revisions.Keys
                           + (if fs.pointer.Some? then {Component(fs.pointer.value)} else {}))
    && forall i :: 0 <= i < |calls| ==> Allowed(states[i], calls[i]) && states[i + 1] == Do(states[i], calls[i])
  }

  lemma {:induction false} RunSafe(fs: Files, calls: seq<Call>, states: seq<System>, n: nat)
    requires RunOf(fs, calls, states) && n < |states|
    ensures Safe(states[n], fs.revisions.Keys, fs.pointer)
  {
    if n > 0 {
      RunSafe(fs, calls, states, n - 1);
      DoSafe(states[n - 1], fs.revisions.Keys, fs.pointer, calls[n - 1]);
    }
  }

  /**
   * Revision safety, over any run of any number of transactions from any filesystem, whatever
   * operations fail: `current` is as it was at first or names an existing revision, and every
   * committed transaction's revision holds exactly the files its validator approved.
   */
  lemma PointerAndContentsSafe(fs: Files, calls: seq<Call>, states: seq<System>, i: nat)
    requires RunOf(fs, calls, states) && i < |states|
    ensures
      var s := states[i];
      && (s.fs.pointer == fs.pointer || (s.fs.pointer.Some? && Component(s.fs.pointer.value) in s.fs.revisions))
      && forall n :: 0 <= n < |s.txs| && (s.txs[n].phase == Committed || s.txs[n].phase == RolledBack) ==>
           n in s.approved && s.txs[n].id in s.fs.revisions && s.approved[n] == Some(s.fs.revisions[s.txs[n].id])
  {
    RunSafe(fs, calls, states, i);
    var s := states[i];
    forall n | 0 <= n < |s.txs| ensures TxOk(s, fs.revisions.Keys, n) {}
  }

  /** Only a successful commit or rollback moves `current`, and it moves it to its own target. */
  lemma PointerMovesOnlyOnSuccess(fs: Files, tx: Transaction, f: Faults)
    ensures
      var (fs', tx', r) := CommitStep(fs, tx, f);
      fs'.pointer == (if r.Ok? then Some(tx.id) else fs.pointer) && (r.Ok? <==> tx' != tx)
    ensures
      var (fs', tx', r) := RollbackStep(fs, tx, f);
      fs'.pointer == (if r.Ok? then tx.previous else fs.pointer) && (r.Ok? <==> tx' != tx)
  {
    CommitTouches(fs, tx, f);
  }

  // ----- Retrying a failed commit -----

  /** Nothing a commit asks of the filesystem fails. */
  predicate Works(f: Faults) {
    f.moveIn && f.pointerOpen && f.pointerWrite && f.pointerSync && f.pointerRename
  }

  /** A commit can succeed if nothing fails: the candidate is there and no temporary pointer is. */
  predicate Ready(fs: Files, tx: Transaction) {
    CanMove(fs.candidates, fs.revisions, tx.id) && fs.temporary.None?
  }

  /**
   * After a commit that failed, a second one without faults succeeds exactly when the first
   * could have, and it failed before moving the candidate, or else on opening the temporary
   * pointer, with the candidate moved back.
   */
  lemma RetryIff(fs: Files, tx: Transaction, f: Faults, again: Faults)
    requires tx.phase == Validated && CommitStep(fs, tx, f).2.Err? && Works(again)
    ensures
      var (fs', tx', _) := CommitStep(fs, tx, f);
      CommitStep(fs', tx', again).2.Ok? <==> Ready(fs, tx) && (!f.moveIn || (!f.pointerOpen && f.moveBack))
  {
    var (fs', tx', _) := CommitStep(fs, tx, f);
    assert CommitStep(fs', tx', again).2.Ok? <==> Ready(fs', tx');
  }

  const CLEAN: Faults :=
    Faults(true, true, true, [], true, true, true, true, true, true, "", true, true, true)

  /** Two commits that fail once and then for good: a pointer half written, and a candidate not moved back. */
  lemma RetryCanFail(f: Faults)
    requires f == CLEAN.(pointerWrite := false) || f == CLEAN.(pointerOpen := false, moveBack := false)
    ensures
      var fs := Files(map["rev-1-1" := map[]], map[], None, None);
      var (fs', tx', r) := CommitStep(fs, Transaction("rev-1-1", None, Validated), f);
      && r.Err? && fs'.pointer == None && CommitStep(fs', tx', CLEAN).2.Err?
      && (f.pointerOpen <==> fs'.temporary.Some?) && (f.moveBack <==> "rev-1-1" in fs'.candidates)
  {
    RetryIff(Files(map["rev-1-1" := map[]], map[], None, None), Transaction("rev-1-1", None, Validated), f, CLEAN);
  }

  /** A validated transaction that no commit can bring any further. */
  ghost predicate Stranded(s: System, n: nat)
    requires n < |s.txs|
  {
    s.txs[n].phase == Validated && (s.fs.temporary.Some? || s.txs[n].id !in s.fs.candidates)
  }

  lemma LeftoverStays(s: System, c: Call)
    requires Allowed(s, c) && s.fs.temporary.Some?
    ensures Do(s, c).fs.temporary == s.fs.temporary && Do(s, c).fs.pointer == s.fs.pointer
  {
  }

  lemma StrandedStays(s: System, base: set<string>, first: Option<string>, c: Call, n: nat)
    requires Safe(s, base, first) && Allowed(s, c) && n < |s.txs| && Stranded(s, n)
    ensures
      var s' := Do(s, c);
      n < |s'.txs| && s'.txs[n] == s.txs[n] && Stranded(s', n)
  {
    hide StageDir, Component;
    assert TxOk(s, base, n);
    if s.fs.temporary.Some? { LeftoverStays(s, c); }
    if c.Commit? { CommitTouches(s.fs, s.txs[c.commit], c.cf); }
  }

  lemma {:induction false} StrandedForever(fs: Files, calls: seq<Call>, states: seq<System>, i: nat, j: nat, n: nat)
    requires RunOf(fs, calls, states) && i <= j < |states| && n < |states[i].txs| && Stranded(states[i], n)
    ensures n < |states[j].txs| && Stranded(states[j], n)
  {
    hide Safe, Stranded, Do;
    if i < j {
      StrandedForever(fs, calls, states, i, j - 1, n);
      RunSafe(fs, calls, states, j - 1);
      StrandedStays(states[j - 1], fs.revisions.Keys, fs.pointer, calls[j - 1], n);
    }
  }

  /** A commit of `n` is call `i` of the run, and it fails. */
  ghost predicate FailsAt(calls: seq<Call>, states: seq<System>, i: nat, n: nat)
    requires |states| == |calls| + 1
  {
    && i < |calls| && calls[i].Commit? && calls[i].commit == n < |states[i].txs| && n < |states[i + 1].txs|
    && states[i].txs[n].phase == Validated && states[i + 1].txs[n].phase == Validated
  }

  lemma StrandedOrReady(s: System, base: set<string>, first: Option<string>, n: nat, f: Faults)
    requires Safe(s, base, first) && n < |s.txs| && s.txs[n].phase == Validated
    requires Do(s, Commit(n, f)).txs[n].phase == Validated
    ensures
      var s' := Do(s, Commit(n, f));
      Stranded(s', n) <==> !(Ready(s.fs, s.txs[n]) && (!f.moveIn || (!f.pointerOpen && f.moveBack)))
  {
    assert TxOk(s, base, n);
  }

  /**
   * The comment beside the restore promises that a caller may retry. Over every run: a failed
   * commit can be retried, so that any later fault-free one at once succeeds, exactly when it
   * was ready and failed before the move, or on opening the temporary pointer with the candidate
   * moved back. Otherwise the transaction is never committed, whatever calls follow.
   */
  lemma RetryOrNever(fs: Files, calls: seq<Call>, states: seq<System>, i: nat, n: nat, again: Faults)
    requires RunOf(fs, calls, states) && FailsAt(calls, states, i, n) && Works(again)
    ensures
      var s, f := states[i], calls[i].cf;
      if Ready(s.fs, s.txs[n]) && (!f.moveIn || (!f.pointerOpen && f.moveBack)) then
        Do(states[i + 1], Commit(n, again)).txs[n].phase == Committed
      else
        forall j :: i < j < |states| ==> n < |states[j].txs| && states[j].txs[n].phase == Validated
  {
    hide Safe, Ready;
    var s, f := states[i], calls[i].cf;
    RunSafe(fs, calls, states, i);
    RetryIff(s.fs, s.txs[n], f, again);
    StrandedOrReady(s, fs.revisions.Keys, fs.pointer, n, f);
    if !(Ready(s.fs, s.txs[n]) && (!f.moveIn || (!f.pointerOpen && f.moveBack))) {
      forall j | i < j < |states| ensures n < |states[j].txs| && states[j].txs[n].phase == Validated {
        StrandedForever(fs, calls, states, i + 1, j, n);
      }
    }
  }

  /** A leftover temporary pointer freezes `current` for the rest of the run. */
  lemma {:induction false} LeftoverFreezes(fs: Files, calls: seq<Call>, states: seq<System>, i: nat, j: nat)
    requires RunOf(fs, calls, states) && i <= j < |states| && states[i].fs.temporary.Some?
    ensures states[j].fs.pointer == states[i].fs.pointer && states[j].fs.temporary == states[i].fs.temporary
  {
    hide Do;
    if i < j {
      LeftoverFreezes(fs, calls, states, i, j - 1);
      LeftoverStays(states[j - 1], calls[j - 1]);
    }
  }
}
