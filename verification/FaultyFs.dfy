// The filesystem the launcher runs on, as seen by its crash-safety code: a map
// from path to content that changes one call at a time. An oracle decides the
// fate of every call: it works, it fails and changes nothing, or the process
// dies at it. A dead process changes nothing further, so the rest of a function
// whose process died leaves the filesystem exactly as the death found it.
module FaultyFs {

  datatype Fault = Works | Fails | Dies

  /** The fate of the n-th filesystem call of a run. */
  type Oracle = nat -> Fault

  const RENAME_ATTEMPTS := 15

  /** A run in which no call fails. */
  ghost predicate Healthy(o: Oracle) {
    forall n: nat :: o(n) == Works
  }

  /** No call fails any more. */
  ghost predicate WorksFrom(o: Oracle, clock: nat) {
    forall n: nat :: clock <= n ==> o(n) == Works
  }

  /** One call fails, and no other does. */
  ghost predicate FailsOnceAt(o: Oracle, clock: nat) {
    forall n: nat :: o(n) == if n == clock then Fails else Works
  }

  ghost predicate Same<P, C>(f: map<P, C>, g: map<P, C>, p: P) {
    (p in f <==> p in g) && (p in f ==> f[p] == g[p])
  }

  /** The files once `from` has taken the name `to`. */
  function Moved<P, C>(files: map<P, C>, from: P, to: P): map<P, C>
    requires from in files
  {
    (files - {from})[to := files[from]]
  }

  datatype StatResult = Present | Absent | Unreadable

  datatype World<P, C> = World(files: map<P, C>, clock: nat, alive: bool) {

    /** Whether the next call reaches the filesystem. */
    predicate Permits(o: Oracle) {
      alive && o(clock).Works?
    }

    /** One call passes: time moves on, and the process may be gone. */
    function Tick(o: Oracle): World<P, C> {
      if !alive then this else this.(clock := clock + 1, alive := !o(clock).Dies?)
    }

    /** A step that touches no file but can fail: a lock, a space check, a cancellation check. */
    function Check(o: Oracle): (World<P, C>, bool) {
      (Tick(o), Permits(o))
    }

    function Stat(o: Oracle, p: P): (World<P, C>, StatResult) {
      (Tick(o), if !Permits(o) then Unreadable else if p in files then Present else Absent)
    }

    /** Renaming a directory: the destination must be free. */
    function RenameDir(o: Oracle, from: P, to: P): (World<P, C>, bool) {
      if Permits(o) && from in files && to !in files then
        (Tick(o).(files := Moved(files, from, to)), true)
      else
        (Tick(o), false)
    }

    /** Renaming a directory that a scanner may be holding: one call after another up to a deadline. */
    function RenameDirUntil(o: Oracle, from: P, to: P, deadline: nat): (r: (World<P, C>, bool))
      ensures r.1 ==> alive && r.0.alive && from in files && to !in files
      ensures r.0.files == if r.1 then Moved(files, from, to) else files
      ensures r.0.alive ==> alive
      ensures alive && Healthy(o) && clock < deadline ==> r.0.alive && (r.1 <==> from in files && to !in files)
      decreases deadline - clock
    {
      if !alive || deadline <= clock then
        (this, false)
      else
        var (w, ok) := RenameDir(o, from, to);
        if ok then (w, true) else w.RenameDirUntil(o, from, to, deadline)
    }

    lemma NothingWorks(o: Oracle, from: P, to: P, deadline: nat)
      requires alive && clock <= deadline && forall n :: clock <= n < deadline ==> o(n) == Fails
      ensures RenameDirUntil(o, from, to, deadline) == (this.(clock := deadline), false)
      decreases deadline - clock
    {
    }

    function RenameDirWithRetry(o: Oracle, from: P, to: P): (World<P, C>, bool) {
      RenameDirUntil(o, from, to, clock + RENAME_ATTEMPTS)
    }

    /** Renaming a file: an existing destination is replaced. */
    function RenameFile(o: Oracle, from: P, to: P): (World<P, C>, bool) {
      if Permits(o) && from in files then
        (Tick(o).(files := Moved(files, from, to)), true)
      else
        (Tick(o), false)
    }

    /** Removing a file or a whole tree in one step; nothing to remove is success. */
    function Remove(o: Oracle, p: P): (World<P, C>, bool) {
      if Permits(o) then (Tick(o).(files := files - {p}), true) else (Tick(o), false)
    }

    /** Replacing a small file through a sibling temporary and a rename. */
    function Replace(o: Oracle, p: P, c: C): (World<P, C>, bool) {
      if Permits(o) then (Tick(o).(files := files[p := c]), true) else (Tick(o), false)
    }

    /** A new process on the same filesystem. */
    function Restart(): World<P, C> {
      this.(alive := true)
    }
  }

  /** The running machine: the same filesystem, changed in place. */
  class Machine<P(==), C> {
    const oracle: Oracle
    var files: map<P, C>
    var clock: nat
    var alive: bool

    constructor (oracle: Oracle, files: map<P, C>)
      ensures this.oracle == oracle && View() == World(files, 0, true)
    {
      this.oracle := oracle;
      this.files := files;
      clock := 0;
      alive := true;
    }

    ghost function View(): World<P, C>
      reads this
    {
      World(files, clock, alive)
    }

    method Pass() returns (works: bool)
      modifies this
      ensures View() == old(View()).Tick(oracle)
      ensures works == old(View()).Permits(oracle)
    {
      works := false;
      if alive {
        match oracle(clock) {
          case Works => works := true;
          case Fails =>
          case Dies => alive := false;
        }
        clock := clock + 1;
      }
    }

    method Stat(p: P) returns (r: StatResult)
      modifies this
      ensures (View(), r) == old(View()).Stat(oracle, p)
    {
      var works := Pass();
      r := if !works then Unreadable else if p in files then Present else Absent;
    }

    method RenameDir(from: P, to: P) returns (ok: bool)
      modifies this
      ensures (View(), ok) == old(View()).RenameDir(oracle, from, to)
    {
      var works := Pass();
      ok := works && from in files && to !in files;
      if ok {
        files := Moved(files, from, to);
      }
    }

    method RenameDirWithRetry(from: P, to: P) returns (ok: bool)
      modifies this
      ensures (View(), ok) == old(View()).RenameDirWithRetry(oracle, from, to)
    {
      ok := false;
      var attempt := 0;
      while attempt < RENAME_ATTEMPTS && !ok
        invariant attempt <= RENAME_ATTEMPTS
        invariant !ok && alive ==> clock == old(clock) + attempt
        invariant if ok then (View(), ok) == old(View()).RenameDirWithRetry(oracle, from, to)
                  else View().RenameDirUntil(oracle, from, to, old(clock) + RENAME_ATTEMPTS)
                       == old(View()).RenameDirWithRetry(oracle, from, to)
      {
        ok := RenameDir(from, to);
        attempt := attempt + 1;
      }
    }

    method RenameFile(from: P, to: P) returns (ok: bool)
      modifies this
      ensures (View(), ok) == old(View()).RenameFile(oracle, from, to)
    {
      var works := Pass();
      ok := works && from in files;
      if ok {
        files := Moved(files, from, to);
      }
    }

    method Remove(p: P) returns (ok: bool)
      modifies this
      ensures (View(), ok) == old(View()).Remove(oracle, p)
    {
      ok := Pass();
      if ok {
        files := files - {p};
      }
    }

    method Replace(p: P, c: C) returns (ok: bool)
      modifies this
      ensures (View(), ok) == old(View()).Replace(oracle, p, c)
    {
      ok := Pass();
      if ok {
        files := files[p := c];
      }
    }

    method Restart()
      modifies this
      ensures View() == old(View()).Restart()
    {
      alive := true;
    }
  }
}
