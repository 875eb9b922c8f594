// Publishing several renames as one change (publishPortableReset in
// reset_portable.go): forward in order, and back in reverse when one fails. An
// undo that fails stops the way back, so what remains is always a prefix.
module RenameTransaction {
  import opened FaultyFs

  datatype Move<P> = Move(from: P, to: P)

  // ---- What the code does ------------------------------------------------------

  function Publish<P, C>(o: Oracle, w: World<P, C>, moves: seq<Move<P>>, i: nat): (r: (World<P, C>, bool))
    requires i <= |moves|
    ensures w.clock <= r.0.clock
    decreases |moves| - i
  {
    if i == |moves| then (w, true)
    else
      var (v, ok) := w.RenameFile(o, moves[i].from, moves[i].to);
      if ok then Publish(o, v, moves, i + 1) else (Undo(o, v, moves, i), false)
  }

  function Undo<P, C>(o: Oracle, w: World<P, C>, moves: seq<Move<P>>, i: nat): (v: World<P, C>)
    requires i <= |moves|
    ensures w.clock <= v.clock
    decreases i
  {
    if i == 0 then w
    else
      var (u, ok) := w.RenameFile(o, moves[i - 1].to, moves[i - 1].from);
      if ok then Undo(o, u, moves, i - 1) else u
  }

  method PublishMoves<P(==), C>(m: Machine<P, C>, moves: seq<Move<P>>) returns (ok: bool)
    modifies m
    ensures (m.View(), ok) == Publish(m.oracle, old(m.View()), moves, 0)
  {
    var i := 0;
    while i < |moves|
      invariant i <= |moves|
      invariant Publish(m.oracle, m.View(), moves, i) == Publish(m.oracle, old(m.View()), moves, 0)
    {
      var renamed := m.RenameFile(moves[i].from, moves[i].to);
      if !renamed {
        var j := i;
        while j > 0
          invariant j <= i
          invariant Undo(m.oracle, m.View(), moves, j) == Publish(m.oracle, old(m.View()), moves, 0).0
        {
          var undone := m.RenameFile(moves[j - 1].to, moves[j - 1].from);
          if !undone {
            return false;
          }
          j := j - 1;
        }
        return false;
      }
      i := i + 1;
    }
    return true;
  }

  // ---- What it amounts to --------------------------------------------------------

  /** The files after the first k moves. */
  function After<P, C>(f: map<P, C>, moves: seq<Move<P>>, k: nat): map<P, C>
    requires k <= |moves|
  {
    if k == 0 then f
    else
      var g := After(f, moves, k - 1);
      if moves[k - 1].from in g then Moved(g, moves[k - 1].from, moves[k - 1].to) else g
  }

  /** Every move finds its source, and its destination free, when it is reached. */
  ghost predicate Clear<P, C>(f: map<P, C>, moves: seq<Move<P>>) {
    forall k | 0 <= k < |moves| :: moves[k].from in After(f, moves, k) && moves[k].to !in After(f, moves, k)
  }

  /** The first moves find their sources, and their destinations free. */
  ghost predicate ClearUpTo<P, C>(f: map<P, C>, moves: seq<Move<P>>, n: nat)
    requires n <= |moves|
  {
    forall k | 0 <= k < n :: moves[k].from in After(f, moves, k) && moves[k].to !in After(f, moves, k)
  }

  /** Every destination is free when it is reached; a source may be missing. */
  ghost predicate Free<P, C>(f: map<P, C>, moves: seq<Move<P>>) {
    forall k | 0 <= k < |moves| :: moves[k].to !in After(f, moves, k)
  }

  /** How many moves find their source, from the given one on, before one does not. */
  ghost function Sourced<P, C>(f: map<P, C>, moves: seq<Move<P>>, i: nat): (s: nat)
    requires i <= |moves|
    ensures i <= s <= |moves|
    decreases |moves| - i
  {
    if i == |moves| || moves[i].from !in After(f, moves, i) then i else Sourced(f, moves, i + 1)
  }

  /** How many calls in a row work from the given one on, up to n. */
  function Successes(o: Oracle, clock: nat, n: nat): (s: nat)
    ensures s <= n
    decreases n
  {
    if n == 0 || o(clock) != Works then 0 else 1 + Successes(o, clock + 1, n - 1)
  }

  lemma {:induction false} SuccessesIs(o: Oracle, clock: nat, n: nat, s: nat)
    requires s <= n && (forall i :: clock <= i < clock + s ==> o(i) == Works) && (s < n ==> o(clock + s) != Works)
    ensures Successes(o, clock, n) == s
    decreases n
  {
    if s > 0 {
      assert o(clock) == Works;
      SuccessesIs(o, clock + 1, n - 1, s - 1);
    }
  }

  /** The length of the prefix left behind, where only the first s moves have
      their source: all of it; or, with the move after the first i failing, what
      the undos did not take back; or i, when the process died there. */
  function KeptOf(o: Oracle, clock: nat, n: nat, s: nat): (k: nat)
    requires s <= n
    ensures k <= s
    ensures k == n <==> s == n && Successes(o, clock, n) == n
  {
    var i := Successes(o, clock, s);
    if i == n then n
    else if o(clock + i) == Dies then i
    else i - Successes(o, clock + i + 1, i)
  }

  function Kept(o: Oracle, clock: nat, n: nat): (k: nat)
    ensures k <= n
    ensures k == n <==> Successes(o, clock, n) == n
  {
    KeptOf(o, clock, n, n)
  }

  lemma ForwardStep<P, C>(f: map<P, C>, moves: seq<Move<P>>, k: nat)
    requires k < |moves| && Clear(f, moves)
    ensures moves[k].from in After(f, moves, k) && moves[k].to !in After(f, moves, k)
    ensures After(f, moves, k + 1) == Moved(After(f, moves, k), moves[k].from, moves[k].to)
  {
  }

  lemma UndoStep<P, C>(f: map<P, C>, moves: seq<Move<P>>, k: nat)
    requires 0 < k <= |moves| && ClearUpTo(f, moves, k)
    ensures moves[k - 1].to in After(f, moves, k)
    ensures Moved(After(f, moves, k), moves[k - 1].to, moves[k - 1].from) == After(f, moves, k - 1)
  {
  }

  lemma FewerClear<P, C>(f: map<P, C>, moves: seq<Move<P>>, n: nat, k: nat)
    requires k <= n <= |moves| && ClearUpTo(f, moves, n)
    ensures ClearUpTo(f, moves, k)
  {
  }

  lemma {:induction false} UndoLeavesPrefix<P, C>(o: Oracle, f: map<P, C>, w: World<P, C>, moves: seq<Move<P>>, i: nat)
    requires i <= |moves| && ClearUpTo(f, moves, i) && w.files == After(f, moves, i)
    ensures Undo(o, w, moves, i).files
         == After(f, moves, if w.alive then i - Successes(o, w.clock, i) else i)
    decreases i
  {
    hide After, ClearUpTo;
    if i > 0 {
      UndoStep(f, moves, i);
      FewerClear(f, moves, i, i - 1);
      var (v, ok) := w.RenameFile(o, moves[i - 1].to, moves[i - 1].from);
      if ok {
        UndoLeavesPrefix(o, f, v, moves, i - 1);
      }
    }
  }

  lemma OneMoreClear<P, C>(f: map<P, C>, moves: seq<Move<P>>, i: nat)
    requires i < |moves| && ClearUpTo(f, moves, i) && Free(f, moves) && moves[i].from in After(f, moves, i)
    ensures ClearUpTo(f, moves, i + 1) && After(f, moves, i + 1) == Moved(After(f, moves, i), moves[i].from, moves[i].to)
  {
    hide After, Moved;
    MoveDone(f, moves, i);
    forall k | 0 <= k < i + 1 ensures moves[k].from in After(f, moves, k) && moves[k].to !in After(f, moves, k) {
    }
  }

  lemma MoveDone<P, C>(f: map<P, C>, moves: seq<Move<P>>, i: nat)
    requires i < |moves| && moves[i].from in After(f, moves, i)
    ensures After(f, moves, i + 1) == Moved(After(f, moves, i), moves[i].from, moves[i].to)
  {
  }

  lemma {:induction false} PublishFrom<P, C>(o: Oracle, f: map<P, C>, w: World<P, C>, moves: seq<Move<P>>, i: nat, start: nat)
    requires i <= |moves| && Free(f, moves) && ClearUpTo(f, moves, i) && w.files == After(f, moves, i)
    requires w.alive && w.clock == start + i
    requires var s := Sourced(f, moves, 0); s == Sourced(f, moves, i) && Successes(o, start, s) == i + Successes(o, w.clock, s - i)
    ensures var (v, ok) := Publish(o, w, moves, i);
      var k := KeptOf(o, start, |moves|, Sourced(f, moves, 0));
      v.files == After(f, moves, k) && (ok <==> k == |moves|)
    decreases |moves| - i
  {
    hide After, Free, ClearUpTo, Undo;
    if i < |moves| {
      var (v, ok) := w.RenameFile(o, moves[i].from, moves[i].to);
      if ok {
        OneMoreClear(f, moves, i);
        PublishFrom(o, f, v, moves, i + 1, start);
      } else {
        UndoLeavesPrefix(o, f, v, moves, i);
      }
    }
  }

  /** Whatever renames fail, whatever sources are missing and wherever the process
      dies: the files are those after exactly the prefix that KeptOf names, and
      success means all moves. */
  lemma PublishLeavesPrefixOfFree<P, C>(o: Oracle, w: World<P, C>, moves: seq<Move<P>>)
    requires Free(w.files, moves) && w.alive
    ensures var (v, ok) := Publish(o, w, moves, 0);
      var k := KeptOf(o, w.clock, |moves|, Sourced(w.files, moves, 0));
      v.files == After(w.files, moves, k) && (ok <==> k == |moves|)
  {
    PublishFrom(o, w.files, w, moves, 0, w.clock);
  }

  lemma {:induction false} AllSourced<P, C>(f: map<P, C>, moves: seq<Move<P>>, i: nat)
    requires i <= |moves| && Clear(f, moves)
    ensures Sourced(f, moves, i) == |moves|
    decreases |moves| - i
  {
    hide After;
    if i < |moves| {
      AllSourced(f, moves, i + 1);
    }
  }

  /** With every source there, the prefix depends on the faults alone. */
  lemma PublishLeavesPrefix<P, C>(o: Oracle, w: World<P, C>, moves: seq<Move<P>>)
    requires Clear(w.files, moves) && w.alive
    ensures var (v, ok) := Publish(o, w, moves, 0);
      var k := Kept(o, w.clock, |moves|);
      v.files == After(w.files, moves, k) && (ok <==> k == |moves|)
  {
    hide After, Publish, KeptOf, Sourced;
    AllSourced(w.files, moves, 0);
    PublishLeavesPrefixOfFree(o, w, moves);
  }

  lemma {:induction false} PublishLives<P, C>(o: Oracle, w: World<P, C>, moves: seq<Move<P>>, i: nat)
    requires i <= |moves| && w.alive && Healthy(o)
    ensures Publish(o, w, moves, i).0.alive
    decreases |moves| - i
  {
    if i < |moves| {
      var (v, ok) := w.RenameFile(o, moves[i].from, moves[i].to);
      if ok {
        PublishLives(o, v, moves, i + 1);
      } else {
        UndoLives(o, v, moves, i);
      }
    }
  }

  lemma {:induction false} UndoLives<P, C>(o: Oracle, w: World<P, C>, moves: seq<Move<P>>, i: nat)
    requires i <= |moves| && w.alive && Healthy(o)
    ensures Undo(o, w, moves, i).alive
    decreases i
  {
    if i > 0 {
      UndoLives(o, w.RenameFile(o, moves[i - 1].to, moves[i - 1].from).0, moves, i - 1);
    }
  }

  /** Without faults all the moves are made. */
  lemma HealthyPublish<P, C>(o: Oracle, w: World<P, C>, moves: seq<Move<P>>)
    requires Clear(w.files, moves) && w.alive && Healthy(o)
    ensures var (v, ok) := Publish(o, w, moves, 0);
      ok && v.alive && v.files == After(w.files, moves, |moves|)
  {
    hide After, Publish;
    PublishLeavesPrefix(o, w, moves);
    SuccessesIs(o, w.clock, |moves|, |moves|);
    PublishLives(o, w, moves, 0);
  }

  lemma NoMoves<P, C>(f: map<P, C>, moves: seq<Move<P>>)
    ensures After(f, moves, 0) == f
  {
  }

  /** One failed rename whose undos all work changes nothing. */
  lemma FailedPublishIsUndone<P, C>(o: Oracle, w: World<P, C>, moves: seq<Move<P>>, i: nat)
    requires Clear(w.files, moves) && w.alive && i < |moves|
    requires o(w.clock + i) == Fails && forall n :: w.clock <= n <= w.clock + 2 * i && n != w.clock + i ==> o(n) == Works
    ensures Publish(o, w, moves, 0).0.files == w.files && !Publish(o, w, moves, 0).1
  {
    hide After, Clear, Publish;
    PublishLeavesPrefix(o, w, moves);
    assert After(w.files, moves, 0) == w.files by { NoMoves(w.files, moves); }
    SuccessesIs(o, w.clock, |moves|, i);
    SuccessesIs(o, w.clock + i + 1, i, i);
  }

  lemma {:induction false} UndoWhileWorking<P, C>(o: Oracle, f: map<P, C>, w: World<P, C>, moves: seq<Move<P>>, i: nat)
    requires i <= |moves| && Clear(f, moves) && w.files == After(f, moves, i) && w.alive && WorksFrom(o, w.clock)
    ensures Undo(o, w, moves, i) == World(f, w.clock + i, true)
    decreases i
  {
    hide After, Clear;
    NoMoves(f, moves);
    if i > 0 {
      AllClear(f, moves, i);
      UndoStep(f, moves, i);
      UndoWhileWorking(o, f, w.RenameFile(o, moves[i - 1].to, moves[i - 1].from).0, moves, i - 1);
    }
  }

  lemma AllClear<P, C>(f: map<P, C>, moves: seq<Move<P>>, n: nat)
    requires n <= |moves| && Clear(f, moves)
    ensures ClearUpTo(f, moves, n)
  {
  }

  lemma {:induction false} PublishWithOneFaultFrom<P, C>(o: Oracle, f: map<P, C>, w: World<P, C>, moves: seq<Move<P>>, i: nat, k: nat)
    requires i <= |moves| && Clear(f, moves) && w.files == After(f, moves, i) && w.alive && FailsOnceAt(o, w.clock + k)
    ensures var (v, ok) := Publish(o, w, moves, i);
      && v.alive && (ok <==> |moves| - i <= k)
      && (if ok then v.files == After(f, moves, |moves|) && v.clock == w.clock + |moves| - i
          else v.files == f && w.clock + k < v.clock)
    decreases |moves| - i
  {
    hide After, Clear, Undo;
    if i < |moves| {
      ForwardStep(f, moves, i);
      var (v, ok) := w.RenameFile(o, moves[i].from, moves[i].to);
      if ok {
        PublishWithOneFaultFrom(o, f, v, moves, i + 1, k - 1);
      } else {
        UndoWhileWorking(o, f, v, moves, i);
      }
    }
  }

  /** If one rename fails and nothing else does, all the moves are made or none. */
  lemma PublishWithOneFault<P, C>(o: Oracle, w: World<P, C>, moves: seq<Move<P>>, k: nat)
    requires Clear(w.files, moves) && w.alive && FailsOnceAt(o, w.clock + k)
    ensures var (v, ok) := Publish(o, w, moves, 0);
      && v.alive && (ok <==> |moves| <= k)
      && (if ok then v.files == After(w.files, moves, |moves|) && v.clock == w.clock + |moves|
          else v.files == w.files && w.clock + k < v.clock)
  {
    NoMoves(w.files, moves);
    PublishWithOneFaultFrom(o, w.files, w, moves, 0, k);
  }

  // ---- Nothing is lost or overwritten ------------------------------------------------

  /** Where the content that started at p is after the first k moves. */
  function Where<P(==)>(moves: seq<Move<P>>, k: nat, p: P): P
    requires k <= |moves|
  {
    if k == 0 then p
    else
      var q := Where(moves, k - 1, p);
      if q == moves[k - 1].from then moves[k - 1].to else q
  }

  lemma MovedKeepsContents<P, C>(f: map<P, C>, from: P, to: P, p: P)
    requires from in f && to !in f && p in f
    ensures var q := if p == from then to else p; q in Moved(f, from, to) && Moved(f, from, to)[q] == f[p]
    ensures |Moved(f, from, to)| == |f|
  {
    assert Moved(f, from, to).Keys == f.Keys - {from} + {to};
  }

  lemma {:induction false} NothingIsLost<P, C>(f: map<P, C>, moves: seq<Move<P>>, k: nat, p: P)
    requires k <= |moves| && Clear(f, moves) && p in f
    ensures var g := After(f, moves, k);
      |g| == |f| && Where(moves, k, p) in g && g[Where(moves, k, p)] == f[p]
  {
    hide After, Clear, Moved;
    if k == 0 {
      NoMoves(f, moves);
    } else {
      NothingIsLost(f, moves, k - 1, p);
      ForwardStep(f, moves, k - 1);
      MovedKeepsContents(After(f, moves, k - 1), moves[k - 1].from, moves[k - 1].to, Where(moves, k - 1, p));
    }
  }

  lemma {:induction false} NothingIsOverwritten<P, C>(f: map<P, C>, moves: seq<Move<P>>, k: nat, p: P, q: P)
    requires k <= |moves| && Clear(f, moves) && p in f && q in f && p != q
    ensures Where(moves, k, p) != Where(moves, k, q)
  {
    hide After, Clear;
    if k > 0 {
      NothingIsOverwritten(f, moves, k - 1, p, q);
      NothingIsLost(f, moves, k - 1, p);
      NothingIsLost(f, moves, k - 1, q);
      ForwardStep(f, moves, k - 1);
    }
  }
}
