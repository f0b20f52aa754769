/**
 * The admin's undo/redo log: a list of earlier snapshots of the tree
 * (`admin_history`) and a list of undone ones (`admin_future`), with the
 * bound `MAX_HISTORY` on the first.  Snapshots are values here; the deep
 * copies the bot takes with `copy.deepcopy` are what value semantics gives.
 */
module UndoLog {
  import opened Wrappers

  /** MAX_HISTORY: the number of snapshots push_admin_history keeps. */
  const MaxHistory: nat := 20

  datatype Log<T> = Log(history: seq<T>, future: seq<T>)

  /** The two lists together never hold more than MAX_HISTORY snapshots. */
  predicate Bounded<T>(log: Log<T>) {
    |log.history| + |log.future| <= MaxHistory
  }

  /**
   * push_admin_history: `cur` becomes the newest snapshot, the oldest one is
   * dropped when the list would exceed MAX_HISTORY, and the redo list is emptied.
   */
  function Push<T>(log: Log<T>, cur: T): (r: Log<T>)
    ensures r.future == []
    ensures 0 < |r.history| && r.history[|r.history| - 1] == cur
    ensures |log.history| < MaxHistory ==> r.history == log.history + [cur]
    ensures |log.history| >= MaxHistory ==> |r.history| == |log.history| && r.history == log.history[1..] + [cur]
  {
    var h := log.history + [cur];
    Log(if |h| > MaxHistory then h[1..] else h, [])
  }

  /**
   * Undo (the "↩️" button): with no snapshot nothing happens; otherwise the
   * current tree goes to the end of the redo list and the newest snapshot
   * comes back.  The result pairs the tree to install with the new log.
   */
  function Undo<T>(log: Log<T>, cur: T): (r: Option<(T, Log<T>)>)
    ensures r.None? <==> log.history == []
    ensures r.Some? ==> var (back, l) := r.value;
      && log.history == l.history + [back]
      && l.future == log.future + [cur]
  {
    if log.history == [] then None
    else
      var n := |log.history| - 1;
      Some((log.history[n], Log(log.history[..n], log.future + [cur])))
  }

  /** Redo (the "↪️" button): the mirror image of Undo on the redo list. */
  function Redo<T>(log: Log<T>, cur: T): (r: Option<(T, Log<T>)>)
    ensures r.None? <==> log.future == []
    ensures r.Some? ==> var (next, l) := r.value;
      && log.future == l.future + [next]
      && l.history == log.history + [cur]
  {
    if log.future == [] then None
    else
      var n := |log.future| - 1;
      Some((log.future[n], Log(log.history + [cur], log.future[..n])))
  }

  /** Importing a backup drops both lists. */
  function Cleared<T>(): (r: Log<T>)
    ensures r.history == [] && r.future == []
  {
    Log([], [])
  }

  /** A push keeps the log bounded, and so does every later undo and redo. */
  lemma PushBounded<T>(log: Log<T>, cur: T)
    requires Bounded(log)
    ensures Bounded(Push(log, cur))
  {
  }

  lemma UndoBounded<T>(log: Log<T>, cur: T)
    requires Bounded(log) && Undo(log, cur).Some?
    ensures Bounded(Undo(log, cur).value.1)
  {
  }

  /** Redo appends to the history without checking MAX_HISTORY; the bound holds anyway. */
  lemma RedoBounded<T>(log: Log<T>, cur: T)
    requires Bounded(log) && Redo(log, cur).Some?
    ensures Bounded(Redo(log, cur).value.1)
    ensures |Redo(log, cur).value.1.history| <= MaxHistory
  {
  }

  /** Redo right after an undo reinstalls the tree the undo replaced, and restores the log. */
  lemma RedoUndoes<T>(log: Log<T>, cur: T)
    requires Undo(log, cur).Some?
    ensures var (back, l) := Undo(log, cur).value;
      Redo(l, back) == Some((cur, log))
  {
    var (back, l) := Undo(log, cur).value;
    assert l.history + [back] == log.history;
  }

  /** Undo right after a redo reinstalls the tree the redo replaced, and restores the log. */
  lemma UndoRedoes<T>(log: Log<T>, cur: T)
    requires Redo(log, cur).Some?
    ensures var (next, l) := Redo(log, cur).value;
      Undo(l, next) == Some((cur, log))
  {
    var (next, l) := Redo(log, cur).value;
    assert l.future + [next] == log.future;
  }

  /** Undo right after a push brings back the tree the push recorded, with that tree's successor in the redo list. */
  lemma UndoAfterPush<T>(log: Log<T>, before: T, after: T)
    ensures Undo(Push(log, before), after).Some?
    ensures Undo(Push(log, before), after).value.0 == before
    ensures Undo(Push(log, before), after).value.1.future == [after]
  {
  }

  /** After a push there is nothing to redo. */
  lemma NoRedoAfterPush<T>(log: Log<T>, cur: T, any: T)
    ensures Redo(Push(log, cur), any).None?
  {
  }

  /** One admin action on the log: a change that records the tree it replaces, an undo or a redo. */
  datatype Action<T> = Change(next: T) | UndoAction | RedoAction

  /** The log and the current tree after one action; an undo or redo with nothing to take back changes nothing. */
  function Apply<T>(log: Log<T>, cur: T, a: Action<T>): (r: (Log<T>, T))
    ensures a.Change? ==> r == (Push(log, cur), a.next)
  {
    match a
    case Change(next) => (Push(log, cur), next)
    case UndoAction => (match Undo(log, cur) case None => (log, cur) case Some(p) => (p.1, p.0))
    case RedoAction => (match Redo(log, cur) case None => (log, cur) case Some(p) => (p.1, p.0))
  }

  /** The log and the current tree after a run of actions, first action first. */
  function Run<T>(log: Log<T>, cur: T, actions: seq<Action<T>>): (r: (Log<T>, T))
    decreases |actions|
  {
    if actions == [] then (log, cur)
    else var (l, c) := Apply(log, cur, actions[0]); Run(l, c, actions[1..])
  }

  /** Whatever the admin does, the history never holds more than MAX_HISTORY snapshots. */
  lemma {:induction false} RunBounded<T>(log: Log<T>, cur: T, actions: seq<Action<T>>)
    requires Bounded(log)
    ensures Bounded(Run(log, cur, actions).0)
    ensures |Run(log, cur, actions).0.history| <= MaxHistory
    decreases |actions|
  {
    if actions != [] {
      var (l, c) := Apply(log, cur, actions[0]);
      match actions[0] {
        case Change(next) => PushBounded(log, cur);
        case UndoAction => if Undo(log, cur).Some? { UndoBounded(log, cur); }
        case RedoAction => if Redo(log, cur).Some? { RedoBounded(log, cur); }
      }
      RunBounded(l, c, actions[1..]);
    }
  }
}
