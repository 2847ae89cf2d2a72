/** The editor's linear undo/redo history, independent of what a snapshot holds:
    a list of snapshots, the index of the current one, and a stack of snapshots
    that redo may bring back. Recording truncates everything after the current
    snapshot and appends the new one; undo steps back and remembers the snapshot
    it left; redo re-appends the top of that stack. */
module Timeline {

  datatype Timeline<S> = Timeline(history: seq<S>, step: nat, redo: seq<S>)

  /** The index bound every store action keeps: `0 <= historyStep < history.length`. */
  predicate Valid<S>(t: Timeline<S>) {
    t.step < |t.history|
  }

  /** The snapshot the step points at. */
  function Current<S>(t: Timeline<S>): S
    requires Valid(t)
  {
    t.history[t.step]
  }

  /** `history.slice(0, historyStep + 1)` with the new snapshot pushed, and the step
      moved onto it; the redo stack is left as it was. */
  function Push<S>(t: Timeline<S>, s: S): (r: Timeline<S>)
    requires Valid(t)
    ensures Valid(r) && Current(r) == s && r.step == t.step + 1
    ensures |r.history| == r.step + 1 && r.history[..r.step] == t.history[..t.step + 1]
    ensures r.redo == t.redo
  {
    Timeline(t.history[..t.step + 1] + [s], t.step + 1, t.redo)
  }

  /** A push that also empties the redo stack. */
  function Record<S>(t: Timeline<S>, s: S): (r: Timeline<S>)
    requires Valid(t)
    ensures Valid(r) && Current(r) == s && r.step == t.step + 1
    ensures |r.history| == r.step + 1 && r.history[..r.step] == t.history[..t.step + 1]
    ensures r.redo == []
  {
    Push(t, s).(redo := [])
  }

  /** Step back, remembering the snapshot left behind on top of the redo stack; a
      no-op at the first snapshot. The history itself is never shortened. */
  function Undo<S>(t: Timeline<S>): (r: Timeline<S>)
    requires Valid(t)
    ensures Valid(r) && r.history == t.history
    ensures t.step == 0 ==> r == t
    ensures t.step > 0 ==> r.step == t.step - 1 && r.redo == [Current(t)] + t.redo
  {
    if t.step > 0 then Timeline(t.history, t.step - 1, [t.history[t.step]] + t.redo)
    else t
  }

  /** Pop the redo stack and append its top after the current snapshot, dropping
      whatever followed it; a no-op when the stack is empty. */
  function Redo<S>(t: Timeline<S>): (r: Timeline<S>)
    requires Valid(t)
    ensures Valid(r)
    ensures t.redo == [] ==> r == t
    ensures t.redo != [] ==> Current(r) == t.redo[0] && r.step == t.step + 1 && r.redo == t.redo[1..]
    ensures t.redo != [] ==> r.history[..r.step] == t.history[..t.step + 1]
  {
    if t.redo != [] then Timeline(t.history[..t.step + 1] + [t.redo[0]], t.step + 1, t.redo[1..])
    else t
  }

  /** Redo right after undo returns to the same snapshot, step and redo stack; only
      the snapshots beyond the current one are gone from the history. */
  lemma RedoAfterUndo<S>(t: Timeline<S>)
    requires Valid(t) && t.step > 0
    ensures Redo(Undo(t)) == Timeline(t.history[..t.step + 1], t.step, t.redo)
  {
    var u := Undo(t);
    assert u.history[..u.step + 1] + [u.redo[0]] == t.history[..t.step + 1];
  }

  /** Undo right after redo returns to the same snapshot, step and redo stack. */
  lemma UndoAfterRedo<S>(t: Timeline<S>)
    requires Valid(t) && t.redo != []
    ensures Undo(Redo(t)) == Timeline(t.history[..t.step + 1] + [t.redo[0]], t.step, t.redo)
    ensures Current(Undo(Redo(t))) == Current(t)
  {
    var r := Redo(t);
    assert r.history[r.step] == t.redo[0];
    assert [t.redo[0]] + t.redo[1..] == t.redo;
  }

  /** Undo right after a recording action shows the snapshot from before it, with
      the recorded one as the only thing redo can bring back. */
  lemma UndoAfterRecord<S>(t: Timeline<S>, s: S)
    requires Valid(t)
    ensures Undo(Record(t, s)).step == t.step
    ensures Current(Undo(Record(t, s))) == Current(t)
    ensures Undo(Record(t, s)).redo == [s]
  {
    var r := Record(t, s);
    assert r.history[t.step] == r.history[..r.step][t.step];
  }

  /** A recording action leaves nothing to redo. */
  lemma RedoAfterRecord<S>(t: Timeline<S>, s: S)
    requires Valid(t)
    ensures Redo(Record(t, s)) == Record(t, s)
  {
  }

  /** After a push that keeps the redo stack (the lock and delete actions), redo
      brings back a snapshot undone before the push, and the pushed one is
      dropped from the history. */
  lemma RedoAfterPush<S>(t: Timeline<S>, s: S)
    requires Valid(t) && t.redo != []
    ensures Current(Redo(Push(t, s))) == t.redo[0]
    ensures Redo(Push(t, s)).history == t.history[..t.step + 1] + [s, t.redo[0]]
  {
  }

  /** `k` undos in a row. */
  function UndoN<S>(t: Timeline<S>, k: nat): (r: Timeline<S>)
    requires Valid(t)
    ensures Valid(r)
    decreases k
  {
    if k == 0 then t else UndoN(Undo(t), k - 1)
  }

  /** `k` redos in a row. */
  function RedoN<S>(t: Timeline<S>, k: nat): (r: Timeline<S>)
    requires Valid(t)
    ensures Valid(r)
    decreases k
  {
    if k == 0 then t else RedoN(Redo(t), k - 1)
  }

  /** `k` undos from step `c` (with `k <= c`) land on step `c - k` and stack the
      skipped snapshots, nearest first, on the redo stack. */
  lemma {:induction false} UndoNStacks<S>(t: Timeline<S>, k: nat)
    requires Valid(t) && k <= t.step
    ensures UndoN(t, k) == Timeline(t.history, t.step - k, t.history[t.step - k + 1..t.step + 1] + t.redo)
    decreases k
  {
    if k > 0 {
      var u := Undo(t);
      UndoNStacks(u, k - 1);
      assert t.history[t.step - k + 1..t.step] + [t.history[t.step]] == t.history[t.step - k + 1..t.step + 1];
    }
  }

  /** `k` redos replay the first `k` entries of the redo stack after the current
      snapshot; once at least one redo happened, nothing follows them. */
  lemma {:induction false} RedoNReplays<S>(t: Timeline<S>, p: seq<S>, rest: seq<S>)
    requires Valid(t) && t.redo == p + rest
    ensures var r := RedoN(t, |p|);
            && r.step == t.step + |p| && r.redo == rest
            && r.history[..r.step + 1] == t.history[..t.step + 1] + p
            && (p != [] ==> r.history == t.history[..t.step + 1] + p)
    decreases |p|
  {
    if p != [] {
      var r := Redo(t);
      assert r.redo == p[1..] + rest;
      RedoNReplays(r, p[1..], rest);
      assert RedoN(t, |p|) == RedoN(r, |p[1..]|);
      assert r.history == t.history[..t.step + 1] + [p[0]];
      assert t.history[..t.step + 1] + [p[0]] + p[1..] == t.history[..t.step + 1] + p;
    }
  }

  /** `k` undos followed by `k` redos return to the starting snapshot, step and redo
      stack; the history keeps everything up to the current snapshot, and after at
      least one round trip nothing beyond it. */
  lemma UndoNThenRedoN<S>(t: Timeline<S>, k: nat)
    requires Valid(t) && k <= t.step
    ensures var r := RedoN(UndoN(t, k), k);
            && r.step == t.step && r.redo == t.redo && Current(r) == Current(t)
            && r.history[..t.step + 1] == t.history[..t.step + 1]
            && (k > 0 ==> r.history == t.history[..t.step + 1])
  {
    UndoNStacks(t, k);
    var p := t.history[t.step - k + 1..t.step + 1];
    RedoNReplays(UndoN(t, k), p, t.redo);
    assert t.history[..t.step - k + 1] + p == t.history[..t.step + 1];
    var r := RedoN(UndoN(t, k), k);
    assert r.history[t.step] == r.history[..t.step + 1][t.step];
  }
}
