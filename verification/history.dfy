/** Undo and redo history of the newer editor widget: two bounded stacks of
    snapshots (text and selection). The stacks are deques with a maximum
    length of UndoSize: appending to a full one drops its oldest entry. */
module History {
  import opened TextUtil
  import opened LineBuffer

  const UndoSize: nat := 25

  datatype Snapshot = Snapshot(lines: seq<string>, sel: Selection)

  datatype Stacks = Stacks(undo: seq<Snapshot>, redo: seq<Snapshot>)
  {
    predicate Valid()
    {
      |undo| <= UndoSize && |redo| <= UndoSize
    }
  }

  /** The outcome of undo or redo: the new stacks and, when the action did
      something, the snapshot whose text and selection become current. */
  datatype Step = Step(stacks: Stacks, restore: Option<Snapshot>)

  /** Appending to a bounded deque: the new entry goes on top, the oldest entry
      falls off when the deque is full. */
  function Push(stack: seq<Snapshot>, s: Snapshot): (r: seq<Snapshot>)
    requires |stack| <= UndoSize
    ensures |r| <= UndoSize && |r| > 0 && r[|r| - 1] == s
    ensures |stack| < UndoSize ==> r == stack + [s]
    ensures |stack| == UndoSize ==> r == stack[1..] + [s]
  {
    if |stack| < UndoSize then stack + [s] else stack[1..] + [s]
  }

  /** Taking a snapshot of the current state. */
  function TakeSnapshot(h: Stacks, cur: Snapshot): (r: Stacks)
    requires h.Valid()
    ensures r.Valid()
    ensures |r.undo| > 0 && r.undo[|r.undo| - 1] == cur
    ensures |h.undo| <= |r.undo| <= |h.undo| + 1
    ensures r.redo == h.redo || r.redo == []
  {
    if |h.undo| > 0 && h.undo[|h.undo| - 1] == cur then h
    else if |h.undo| > 0 && h.undo[|h.undo| - 1].lines == cur.lines then
      Stacks(h.undo[|h.undo| - 1 := cur], h.redo)
    else
      Stacks(Push(h.undo, cur), if |h.redo| > 0 then [] else h.redo)
  }

  /** Undo: snapshot the current state, then, when an older state exists, move
      the top of the undo stack to the redo stack and restore the new top. */
  function Undo(h: Stacks, cur: Snapshot): (r: Step)
    requires h.Valid()
    ensures r.stacks.Valid()
    ensures |r.stacks.undo| > 0
    ensures r.restore.Some? ==> r.restore.value == r.stacks.undo[|r.stacks.undo| - 1]
    ensures r.restore.Some? ==> |r.stacks.redo| > 0 && r.stacks.redo[|r.stacks.redo| - 1] == cur
    ensures var s := TakeSnapshot(h, cur);
            (r.restore.Some? <==> |s.undo| > 1)
            && (r.restore.Some? ==> r.stacks.undo == s.undo[..|s.undo| - 1]
                                    && r.stacks.redo == Push(s.redo, s.undo[|s.undo| - 1]))
            && (r.restore.None? ==> r.stacks == s)
  {
    var s := TakeSnapshot(h, cur);
    if |s.undo| > 1 then
      var undo := s.undo[..|s.undo| - 1];
      Step(Stacks(undo, Push(s.redo, s.undo[|s.undo| - 1])), Some(undo[|undo| - 1]))
    else
      Step(s, None)
  }

  /** Redo: move the top of the redo stack back onto the undo stack and restore it. */
  function Redo(h: Stacks): (r: Step)
    requires h.Valid()
    ensures r.stacks.Valid()
    ensures r.restore.Some? <==> |h.redo| > 0
    ensures r.restore.Some? ==>
              r.restore.value == h.redo[|h.redo| - 1] &&
              r.stacks.redo == h.redo[..|h.redo| - 1] &&
              r.stacks.undo == Push(h.undo, r.restore.value)
    ensures r.restore.None? ==> r.stacks == h
  {
    if |h.redo| > 0 then
      var top := h.redo[|h.redo| - 1];
      Step(Stacks(Push(h.undo, top), h.redo[..|h.redo| - 1]), Some(top))
    else
      Step(h, None)
  }

  /** Undo restores an older state exactly when the history holds one besides
      the current state: two or more entries, or one entry whose text differs
      from the current text. */
  lemma UndoActs(h: Stacks, cur: Snapshot)
    requires h.Valid()
    ensures Undo(h, cur).restore.Some?
            <==> |h.undo| > 1 || (|h.undo| == 1 && h.undo[0].lines != cur.lines)
  {
    var s := TakeSnapshot(h, cur);
    if |h.undo| > 0 && h.undo[|h.undo| - 1].lines != cur.lines {
      assert |s.undo| == |Push(h.undo, cur)|;
    }
  }

  /** Taking the same snapshot twice changes nothing the second time. */
  lemma SnapshotIdempotent(h: Stacks, cur: Snapshot)
    requires h.Valid()
    ensures TakeSnapshot(TakeSnapshot(h, cur), cur) == TakeSnapshot(h, cur)
  {
  }

  /** A new text is a new undo entry and makes the redo history unreachable;
      a new selection on the same text only replaces the top entry. */
  lemma SnapshotOutcomes(h: Stacks, cur: Snapshot)
    requires h.Valid() && |h.undo| > 0
    ensures var top := h.undo[|h.undo| - 1];
            var r := TakeSnapshot(h, cur);
            (top.lines != cur.lines ==> r.undo == Push(h.undo, cur) && r.redo == [])
            && (top.lines == cur.lines ==> r.undo == h.undo[|h.undo| - 1 := cur] && r.redo == h.redo)
  {
  }

  /** Redo right after an undo that did something brings back the state the
      undo left, with the undo stack exactly as the snapshot left it. */
  lemma {:induction false} RedoAfterUndo(h: Stacks, cur: Snapshot)
    requires h.Valid()
    requires Undo(h, cur).restore.Some?
    ensures var s := TakeSnapshot(h, cur);
            var r := Redo(Undo(h, cur).stacks);
            r.restore == Some(cur)
            && r.stacks.undo == s.undo
            && (|s.redo| < UndoSize ==> r.stacks.redo == s.redo)
  {
    var s := TakeSnapshot(h, cur);
    var u := Undo(h, cur).stacks;
    assert u.undo == s.undo[..|s.undo| - 1];
    assert |u.undo| < UndoSize;
    assert Push(u.undo, cur) == s.undo;
  }

  /** Undo never empties the undo stack, so the oldest state can always be
      restored; with a single entry it restores nothing. */
  lemma UndoAtOldest(cur: Snapshot)
    ensures Undo(Stacks([], []), cur) == Step(Stacks([cur], []), None)
    ensures Undo(Stacks([cur], []), cur) == Step(Stacks([cur], []), None)
  {
  }

  /** Two edits, then undo twice: the first undo restores the state after the
      first edit, the second restores the initial state, and a third does nothing. */
  lemma UndoTwice(a: Snapshot, b: Snapshot, c: Snapshot)
    requires a.lines != b.lines && b.lines != c.lines
    ensures var h0 := TakeSnapshot(TakeSnapshot(Stacks([], []), a), b);
            var u1 := Undo(h0, c);
            var u2 := Undo(u1.stacks, b);
            var u3 := Undo(u2.stacks, a);
            u1.restore == Some(b) && u2.restore == Some(a) && u3.restore == None
            && u2.stacks.redo == [c, b]
  {
    TwoSnapshots(a, b);
    FirstUndo(a, b, c);
    SecondUndo(a, b, c);
    assert TakeSnapshot(Stacks([a], [c, b]), a) == Stacks([a], [c, b]);
  }

  lemma TwoSnapshots(a: Snapshot, b: Snapshot)
    requires a.lines != b.lines
    ensures TakeSnapshot(TakeSnapshot(Stacks([], []), a), b) == Stacks([a, b], [])
  {
    assert Push([], a) == [a];
    assert Push([a], b) == [a, b];
  }

  lemma FirstUndo(a: Snapshot, b: Snapshot, c: Snapshot)
    requires b.lines != c.lines
    ensures Undo(Stacks([a, b], []), c) == Step(Stacks([a, b], [c]), Some(b))
  {
    assert TakeSnapshot(Stacks([a, b], []), c) == Stacks([a, b, c], []) by {
      assert Push([a, b], c) == [a, b, c];
    }
    assert [a, b, c][..2] == [a, b];
    assert Push([], c) == [c];
  }

  lemma SecondUndo(a: Snapshot, b: Snapshot, c: Snapshot)
    ensures Undo(Stacks([a, b], [c]), b) == Step(Stacks([a], [c, b]), Some(a))
  {
    assert TakeSnapshot(Stacks([a, b], [c]), b) == Stacks([a, b], [c]);
    assert [a, b][..1] == [a];
    assert Push([c], b) == [c, b];
  }
}
