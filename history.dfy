/**
 * The bounded linear undo/redo buffer of the ring editor (`history` and
 * `historyIndex` of `RingCustomizer` in app/static/js/app.js), as values.
 * The snapshot type `S` is left abstract: the buffer never looks inside a
 * snapshot.
 */
module History {

  /** The most entries the buffer keeps (`this.history.length > 50`). */
  const MaxHistory: nat := 50

  /** Committed snapshots, oldest first, and the cursor of the current one. */
  datatype Buffer<S> = Buffer(entries: seq<S>, cursor: int)
  {
    /** The cursor lies in [-1, |entries| - 1] and the buffer is within its bound. */
    predicate Valid() {
      -1 <= cursor < |entries| <= MaxHistory
    }
  }

  /** The buffer before the first commit: no entries, cursor -1. */
  function Empty<S>(): (b: Buffer<S>)
    ensures b.Valid() && b.entries == []
  {
    Buffer([], -1)
  }

  /** The first commit to an empty buffer gives the one-entry buffer with the cursor on it. */
  lemma CommitToEmpty<S>(s: S)
    ensures Commit(Empty<S>(), s) == Buffer([s], 0)
  {
  }

  /** The last `MaxHistory` entries of `h`, or all of `h` when it is shorter. */
  function Recent<S>(h: seq<S>): seq<S>
  {
    if |h| <= MaxHistory then h else h[|h| - MaxHistory..]
  }

  /**
   * `saveState`: drop every entry after the cursor, append `s`, keep only
   * the most recent `MaxHistory` entries, and point the cursor at `s`.
   */
  function Commit<S>(b: Buffer<S>, s: S): (r: Buffer<S>)
    requires b.Valid()
    ensures r.Valid()
    ensures |r.entries| == if b.cursor + 2 <= MaxHistory then b.cursor + 2 else MaxHistory
    ensures r.cursor == |r.entries| - 1 && r.entries[r.cursor] == s
    ensures r.entries[..r.cursor] == b.entries[b.cursor + 2 - |r.entries|..b.cursor + 1]
  {
    var kept := Recent(b.entries[..b.cursor + 1] + [s]);
    Buffer(kept, |kept| - 1)
  }

  /** `undo`: step the cursor back, unless it is already at the oldest entry. */
  function Undo<S>(b: Buffer<S>): (r: Buffer<S>)
    requires b.Valid()
    ensures r.Valid() && r.entries == b.entries
  {
    if b.cursor > 0 then b.(cursor := b.cursor - 1) else b
  }

  /** `redo`: step the cursor forward, unless it is already at the newest entry. */
  function Redo<S>(b: Buffer<S>): (r: Buffer<S>)
    requires b.Valid()
    ensures r.Valid() && r.entries == b.entries
  {
    if b.cursor < |b.entries| - 1 then b.(cursor := b.cursor + 1) else b
  }

  /** Undo moves the cursor exactly one step back, or not at all at the oldest entry. */
  lemma UndoMovesOneStep<S>(b: Buffer<S>)
    requires b.Valid()
    ensures b.cursor <= 0 ==> Undo(b) == b
    ensures b.cursor > 0 ==> Undo(b).cursor == b.cursor - 1
  {
  }

  /** Redo moves the cursor exactly one step forward, or not at all at the newest entry. */
  lemma RedoMovesOneStep<S>(b: Buffer<S>)
    requires b.Valid()
    ensures b.cursor >= |b.entries| - 1 ==> Redo(b) == b
    ensures b.cursor < |b.entries| - 1 ==> Redo(b).cursor == b.cursor + 1
  {
  }

  /** A successful undo followed by redo gives back the buffer it started from. */
  lemma RedoUndoesUndo<S>(b: Buffer<S>)
    requires b.Valid() && b.cursor > 0
    ensures Redo(Undo(b)) == b
  {
  }

  /** A successful redo followed by undo gives back the buffer it started from. */
  lemma UndoUndoesRedo<S>(b: Buffer<S>)
    requires b.Valid() && 0 <= b.cursor < |b.entries| - 1
    ensures Undo(Redo(b)) == b
  {
  }

  /** Right after a commit there is nothing to redo: the redo branch is gone. */
  lemma RedoAfterCommitIsNoop<S>(b: Buffer<S>, s: S)
    requires b.Valid()
    ensures Redo(Commit(b, s)) == Commit(b, s)
  {
  }

  /**
   * When the buffer is full and the cursor is at the newest entry, a commit
   * evicts the oldest entry, keeps the others in order, and leaves the cursor
   * where it was, which now holds the new snapshot.
   */
  lemma {:induction false} CommitEvictsOldest<S>(b: Buffer<S>, s: S)
    requires b.Valid() && |b.entries| == MaxHistory && b.cursor == MaxHistory - 1
    ensures Commit(b, s).entries == b.entries[1..] + [s]
    ensures Commit(b, s).cursor == b.cursor
  {
    var r := Commit(b, s);
    assert r.entries == r.entries[..r.cursor] + [s];
  }

  /** Below the bound, a commit keeps every entry up to the cursor and appends `s`. */
  lemma {:induction false} CommitBelowBound<S>(b: Buffer<S>, s: S)
    requires b.Valid() && b.cursor + 2 <= MaxHistory
    ensures Commit(b, s).entries == b.entries[..b.cursor + 1] + [s]
    ensures Commit(b, s).cursor == b.cursor + 1
  {
    var r := Commit(b, s);
    assert r.entries == r.entries[..r.cursor] + [s];
  }

  /** The buffer after committing every snapshot of `snaps`, in order. */
  function CommitAll<S>(b: Buffer<S>, snaps: seq<S>): (r: Buffer<S>)
    requires b.Valid()
    ensures r.Valid()
    ensures snaps != [] ==> r.entries != [] && r.cursor == |r.entries| - 1 && r.entries[r.cursor] == snaps[|snaps| - 1]
    decreases |snaps|
  {
    if snaps == [] then b else CommitAll(Commit(b, snaps[0]), snaps[1..])
  }

  /** Keeping the recent part of `x` first does not change the recent part of `x + y`. */
  lemma {:induction false} RecentOfRecent<S>(x: seq<S>, y: seq<S>)
    ensures Recent(Recent(x) + y) == Recent(x + y)
  {
    if |x| > MaxHistory {
      var rx := x[|x| - MaxHistory..];
      assert x + y == x[..|x| - MaxHistory] + (rx + y);
      if |rx + y| > MaxHistory {
        assert (x + y)[|x + y| - MaxHistory..] == (rx + y)[|rx + y| - MaxHistory..];
      }
    }
  }

  /**
   * A run of commits keeps exactly the most recent `MaxHistory` entries of
   * the history up to the cursor followed by the new snapshots.
   */
  lemma {:induction false} CommitAllKeepsRecent<S>(b: Buffer<S>, snaps: seq<S>)
    requires b.Valid() && snaps != []
    ensures CommitAll(b, snaps).entries == Recent(b.entries[..b.cursor + 1] + snaps)
    decreases |snaps|
  {
    var b1 := Commit(b, snaps[0]);
    var x := b.entries[..b.cursor + 1] + [snaps[0]];
    var rest := snaps[1..];
    assert b1.entries == Recent(x) && b1.cursor == |b1.entries| - 1;
    assert x + rest == b.entries[..b.cursor + 1] + snaps by {
      assert snaps == [snaps[0]] + rest;
    }
    if rest == [] {
      assert CommitAll(b, snaps) == b1;
    } else {
      calc {
        CommitAll(b, snaps).entries;
        CommitAll(b1, rest).entries;
        { CommitAllKeepsRecent(b1, rest); }
        Recent(b1.entries[..b1.cursor + 1] + rest);
        { assert b1.entries[..b1.cursor + 1] == b1.entries; }
        Recent(Recent(x) + rest);
        { RecentOfRecent(x, rest); }
        Recent(x + rest);
      }
    }
  }

  /**
   * After `MaxHistory` or more commits the buffer holds exactly the last
   * `MaxHistory` snapshots, with the cursor on the newest: every older
   * state is beyond the reach of undo.
   */
  lemma {:induction false} ManyCommitsSaturate<S>(b: Buffer<S>, snaps: seq<S>)
    requires b.Valid() && |snaps| >= MaxHistory
    ensures CommitAll(b, snaps).entries == snaps[|snaps| - MaxHistory..]
    ensures CommitAll(b, snaps).cursor == MaxHistory - 1
  {
    CommitAllKeepsRecent(b, snaps);
    var h := b.entries[..b.cursor + 1] + snaps;
    assert h[|h| - MaxHistory..] == snaps[|snaps| - MaxHistory..];
  }
}
