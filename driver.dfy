/** The driver loop of `make_tracks.py`: every row read is counted, and every
    parsed ping is added to an initially empty track set with dedupe on.

    Rows the row parser rejects are meant to be counted and dropped (the
    module docstring, line 7).  As written, the handler at lines 127-128 adds
    a string to the row's dictionary while building its log message, which
    raises, so the first rejected row ends the run.  `RunAsWritten` models
    that; `Assemble`, `SkippedCount` and `BuildTracks` model the intended
    loop. */
module Driver {
  import opened Samples
  import opened Bisect
  import opened Tracks

  /** What the row parser made of one CSV row: a ping, or an exception. */
  datatype RowOutcome = Parsed(ping: Ping) | Unparsable

  /** The track set after folding the parsed pings of `rows`, in order,
      into the empty set, dropping rejected rows.  Every track it builds is
      strictly increasing: sorted, with no sample twice. */
  function Assemble(rows: seq<RowOutcome>): (tracks: map<string, seq<Sample>>)
    ensures AllStrictlySorted(tracks)
    decreases |rows|
  {
    if rows == [] then map[]
    else
      var before := Assemble(rows[..|rows| - 1]);
      match rows[|rows| - 1]
      case Parsed(ping) =>
        WithPingKeepsStrictlySorted(before, ping);
        WithPing(before, ping, true)
      case Unparsable => before
  }

  /** The number of rows the row parser rejected. */
  function SkippedCount(rows: seq<RowOutcome>): (n: nat)
    ensures n <= |rows|
    ensures n == 0 <==> forall k :: 0 <= k < |rows| ==> rows[k].Parsed?
    decreases |rows|
  {
    if rows == [] then 0
    else SkippedCount(rows[..|rows| - 1]) + (if rows[|rows| - 1].Unparsable? then 1 else 0)
  }

  /** Some parsed row is a ping of entity `id`. */
  ghost predicate Mentions(rows: seq<RowOutcome>, id: string)
  {
    exists ping :: Parsed(ping) in rows && ping.id == id
  }

  /** Some parsed row is a ping of entity `id` whose sample is `x`. */
  ghost predicate Observed(rows: seq<RowOutcome>, id: string, x: Sample)
  {
    exists ping :: Parsed(ping) in rows && ping.id == id && Project(ping) == x
  }

  /** The assembled tracks hold exactly what was parsed: an id has a track
      exactly when some parsed ping carries it, and a sample is in that track
      exactly when some parsed ping of that id projects to it.  Rejected rows
      leave no trace. */
  lemma {:induction false} AssembleMembers(rows: seq<RowOutcome>)
    ensures forall id :: id in Assemble(rows) <==> Mentions(rows, id)
    ensures forall id, x :: x in TrackOf(Assemble(rows), id) <==> Observed(rows, id, x)
    decreases |rows|
  {
    if rows != [] {
      var prefix := rows[..|rows| - 1];
      var last := rows[|rows| - 1];
      AssembleMembers(prefix);
      assert rows == prefix + [last];
      assert forall r :: r in rows <==> r in prefix || r == last;
      match last
      case Unparsable =>
        assert forall ping :: Parsed(ping) in rows <==> Parsed(ping) in prefix;
      case Parsed(q) =>
        var before := Assemble(prefix);
        AddSampleMembers(TrackOf(before, q.id), Project(q), true);
        forall id ensures id in Assemble(rows) <==> Mentions(rows, id) {
          if id == q.id {
            assert Parsed(q) in rows;
          }
        }
        forall id, x ensures x in TrackOf(Assemble(rows), id) <==> Observed(rows, id, x) {
          if Observed(rows, id, x) {
            var ping :| Parsed(ping) in rows && ping.id == id && Project(ping) == x;
            assert Parsed(ping) in prefix || ping == q;
          }
          if id == q.id {
            assert TrackOf(Assemble(rows), id) == AddSample(TrackOf(before, id), Project(q), true);
            if x == Project(q) {
              assert Parsed(q) in rows;
            }
          } else {
            assert TrackOf(Assemble(rows), id) == TrackOf(before, id);
          }
        }
    }
  }

  /** The result depends only on which pings were parsed: neither the order
      of the rows, nor repeated pings, nor rejected rows change it. */
  lemma AssembleOrderIndependent(rows: seq<RowOutcome>, others: seq<RowOutcome>)
    requires forall ping :: Parsed(ping) in rows <==> Parsed(ping) in others
    ensures Assemble(rows) == Assemble(others)
  {
    var m, n := Assemble(rows), Assemble(others);
    AssembleMembers(rows);
    AssembleMembers(others);
    assert m.Keys == n.Keys by {
      forall id ensures id in m <==> id in n {
        assert Mentions(rows, id) <==> Mentions(others, id);
      }
    }
    forall id | id in m ensures m[id] == n[id] {
      assert TrackOf(m, id) == m[id] && TrackOf(n, id) == n[id];
      forall x ensures x in m[id] <==> x in n[id] {
        assert Observed(rows, id, x) <==> Observed(others, id, x);
      }
      StrictlySortedUnique(m[id], n[id]);
    }
  }

  /** A worked run: entity "A" is seen at second 1609459201, then at second
      1609459200, then again at 1609459201 at the same place.  The track
      comes out in time order, and the repeated ping is dropped. */
  lemma RepeatedPingCollapses()
    ensures
      var later := Ping("A", 1609459201.0, 10.0, 20.0);
      var earlier := Ping("A", 1609459200.0, 9.0, 19.0);
      Assemble([Parsed(later), Parsed(earlier), Parsed(later)])
      == map["A" := [Project(earlier), Project(later)]]
  {
    var later := Ping("A", 1609459201.0, 10.0, 20.0);
    var earlier := Ping("A", 1609459200.0, 9.0, 19.0);
    var rows := [Parsed(later), Parsed(earlier), Parsed(later)];
    assert rows[..2][..1] == [Parsed(later)];
    assert Assemble([Parsed(later)]) == map["A" := [Project(later)]];
    assert InsertionPoint([Project(later)], Project(earlier)) == 0;
    assert AddSample([Project(later)], Project(earlier), true) == [Project(earlier), Project(later)];
    assert Assemble(rows[..2]) == map["A" := [Project(earlier), Project(later)]];
    AddSampleDedupe([Project(earlier), Project(later)], Project(later));
  }

  /** How a run of the loop as written ends: it finishes with the tracks and
      both counters, or an exception ends it at row `atRow` (counting from 1)
      before anything is written. */
  datatype RunOutcome =
    | Finished(tracks: map<string, seq<Sample>>, rowsRead: nat, rowsSkipped: nat)
    | Crashed(atRow: nat)

  /** The loop at lines 120-131 as written: a rejected row raises again
      inside its handler (line 128), so `rows_skipped` never moves and the
      run stops there.  It finishes exactly when every row parsed, and then
      agrees with the intended fold; otherwise it stops at the first
      rejected row. */
  function RunAsWritten(rows: seq<RowOutcome>): (o: RunOutcome)
    ensures o.Finished? <==> SkippedCount(rows) == 0
    ensures o.Finished? ==> o == Finished(Assemble(rows), |rows|, 0)
    ensures o.Crashed? ==>
      && 1 <= o.atRow <= |rows|
      && rows[o.atRow - 1].Unparsable?
      && forall k :: 0 <= k < o.atRow - 1 ==> rows[k].Parsed?
    decreases |rows|
  {
    if rows == [] then Finished(map[], 0, 0)
    else
      match RunAsWritten(rows[..|rows| - 1])
      case Crashed(at) => Crashed(at)
      case Finished(tracks, read, skipped) =>
        match rows[|rows| - 1]
        case Parsed(ping) => Finished(WithPing(tracks, ping, true), read + 1, skipped)
        case Unparsable => Crashed(read + 1)
  }

  /** One rejected row between two good ones: the loop as written stops at
      row 2 with nothing written, while the intended loop skips that row,
      counts it, and builds tracks for both good pings. */
  lemma SkippedRowCrashesRun(a: Ping, b: Ping)
    ensures var rows := [Parsed(a), Unparsable, Parsed(b)];
      && RunAsWritten(rows) == Crashed(2)
      && SkippedCount(rows) == 1
      && Assemble(rows).Keys == {a.id, b.id}
  {
    var rows := [Parsed(a), Unparsable, Parsed(b)];
    assert rows[..2][..1] == [Parsed(a)];
    assert rows[..2] == [Parsed(a), Unparsable];
    assert RunAsWritten([Parsed(a)]) == Finished(WithPing(map[], a, true), 1, 0);
    assert RunAsWritten(rows[..2]) == Crashed(2);
  }

  /** The loop over all input rows: returns the track set and the counts of
      rows read and rows skipped. */
  method BuildTracks(rows: seq<RowOutcome>) returns (ts: TrackSet, rowsRead: nat, rowsSkipped: nat)
    ensures fresh(ts) && ts.Valid()
    ensures ts.tracks == Assemble(rows)
    ensures AllStrictlySorted(ts.tracks)
    ensures rowsRead == |rows| && rowsSkipped == SkippedCount(rows)
  {
    ts := new TrackSet();
    rowsRead, rowsSkipped := 0, 0;
    while rowsRead < |rows|
      invariant rowsRead <= |rows|
      invariant fresh(ts) && ts.Valid()
      invariant ts.tracks == Assemble(rows[..rowsRead])
      invariant AllStrictlySorted(ts.tracks)
      invariant rowsSkipped == SkippedCount(rows[..rowsRead])
    {
      var row := rows[rowsRead];
      assert rows[..rowsRead + 1][..rowsRead] == rows[..rowsRead];
      rowsRead := rowsRead + 1;
      match row
      case Unparsable =>
        rowsSkipped := rowsSkipped + 1;
      case Parsed(ping) =>
        ts.AddPing(ping, true);
    }
    assert rows[..rowsRead] == rows;
  }
}
