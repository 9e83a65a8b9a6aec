/** The track assembler: `add_ping_to_tracks`.

    A track set maps each entity id to its track, a list of samples kept in
    ascending tuple order.  Adding a ping finds the leftmost insertion point
    of its sample by binary search; with dedupe on, the sample goes in only
    when the element at that point differs from it, and with dedupe off it
    always goes in there.  Only the track of the ping's id changes. */
module Tracks {
  import opened Samples
  import opened Bisect

  /** What one call does to one track.  An empty track becomes `[p]`; on a
      non-empty one `p` is spliced in at its insertion point, except that
      with dedupe a `p` already standing there is left alone. */
  function AddSample(track: seq<Sample>, p: Sample, dedupe: bool): (r: seq<Sample>)
    ensures p in r
    ensures |r| == |track| || |r| == |track| + 1
  {
    if track == [] then [p]
    else
      var j := InsertionPoint(track, p);
      if dedupe && j < |track| && track[j] == p then track
      else track[..j] + [p] + track[j..]
  }

  /** Splicing a sample into a sorted list at its insertion point keeps the
      list sorted. */
  lemma SpliceKeepsSorted(s: seq<Sample>, p: Sample, j: nat)
    requires Sorted(s) && j <= |s|
    requires forall i :: 0 <= i < j ==> Less(s[i], p)
    requires forall i :: j <= i < |s| ==> LessEq(p, s[i])
    ensures Sorted(s[..j] + [p] + s[j..])
  {
    var r := s[..j] + [p] + s[j..];
    forall a, b | 0 <= a < b < |r| ensures LessEq(r[a], r[b]) {
      if b < j {
        assert r[a] == s[a] && r[b] == s[b];
      } else if b == j {
        assert r[a] == s[a] && r[b] == p;
      } else if a < j {
        assert r[a] == s[a] && r[b] == s[b - 1];
        LessIsStrictTotalOrder(s[a], p, s[b - 1]);
      } else if a == j {
        assert r[a] == p && r[b] == s[b - 1];
      } else {
        assert r[a] == s[a - 1] && r[b] == s[b - 1];
      }
    }
  }

  /** The strict version: a sample strictly between its neighbours keeps a
      strictly sorted list strictly sorted. */
  lemma SpliceKeepsStrictlySorted(s: seq<Sample>, p: Sample, j: nat)
    requires StrictlySorted(s) && j <= |s|
    requires forall i :: 0 <= i < j ==> Less(s[i], p)
    requires forall i :: j <= i < |s| ==> Less(p, s[i])
    ensures StrictlySorted(s[..j] + [p] + s[j..])
  {
    var r := s[..j] + [p] + s[j..];
    forall a, b | 0 <= a < b < |r| ensures Less(r[a], r[b]) {
      if b < j {
        assert r[a] == s[a] && r[b] == s[b];
      } else if b == j {
        assert r[a] == s[a] && r[b] == p;
      } else if a < j {
        assert r[a] == s[a] && r[b] == s[b - 1];
        LessIsStrictTotalOrder(s[a], p, s[b - 1]);
      } else if a == j {
        assert r[a] == p && r[b] == s[b - 1];
      } else {
        assert r[a] == s[a - 1] && r[b] == s[b - 1];
      }
    }
  }

  /** On a sorted track the dedupe test "the element at the insertion point
      equals `p`" is exactly a membership test: with dedupe the track is
      unchanged when `p` is already in it, and otherwise `p` is spliced in at
      its insertion point. */
  lemma AddSampleSplices(track: seq<Sample>, p: Sample, dedupe: bool)
    requires Sorted(track)
    ensures var j := InsertionPoint(track, p);
      AddSample(track, p, dedupe)
      == if dedupe && p in track then track else track[..j] + [p] + track[j..]
  {
    var j := InsertionPoint(track, p);
    InsertionPointSplits(track, p);
    if p in track {
      var k :| 0 <= k < |track| && track[k] == p;
      assert !Less(track[k], p);
      assert j <= k;
      assert LessEq(track[j], track[k]);
      LessIsStrictTotalOrder(track[j], p, p);
      assert track[j] == p;
    }
  }

  /** Every element of the new track was in the old one or is `p`, and the
      other way round: nothing is lost, nothing else is added. */
  lemma AddSampleMembers(track: seq<Sample>, p: Sample, dedupe: bool)
    ensures forall x :: x in AddSample(track, p, dedupe) <==> x in track || x == p
  {
    if track != [] {
      var j := InsertionPoint(track, p);
      assert track == track[..j] + track[j..];
    }
  }

  /** A sorted track stays sorted, with or without dedupe. */
  lemma AddSampleKeepsSorted(track: seq<Sample>, p: Sample, dedupe: bool)
    requires Sorted(track)
    ensures Sorted(AddSample(track, p, dedupe))
  {
    var j := InsertionPoint(track, p);
    InsertionPointSplits(track, p);
    AddSampleSplices(track, p, dedupe);
    if !(dedupe && p in track) {
      SpliceKeepsSorted(track, p, j);
    }
  }

  /** With dedupe a strictly increasing track (no two equal samples) stays
      strictly increasing. */
  lemma AddSampleKeepsStrictlySorted(track: seq<Sample>, p: Sample)
    requires StrictlySorted(track)
    ensures StrictlySorted(AddSample(track, p, true))
  {
    StrictlySortedIsSorted(track);
    var j := InsertionPoint(track, p);
    InsertionPointSplits(track, p);
    AddSampleSplices(track, p, true);
    if p !in track {
      forall i | j <= i < |track| ensures Less(p, track[i]) {
        assert track[i] != p;
      }
      SpliceKeepsStrictlySorted(track, p, j);
    }
  }

  /** Dedupe on a sorted track: the track is left unchanged exactly when `p`
      is already in it; otherwise `p` lands at its insertion point and the
      track grows by one. */
  lemma AddSampleDedupe(track: seq<Sample>, p: Sample)
    requires Sorted(track)
    ensures AddSample(track, p, true) == track <==> p in track
    ensures p !in track ==>
      var j := InsertionPoint(track, p);
      && AddSample(track, p, true) == track[..j] + [p] + track[j..]
      && |AddSample(track, p, true)| == |track| + 1
  {
    AddSampleSplices(track, p, true);
  }

  /** With dedupe, adding the same sample twice is the same as adding it once. */
  lemma AddSampleIdempotent(track: seq<Sample>, p: Sample)
    requires Sorted(track)
    ensures AddSample(AddSample(track, p, true), p, true) == AddSample(track, p, true)
  {
    var once := AddSample(track, p, true);
    AddSampleKeepsSorted(track, p, true);
    AddSampleDedupe(once, p);
  }

  /** Inserting `p` at index `j`: the list grows by one around `p`, keeping
      the elements before and after `j` in their order. */
  lemma SpliceShape(s: seq<Sample>, p: Sample, j: nat)
    requires j <= |s|
    ensures var r := s[..j] + [p] + s[j..];
      && |r| == |s| + 1
      && multiset(r) == multiset(s) + multiset{p}
      && r[j] == p
      && r[..j] == s[..j] && r[j + 1..] == s[j..]
      && (forall i :: 0 <= i < j ==> r[i] == s[i])
      && (forall i :: j < i < |r| ==> r[i] == s[i - 1])
  {
    var r := s[..j] + [p] + s[j..];
    assert s == s[..j] + s[j..];
    assert r[..j] == s[..j];
    assert r[j + 1..] == s[j..];
  }

  /** Without dedupe the sample always goes in, at the leftmost place among
      equal samples: the track grows by one, gains exactly one copy of `p`,
      keeps the old samples in their old order around it, and every sample
      before it is strictly smaller. */
  lemma AddSampleAlwaysInserts(track: seq<Sample>, p: Sample)
    requires Sorted(track)
    ensures var r := AddSample(track, p, false);
      var j := InsertionPoint(track, p);
      && |r| == |track| + 1
      && multiset(r) == multiset(track) + multiset{p}
      && r[j] == p
      && r[..j] == track[..j] && r[j + 1..] == track[j..]
      && (forall i :: 0 <= i < j ==> Less(r[i], p))
      && (forall i :: j < i < |r| ==> LessEq(p, r[i]))
  {
    var j := InsertionPoint(track, p);
    AddSampleSplices(track, p, false);
    InsertionPointSplits(track, p);
    SpliceShape(track, p, j);
  }

  /** Without dedupe, adding the same sample twice leaves two copies of it
      side by side at its insertion point. */
  lemma AddSampleTwiceAdjacent(track: seq<Sample>, p: Sample)
    requires Sorted(track)
    ensures var r := AddSample(AddSample(track, p, false), p, false);
      var j := InsertionPoint(track, p);
      && |r| == |track| + 2
      && r[j] == p && r[j + 1] == p
      && multiset(r) == multiset(track) + multiset{p, p}
  {
    var once := AddSample(track, p, false);
    var j := InsertionPoint(track, p);
    AddSampleAlwaysInserts(track, p);
    AddSampleKeepsSorted(track, p, false);
    forall i | j <= i < |once| ensures !Less(once[i], p) {
      if i > j {
        assert LessEq(p, once[i]);
      }
    }
    InsertionPointUnique(once, p, j);
    AddSampleAlwaysInserts(once, p);
  }

  /** `tracks[id]` on the `defaultdict(list)`: an id never seen reads as the
      empty track. */
  function TrackOf(tracks: map<string, seq<Sample>>, id: string): seq<Sample>
  {
    if id in tracks then tracks[id] else []
  }

  /** Every track of the set is sorted. */
  predicate AllSorted(tracks: map<string, seq<Sample>>)
  {
    forall id :: id in tracks ==> Sorted(tracks[id])
  }

  /** Every track of the set is strictly increasing. */
  predicate AllStrictlySorted(tracks: map<string, seq<Sample>>)
  {
    forall id :: id in tracks ==> StrictlySorted(tracks[id])
  }

  /** The track set after one call: only the entry of the ping's id changes,
      no key is removed, and that entry holds the ping's sample. */
  function WithPing(tracks: map<string, seq<Sample>>, ping: Ping, dedupe: bool)
    : (r: map<string, seq<Sample>>)
    ensures r.Keys == tracks.Keys + {ping.id}
    ensures forall id :: id in tracks && id != ping.id ==> r[id] == tracks[id]
    ensures Project(ping) in r[ping.id]
  {
    tracks[ping.id := AddSample(TrackOf(tracks, ping.id), Project(ping), dedupe)]
  }

  /** An id that has no track yet, or whose track is empty, gets the
      one-element track holding the ping's sample, with or without dedupe. */
  lemma WithPingStartsTrack(tracks: map<string, seq<Sample>>, ping: Ping, dedupe: bool)
    requires ping.id !in tracks || tracks[ping.id] == []
    ensures WithPing(tracks, ping, dedupe)[ping.id] == [Project(ping)]
  {
    AddSampleSplices([], Project(ping), dedupe);
  }

  /** Adding a ping keeps every track sorted. */
  lemma WithPingKeepsSorted(tracks: map<string, seq<Sample>>, ping: Ping, dedupe: bool)
    requires AllSorted(tracks)
    ensures AllSorted(WithPing(tracks, ping, dedupe))
  {
    AddSampleKeepsSorted(TrackOf(tracks, ping.id), Project(ping), dedupe);
  }

  /** Adding a ping with dedupe keeps every track strictly increasing. */
  lemma WithPingKeepsStrictlySorted(tracks: map<string, seq<Sample>>, ping: Ping)
    requires AllStrictlySorted(tracks)
    ensures AllStrictlySorted(WithPing(tracks, ping, true))
  {
    AddSampleKeepsStrictlySorted(TrackOf(tracks, ping.id), Project(ping));
  }

  /** The `tracks` dictionary that `add_ping_to_tracks` updates in place. */
  class TrackSet {
    var tracks: map<string, seq<Sample>>

    /** Every track is sorted, as `bisect` requires. */
    ghost predicate Valid()
      reads this
    {
      AllSorted(tracks)
    }

    /** `defaultdict(list)`: no tracks yet. */
    constructor ()
      ensures Valid() && tracks == map[]
    {
      tracks := map[];
    }

    /** `add_ping_to_tracks(tracks, ping, dedupe)`. */
    method AddPing(ping: Ping, dedupe: bool)
      requires Valid()
      modifies this
      ensures Valid()
      ensures tracks == WithPing(old(tracks), ping, dedupe)
      ensures tracks.Keys == old(tracks).Keys + {ping.id}
      ensures forall id :: id in old(tracks) && id != ping.id ==> tracks[id] == old(tracks)[id]
      ensures dedupe && AllStrictlySorted(old(tracks)) ==> AllStrictlySorted(tracks)
    {
      var id := ping.id;
      var p := Project(ping);
      var track := TrackOf(tracks, id);
      if track != [] {
        if dedupe {
          var j := BisectLeft(track, p);
          if j == |track| || track[j] != p {
            tracks := tracks[id := track[..j] + [p] + track[j..]];
          }
        } else {
          var inserted := InsortLeft(track, p);
          tracks := tracks[id := inserted];
        }
      } else {
        tracks := tracks[id := [p]];
      }
      WithPingKeepsSorted(old(tracks), ping, dedupe);
      if dedupe && AllStrictlySorted(old(tracks)) {
        WithPingKeepsStrictlySorted(old(tracks), ping);
      }
    }
  }
}
