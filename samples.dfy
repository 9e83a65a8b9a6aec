/** Pings, the samples projected from them, and the order on samples.

    A ping is one observation of an entity: its id, a timestamp in seconds
    since the epoch, and a latitude and longitude.  The assembler keeps only
    the `(timestamp, lat, lon)` triple of each ping, and compares triples the
    way Python compares tuples: lexicographically, timestamp first. */
module Samples {

  /** One parsed row: the `Ping` named tuple `(id, timestamp, lat, lon)`. */
  datatype Ping = Ping(id: string, timestamp: real, lat: real, lon: real)

  /** The ordering key of a ping, the tuple `ping[1:]`. */
  datatype Sample = Sample(timestamp: real, lat: real, lon: real)

  /** The slice `ping[1:]`: every field of the ping but its id. */
  function Project(ping: Ping): Sample
  {
    Sample(ping.timestamp, ping.lat, ping.lon)
  }

  /** Two pings have the same sample exactly when their timestamp, latitude
      and longitude agree, whatever their ids: the id plays no part in
      ordering or in deduplication. */
  lemma ProjectIgnoresId(a: Ping, b: Ping)
    ensures Project(a) == Project(b)
      <==> a.timestamp == b.timestamp && a.lat == b.lat && a.lon == b.lon
  {
  }

  /** Tuple `<`: the first component that differs decides.  The timestamp
      comes first, so a list in this order is also in time order. */
  predicate Less(a: Sample, b: Sample): (lt: bool)
    ensures lt ==> a != b
    ensures lt ==> a.timestamp <= b.timestamp
    ensures a.timestamp < b.timestamp ==> lt
  {
    || a.timestamp < b.timestamp
    || (a.timestamp == b.timestamp && a.lat < b.lat)
    || (a.timestamp == b.timestamp && a.lat == b.lat && a.lon < b.lon)
  }

  /** Tuple `<=`. */
  predicate LessEq(a: Sample, b: Sample)
  {
    Less(a, b) || a == b
  }

  /** Ascending order, as `bisect` expects of the list it searches. */
  predicate Sorted(s: seq<Sample>)
  {
    forall i, j :: 0 <= i < j < |s| ==> LessEq(s[i], s[j])
  }

  /** Ascending order without repetition: what a track built with dedupe is. */
  predicate StrictlySorted(s: seq<Sample>)
  {
    forall i, j :: 0 <= i < j < |s| ==> Less(s[i], s[j])
  }

  /** Tuple comparison is a strict total order on samples: exactly one of
      `a < b`, `a == b`, `b < a` holds, and `<` is transitive. */
  lemma LessIsStrictTotalOrder(a: Sample, b: Sample, c: Sample)
    ensures !Less(a, a)
    ensures Less(a, b) || a == b || Less(b, a)
    ensures Less(a, b) ==> !Less(b, a) && a != b
    ensures Less(a, b) && Less(b, c) ==> Less(a, c)
  {
  }

  /** A strictly sorted sequence is sorted. */
  lemma StrictlySortedIsSorted(s: seq<Sample>)
    requires StrictlySorted(s)
    ensures Sorted(s)
  {
  }

  /** A strictly increasing sequence is determined by its elements: two of
      them holding the same samples are equal. */
  lemma {:induction false} StrictlySortedUnique(a: seq<Sample>, b: seq<Sample>)
    requires StrictlySorted(a) && StrictlySorted(b)
    requires forall x :: x in a <==> x in b
    ensures a == b
    decreases |a|
  {
    if a != [] {
      assert a[0] in b;
    }
    if b != [] {
      assert b[0] in a;
    }
    if a != [] && b != [] {
      var m :| 0 <= m < |a| && a[m] == b[0];
      var k :| 0 <= k < |b| && b[k] == a[0];
      if m > 0 {
        assert Less(a[0], a[m]);
        if k > 0 {
          assert Less(b[0], b[k]);
        }
        LessIsStrictTotalOrder(a[0], b[0], a[0]);
      }
      assert a[0] == b[0];
      assert a == [a[0]] + a[1..] && b == [b[0]] + b[1..];
      forall x ensures x in a[1..] <==> x in b[1..] {
        if x in a[1..] {
          var i :| 1 <= i < |a| && a[i] == x;
          assert Less(a[0], a[i]);
          assert x in b && x != b[0];
        }
        if x in b[1..] {
          var i :| 1 <= i < |b| && b[i] == x;
          assert Less(b[0], b[i]);
          assert x in a && x != a[0];
        }
      }
      StrictlySortedUnique(a[1..], b[1..]);
    }
  }
}
