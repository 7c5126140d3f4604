/** The history panel's derived data: the per-course distribution folded over the
    log, the chart slices in key order, their palette colours, and the table rows
    listed newest first. */
module AttendanceLog {
  import opened Types

  /** Number of records taken for `course`. */
  function CountCourse(records: seq<AttendanceRecord>, course: string): (n: nat)
    ensures n <= |records|
    ensures n == 0 <==> forall i :: 0 <= i < |records| ==> records[i].course != course
    decreases |records|
  {
    if |records| == 0 then 0
    else
      var last := records[|records| - 1];
      CountCourse(records[..|records| - 1], course) + (if last.course == course then 1 else 0)
  }

  /** The fold over the log: each record adds one to its course's entry, which starts
      at zero when missing. Its keys are exactly the courses present and each entry
      is that course's record count, so every entry is at least one. */
  function CourseDistribution(records: seq<AttendanceRecord>): (dist: map<string, nat>)
    ensures forall c :: c in dist <==> CountCourse(records, c) > 0
    ensures forall c :: c in dist ==> dist[c] == CountCourse(records, c)
    decreases |records|
  {
    if |records| == 0 then map[]
    else
      var prefix := records[..|records| - 1];
      var acc := CourseDistribution(prefix);
      var c := records[|records| - 1].course;
      assert records == prefix + [records[|records| - 1]];
      acc[c := (if c in acc then acc[c] else 0) + 1]
  }

  /** The distinct courses present in the log. */
  function Courses(records: seq<AttendanceRecord>): set<string> {
    set r | r in records :: r.course
  }

  /** The distribution's keys are exactly the courses present, each entry at least one. */
  lemma DistributionKeys(records: seq<AttendanceRecord>)
    ensures CourseDistribution(records).Keys == Courses(records)
    ensures forall c :: c in CourseDistribution(records) ==> CourseDistribution(records)[c] >= 1
  {
    var dist := CourseDistribution(records);
    forall c | c in Courses(records) ensures c in dist {
      var r :| r in records && r.course == c;
      var i :| 0 <= i < |records| && records[i] == r;
      assert records[i].course == c;
    }
  }

  predicate Distinct(keys: seq<string>) {
    forall i, j :: 0 <= i < j < |keys| ==> keys[i] != keys[j]
  }

  /** The distribution's keys in insertion order, that is, in order of each
      course's first record: `Object.keys` of the fold's accumulator. */
  function CourseKeys(records: seq<AttendanceRecord>): (keys: seq<string>)
    ensures Distinct(keys)
    ensures forall c :: c in keys <==> CountCourse(records, c) > 0
    decreases |records|
  {
    if |records| == 0 then []
    else
      var prefix := records[..|records| - 1];
      var keys := CourseKeys(prefix);
      var c := records[|records| - 1].course;
      assert records == prefix + [records[|records| - 1]];
      if c in keys then keys else keys + [c]
  }

  /** One pie-chart slice. */
  datatype Slice = Slice(name: string, value: nat)

  /** The slices for `keys`, in that order, each carrying its entry in `dist`. */
  function Slices(keys: seq<string>, dist: map<string, nat>): seq<Slice>
    requires forall k :: k in keys ==> k in dist
    decreases |keys|
  {
    if |keys| == 0 then []
    else Slices(keys[..|keys| - 1], dist) + [Slice(keys[|keys| - 1], dist[keys[|keys| - 1]])]
  }

  /** The chart data: one slice per distribution key, in key order. Each slice names a
      distinct course present in the log and carries its record count. */
  function ChartData(records: seq<AttendanceRecord>): (data: seq<Slice>)
    ensures |data| == |CourseKeys(records)|
    ensures forall i :: 0 <= i < |data| ==>
      data[i].name == CourseKeys(records)[i] && data[i].value == CountCourse(records, data[i].name) && data[i].value >= 1
  {
    var keys := CourseKeys(records);
    var dist := CourseDistribution(records);
    SlicesAt(keys, dist);
    Slices(keys, dist)
  }

  lemma {:induction false} SlicesAt(keys: seq<string>, dist: map<string, nat>)
    requires forall k :: k in keys ==> k in dist
    ensures |Slices(keys, dist)| == |keys|
    ensures forall i :: 0 <= i < |keys| ==> Slices(keys, dist)[i] == Slice(keys[i], dist[keys[i]])
    decreases |keys|
  {
    if |keys| > 0 {
      SlicesAt(keys[..|keys| - 1], dist);
    }
  }

  /** Sum of the slice values. */
  function Total(data: seq<Slice>): nat
    decreases |data|
  {
    if |data| == 0 then 0 else Total(data[..|data| - 1]) + data[|data| - 1].value
  }

  /** Changing the entry of a key that is not listed leaves the slices alone. */
  lemma {:induction false} SlicesIgnoreOtherKey(keys: seq<string>, dist: map<string, nat>, c: string, v: nat)
    requires forall k :: k in keys ==> k in dist
    requires c !in keys
    ensures Slices(keys, dist[c := v]) == Slices(keys, dist)
    decreases |keys|
  {
    if |keys| > 0 {
      SlicesIgnoreOtherKey(keys[..|keys| - 1], dist, c, v);
    }
  }

  /** Adding one to a listed key's entry adds one to the total. */
  lemma {:induction false} TotalBump(keys: seq<string>, dist: map<string, nat>, c: string)
    requires forall k :: k in keys ==> k in dist
    requires Distinct(keys) && c in keys
    ensures Total(Slices(keys, dist[c := dist[c] + 1])) == Total(Slices(keys, dist)) + 1
    decreases |keys|
  {
    var n := |keys|;
    var prefix := keys[..n - 1];
    var bumped := dist[c := dist[c] + 1];
    if keys[n - 1] == c {
      assert c !in prefix by {
        forall i | 0 <= i < |prefix| ensures prefix[i] != c {
          assert keys[i] != keys[n - 1];
        }
      }
      SlicesIgnoreOtherKey(prefix, dist, c, dist[c] + 1);
    } else {
      assert c in prefix by {
        var i :| 0 <= i < n && keys[i] == c;
        assert i < n - 1;
        assert prefix[i] == c;
      }
      TotalBump(prefix, dist, c);
    }
    var s := Slices(keys, bumped);
    assert s[..|s| - 1] == Slices(prefix, bumped);
  }

  /** The fold's last step, on keys and entries. */
  lemma DistributionStep(records: seq<AttendanceRecord>)
    requires |records| > 0
    ensures var prefix, c := records[..|records| - 1], records[|records| - 1].course;
            var keys, dist := CourseKeys(prefix), CourseDistribution(prefix);
            && CourseKeys(records) == (if c in keys then keys else keys + [c])
            && CourseDistribution(records) == dist[c := (if c in dist then dist[c] else 0) + 1]
            && (c in keys <==> c in dist)
  {
  }

  /** The fold's totals: the entries, taken over the keys, add up to the number of records. */
  lemma {:induction false} DistributionTotal(records: seq<AttendanceRecord>)
    ensures Total(Slices(CourseKeys(records), CourseDistribution(records))) == |records|
    decreases |records|
  {
    if |records| > 0 {
      var n := |records|;
      var prefix := records[..n - 1];
      var keys, dist := CourseKeys(prefix), CourseDistribution(prefix);
      var c := records[n - 1].course;
      DistributionTotal(prefix);
      DistributionStep(records);
      if c in keys {
        var bumped := dist[c := dist[c] + 1];
        assert CourseKeys(records) == keys && CourseDistribution(records) == bumped;
        TotalBump(keys, dist, c);
      } else {
        var added := dist[c := 1];
        assert CourseKeys(records) == keys + [c] && CourseDistribution(records) == added;
        SlicesIgnoreOtherKey(keys, dist, c, 1);
        AppendSlice(keys, c, added);
      }
    }
  }

  /** Listing one more key adds its entry to the total. */
  lemma AppendSlice(keys: seq<string>, c: string, dist: map<string, nat>)
    requires forall k :: k in keys ==> k in dist
    requires c in dist
    ensures Total(Slices(keys + [c], dist)) == Total(Slices(keys, dist)) + dist[c]
  {
    var s := Slices(keys + [c], dist);
    assert (keys + [c])[..|keys|] == keys;
    assert s[..|s| - 1] == Slices(keys, dist);
  }

  /** The course counts shown in the chart add up to the number of records. */
  lemma ChartTotal(records: seq<AttendanceRecord>)
    ensures Total(ChartData(records)) == |records|
  {
    DistributionTotal(records);
  }

  /** An empty log has no distribution and no chart data. */
  lemma EmptyLogHasNoChart()
    ensures CourseDistribution([]) == map[]
    ensures ChartData([]) == []
  {
  }

  // ---------------------------------------------------------------------------
  // Palette
  // ---------------------------------------------------------------------------

  const Colors: seq<string> := ["#0ea5e9", "#6366f1", "#8b5cf6", "#ec4899", "#10b981"]

  /** The fill of the `index`-th slice: the palette entry at `index` modulo the
      palette length. It is always a palette colour, and the first five slices
      take the palette in order. */
  function ColorOf(index: nat): (color: string)
    ensures color in Colors
    ensures index < |Colors| ==> color == Colors[index]
  {
    Colors[index % |Colors|]
  }

  // ---------------------------------------------------------------------------
  // Table
  // ---------------------------------------------------------------------------

  /** A reversed copy of the log, newest record first; the log itself is not changed. */
  function NewestFirst(records: seq<AttendanceRecord>): (listing: seq<AttendanceRecord>)
    ensures |listing| == |records|
    ensures forall i :: 0 <= i < |records| ==> listing[i] == records[|records| - 1 - i]
    decreases |records|
  {
    if |records| == 0 then []
    else [records[|records| - 1]] + NewestFirst(records[..|records| - 1])
  }

  const EmptyLogMessage: string := "No attendance records found yet."

  /** One table body row. */
  datatype Row = Placeholder(message: string) | RecordRow(record: AttendanceRecord)

  /** The table body: the placeholder row for an empty log, otherwise one row per
      record, newest first. */
  function TableRows(records: seq<AttendanceRecord>): (rows: seq<Row>)
    ensures |records| == 0 ==> rows == [Placeholder(EmptyLogMessage)]
    ensures |records| > 0 ==>
      |rows| == |records| && forall i :: 0 <= i < |records| ==> rows[i] == RecordRow(records[|records| - 1 - i])
  {
    if |records| == 0 then [Placeholder(EmptyLogMessage)]
    else
      var listing := NewestFirst(records);
      seq(|listing|, i requires 0 <= i < |listing| => RecordRow(listing[i]))
  }

  /** Listing newest first twice gives back the log in its stored order. */
  lemma NewestFirstTwice(records: seq<AttendanceRecord>)
    ensures NewestFirst(NewestFirst(records)) == records
  {
  }
}
