/**
 Time-stamped records, and the chronological logs that both stores keep.
 */
module TimeLog {
  import opened Wrappers

  /** One stored element: its time tag, the length the caller gave, and its bytes. */
  datatype Record = Record(time: u32, length: u32, data: seq<byte>)

  ghost predicate Sorted(log: seq<Record>) {
    forall i, j :: 0 <= i < j < |log| ==> log[i].time <= log[j].time
  }

  /** The records with start <= time <= end, in log order. */
  ghost function Within(log: seq<Record>, start: int, end: int): seq<Record> {
    if log == [] then []
    else (if start <= log[0].time <= end then [log[0]] else []) + Within(log[1..], start, end)
  }

  /** The records newer than `time`, in log order. */
  ghost function NewerThan(log: seq<Record>, time: int): seq<Record> {
    Within(log, time + 1, 0xFFFF_FFFF)
  }

  ghost predicate IsFirstAtLeast(log: seq<Record>, start: int, i: nat) {
    && i <= |log|
    && (forall k :: 0 <= k < i ==> log[k].time < start)
    && (i < |log| ==> log[i].time >= start)
  }

  lemma {:induction false} FirstAtLeastExists(log: seq<Record>, start: int)
    ensures exists i: nat :: IsFirstAtLeast(log, start, i)
  {
    var i := 0;
    while i < |log| && log[i].time < start
      invariant i <= |log| && forall k :: 0 <= k < i ==> log[k].time < start
    {
      i := i + 1;
    }
    assert IsFirstAtLeast(log, start, i);
  }

  /** Index of the first record with time >= `start`; |log| when there is none. */
  ghost function FirstAtLeast(log: seq<Record>, start: int): (i: nat)
    ensures IsFirstAtLeast(log, start, i)
  {
    FirstAtLeastExists(log, start);
    var i: nat :| IsFirstAtLeast(log, start, i);
    i
  }

  ghost predicate IsLastUpTo(log: seq<Record>, end: int, m: nat) {
    && m <= |log|
    && (forall k :: m <= k < |log| ==> log[k].time > end)
    && (m > 0 ==> log[m - 1].time <= end)
  }

  lemma {:induction false} LastUpToExists(log: seq<Record>, end: int)
    ensures exists m: nat :: IsLastUpTo(log, end, m)
  {
    var m: nat := |log|;
    while m > 0 && log[m - 1].time > end
      invariant m <= |log|
      invariant forall k :: m <= k < |log| ==> log[k].time > end
    {
      m := m - 1;
    }
    assert IsLastUpTo(log, end, m);
  }

  /** One more than the index of the last record with time <= `end`; 0 when there is none. */
  ghost function LastUpTo(log: seq<Record>, end: int): (m: nat)
    ensures IsLastUpTo(log, end, m)
  {
    LastUpToExists(log, end);
    var m: nat :| IsLastUpTo(log, end, m);
    m
  }

  lemma {:induction false} AllUpTo(log: seq<Record>, end: int)
    requires forall k :: 0 <= k < |log| ==> log[k].time <= end
    ensures LastUpTo(log, end) == |log|
  {
    var m := LastUpTo(log, end);
    assert log == [] || log[if m < |log| then m else 0].time <= end;
  }

  /** A window holds nothing outside it. */
  lemma {:induction false} WithinInside(log: seq<Record>, start: int, end: int)
    ensures forall e :: e in Within(log, start, end) ==> start <= e.time <= end
  {
    if log != [] {
      WithinInside(log[1..], start, end);
    }
  }

  /** A window whose records sit at i..m and nowhere else is that slice. */
  lemma {:induction false} WithinSlice(log: seq<Record>, i: nat, m: nat, start: int, end: int)
    requires i <= m <= |log|
    requires forall k :: 0 <= k < |log| ==> (start <= log[k].time <= end <==> i <= k < m)
    ensures Within(log, start, end) == log[i..m]
  {
    if m == 0 {
      if log != [] {
        WithinSlice(log[1..], 0, 0, start, end);
      }
    } else if i == 0 {
      var rest := log[1..];
      WithinSlice(rest, 0, m - 1, start, end);
      assert [log[0]] + rest[0..m - 1] == log[0..m];
    } else {
      var rest := log[1..];
      WithinSlice(rest, i - 1, m - 1, start, end);
      assert rest[i - 1..m - 1] == log[i..m];
    }
  }

  /** On a sorted log both boundaries split the indices cleanly. */
  lemma {:induction false} SortedSplits(log: seq<Record>, start: int, end: int)
    requires Sorted(log)
    ensures forall k :: 0 <= k < |log| ==> (log[k].time >= start <==> FirstAtLeast(log, start) <= k)
    ensures forall k :: 0 <= k < |log| ==> (log[k].time <= end <==> k < LastUpTo(log, end))
  {
  }

  /** On a sorted log a time window is one contiguous slice. */
  lemma {:induction false} WithinIsSlice(log: seq<Record>, start: int, end: int)
    requires Sorted(log)
    ensures var i, m := FirstAtLeast(log, start), LastUpTo(log, end);
            Within(log, start, end) == if i < m then log[i..m] else []
  {
    var i, m := FirstAtLeast(log, start), LastUpTo(log, end);
    SortedSplits(log, start, end);
    WithinSlice(log, if i < m then i else 0, if i < m then m else 0, start, end);
  }

  /** On a sorted log the first record after `time` follows the last record up to `time`. */
  lemma {:induction false} FirstMeetsLast(log: seq<Record>, time: int)
    requires Sorted(log)
    ensures FirstAtLeast(log, time + 1) == LastUpTo(log, time)
  {
    SortedSplits(log, time + 1, time);
    var i, m := FirstAtLeast(log, time + 1), LastUpTo(log, time);
    var k := if i < m then i else m;
    assert k == |log| || (k < |log| && (log[k].time > time <==> i <= k) && (log[k].time <= time <==> k < m));
  }

  /** When nothing before the last old record is newer, the newer records are the rest of the log. */
  lemma {:induction false} NewerIsRest(log: seq<Record>, time: int)
    requires forall k :: 0 <= k < LastUpTo(log, time) ==> log[k].time <= time
    ensures NewerThan(log, time) == log[LastUpTo(log, time)..]
  {
    var m := LastUpTo(log, time);
    WithinSlice(log, m, |log|, time + 1, 0xFFFF_FFFF);
    assert log[m..|log|] == log[m..];
  }

  /** On a sorted log that is always so. */
  lemma {:induction false} NewerIsSuffix(log: seq<Record>, time: int)
    requires Sorted(log)
    ensures NewerThan(log, time) == log[LastUpTo(log, time)..]
  {
    SortedSplits(log, time, time);
    NewerIsRest(log, time);
  }

  /** Dropping records no newer than `time` moves the boundary and loses nothing newer. */
  lemma {:induction false} SuffixAfter(log: seq<Record>, c: nat, time: int)
    requires Sorted(log) && c <= LastUpTo(log, time)
    ensures Sorted(log[c..]) && LastUpTo(log[c..], time) == LastUpTo(log, time) - c
    ensures NewerThan(log[c..], time) == NewerThan(log, time)
  {
    hide Within;
    var rest := log[c..];
    SortedSplits(log, time, time);
    SortedSplits(rest, time, time);
    var m, m' := LastUpTo(log, time), LastUpTo(rest, time);
    assert m' < |rest| ==> rest[m'] == log[c + m'];
    assert m' > 0 ==> rest[m' - 1] == log[c + m' - 1];
    NewerIsSuffix(log, time);
    NewerIsSuffix(rest, time);
    assert rest[m - c..] == log[m..];
  }

  // ----------------------------------------------------------------- reading

  /** What a read hands back: its code, the count it reports, and the caller's buffer. */
  datatype Outcome = Outcome(ret: int, number: int, buffer: seq<Record>)

  /** The read handed over exactly `want`, and touched no other entry of the buffer. */
  ghost predicate Delivers(r: Outcome, want: seq<Record>, buffer: seq<Record>) {
    r.ret == 0 && r.number == |want| && |want| <= |buffer| && r.buffer == want + buffer[|want|..]
  }

  /** A call that hands back a code alone. */
  function Code(code: int): Outcome {
    Outcome(code, 0, [])
  }

  /** A prefix of a slice is a slice. */
  lemma PrefixOfSlice(log: seq<Record>, i: nat, m: nat, n: nat)
    requires i + n <= m <= |log|
    ensures log[i..m][..n] == log[i..i + n]
  {
  }

  // ------------------------------------------------------------------- runs

  /**
   Nothing is lost or invented: the records a store accepted are those it
   dropped followed by its log, and it dropped none newer than `bound`.
  */
  ghost predicate Conserved(accepted: seq<Record>, dropped: seq<Record>, log: seq<Record>, bound: int) {
    && accepted == dropped + log
    && forall k :: 0 <= k < |dropped| ==> dropped[k].time <= bound
  }

  lemma ConservedAppend(accepted: seq<Record>, dropped: seq<Record>, log: seq<Record>, bound: int, e: Record)
    requires Conserved(accepted, dropped, log, bound)
    ensures Conserved(accepted + [e], dropped, log + [e], bound)
  {
    assert dropped + log + [e] == dropped + (log + [e]);
  }

  lemma ConservedDrop(accepted: seq<Record>, dropped: seq<Record>, log: seq<Record>, bound: int, c: nat)
    requires Conserved(accepted, dropped, log, bound) && c <= |log|
    requires forall k :: 0 <= k < c ==> log[k].time <= bound
    ensures Conserved(accepted, dropped + log[..c], log[c..], bound)
  {
    assert log == log[..c] + log[c..];
    assert dropped + log == (dropped + log[..c]) + log[c..];
  }

  /** So the log still has every accepted record newer than the bound. */
  lemma {:induction false} ConservedKeepsNewer(accepted: seq<Record>, dropped: seq<Record>, log: seq<Record>, bound: int)
    requires Conserved(accepted, dropped, log, bound)
    ensures NewerThan(accepted, bound) == NewerThan(log, bound)
    decreases |dropped|
  {
    if dropped == [] {
      assert accepted == log;
    } else {
      assert accepted[1..] == dropped[1..] + log;
      ConservedKeepsNewer(accepted[1..], dropped[1..], log, bound);
    }
  }
}
