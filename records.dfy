/**
 * Records of a QEMS data file and the two pure questions the data manager
 * asks about them: which records a load keeps (the window), and which
 * stored record is the active one at a given time.
 */
module QemsRecords {

  /** Number of record slots of a data manager (RECORD_CNT). */
  const RecordCnt: nat := 120

  datatype Option<T> = None | Some(value: T)

  /** One schedule entry: an epoch timestamp and an integer value (nominally 0 .. 100). */
  datatype Record = Record(time: int, value: int)

  /** One line of a data file, as `readStringUntil('\n')` returns it. */
  type Line = string

  /**
   * The two conversions the loader applies to every line: the timestamp of
   * characters 0 .. 19 through strptime and mktime, and the value of
   * characters 20 .. 25 through toFloat() * 100 and an int cast. Both are
   * total: a malformed line yields whatever they return for it.
   */
  datatype LineParser = LineParser(time: Line -> int, value: Line -> int)

  function ParseRecord(p: LineParser, line: Line): Record
  {
    Record(p.time(line), p.value(line))
  }

  function Min(a: int, b: int): int
  {
    if a <= b then a else b
  }

  /**
   * The records of those lines whose parsed time lies strictly after the
   * anchor time `now`, in file order, before any capacity bound.
   */
  function FutureRecords(p: LineParser, lines: seq<Line>, now: int): (rs: seq<Record>)
    ensures |rs| <= |lines|
    decreases |lines|
  {
    if lines == [] then []
    else
      var last := lines[|lines| - 1];
      FutureRecords(p, lines[..|lines| - 1], now)
        + (if p.time(last) > now then [ParseRecord(p, last)] else [])
  }

  /** Every record a load keeps is strictly after the load's anchor time. */
  lemma {:induction false} FutureRecordsAfterAnchor(p: LineParser, lines: seq<Line>, now: int)
    ensures forall r :: r in FutureRecords(p, lines, now) ==> r.time > now
    decreases |lines|
  {
    if lines != [] {
      FutureRecordsAfterAnchor(p, lines[..|lines| - 1], now);
    }
  }

  /** Filtering a file is filtering its parts: the loader handles each line on its own. */
  lemma {:induction false} FutureRecordsAppend(p: LineParser, a: seq<Line>, b: seq<Line>, now: int)
    ensures FutureRecords(p, a + b, now) == FutureRecords(p, a, now) + FutureRecords(p, b, now)
    decreases |b|
  {
    if b == [] {
      assert a + b == a;
    } else {
      var b' := b[..|b| - 1];
      assert (a + b)[..|a + b| - 1] == a + b';
      assert (a + b)[|a + b| - 1] == b[|b| - 1];
      FutureRecordsAppend(p, a, b', now);
    }
  }

  /**
   * A line whose parsed time is not after the anchor, malformed or not,
   * has no influence on what a load keeps.
   */
  lemma PastLineIgnored(p: LineParser, a: seq<Line>, line: Line, b: seq<Line>, now: int)
    requires p.time(line) <= now
    ensures FutureRecords(p, a + [line] + b, now) == FutureRecords(p, a + b, now)
  {
    FutureRecordsAppend(p, a + [line], b, now);
    FutureRecordsAppend(p, a, [line], now);
    FutureRecordsAppend(p, a, b, now);
    assert [line][..0] == [];
  }

  /** When every line is in the future, the loader keeps all of them, in order. */
  lemma {:induction false} AllFutureKept(p: LineParser, lines: seq<Line>, now: int)
    requires forall i :: 0 <= i < |lines| ==> p.time(lines[i]) > now
    ensures FutureRecords(p, lines, now) == seq(|lines|, i requires 0 <= i < |lines| => ParseRecord(p, lines[i]))
    decreases |lines|
  {
    if lines != [] {
      AllFutureKept(p, lines[..|lines| - 1], now);
    }
  }

  ghost predicate SortedByTime(rs: seq<Record>)
  {
    forall i, j :: 0 <= i < j < |rs| ==> rs[i].time <= rs[j].time
  }

  ghost predicate LinesSortedByTime(p: LineParser, lines: seq<Line>)
  {
    forall i, j :: 0 <= i < j < |lines| ==> p.time(lines[i]) <= p.time(lines[j])
  }

  /**
   * A record is kept exactly when some line parses into it with a time
   * strictly after the anchor.
   */
  lemma {:induction false} FutureRecordsMembers(p: LineParser, lines: seq<Line>, now: int)
    ensures forall r :: r in FutureRecords(p, lines, now) <==>
              exists i :: 0 <= i < |lines| && p.time(lines[i]) > now && r == ParseRecord(p, lines[i])
    decreases |lines|
  {
    if lines != [] {
      var init := lines[..|lines| - 1];
      var n := |lines| - 1;
      FutureRecordsMembers(p, init, now);
      forall r | r in FutureRecords(p, lines, now)
        ensures exists i :: 0 <= i < |lines| && p.time(lines[i]) > now && r == ParseRecord(p, lines[i])
      {
        if r in FutureRecords(p, init, now) {
          var i :| 0 <= i < |init| && p.time(init[i]) > now && r == ParseRecord(p, init[i]);
          assert init[i] == lines[i];
        } else {
          assert p.time(lines[n]) > now && r == ParseRecord(p, lines[n]);
        }
      }
      forall r | exists i :: 0 <= i < |lines| && p.time(lines[i]) > now && r == ParseRecord(p, lines[i])
        ensures r in FutureRecords(p, lines, now)
      {
        var i :| 0 <= i < |lines| && p.time(lines[i]) > now && r == ParseRecord(p, lines[i]);
        if i < n {
          assert init[i] == lines[i];
          assert r in FutureRecords(p, init, now);
        }
      }
    }
  }

  /**
   * The loader does not sort; it keeps the file's order, so a
   * chronologically ordered file gives a chronologically ordered store.
   */
  lemma {:induction false} FutureRecordsSorted(p: LineParser, lines: seq<Line>, now: int)
    requires LinesSortedByTime(p, lines)
    ensures SortedByTime(FutureRecords(p, lines, now))
    decreases |lines|
  {
    if lines != [] {
      var init := lines[..|lines| - 1];
      var last := lines[|lines| - 1];
      assert LinesSortedByTime(p, init);
      FutureRecordsSorted(p, init, now);
      FutureRecordsMembers(p, init, now);
      var f := FutureRecords(p, init, now);
      forall r | r in f ensures r.time <= p.time(last) {
        var i :| 0 <= i < |init| && p.time(init[i]) > now && r == ParseRecord(p, init[i]);
        assert init[i] == lines[i];
      }
      if p.time(last) > now {
        var g := f + [ParseRecord(p, last)];
        forall i, j | 0 <= i < j < |g| ensures g[i].time <= g[j].time {
          if j == |g| - 1 {
            assert g[i] in f;
          } else {
            assert g[i] == f[i] && g[j] == f[j];
          }
        }
      }
    }
  }

  /**
   * The records a load writes into the store: the first RecordCnt future
   * records of the file, in file order.
   */
  function Window(p: LineParser, lines: seq<Line>, now: int): (w: seq<Record>)
    ensures |w| == Min(RecordCnt, |FutureRecords(p, lines, now)|)
    ensures w <= FutureRecords(p, lines, now)
    ensures |w| == RecordCnt <==> |FutureRecords(p, lines, now)| >= RecordCnt
    ensures |w| < RecordCnt ==> w == FutureRecords(p, lines, now)
    ensures forall i :: 0 <= i < |w| ==> w[i].time > now
  {
    var f := FutureRecords(p, lines, now);
    FutureRecordsAfterAnchor(p, lines, now);
    assert forall i :: 0 <= i < |f| ==> f[i] in f;
    if |f| <= RecordCnt then f else f[..RecordCnt]
  }

  /**
   * The index of the first record at or after `from` whose time is strictly
   * after `now`, or None when there is none.
   */
  function FirstFuture(s: seq<Record>, now: int, from: nat): (r: Option<nat>)
    ensures r.Some? ==> from <= r.value < |s| && s[r.value].time > now
    ensures r.Some? ==> forall j :: from <= j < r.value ==> s[j].time <= now
    ensures r.None? ==> forall j :: from <= j < |s| ==> s[j].time <= now
    decreases |s| - from
  {
    if from >= |s| then None
    else if s[from].time > now then Some(from)
    else FirstFuture(s, now, from + 1)
  }

  /**
   * The slot whose value getActiveValue returns: the first slot strictly in
   * the future, scanning from slot 1 (slot 0 never qualifies).
   */
  function ActiveSlot(s: seq<Record>, now: int): (r: Option<nat>)
    ensures r.Some? ==> 1 <= r.value < |s| && s[r.value].time > now
    ensures r.Some? ==> forall j :: 1 <= j < r.value ==> s[j].time <= now
    ensures r.None? ==> forall j :: 1 <= j < |s| ==> s[j].time <= now
  {
    FirstFuture(s, now, 1)
  }

  /** What getActiveValue returns: the active slot's value, or the sentinel 0. */
  function ActiveValue(s: seq<Record>, now: int): (v: int)
    ensures ActiveSlot(s, now).Some? ==> 1 <= ActiveSlot(s, now).value < |s|
    ensures ActiveSlot(s, now).Some? ==> v == s[ActiveSlot(s, now).value].value
    ensures ActiveSlot(s, now).None? ==> v == 0 && forall j :: 1 <= j < |s| ==> s[j].time <= now
  {
    match ActiveSlot(s, now)
    case Some(i) => s[i].value
    case None => 0
  }

  /** The scan from `from` on does not look at any slot before `from`. */
  lemma FirstFutureIgnoresPrefix(s: seq<Record>, t: seq<Record>, now: int, from: nat)
    requires |s| == |t|
    requires forall j :: from <= j < |s| ==> s[j] == t[j]
    ensures FirstFuture(s, now, from) == FirstFuture(t, now, from)
  {
  }

  /** Whatever slot 0 holds, the lookup's answer is the same. */
  lemma Slot0NeverConsulted(s: seq<Record>, r: Record, now: int)
    requires |s| > 0
    ensures ActiveSlot(s[0 := r], now) == ActiveSlot(s, now)
    ensures ActiveValue(s[0 := r], now) == ActiveValue(s, now)
  {
    FirstFutureIgnoresPrefix(s[0 := r], s, now, 1);
  }

  /**
   * A full window looked up at any time up to its anchor answers with
   * slot 1 — not slot 0, though slot 0 is in the future too.
   */
  lemma FullWindowAnswersSlot1(p: LineParser, lines: seq<Line>, now: int, at: int)
    requires |FutureRecords(p, lines, now)| >= RecordCnt
    requires at <= now
    ensures ActiveSlot(Window(p, lines, now), at) == Some(1)
    ensures Window(p, lines, now)[0].time > at
    ensures ActiveValue(Window(p, lines, now), at) == FutureRecords(p, lines, now)[1].value
  {
  }

  /**
   * A file of at least RecordCnt lines, all in the future, fills the window
   * with its first RecordCnt lines, and the lookup then answers with the
   * value of the file's second line.
   */
  lemma AllFutureFileAnswersSecondLine(p: LineParser, lines: seq<Line>, now: int)
    requires |lines| >= RecordCnt
    requires forall i :: 0 <= i < |lines| ==> p.time(lines[i]) > now
    ensures |Window(p, lines, now)| == RecordCnt
    ensures forall i :: 0 <= i < RecordCnt ==> Window(p, lines, now)[i] == ParseRecord(p, lines[i])
    ensures ActiveValue(Window(p, lines, now), now) == p.value(lines[1])
  {
    AllFutureKept(p, lines, now);
    FullWindowAnswersSlot1(p, lines, now, now);
  }

  /**
   * Once the clock has passed the time of every slot from 1 on, the lookup
   * is exhausted: it answers 0.
   */
  lemma ExhaustedAnswersZero(s: seq<Record>, now: int)
    requires forall j :: 1 <= j < |s| ==> s[j].time <= now
    ensures ActiveSlot(s, now) == None
    ensures ActiveValue(s, now) == 0
  {
  }

  /**
   * Time only moves the lookup forward: a later clock never selects an
   * earlier slot, and a slot active later already had an active slot
   * at or before it earlier.
   */
  lemma ActiveSlotMonotone(s: seq<Record>, now1: int, now2: int)
    requires now1 <= now2
    requires ActiveSlot(s, now2).Some?
    ensures ActiveSlot(s, now1).Some?
    ensures ActiveSlot(s, now1).value <= ActiveSlot(s, now2).value
  {
  }
}
