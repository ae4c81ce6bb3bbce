/**
 * The QEMS data manager: a fixed store of RecordCnt records loaded from an
 * uploaded CSV file, with the flags that tell the display whether the store
 * can be used. The file system and the clock are parameters: a file is
 * Some(its lines) when it opens and None when it does not, and `now` is the
 * time the time manager reports.
 */
module QemsDataManager {
  import opened QemsRecords

  class DataManager {
    /** Name of the data file in the file system. */
    const dataFile: string
    /** The record slots, overwritten in place by each load. */
    const dataPoints: array<Record>

    /** The store holds a full window of records. */
    var ready: bool
    /** A load is running; a second one is dropped. */
    var loadInProgress: bool
    /** The data file was found (and, after a load, held a full window). */
    var fileAvailable: bool

    /** The anchor time of the last load that filled the store. */
    ghost var anchor: int

    ghost predicate Valid()
      reads this, dataPoints
    {
      && dataPoints.Length == RecordCnt
      && (ready ==> fileAvailable)
      && (ready ==> forall j :: 0 <= j < RecordCnt ==> dataPoints[j].time > anchor)
    }

    ghost function Records(): (s: seq<Record>)
      reads dataPoints
    {
      dataPoints[..]
    }

    /** Probes whether the file opens; loads nothing. All slots start as zero records. */
    constructor (dataFile: string, file: Option<seq<Line>>)
      ensures Valid() && fresh(dataPoints)
      ensures this.dataFile == dataFile
      ensures fileAvailable == file.Some?
      ensures !ready && !loadInProgress
      ensures forall j :: 0 <= j < RecordCnt ==> dataPoints[j] == Record(0, 0)
    {
      this.dataFile := dataFile;
      dataPoints := new Record[RecordCnt](_ => Record(0, 0));
      ready := false;
      loadInProgress := false;
      fileAvailable := false;
      anchor := 0;
      if file.Some? {
        fileAvailable := true;
      }
    }

    /**
     * The value of the first record from slot 1 on that is after `now`.
     * When there is none, the store stops being ready and the answer is 0.
     */
    method GetActiveValue(now: int) returns (v: int)
      requires Valid()
      modifies this`ready
      ensures Valid()
      ensures v == ActiveValue(Records(), now)
      ensures ActiveSlot(Records(), now).Some? ==> ready == old(ready)
      ensures ActiveSlot(Records(), now).None? ==> v == 0 && !ready
      ensures fileAvailable == old(fileAvailable) && loadInProgress == old(loadInProgress)
      ensures Records() == old(Records())
    {
      for i := 0 to RecordCnt
        invariant forall j :: 1 <= j < i ==> dataPoints[j].time <= now
      {
        if dataPoints[i].time > now && i > 0 {
          assert Records()[i] == dataPoints[i];
          return dataPoints[i].value;
        }
      }
      ready := false;
      return 0;
    }

    function IsFileAvailable(): (available: bool)
      reads this, dataPoints
      ensures available == fileAvailable
      ensures Valid() && ready ==> available
    {
      fileAvailable
    }

    /**
     * Reloads the store from the file's lines, keeping the future ones.
     * Dropped when a load is already running.
     */
    method LoadDataFromFile(file: Option<seq<Line>>, now: int, p: LineParser)
      requires Valid()
      modifies this, dataPoints
      ensures Valid()
      // a second load while one runs changes nothing
      ensures old(loadInProgress) ==>
                && ready == old(ready) && fileAvailable == old(fileAvailable)
                && loadInProgress && anchor == old(anchor)
                && Records() == old(Records())
      // the file does not open: unavailable, not ready, slots untouched
      ensures !old(loadInProgress) && file.None? ==>
                && !fileAvailable && !ready && !loadInProgress
                && Records() == old(Records())
      // the file opens: the window overwrites the first slots, the rest stay
      ensures !old(loadInProgress) && file.Some? ==>
                var w := Window(p, file.value, now);
                && Records()[..|w|] == w
                && Records()[|w|..] == old(Records())[|w|..]
                && ready == (|w| == RecordCnt)
                && fileAvailable == ready
                && !loadInProgress
                && (ready ==> anchor == now)
    {
      if loadInProgress {
        return;
      }
      ready := false;
      loadInProgress := true;

      if file.None? {
        fileAvailable := false;
        loadInProgress := false;
        return;
      }
      fileAvailable := true;

      var lines := file.value;
      // an uint8_t in QEMSDataManager.h; it never exceeds RecordCnt, so it never wraps
      var recordPointer: nat := 0;
      var n := 0;
      while n < |lines|
        invariant 0 <= n <= |lines|
        invariant recordPointer == Min(RecordCnt, |FutureRecords(p, lines[..n], now)|)
        invariant dataPoints[..recordPointer] == FutureRecords(p, lines[..n], now)[..recordPointer]
        invariant dataPoints[recordPointer..] == old(dataPoints[..])[recordPointer..]
      {
        var r := lines[n];
        var value := p.value(r);
        var epochTs := p.time(r);
        assert lines[..n + 1][..n] == lines[..n];
        if epochTs > now && recordPointer < RecordCnt {
          dataPoints[recordPointer] := Record(epochTs, value);
          recordPointer := recordPointer + 1;
        }
        n := n + 1;
      }
      assert lines[..n] == lines;
      ghost var w := Window(p, lines, now);
      assert dataPoints[..recordPointer] == w;

      if recordPointer >= RecordCnt {
        assert forall j :: 0 <= j < RecordCnt ==> dataPoints[j] == w[j];
        fileAvailable := true;
        ready := true;
        anchor := now;
      } else {
        fileAvailable := false;
        ready := false;
      }
      loadInProgress := false;
    }

    /** Usable: ready and available; a usable store is a full window after its anchor. */
    function IsReady(): (usable: bool)
      reads this, dataPoints
      ensures usable == (ready && fileAvailable)
      ensures Valid() && usable ==> forall j :: 0 <= j < RecordCnt ==> Records()[j].time > anchor
    {
      ready && fileAvailable
    }

    function GetFileName(): (name: string)
      ensures name == dataFile
    {
      dataFile
    }
  }

  /**
   * One store: a reload at clock `now`, then a read at clock `at` made only
   * when the store is usable after the reload. The read may find the window
   * exhausted, answer 0 and leave the store not ready.
   */
  method ReloadAndRead(dm: DataManager, file: Option<seq<Line>>, now: int, at: int, p: LineParser)
    returns (usable: bool, v: int)
    requires dm.Valid() && !dm.loadInProgress
    modifies dm, dm.dataPoints
    ensures dm.Valid()
    ensures usable <==> file.Some? && |FutureRecords(p, file.value, now)| >= RecordCnt
    ensures usable ==> v == ActiveValue(Window(p, file.value, now), at)
    ensures usable && at <= now ==> v == FutureRecords(p, file.value, now)[1].value
    ensures usable ==> (dm.IsReady() <==> ActiveSlot(Window(p, file.value, now), at).Some?)
    ensures !usable ==> v == 0 && !dm.IsReady()
  {
    dm.LoadDataFromFile(file, now, p);
    usable := dm.IsReady();
    v := 0;
    if usable {
      assert dm.Records() == Window(p, file.value, now);
      if at <= now {
        FullWindowAnswersSlot1(p, file.value, now, at);
      }
      v := dm.GetActiveValue(at);
    }
  }
}
