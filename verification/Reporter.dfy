/** One turn of the stats reporter. */
module Reporter {
  import opened Stats

  /** A stats record: the window length and the counters of the window. */
  datatype StatsRecord = StatsRecord(intervalS: int, window: Counts, total: nat)

  class StatsLog {
    var records: seq<StatsRecord>

    constructor ()
      ensures records == []
    {
      records := [];
    }

    method Info(r: StatsRecord)
      modifies this
      ensures records == old(records) + [r]
    {
      records := records + [r];
    }
  }

  /** What a turn logs: nothing when logging is off or the window is empty. */
  function Logged(statsLog: bool, intervalS: int, window: Counts): seq<StatsRecord> {
    if statsLog && window != ZERO then [StatsRecord(intervalS, window, window.Total())] else []
  }

  /** The window is reset every interval; it is logged unless logging is off or it is empty. */
  method Turn(stats: AntifloodStats, log: StatsLog, intervalS: int, statsLog: bool)
    requires stats.Valid()
    modifies stats, log
    ensures stats.Valid()
    ensures stats.Rolling() == ZERO && stats.Lifetime() == old(stats.Lifetime())
    ensures log.records == old(log.records) + Logged(statsLog, intervalS, old(stats.Rolling()))
    ensures if statsLog && old(stats.Rolling()).Total() > 0
            then log.records == old(log.records)
                              + [StatsRecord(intervalS, old(stats.Rolling()), old(stats.Rolling()).Total())]
            else log.records == old(log.records)
  {
    var snap, total := stats.Reset();
    if !statsLog {
      return;
    }
    if total > 0 {
      log.Info(StatsRecord(intervalS, snap, total));
    }
  }
}
