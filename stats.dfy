/**
 * The statistics log (stats.py): each finished game leaves one record.
 * Timestamps are opaque integers; writing the log to a file is not modelled.
 */
module Stats {

  /** One finished game: when it began and ended, the turns taken, the outcome and the grid it was played on. */
  datatype Statistic = Statistic(beginTime: int, endTime: int, tilesOpened: int, win: bool,
                                 fieldWidth: int, fieldHeight: int, mineAmount: int)

  /** The records kept so far, oldest first. */
  class Log {
    var stats: seq<Statistic>

    constructor ()
      ensures stats == []
    {
      stats := [];
    }

    /** Appends the record of one game; earlier records are kept as they are. */
    method AddStatistic(beginTime: int, endTime: int, tilesOpened: int, win: bool,
                        fieldWidth: int, fieldHeight: int, mineAmount: int)
      modifies this`stats
      ensures stats == old(stats) + [Statistic(beginTime, endTime, tilesOpened, win, fieldWidth, fieldHeight, mineAmount)]
    {
      stats := stats + [Statistic(beginTime, endTime, tilesOpened, win, fieldWidth, fieldHeight, mineAmount)];
    }
  }
}
