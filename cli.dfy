/**
 * The command's entry point (main.py, cli): number the pomodoros 1..N,
 * split them into sets and run the schedule. Option parsing, the start-up
 * confirmation and the final spoken "Конец" are not part of this model.
 */
module Cli {
  import opened Sets
  import opened Scheduler

  /** `list(range(1, pomodoros + 1))`: the pomodoros numbered from 1; none for a count <= 0. */
  function AllPomodoros(pomodoros: int): (r: seq<int>)
    ensures |r| == if pomodoros <= 0 then 0 else pomodoros
    ensures forall i :: 0 <= i < |r| ==> r[i] == i + 1
    decreases pomodoros
  {
    if pomodoros <= 0 then [] else AllPomodoros(pomodoros - 1) + [pomodoros]
  }

  /**
   * One run of the timer with the given options. With a positive set size
   * every pomodoro 1..N is announced once, in order, with one work interval
   * and one short break each, and there is one long break per set; a
   * negative size gives no sets and so an empty run.
   */
  method Run(workMin: int, breakMin: int, relaxMin: int, pomodoros: int, size: int)
    returns (trace: seq<Event>)
    requires size != 0
    ensures trace == Schedule(SetsOfPomodoros(AllPomodoros(pomodoros), size), workMin, breakMin, relaxMin)
    ensures size < 0 ==> trace == []
    ensures size > 0 ==>
      var n := if pomodoros <= 0 then 0 else pomodoros;
      AnnouncedIds(trace) == AllPomodoros(pomodoros)
      && Count(trace, WorkKind) == n && Count(trace, BreakKind) == n
      && Count(trace, RelaxKind) == (n + size - 1) / size
  {
    var all := AllPomodoros(pomodoros);
    var sets := SetsOfPomodoros(all, size);
    trace := SetPomodoro(sets, workMin, breakMin, relaxMin);
    ScheduleIds(sets, workMin, breakMin, relaxMin);
    ScheduleCount(sets, workMin, breakMin, relaxMin);
  }

  /** Five pomodoros in sets of two: [[1, 2], [3, 4], [5]], hence five work intervals and three long breaks. */
  lemma FivePomodorosInPairs(workMin: int, breakMin: int, relaxMin: int)
    ensures SetsOfPomodoros(AllPomodoros(5), 2) == [[1, 2], [3, 4], [5]]
    ensures var t := Schedule([[1, 2], [3, 4], [5]], workMin, breakMin, relaxMin);
      Count(t, WorkKind) == 5 && Count(t, BreakKind) == 5 && Count(t, RelaxKind) == 3
      && t[|t| - 1] == Relax(relaxMin)
  {
    var all := AllPomodoros(5);
    assert all == [1, 2, 3, 4, 5];
    assert all[..2] == [1, 2] && all[2..] == [3, 4, 5];
    assert [3, 4, 5][..2] == [3, 4] && [3, 4, 5][2..] == [5];
    assert [5][..1] == [5] && [5][1..] == [];
    ScheduleCount([[1, 2], [3, 4], [5]], workMin, breakMin, relaxMin);
    assert Flatten([[1, 2], [3, 4], [5]]) == [1, 2, 3, 4, 5];
  }

  /** The default options: eight pomodoros in sets of four make two full sets. */
  lemma DefaultOptions()
    ensures SetsOfPomodoros(AllPomodoros(8), 4) == [[1, 2, 3, 4], [5, 6, 7, 8]]
  {
    var all := AllPomodoros(8);
    assert all == [1, 2, 3, 4, 5, 6, 7, 8];
    assert all[..4] == [1, 2, 3, 4] && all[4..] == [5, 6, 7, 8];
    assert [5, 6, 7, 8][..4] == [5, 6, 7, 8] && [5, 6, 7, 8][4..] == [];
  }
}
