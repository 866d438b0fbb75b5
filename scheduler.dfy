/**
 * The schedule of a pomodoro run (main.py, set_pomodoro). Each call of the
 * countdown `counter` becomes one event of a trace, and so does the
 * announcement of each pomodoro, so the order and number of intervals can
 * be stated without a clock.
 */
module Scheduler {
  import opened Sets

  datatype Event =
    | Announce(setIndex: int, unitIndex: int, id: int)  // "Сессия k", "Помодоро i" with `id` tomatoes
    | Work(minutes: int)                                // counter(work_min)
    | Break(minutes: int)                               // counter(break_min, notice="Отдыхаем")
    | Relax(minutes: int)                               // counter(relax_min, notice="Большой отдых")

  /**
   * An event's constructor as a value, so that one counting function can
   * count any kind of event (Count below). KindOf(e) == WorkKind exactly
   * when e.Work?, and likewise for the other constructors.
   */
  datatype Kind = AnnounceKind | WorkKind | BreakKind | RelaxKind

  function KindOf(e: Event): Kind
  {
    match e
    case Announce(_, _, _) => AnnounceKind
    case Work(_) => WorkKind
    case Break(_) => BreakKind
    case Relax(_) => RelaxKind
  }

  /** Unit number `unitIndex` of set `setIndex`: announce it, work, then take a short break. */
  function UnitTrace(setIndex: int, unitIndex: int, id: int, workMin: int, breakMin: int): seq<Event>
  {
    [Announce(setIndex, unitIndex, id), Work(workMin), Break(breakMin)]
  }

  /** The units of one set, numbered from 1, in order. */
  function UnitsTrace(setIndex: int, units: seq<int>, workMin: int, breakMin: int): seq<Event>
    decreases |units|
  {
    if units == [] then []
    else
      var last := |units| - 1;
      UnitsTrace(setIndex, units[..last], workMin, breakMin)
        + UnitTrace(setIndex, |units|, units[last], workMin, breakMin)
  }

  /** The whole run: the sets, numbered from 1, each followed by one long break. */
  function Schedule(sets: seq<seq<int>>, workMin: int, breakMin: int, relaxMin: int): seq<Event>
    decreases |sets|
  {
    if sets == [] then []
    else
      var last := |sets| - 1;
      Schedule(sets[..last], workMin, breakMin, relaxMin)
        + UnitsTrace(|sets|, sets[last], workMin, breakMin) + [Relax(relaxMin)]
  }

  /**
   * The nested loops of the source: for each set and each pomodoro in it,
   * announce, count down the work, count down the short break; after each
   * set, count down the long break. The countdowns are recorded, not run.
   */
  method SetPomodoro(sets: seq<seq<int>>, workMin: int, breakMin: int, relaxMin: int)
    returns (trace: seq<Event>)
    ensures trace == Schedule(sets, workMin, breakMin, relaxMin)
  {
    trace := [];
    var index := 0;
    while index < |sets|
      invariant 0 <= index <= |sets|
      invariant trace == Schedule(sets[..index], workMin, breakMin, relaxMin)
    {
      var units := sets[index];
      var i := 0;
      while i < |units|
        invariant 0 <= i <= |units|
        invariant trace == Schedule(sets[..index], workMin, breakMin, relaxMin)
                           + UnitsTrace(index + 1, units[..i], workMin, breakMin)
      {
        trace := trace + [Announce(index + 1, i + 1, units[i])];
        trace := trace + [Work(workMin)];
        trace := trace + [Break(breakMin)];
        assert units[..i + 1][..i] == units[..i];
        i := i + 1;
      }
      trace := trace + [Relax(relaxMin)];
      assert units[..i] == units;
      assert sets[..index + 1][..index] == sets[..index];
      index := index + 1;
    }
    assert sets[..index] == sets;
  }

  // ----- What the trace looks like -----

  /** Unit j (from 0) of a set occupies positions 3j, 3j+1, 3j+2 of its trace. */
  lemma {:induction false} UnitsTraceAt(setIndex: int, units: seq<int>, workMin: int, breakMin: int, j: nat)
    requires j < |units|
    ensures |UnitsTrace(setIndex, units, workMin, breakMin)| == 3 * |units|
    ensures var t := UnitsTrace(setIndex, units, workMin, breakMin);
      t[3 * j] == Announce(setIndex, j + 1, units[j])
      && t[3 * j + 1] == Work(workMin)
      && t[3 * j + 2] == Break(breakMin)
  {
    var last := |units| - 1;
    UnitsTraceLength(setIndex, units[..last], workMin, breakMin);
    if j < last {
      UnitsTraceAt(setIndex, units[..last], workMin, breakMin, j);
    }
  }

  lemma {:induction false} UnitsTraceLength(setIndex: int, units: seq<int>, workMin: int, breakMin: int)
    ensures |UnitsTrace(setIndex, units, workMin, breakMin)| == 3 * |units|
    decreases |units|
  {
    if units != [] {
      UnitsTraceLength(setIndex, units[..|units| - 1], workMin, breakMin);
    }
  }

  /** Three events per pomodoro and one long break per set. */
  lemma {:induction false} ScheduleLength(sets: seq<seq<int>>, workMin: int, breakMin: int, relaxMin: int)
    ensures |Schedule(sets, workMin, breakMin, relaxMin)| == 3 * |Flatten(sets)| + |sets|
    decreases |sets|
  {
    if sets != [] {
      var last := |sets| - 1;
      ScheduleLength(sets[..last], workMin, breakMin, relaxMin);
      UnitsTraceLength(|sets|, sets[last], workMin, breakMin);
      FlattenSnoc(sets[..last], sets[last]);
      assert sets[..last] + [sets[last]] == sets;
    }
  }

  /** The schedule of the first sets is the beginning of the whole schedule. */
  lemma {:induction false} SchedulePrefix(sets: seq<seq<int>>, k: nat, workMin: int, breakMin: int, relaxMin: int)
    requires k <= |sets|
    ensures var p := Schedule(sets[..k], workMin, breakMin, relaxMin);
      var t := Schedule(sets, workMin, breakMin, relaxMin);
      |p| <= |t| && t[..|p|] == p
    decreases |sets|
  {
    if k < |sets| {
      var last := |sets| - 1;
      SchedulePrefix(sets[..last], k, workMin, breakMin, relaxMin);
      assert sets[..last][..k] == sets[..k];
    } else {
      assert sets[..k] == sets;
    }
  }

  /** Helper: the defining equation of Schedule, at the first k + 1 sets. */
  lemma ScheduleNextSet(sets: seq<seq<int>>, k: nat, workMin: int, breakMin: int, relaxMin: int)
    requires k < |sets|
    ensures Schedule(sets[..k + 1], workMin, breakMin, relaxMin)
            == Schedule(sets[..k], workMin, breakMin, relaxMin)
               + UnitsTrace(k + 1, sets[k], workMin, breakMin) + [Relax(relaxMin)]
  {
    assert sets[..k + 1][..k] == sets[..k];
  }

  /**
   * Set k (from 0) is run after the 3 * (pomodoros of the earlier sets) + k
   * events of the sets before it: its pomodoros, then its long break.
   */
  lemma SetInSchedule(sets: seq<seq<int>>, workMin: int, breakMin: int, relaxMin: int, k: nat)
    requires k < |sets|
    ensures var t := Schedule(sets, workMin, breakMin, relaxMin);
      var start := 3 * |Flatten(sets[..k])| + k;
      start + 3 * |sets[k]| < |t|
      && t[start .. start + 3 * |sets[k]| + 1]
         == UnitsTrace(k + 1, sets[k], workMin, breakMin) + [Relax(relaxMin)]
  {
    var t := Schedule(sets, workMin, breakMin, relaxMin);
    var before := Schedule(sets[..k], workMin, breakMin, relaxMin);
    var events := UnitsTrace(k + 1, sets[k], workMin, breakMin) + [Relax(relaxMin)];
    var upTo := Schedule(sets[..k + 1], workMin, breakMin, relaxMin);
    ScheduleNextSet(sets, k, workMin, breakMin, relaxMin);
    assert upTo == before + events;
    SchedulePrefix(sets, k + 1, workMin, breakMin, relaxMin);
    assert |upTo| <= |t| && t[..|upTo|] == upTo;
    ScheduleLength(sets[..k], workMin, breakMin, relaxMin);
    UnitsTraceLength(k + 1, sets[k], workMin, breakMin);
    var start := 3 * |Flatten(sets[..k])| + k;
    assert |before| == start && |events| == 3 * |sets[k]| + 1;
    InPrefix(t, before, events);
  }

  /** What follows `before` in a prefix `before + events` of `t` sits in `t` right after `before`. */
  lemma InPrefix<E>(t: seq<E>, before: seq<E>, events: seq<E>)
    requires |before + events| <= |t| && t[..|before + events|] == before + events
    ensures t[|before| .. |before| + |events|] == events
  {
    assert t[|before| .. |before| + |events|] == (before + events)[|before|..];
  }

  /**
   * Where every event of the run sits: unit j (from 0) of set k (from 0) is
   * announced as unit j + 1 of set k + 1 and followed by its work and its
   * short break, and the set ends with one long break.
   */
  lemma ScheduleAt(sets: seq<seq<int>>, workMin: int, breakMin: int, relaxMin: int, k: nat, j: nat)
    requires k < |sets| && j < |sets[k]|
    ensures var t := Schedule(sets, workMin, breakMin, relaxMin);
      var start := 3 * |Flatten(sets[..k])| + k;
      start + 3 * |sets[k]| < |t|
      && t[start + 3 * j] == Announce(k + 1, j + 1, sets[k][j])
      && t[start + 3 * j + 1] == Work(workMin)
      && t[start + 3 * j + 2] == Break(breakMin)
      && t[start + 3 * |sets[k]|] == Relax(relaxMin)
  {
    var t := Schedule(sets, workMin, breakMin, relaxMin);
    var start := 3 * |Flatten(sets[..k])| + k;
    var units := UnitsTrace(k + 1, sets[k], workMin, breakMin);
    SetInSchedule(sets, workMin, breakMin, relaxMin, k);
    UnitsTraceAt(k + 1, sets[k], workMin, breakMin, j);
    var part := t[start .. start + 3 * |sets[k]| + 1];
    assert part == units + [Relax(relaxMin)];
    assert t[start + 3 * j] == part[3 * j] == units[3 * j];
    assert t[start + 3 * j + 1] == part[3 * j + 1] == units[3 * j + 1];
    assert t[start + 3 * j + 2] == part[3 * j + 2] == units[3 * j + 2];
    assert t[start + 3 * |sets[k]|] == part[3 * |sets[k]|];
  }

  // ----- Counting intervals -----

  /** The number of events of one kind in a trace. */
  function Count(t: seq<Event>, k: Kind): nat
  {
    if t == [] then 0
    else Count(t[..|t| - 1], k) + (if KindOf(t[|t| - 1]) == k then 1 else 0)
  }

  lemma {:induction false} CountAppend(s: seq<Event>, t: seq<Event>, k: Kind)
    ensures Count(s + t, k) == Count(s, k) + Count(t, k)
    decreases |t|
  {
    if t == [] {
      assert s + t == s;
    } else {
      var last := |t| - 1;
      assert (s + t)[..|s + t| - 1] == s + t[..last];
      assert (s + t)[|s + t| - 1] == t[last];
      CountAppend(s, t[..last], k);
    }
  }

  /** The events of one pomodoro: one announcement, one work interval, one short break. */
  lemma UnitTraceCount(setIndex: int, unitIndex: int, id: int, workMin: int, breakMin: int, k: Kind)
    ensures Count(UnitTrace(setIndex, unitIndex, id, workMin, breakMin), k)
            == if k == RelaxKind then 0 else 1
  {
    var a, w, b := Announce(setIndex, unitIndex, id), Work(workMin), Break(breakMin);
    assert UnitTrace(setIndex, unitIndex, id, workMin, breakMin) == [a] + [w] + [b];
    assert [a][..0] == [] && [w][..0] == [] && [b][..0] == [];
    CountAppend([a], [w], k);
    CountAppend([a] + [w], [b], k);
  }

  lemma {:induction false} UnitsTraceCount(setIndex: int, units: seq<int>, workMin: int, breakMin: int)
    ensures var t := UnitsTrace(setIndex, units, workMin, breakMin);
      Count(t, AnnounceKind) == |units| && Count(t, WorkKind) == |units|
      && Count(t, BreakKind) == |units| && Count(t, RelaxKind) == 0
    decreases |units|
  {
    if units != [] {
      var last := |units| - 1;
      UnitsTraceCount(setIndex, units[..last], workMin, breakMin);
      var u := UnitTrace(setIndex, |units|, units[last], workMin, breakMin);
      forall k: Kind
        ensures Count(UnitsTrace(setIndex, units, workMin, breakMin), k)
                == Count(UnitsTrace(setIndex, units[..last], workMin, breakMin), k)
                   + (if k == RelaxKind then 0 else 1)
      {
        CountAppend(UnitsTrace(setIndex, units[..last], workMin, breakMin), u, k);
        UnitTraceCount(setIndex, |units|, units[last], workMin, breakMin, k);
      }
    }
  }

  /**
   * A run does one work interval and one short break per pomodoro, one
   * announcement per pomodoro, and one long break per set.
   */
  lemma {:induction false} ScheduleCount(sets: seq<seq<int>>, workMin: int, breakMin: int, relaxMin: int)
    ensures var t := Schedule(sets, workMin, breakMin, relaxMin);
      Count(t, AnnounceKind) == |Flatten(sets)| && Count(t, WorkKind) == |Flatten(sets)|
      && Count(t, BreakKind) == |Flatten(sets)| && Count(t, RelaxKind) == |sets|
    decreases |sets|
  {
    if sets != [] {
      var last := |sets| - 1;
      var t := Schedule(sets, workMin, breakMin, relaxMin);
      var before := Schedule(sets[..last], workMin, breakMin, relaxMin);
      var units := UnitsTrace(|sets|, sets[last], workMin, breakMin);
      assert t == before + units + [Relax(relaxMin)];
      ScheduleCount(sets[..last], workMin, breakMin, relaxMin);
      UnitsTraceCount(|sets|, sets[last], workMin, breakMin);
      FlattenSnoc(sets[..last], sets[last]);
      assert sets[..last] + [sets[last]] == sets;
      var n := |Flatten(sets[..last])|;
      assert |Flatten(sets)| == n + |sets[last]|;
      assert [Relax(relaxMin)][..0] == [];
      forall k: Kind
        ensures Count(t, k) == Count(before, k) + Count(units, k) + (if k == RelaxKind then 1 else 0)
      {
        CountAppend(before, units, k);
        CountAppend(before + units, [Relax(relaxMin)], k);
      }
    }
  }

  // ----- Which pomodoros are announced -----

  /** The ids of the announced pomodoros, in the order of the trace. */
  function AnnouncedIds(t: seq<Event>): seq<int>
  {
    if t == [] then []
    else AnnouncedIds(t[..|t| - 1]) + (if t[|t| - 1].Announce? then [t[|t| - 1].id] else [])
  }

  lemma {:induction false} AnnouncedIdsAppend(s: seq<Event>, t: seq<Event>)
    ensures AnnouncedIds(s + t) == AnnouncedIds(s) + AnnouncedIds(t)
    decreases |t|
  {
    if t == [] {
      assert s + t == s;
    } else {
      var last := |t| - 1;
      assert (s + t)[..|s + t| - 1] == s + t[..last];
      assert (s + t)[|s + t| - 1] == t[last];
      AnnouncedIdsAppend(s, t[..last]);
    }
  }

  lemma {:induction false} UnitsTraceIds(setIndex: int, units: seq<int>, workMin: int, breakMin: int)
    ensures AnnouncedIds(UnitsTrace(setIndex, units, workMin, breakMin)) == units
    decreases |units|
  {
    if units != [] {
      var last := |units| - 1;
      var u := UnitTrace(setIndex, |units|, units[last], workMin, breakMin);
      UnitsTraceIds(setIndex, units[..last], workMin, breakMin);
      AnnouncedIdsAppend(UnitsTrace(setIndex, units[..last], workMin, breakMin), u);
      var a, w, b := u[0], u[1], u[2];
      assert u == [a] + [w] + [b];
      assert [a][..0] == [] && [w][..0] == [] && [b][..0] == [];
      AnnouncedIdsAppend([a], [w]);
      AnnouncedIdsAppend([a] + [w], [b]);
      assert AnnouncedIds(u) == [units[last]];
      assert units[..last] + [units[last]] == units;
    }
  }

  /**
   * Every pomodoro of every set is announced exactly once, in the order of
   * the sets and of the pomodoros within them.
   */
  lemma {:induction false} ScheduleIds(sets: seq<seq<int>>, workMin: int, breakMin: int, relaxMin: int)
    ensures AnnouncedIds(Schedule(sets, workMin, breakMin, relaxMin)) == Flatten(sets)
    decreases |sets|
  {
    if sets != [] {
      var last := |sets| - 1;
      var before := Schedule(sets[..last], workMin, breakMin, relaxMin);
      var units := UnitsTrace(|sets|, sets[last], workMin, breakMin);
      ScheduleIds(sets[..last], workMin, breakMin, relaxMin);
      UnitsTraceIds(|sets|, sets[last], workMin, breakMin);
      AnnouncedIdsAppend(before, units);
      AnnouncedIdsAppend(before + units, [Relax(relaxMin)]);
      assert AnnouncedIds([Relax(relaxMin)]) == [];
      FlattenSnoc(sets[..last], sets[last]);
      assert sets[..last] + [sets[last]] == sets;
    }
  }
}
