# Pomodoro timer — verified model of its scheduling logic

The program is a terminal pomodoro timer (`main.py`). It numbers the
pomodoros 1..N, splits them into sets of `size`, and then, for every set and
every pomodoro in it, announces the pomodoro and counts down a work interval
and a short break. After each set it counts down one long break ("relax").
The file also defines `pluralize_seconds`, which picks the Russian plural of
"second" for a count. Nothing in `main.py` calls it: the countdown prints
the remaining time as an `H:MM:SS` string with no word after it.

This project models three pieces of that file in Dafny and proves what they
promise:

- `pluralize.dfy` (module `Pluralize`): `pluralize_seconds`, defined but not
  used by the program. It is a total
  function and its result always agrees with the usual Russian rule for the
  three plural categories, which is defined independently in the model.
- `sets.dfy` (module `Sets`): `sets_of_pomodoros`. `Chunks` is the recursive
  model of the slice comprehension. Flattening the chunks gives the input back.
  Chunk k is the slice starting at k * size. There are ceil(len / size)
  chunks, and only the last may be shorter.
- `scheduler.dfy` (module `Scheduler`): `set_pomodoro` as a method with the
  source's two nested loops. Each call to the countdown `counter` becomes an
  event appended to a trace (`Work`, `Break`, `Relax`), and each
  announcement becomes `Announce(set, unit, id)`. The method is proved equal
  to the specification function `Schedule`. The lemmas about `Schedule` give
  the position of every event, the number of events of each kind, and the
  order in which pomodoros are announced.
- `cli.dfy` (module `Cli`): how `cli` builds `list(range(1, pomodoros + 1))`
  and chains the two steps.

Integers are unbounded, as in Python. Dafny's `%` agrees with Python's for
the positive divisors 10 and 100 that `pluralize_seconds` uses, negative
counts included.

The model follows the code as written. `main.py` performs no validation of
its options (it does not require positive values or `pomodoros >= size`),
has no pause/resume, asks for no confirmation when interrupted and has no
notifier other than the macOS `say` command, so none of these is modelled.
With no validation, a negative `size` gives an empty schedule (Python's
`range` with a negative step is empty there) and a `pomodoros` count <= 0
gives no pomodoros. Both cases are modelled. A `size` of 0 makes `range`
raise, so the model requires `size != 0`.

## Model

| member | source | states |
|---|---|---|
| `Pluralize.PluralizeSeconds` | main.py:9-19 | Always one of the three forms. Last two digits 11..14 give "секунд". Otherwise last digit 1 gives "секунда", 2..4 gives "секунды", and 0 or 5..9 gives "секунд". The result equals the word of the independently stated Russian plural category. |
| `Pluralize.FormsDistinct` | main.py:12-19 | The three returned words are pairwise different, so the case conditions above are exact. |
| `Pluralize.PluralizePeriodic` | main.py:11-13 | The form depends only on n modulo 100: adding any multiple of 100 does not change it. |
| `Pluralize.PluralizeExamples` | main.py:9-19 | Concrete values: 1, 21 and 101 give "секунда"; 2 and 34 give "секунды"; 0, 5, 11, 12, 14, 111 and -1 give "секунд". |
| `Sets.Chunks` | main.py:38-39 | Every chunk has 1..size elements, and every chunk but the last has exactly size. |
| `Sets.ChunksFlatten` | main.py:38-39 | Round trip: flattening the chunks gives back exactly the input. |
| `Sets.SetsOfPomodoros` | main.py:38-39 | For size > 0 the chunks flatten back to the input and there are (len + size - 1) / size of them. For a negative size there are none. A zero size is excluded, because `range` raises on it. |
| `Sets.ChunkCount` | main.py:39 | The number of chunks is (len + size - 1) / size, so the empty list has none. |
| `Sets.ChunkAt` | main.py:39 | Chunk k starts at k * size, below len, and is the slice `xs[k*size .. min(k*size + size, len)]`. So the chunks are contiguous, non-overlapping and in order. |
| `Sets.LastChunk` | main.py:39 | The last chunk is the rest of the list after (chunks - 1) * size elements. Its length is len mod size, or size when size divides len. |
| `Sets.ChunksEmpty` | main.py:39 | Chunking the empty list gives no chunks. |
| `Scheduler.SetPomodoro` | main.py:42-54 | The nested loops emit exactly the trace `Schedule(sets, work, break, relax)`. |
| `Scheduler.UnitsTraceAt` | main.py:45-52 | Within a set, unit j (from 0) is `Announce(set, j + 1, id)`, then `Work(work_min)`, then `Break(break_min)`, at positions 3j, 3j+1 and 3j+2. A set's units take 3 * units events. |
| `Scheduler.UnitsTraceCount` | main.py:45-52 | A set's units give one announcement, one work interval and one short break per pomodoro, and no long break. |
| `Scheduler.ScheduleLength` | main.py:42-54 | The run has 3 events per pomodoro plus one per set. |
| `Scheduler.SchedulePrefix` | main.py:43 | The trace of the first k sets is a prefix of the whole trace, because sets run in order. |
| `Scheduler.SetInSchedule` | main.py:43-54 | Set k (from 0) starts after 3 * (pomodoros in earlier sets) + k events. It consists of its units' events followed by exactly one `Relax(relax_min)`. |
| `Scheduler.ScheduleAt` | main.py:42-54 | Unit j of set k is announced as set k + 1, unit j + 1, with its own id. Its `Work` and `Break` follow it directly, and the set's `Relax` comes after its last unit. |
| `Scheduler.ScheduleCount` | main.py:42-54 | Announce, Work and Break events each occur len(flatten(sets)) times, and Relax events occur len(sets) times. |
| `Scheduler.ScheduleIds` | main.py:43-48 | The ids announced, in trace order, are exactly flatten(sets): each pomodoro is announced once, in order. |
| `Cli.AllPomodoros` | main.py:84 | The list has max(pomodoros, 0) elements, and element i is i + 1. |
| `Cli.Run` | main.py:81-86 | The trace is the schedule of the chunked list 1..N. For size > 0, pomodoros 1..N are announced in order, there are N work intervals and N short breaks, and there are (N + size - 1) / size long breaks. For size < 0 the trace is empty. |
| `Cli.FivePomodorosInPairs` | main.py:84-86 | Five pomodoros in sets of two are `[[1,2],[3,4],[5]]`. That gives 5 work intervals, 5 short breaks and 3 long breaks, and the run ends with a long break. |
| `Cli.DefaultOptions` | main.py:73-85 | The default 8 pomodoros in sets of 4 make the two full sets `[[1,2,3,4],[5,6,7,8]]`. |

## Left out

- `counter` (main.py:22-35) waits on the wall clock (`datetime.now`, `time.sleep`) and writes to the terminal. Each call is modelled only as one `Work`, `Break` or `Relax` event carrying its minutes.
- Display is not modelled: `click.echo`, `click.style`, `click.clear`, the ANSI cursor escapes (main.py:50-51) and the string of tomato characters (main.py:48). The announcement at main.py:46-48 is reduced to the values it shows (set number, unit number, id).
- The `say` shell commands (main.py:47, 87) are foreign processes and are not modelled.
- Option parsing and the start-up confirmation prompt (main.py:57-80) belong to the `click` library and are not modelled. `Cli.Run` takes the five option values as parameters.
- Pause/resume, notifier selection and validation errors do not exist in `main.py`, so they are not modelled.
- Interruption is not modelled. The traces are those of an uninterrupted run after the start-up prompt was accepted (main.py:80). Ctrl-C during any `counter` raises `KeyboardInterrupt`, which `click` reports as "Aborted!" with exit status 1, so a real run can stop after any prefix of the trace. Declining the start-up prompt runs nothing.
- `Cli.Run` does not model the exception Python raises for `size == 0`: it requires `size != 0` instead.
