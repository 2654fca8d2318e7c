# Mini OS game console: scheduler, paged memory and score store in Dafny

This project models the simulation engine of a small "game console OS". Each
game session is a process. A scheduler admits processes into a ready queue.
A paged memory manager gives every admitted process a set of pages. The run
loop repeatedly hands one time quantum to the ready process that has run
least. When a process's burst time is used up, it terminates: its pages, its
worker-thread manager and its per-process record file are released, and its
score is offered to the high-score table.

The model is functional. Immutable records stand for the PCB, the memory
manager (a free-page list and a pid → page-list map), the file store (a
file-name → contents map plus the in-memory high-score table) and the
scheduler. Each operation is a pure function from state to state. The run
loop is a method whose `decreases` clause is the number of quanta the queue
still needs.

Modules, one per component:

- `Memory` (`memory.dfy`) holds `MemoryManager` with `Init`, `Allocate`, `Deallocate` and
  `Translate`. It also states the conservation invariant: the free list and
  the page tables partition the pages `0 .. totalPages-1`.
- `Pcb` (`pcb.dfy`) is the process control block.
- `Files` (`files.dfy`) is the `games/` directory as a map. It covers the record operations,
  `save_high_score`, and the `name:score` line format with its writer and loader.
- `Scheduling` (`scheduler.dfy`) covers admission, the selection rule, one quantum (`Step`) and
  the run loop (`Run`).
- `Seqs` (`seqs.dfy`) and `Text` (`text.dfy`) hold the parts of Python's `list` and `str` behaviour
  that the modules above rely on: `range`, `sort`, `lower`, `strip`, `split`,
  line iteration, `str(int)` and `int(str)`. `Results` (`results.dfy`) holds `Option` and
  `Result`.
- `Scenarios` (`scenarios.dfy`) holds concrete runs with the console's configuration: 16 pages
  of 1024 addresses and a quantum of 2.

Behaviour of the code that the model keeps rather than smooths over:

- In the source, a process's page list and its page table are one list object.
  The model keeps them as two values. The scheduler invariant
  `Scheduling.Invariant` states that they are equal.
- A negative virtual address gives a negative page number. That number passes
  the `page >= len(pages)` check and indexes the page list from its end, or
  raises IndexError below `-len(pages)`. Two virtual addresses can therefore
  reach the same physical byte (`Memory.NegativeAddressAliases`).
- Ties in the selection rule go to the block queued first, not to the lower
  pid: Python's `min` keeps the first minimum.
- The ready queue is a FIFO list: re-queued blocks go to its end. That order
  decides ties.
- Two processes with the same name share one record file. When the first one
  terminates it deletes the file, and from then on the second one's score
  writes are ignored, because `write_file` only writes existing files.

## Model

| member | source | states |
|---|---|---|
| `Seqs.Range` | memory_management.py:5 | `list(range(n))` has length n and holds i at position i |
| `Seqs.Sort` | memory_management.py:21 | the re-sorted free list is in ascending order and is a permutation of its input |
| `Seqs.SortedUnique` | memory_management.py:20-21 | two sorted orderings of the same multiset are equal, so the model's sort agrees with Python's `sort()` on every list |
| `Memory.Init` | memory_management.py:2-6 | a new manager satisfies the invariant: every page is free in ascending order and there are no page tables |
| `Memory.Allocate` | memory_management.py:8-17 | granted iff the free list holds at least `pages_needed` pages; if granted, the PCB's pages are the free list's first `pages_needed` entries, the free list keeps the rest, and the page table of that pid is the PCB's pages; if refused, nothing changes |
| `Memory.AllocatePreservesValid` | memory_management.py:8-17 | for a pid without a page table, allocation keeps the free list strictly ascending and keeps free pages plus page tables a duplicate-free partition of `0..total_pages-1` |
| `Memory.Deallocate` | memory_management.py:19-24 | the free list becomes sorted and gains exactly the PCB's pages; only that pid's page table is removed and the others stay unchanged; the PCB's page list becomes empty; a missing page table (KeyError) is excluded by the precondition |
| `Memory.DeallocatePreservesValid` | memory_management.py:19-24 | when the PCB's pages are its page table, deallocation keeps the partition and the strictly ascending free list |
| `Memory.AllocateDeallocateRoundTrip` | memory_management.py:8-24 | a granted allocation followed by deallocation of the same PCB restores the manager exactly, free-list order included, and leaves the PCB with no pages |
| `Memory.Translate` | memory_management.py:26-35 | "No page table" iff the pid is not resident; "Invalid page" iff `va // page_size >= len(pages)`; otherwise the physical address is `frame * page_size + offset`, where `offset = va % page_size` lies in `[0, page_size)` and the frame is `pages[va // page_size]`, counted from the end for negative page numbers |
| `Memory.TranslatedAddressSplits` | memory_management.py:30-34 | a translated address divided by the page size gives back the frame, and its remainder is the virtual address's offset |
| `Memory.TranslateInjective` | memory_management.py:30-34 | under the invariant, distinct non-negative virtual addresses of one process translate to distinct physical addresses |
| `Memory.TranslateIsolated` | memory_management.py:29-34 | under the invariant, two different processes never translate to the same physical address |
| `Memory.NegativeAddressAliases` | memory_management.py:30-34 | with pages [5, 9], address -1 reaches the same physical byte as 2047, -1025 reaches the first page, and -2049 raises IndexError |
| `Pcb.NewPcb` | process_management.py:7-18 | a new PCB is ready, has total runtime 0, no pages and score 0, and carries the given pid, name, burst time and page count |
| `Files.LookupSpec` | file_system.py:59 | a name has no stored score exactly when no entry carries it, and a score found is one the table holds under that name |
| `Files.Put` | file_system.py:60 | dict assignment: afterwards the name maps to the score and every other name keeps its value; a new name is appended at the end; for an existing name the table keeps its length |
| `Files.PutInPlace` | file_system.py:60 | for a name whose first entry is at position k, assignment replaces exactly that entry and leaves every other entry at its position, so the file's line order is kept |
| `Files.PutUnique` | file_system.py:60 | dict assignment never creates a second entry for a name |
| `Files.ParseLines` | file_system.py:14-19 | the loader's loop produces a table with unique names |
| `Files.NoColonSkipped` | file_system.py:16-17 | a line without ':' is skipped and changes nothing |
| `Files.LoadHighScores` | file_system.py:11-20 | a missing high-score file loads as the empty table |
| `Files.Open` | file_system.py:5-9 | construction succeeds iff the high-score file loads, and keeps the directory as it is; the opened file system holds the loaded table |
| `Files.OpenSerialized` | file_system.py:5-25 | opening a directory whose high-score file was written from a table (names as in `LoadSerialized`) gives a file system holding exactly that table |
| `Files.CreateFile` | file_system.py:27-31 | afterwards the file holds the content, whether or not it existed; other files and the table are unchanged |
| `Files.ReadFile` | file_system.py:33-39 | the file's content if it exists, otherwise None |
| `Files.WriteFile` | file_system.py:41-48 | a missing file leaves everything unchanged; an existing one then holds the content; no other file changes and no file is created |
| `Files.DeleteFile` | file_system.py:50-56 | afterwards the file is absent; other files are unchanged; deleting a missing file changes nothing |
| `Files.SaveHighScore` | file_system.py:58-62 | the stored score becomes the maximum of the old and new scores, or the new score if the name had none; other names are unchanged; an improving score updates the table by dict assignment (`Put`, so the name keeps its position and the file's line order is kept) and rewrites the high-score file from it; a non-improving score changes nothing |
| `Files.SaveHighScoreIdempotent` | file_system.py:58-61 | saving the same (name, score) twice equals saving it once |
| `Files.Serialize` | file_system.py:22-25 | an empty table writes an empty file; any other file ends with a newline |
| `Files.SerializeLines` | file_system.py:22-25 | for names without a newline, the written file has exactly one `name:score` line per table entry, in table order (names holding ':' included) |
| `Files.LoadSerialized` | file_system.py:11-25 | loading a written table gives back the same table in the same order, when names are unique, contain no ':', '\n' or '\r', and do not start with a character Python's `strip()` removes |
| `Files.SaveHighScorePersists` | file_system.py:58-61 | after an improving save, reloading the high-score file gives the in-memory table, for names of the same kind as in `LoadSerialized` |
| `Files.ExtraColonFails` | file_system.py:17-18 | a line with two or more ':' makes the two-name unpack fail, and loading stops with that error |
| `Files.OneColonSets` | file_system.py:16-19 | any line with exactly one ':' splits, once stripped, into two pieces; if the second is an integer, the first piece (whitespace before the ':' included) is set to that value on top of the earlier lines |
| `Files.NotAnIntegerFails` | file_system.py:17-19 | a line with exactly one ':' whose score piece is not an integer makes loading stop with that line's ValueError |
| `Files.WrittenLineSets` | file_system.py:18-25 | reading back the line written for an entry sets the entry's name to its score |
| `Text.Lower` | process_management.py:39 | `str.lower()` keeps the length, leaves no ASCII capital, and changes a character only from a capital to its small letter |
| `Text.StripEnds` | file_system.py:18 | the text `str.strip()` returns neither starts nor ends with whitespace |
| `Text.StripSpec` | file_system.py:18 | `str.strip()` cuts its input into leading whitespace, the stripped text and trailing whitespace, and only whitespace is cut off |
| `Text.ParseIntShape` | file_system.py:19 | `int()` accepts only a stripped text that is a digit, or a sign with at least one digit after it, followed by digits only; a negative value needs a '-'; a text holding ':' is never an integer |
| `Text.ParseIntValue` | file_system.py:19 | conversely, every stripped text of that shape is accepted, with its base-10 value, negated after a '-' |
| `Text.Split` | file_system.py:18 | `split(':')` yields one more piece than there are separators; no piece holds the separator; joining the pieces gives the input back |
| `Text.Lines` | file_system.py:16 | iterating the file yields lines that each end at their first newline (the last may lack one), and their concatenation is the file |
| `Text.ParseIntToString` | file_system.py:19-25 | `int(str(n)) == n` |
| `Scheduling.NewScheduler` | process_management.py:24-30 | a new scheduler has an empty ready queue, no thread managers, hands out pids from 1, and keeps the given quantum, memory manager and file system |
| `Scheduling.RecordName` | process_management.py:39 | the record file of a process is its name with capitals lowered, followed by `.txt` |
| `Scheduling.RecordNameShared` | process_management.py:39 | two processes share one record file exactly when their names agree once lowered |
| `Scheduling.NewSchedulerInvariant` | process_management.py:24-30 | a new scheduler over a new memory manager satisfies the scheduler invariant |
| `Scheduling.AddProcess` | process_management.py:32-41 | `next_pid` grows by exactly 1 either way; if memory is refused, nothing else changes; if granted, a fresh ready PCB with the old `next_pid` and the first free pages is appended to the queue, its pid gets a page table and a thread manager, and the record `<name.lower()>.txt` holds "Initial score: 0" |
| `Scheduling.AddProcessKeepsInvariant` | process_management.py:32-41 | admission keeps every queued PCB resident with a unique pid below `next_pid`, and keeps the page tables and thread managers keyed by exactly the queued pids |
| `Scheduling.MinIndex` | process_management.py:58 | the chosen position holds a minimal total runtime, and every earlier position has a strictly larger one |
| `Scheduling.MinIndexUnique` | process_management.py:58 | exactly one position satisfies the selection rule |
| `Scheduling.TieBreakByQueueOrder` | process_management.py:58 | on equal runtimes the block queued first is chosen even when its pid is higher |
| `Scheduling.QuantaStep` | process_management.py:67-71 | a quantum that leaves burst time over reduces `max(1, ceil(burst / quantum))` by exactly one |
| `Scheduling.Step` | process_management.py:57-82 | one iteration picks the selected PCB, charges one quantum to its burst time and total runtime, and adds the threads' gain to its score; the probe finds its page table; with burst left it re-enters the queue at the end as ready, the record file, if present, holds "Score: <score>", and memory, thread managers, high scores and every other file are unchanged; otherwise it terminates: its pages return to the free list, which is sorted; only its page table, thread manager and record are removed; the table becomes the dict assignment of the new score if it improves and stays as it was otherwise, so the high score is the maximum of the old and new scores and other names keep theirs; an improving score rewrites the high-score file from the table, a non-improving one leaves that file as it was, and no other file changes |
| `Scheduling.StepKeepsInvariant` | process_management.py:57-82 | every iteration keeps the scheduler invariant, including memory conservation |
| `Scheduling.StepWork` | process_management.py:57-82 | every iteration uses up exactly one of the quanta the queue still needs |
| `Scheduling.Run` | process_management.py:56-83 | with a positive quantum the loop ends with an empty queue after exactly the number of quanta the queue needed; afterwards no page table or thread manager remains and the free list is again `0..total_pages-1` in order |
| `Scenarios.AdmissionUnderScarcity` | process_management.py:32-41 | on 16 pages, three 4-page games leave 4 free pages; an 8-page request then fails, changes nothing but `next_pid`, and 4 pages stay free |
| `Scenarios.TranslationOfFirstGame` | memory_management.py:26-35 | the first game gets pages [0, 1, 2, 3], and address 1500 is page 1, offset 476, physical 1500 |
| `Scenarios.SnakeAdmitted` | process_management.py:32-41 | admitting a 5-burst game at boot gives a consistent scheduler holding that one game, which has not run yet |
| `Scenarios.QuantumLifecycle` | process_management.py:56-82 | a 5-burst game alone in the queue under quantum 2: after one quantum burst 3, runtime 2, ready and queued; after the second burst 1; the third terminates it: the PCB holds no pages, the free list is again `0..total_pages-1` in order, no page table, thread manager or record remains, and the stored high score is the maximum of the old one and the game's score |

## Left out

- Worker threads (concurrency.py): the producer and consumer threads, `random.choice`, the sleeps, `join(timeout=…)` and the locks are not modelled. One quantum's thread activity is a single step that raises the score by 0 to 2. `Step` takes this amount as its `gain` argument, and `Run` takes a `gains` oracle. The consumer takes at most two inputs, each worth one point.
- `time.sleep`, every `print`, `show_queue` and the text of the translation message are not modelled. The probe's result is kept as a `Translation` value.
- Disk I/O: paths, `open`, `mkdir` and `unlink` become operations on a file-name → contents map. The high-score file is the key `high_scores.txt` in the same map.
- Python's `str.lower()` is modelled only for ASCII letters. `str.strip()` removes exactly the characters `str.isspace()` accepts. `int()` is modelled as stripped whitespace, an optional sign and ASCII digits; its acceptance of `_` separators and non-ASCII digits is not, and neither is its refusal of U+001C to U+001F around the digits.
- `Text.ParseIntToString`: holds for integers of every size. CPython 3.11 and later (and security releases of earlier versions) by default refuse `str()` and `int()` conversions of more than 4300 decimal digits with ValueError. So in the source, writing such a score (file_system.py:25) or reading it back (line 19) fails, and `Files.LoadSerialized` and `Files.SaveHighScorePersists` hold only for scores below that size.
- The default arguments of `add_process` (burst time 6, 4 pages) are not modelled: `Scheduling.AddProcess` takes both explicitly.
- Text-mode newline translation of `\r` and `\r\n` is not modelled: lines split at `\n` only. For that reason the round-trip lemmas (`Files.LoadSerialized`, `Files.SaveHighScorePersists`) only cover names without `\r`.
- `Memory.Deallocate`: requires the pid to have a page table, because `del` raises KeyError otherwise.
- `Memory.Translate`: requires a positive page size. A zero page size raises ZeroDivisionError. A negative page size is never used (the console uses 1024).
- `Scheduling.Step`: requires a positive page size (the translation probe divides by it).
- `Scheduling.Step`: requires a non-negative quantum. With a negative quantum, `time.sleep` (process_management.py:65) raises ValueError in the first iteration, after the block has left the queue and its threads have started; that error path is not modelled.
- `Scheduling.Step`: requires every queued pid to have a page table and a thread manager (`Scheduling.Admitted`). The source only looks up the selected block's thread manager (process_management.py:64) and, on termination, its page table (line 80). Every state the scheduler reaches through `NewScheduler`, `AddProcess` and `Step` meets the requirement (`Scheduling.NewSchedulerInvariant`, `Scheduling.AddProcessKeepsInvariant` and `Scheduling.StepKeepsInvariant` keep `Scheduling.Invariant`, which implies it by `Scheduling.InvariantAdmitted`).
- `Scheduling.Run`: requires a positive quantum. With a quantum of zero, a block with positive burst time never finishes, so the source loops forever; a negative quantum fails in the first iteration, as above.
- `Memory.AllocatePreservesValid`: requires the pid to have no page table. Reallocating for a resident pid overwrites its table and loses its pages. The scheduler never does that, because pids are fresh.
- `pages_needed` is a natural number. A negative count would slice the free list from its end, and callers never pass one.
- Burst times and the quantum are integers. The source would also accept floats.
- main.py (menu and input parsing), utils.py and bonus_features.py (console decoration, timestamps, log files, animations) are not modelled.
- The program has no operation that removes a single process or clears the queue outside the run loop.
