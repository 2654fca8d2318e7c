/** The scheduler: admission of processes into the ready queue, and the run
    loop that repeatedly gives one quantum to the ready process that has run
    least, until every process has terminated. */
module Scheduling {
  import opened Results
  import opened Seqs
  import opened Text
  import opened Pcb
  import opened Memory
  import opened Files

  /** The scheduler's state. `threadManagers` holds the pids that own a
      worker-thread manager; the managers themselves are not modelled. */
  datatype Scheduler = Scheduler(
    readyQueue: seq<PCB>,
    timeQuantum: int,
    mm: MemoryManager,
    fs: FileSystem,
    threadManagers: set<int>,
    nextPid: int)

  /** The constructor: an empty queue, no thread managers, pids from 1, and
      the given quantum, memory manager and file system. */
  function NewScheduler(timeQuantum: int, mm: MemoryManager, fs: FileSystem): (s: Scheduler)
    ensures s.readyQueue == [] && s.threadManagers == {} && s.nextPid == 1
    ensures s.timeQuantum == timeQuantum && s.mm == mm && s.fs == fs
  {
    Scheduler([], timeQuantum, mm, fs, {}, 1)
  }

  /** The per-process record file: the name with its capitals lowered,
      followed by `.txt`. */
  function RecordName(name: string): (r: string)
    ensures |r| == |name| + 4 && r[|name|..] == ".txt"
    ensures forall i | 0 <= i < |name| :: r[i] == name[i] || ('A' <= name[i] <= 'Z' && r[i] as int == name[i] as int + 32)
    ensures forall i | 0 <= i < |name| :: !('A' <= r[i] <= 'Z')
  {
    Lower(name) + ".txt"
  }

  /** Two processes share a record file exactly when their names agree once
      lowered, so "Snake" and "SNAKE" write to the same file. */
  lemma RecordNameShared(a: string, b: string)
    ensures RecordName(a) == RecordName(b) <==> Lower(a) == Lower(b)
  {
    if RecordName(a) == RecordName(b) {
      assert Lower(a) == RecordName(a)[..|a|];
      assert Lower(b) == RecordName(b)[..|b|];
    }
  }

  /** The record written on admission (the score of a fresh block is 0). */
  const InitialRecord: string := "Initial score: 0"

  /** The record written after every quantum. */
  function ScoreRecord(score: int): string
  {
    "Score: " + IntToString(score)
  }

  /** The virtual address the run loop translates for every running process. */
  const ProbeAddress: int := 1500

  /** The pids of a queue. */
  ghost function Pids(q: seq<PCB>): set<int>
  {
    set i | 0 <= i < |q| :: q[i].pid
  }

  /** No two queued blocks share a pid. */
  ghost predicate DistinctPids(q: seq<PCB>)
  {
    forall i, j | 0 <= i < j < |q| :: q[i].pid != q[j].pid
  }

  /** A queued block: ready, given a pid already handed out, and resident,
      its page list being its page table and of the requested length. */
  ghost predicate Resident(s: Scheduler, p: PCB)
  {
    && p.state == Ready
    && p.pid < s.nextPid
    && p.pid in s.mm.pageTables
    && s.mm.pageTables[p.pid] == p.pages
    && |p.pages| == p.pagesNeeded
  }

  /** What holds between admissions and quanta: the memory manager's own
      invariant; every queued block resident, with a distinct pid; and the
      page tables and thread managers belonging to exactly the queued pids. */
  ghost predicate Invariant(s: Scheduler)
  {
    && Memory.Valid(s.mm)
    && DistinctPids(s.readyQueue)
    && (forall i | 0 <= i < |s.readyQueue| :: Resident(s, s.readyQueue[i]))
    && s.mm.pageTables.Keys == Pids(s.readyQueue)
    && s.threadManagers == Pids(s.readyQueue)
  }

  /** What the run loop looks up for every queued block: its page table
      (deallocation raises KeyError without one) and its thread manager. */
  ghost predicate Admitted(s: Scheduler)
  {
    forall i | 0 <= i < |s.readyQueue| ::
      s.readyQueue[i].pid in s.mm.pageTables && s.readyQueue[i].pid in s.threadManagers
  }

  lemma InvariantAdmitted(s: Scheduler)
    requires Invariant(s)
    ensures Admitted(s)
  {
    forall i | 0 <= i < |s.readyQueue| ensures s.readyQueue[i].pid in s.threadManagers {
      assert s.readyQueue[i].pid in Pids(s.readyQueue);
    }
  }

  /** A scheduler over a fresh memory manager starts out consistent. */
  lemma NewSchedulerInvariant(timeQuantum: int, totalPages: nat, pageSize: int, fs: FileSystem)
    ensures Invariant(NewScheduler(timeQuantum, Init(totalPages, pageSize), fs))
  {
  }

  /** `add_process`: the next pid is consumed whatever happens; the block is
      queued, given a thread manager and a record file only if memory for it
      is granted, and otherwise discarded. */
  function AddProcess(s: Scheduler, name: string, burstTime: int, pagesNeeded: nat): (r: Scheduler)
    ensures r.nextPid == s.nextPid + 1
    ensures |s.mm.freePages| < pagesNeeded ==> r == s.(nextPid := s.nextPid + 1)
    ensures |s.mm.freePages| >= pagesNeeded ==>
      && |r.readyQueue| == |s.readyQueue| + 1
      && r.readyQueue[..|s.readyQueue|] == s.readyQueue
      && var p := r.readyQueue[|s.readyQueue|];
      && p == PCB(s.nextPid, name, Ready, burstTime, 0, s.mm.freePages[..pagesNeeded], pagesNeeded, 0)
      && r.mm.freePages == s.mm.freePages[pagesNeeded..]
      && r.mm.pageTables == s.mm.pageTables[p.pid := p.pages]
      && r.threadManagers == s.threadManagers + {p.pid}
      && ReadFile(r.fs, RecordName(name)) == Some(InitialRecord)
      && (forall q | q != RecordName(name) :: ReadFile(r.fs, q) == ReadFile(s.fs, q))
    ensures r.timeQuantum == s.timeQuantum
    ensures r.mm.totalPages == s.mm.totalPages && r.mm.pageSize == s.mm.pageSize
    ensures r.fs.highScores == s.fs.highScores
  {
    var pcb := NewPcb(s.nextPid, name, burstTime, pagesNeeded);
    var s1 := s.(nextPid := s.nextPid + 1);
    var a := Allocate(s.mm, pcb);
    if a.granted then
      s1.(readyQueue := s.readyQueue + [a.pcb],
          mm := a.mm,
          threadManagers := s.threadManagers + {pcb.pid},
          fs := CreateFile(s.fs, RecordName(name), InitialRecord))
    else
      s1
  }

  /** Admission keeps the scheduler consistent; in particular the new pid is
      fresh, so allocation never overwrites another process's page table. */
  lemma AddProcessKeepsInvariant(s: Scheduler, name: string, burstTime: int, pagesNeeded: nat)
    requires Invariant(s)
    ensures Invariant(AddProcess(s, name, burstTime, pagesNeeded))
  {
    var r := AddProcess(s, name, burstTime, pagesNeeded);
    var pcb := NewPcb(s.nextPid, name, burstTime, pagesNeeded);
    assert pcb.pid !in s.mm.pageTables by {
      forall i | 0 <= i < |s.readyQueue| ensures s.readyQueue[i].pid != pcb.pid {
        assert Resident(s, s.readyQueue[i]);
      }
    }
    AllocatePreservesValid(s.mm, pcb);
    if |s.mm.freePages| >= pagesNeeded {
      var q := r.readyQueue;
      var n := |s.readyQueue|;
      assert q == s.readyQueue + [q[n]];
      forall i | 0 <= i < |q| ensures Resident(r, q[i]) {
        if i < n {
          assert Resident(s, s.readyQueue[i]);
        }
      }
      forall i, j | 0 <= i < j < |q| ensures q[i].pid != q[j].pid {
        if j == n {
          assert Resident(s, s.readyQueue[i]);
        }
      }
      PidsAppend(s.readyQueue, q[n]);
    }
  }

  lemma PidsAppend(q: seq<PCB>, p: PCB)
    ensures Pids(q + [p]) == Pids(q) + {p.pid}
  {
    var q' := q + [p];
    forall x | x in Pids(q') ensures x in Pids(q) + {p.pid} {
      var i :| 0 <= i < |q'| && q'[i].pid == x;
      if i < |q| {
        assert q[i] == q'[i];
      }
    }
    forall x | x in Pids(q) ensures x in Pids(q') {
      var i :| 0 <= i < |q| && q[i].pid == x;
      assert q'[i] == q[i];
    }
    assert q'[|q|] == p;
  }

  /** `min(ready_queue, key=total_runtime)`: the position of a block with the
      least total runtime, the earliest such one in queue order. */
  function MinIndex(q: seq<PCB>): (i: nat)
    requires q != []
    ensures i < |q|
    ensures forall j | 0 <= j < |q| :: q[i].totalRuntime <= q[j].totalRuntime
    ensures forall j | 0 <= j < i :: q[i].totalRuntime < q[j].totalRuntime
  {
    if |q| == 1 then 0
    else
      var k := MinIndex(q[..|q| - 1]);
      assert forall j | 0 <= j < |q| - 1 :: q[..|q| - 1][j] == q[j];
      if q[|q| - 1].totalRuntime < q[k].totalRuntime then |q| - 1 else k
  }

  /** The selection rule has one answer: a position whose runtime is minimal
      and strictly below every earlier one is MinIndex. */
  lemma MinIndexUnique(q: seq<PCB>, i: nat)
    requires i < |q|
    requires forall j | 0 <= j < |q| :: q[i].totalRuntime <= q[j].totalRuntime
    requires forall j | 0 <= j < i :: q[i].totalRuntime < q[j].totalRuntime
    ensures MinIndex(q) == i
  {
    var m := MinIndex(q);
    assert q[m].totalRuntime <= q[i].totalRuntime && q[i].totalRuntime <= q[m].totalRuntime;
    assert !(m < i) && !(i < m);
  }

  /** Ties go to queue order, not to the lower pid: of two blocks that have
      run equally long, the one queued first runs even if its pid is higher. */
  lemma TieBreakByQueueOrder(a: PCB, b: PCB)
    requires a.totalRuntime == b.totalRuntime && a.pid > b.pid
    ensures MinIndex([a, b]) == 0
  {
    MinIndexUnique([a, b], 0);
  }

  /** The quanta a block still needs: it runs at least once, and then until
      its remaining burst time is used up, that is max(1, ceil(burst / quantum)). */
  function Quanta(p: PCB, tq: int): nat
    requires tq > 0
  {
    if p.burstTime <= tq then 1 else (p.burstTime + tq - 1) / tq
  }

  /** The quanta the whole queue still needs. */
  function Work(q: seq<PCB>, tq: int): nat
    requires tq > 0
  {
    if q == [] then 0 else Quanta(q[0], tq) + Work(q[1..], tq)
  }

  lemma {:induction false} WorkAppend(a: seq<PCB>, b: seq<PCB>, tq: int)
    requires tq > 0
    ensures Work(a + b, tq) == Work(a, tq) + Work(b, tq)
  {
    if a != [] {
      assert (a + b)[1..] == a[1..] + b;
      WorkAppend(a[1..], b, tq);
    } else {
      assert a + b == b;
    }
  }

  /** A quantum that leaves burst time over takes exactly one quantum off
      what the block still needs. */
  lemma QuantaStep(p: PCB, tq: int)
    requires tq > 0 && p.burstTime > tq
    ensures Quanta(p.(burstTime := p.burstTime - tq), tq) == Quanta(p, tq) - 1
  {
    var x := p.burstTime - 1;
    DivMulAdd(x / tq + 1, tq, x % tq);
    assert x + tq == (x / tq + 1) * tq + x % tq;
    if p.burstTime - tq <= tq {
      DivMulAdd(1, tq, x - tq);
    }
  }

  /** The outcome of one iteration of the run loop: the scheduler after it,
      the queue position that was chosen, the block after its quantum, and the
      result of the translation probe made while it ran. */
  datatype Quantum = Quantum(sched: Scheduler, index: nat, ran: PCB, probe: Translation)

  /** One iteration of `run`. The worker threads that run during the quantum
      appear only through `gain`, the points they scored: the consumer takes
      at most two inputs, each worth one point. The probe divides by the page
      size, which therefore must not be zero. */
  function Step(s: Scheduler, gain: nat): (r: Quantum)
    requires Admitted(s) && s.readyQueue != []
    requires s.mm.pageSize > 0 && s.timeQuantum >= 0
    requires gain <= 2
    ensures r.index == MinIndex(s.readyQueue)
    ensures var p := s.readyQueue[r.index];
      && r.ran.pid == p.pid && r.ran.name == p.name && r.ran.pagesNeeded == p.pagesNeeded
      && r.ran.burstTime == p.burstTime - s.timeQuantum
      && r.ran.totalRuntime == p.totalRuntime + s.timeQuantum
      && r.ran.score == p.score + gain
      && r.probe != NoPageTable && r.probe != IndexOutOfRange
    ensures var q := s.readyQueue; var i := r.index;
      r.ran.burstTime > 0 ==>
        && r.ran.state == Ready && r.ran.pages == q[i].pages
        && r.sched.readyQueue == q[..i] + q[i + 1..] + [r.ran]
        && r.sched.mm == s.mm && r.sched.threadManagers == s.threadManagers
        && r.sched.fs.highScores == s.fs.highScores
        && ReadFile(r.sched.fs, RecordName(r.ran.name))
           == (if RecordName(r.ran.name) in s.fs.disk then Some(ScoreRecord(r.ran.score)) else None)
        && forall f | f != RecordName(r.ran.name) :: ReadFile(r.sched.fs, f) == ReadFile(s.fs, f)
    ensures var q := s.readyQueue; var i := r.index;
      r.ran.burstTime <= 0 ==>
        && r.ran.state == Terminated && r.ran.pages == []
        && r.sched.readyQueue == q[..i] + q[i + 1..]
        && r.sched.mm.pageTables == s.mm.pageTables - {r.ran.pid}
        && Sorted(r.sched.mm.freePages)
        && multiset(r.sched.mm.freePages) == multiset(s.mm.freePages) + multiset(q[i].pages)
        && r.sched.threadManagers == s.threadManagers - {r.ran.pid}
        && ReadFile(r.sched.fs, RecordName(r.ran.name)) == None
    ensures var name, score := r.ran.name, r.ran.score;
      r.ran.burstTime <= 0 ==>
        && Lookup(r.sched.fs.highScores, name) == Some(
             match Lookup(s.fs.highScores, name)
             case None => score
             case Some(prev) => if score > prev then score else prev)
        && (forall k | k != name :: Lookup(r.sched.fs.highScores, k) == Lookup(s.fs.highScores, k))
        && (forall f | f != RecordName(name) && f != HighScoresFile :: ReadFile(r.sched.fs, f) == ReadFile(s.fs, f))
        && r.sched.fs.highScores
           == (if Improves(s.fs.highScores, name, score) then Put(s.fs.highScores, name, score) else s.fs.highScores)
        && (RecordName(name) != HighScoresFile && Improves(s.fs.highScores, name, score) ==>
              ReadFile(r.sched.fs, HighScoresFile) == Some(Serialize(r.sched.fs.highScores)))
        && (RecordName(name) != HighScoresFile && !Improves(s.fs.highScores, name, score) ==>
              ReadFile(r.sched.fs, HighScoresFile) == ReadFile(s.fs, HighScoresFile))
    ensures r.sched.nextPid == s.nextPid && r.sched.timeQuantum == s.timeQuantum
    ensures r.sched.mm.totalPages == s.mm.totalPages && r.sched.mm.pageSize == s.mm.pageSize
  {
    var q := s.readyQueue;
    var i := MinIndex(q);
    var p := q[i];
    var probe := Translate(s.mm, p.pid, ProbeAddress);
    DivSign(ProbeAddress, s.mm.pageSize);
    var p1 := p.(state := Running,
                 score := p.score + gain,
                 burstTime := p.burstTime - s.timeQuantum,
                 totalRuntime := p.totalRuntime + s.timeQuantum);
    var fs1 := WriteFile(s.fs, RecordName(p.name), ScoreRecord(p1.score));
    var rest := q[..i] + q[i + 1..];
    if p1.burstTime > 0 then
      var p2 := p1.(state := Ready);
      Quantum(s.(readyQueue := rest + [p2], fs := fs1), i, p2, probe)
    else
      var fs2 := SaveHighScore(fs1, p.name, p1.score);
      var (mm2, p2) := Deallocate(s.mm, p1.(state := Terminated));
      var fs3 := DeleteFile(fs2, RecordName(p.name));
      Quantum(s.(readyQueue := rest, mm := mm2, threadManagers := s.threadManagers - {p.pid}, fs := fs3),
              i, p2, probe)
  }

  /** Taking one block out of a queue with distinct pids removes exactly its
      pid and its quanta, and keeps the rest in order. */
  lemma RemoveAt(q: seq<PCB>, i: nat, tq: int)
    requires i < |q| && DistinctPids(q) && tq > 0
    ensures var rest := q[..i] + q[i + 1..];
      && |rest| == |q| - 1
      && (forall j | 0 <= j < |rest| :: rest[j] == q[if j < i then j else j + 1])
      && DistinctPids(rest)
      && Pids(rest) == Pids(q) - {q[i].pid}
      && Work(q, tq) == Work(rest, tq) + Quanta(q[i], tq)
  {
    var rest := q[..i] + q[i + 1..];
    assert forall j | 0 <= j < |rest| :: rest[j] == q[if j < i then j else j + 1];
    RemoveAtWork(q, i, tq);
    RemoveAtPids(q, i, rest);
  }

  lemma RemoveAtWork(q: seq<PCB>, i: nat, tq: int)
    requires i < |q| && tq > 0
    ensures Work(q, tq) == Work(q[..i] + q[i + 1..], tq) + Quanta(q[i], tq)
  {
    assert q == q[..i] + [q[i]] + q[i + 1..];
    WorkAppend(q[..i] + [q[i]], q[i + 1..], tq);
    WorkAppend(q[..i], [q[i]], tq);
    WorkAppend(q[..i], q[i + 1..], tq);
    assert Work([q[i]], tq) == Quanta(q[i], tq);
  }

  lemma RemoveAtPids(q: seq<PCB>, i: nat, rest: seq<PCB>)
    requires i < |q| && DistinctPids(q)
    requires |rest| == |q| - 1
    requires forall j | 0 <= j < |rest| :: rest[j] == q[if j < i then j else j + 1]
    ensures DistinctPids(rest)
    ensures Pids(rest) == Pids(q) - {q[i].pid}
  {
    forall a, b | 0 <= a < b < |rest| ensures rest[a].pid != rest[b].pid {
      assert rest[a] == q[if a < i then a else a + 1];
      assert rest[b] == q[if b < i then b else b + 1];
    }
    forall x | x in Pids(q) - {q[i].pid} ensures x in Pids(rest) {
      var k :| 0 <= k < |q| && q[k].pid == x;
      var k' := if k < i then k else k - 1;
      assert rest[k'] == q[k];
    }
    forall x | x in Pids(rest) ensures x in Pids(q) - {q[i].pid} {
      var k :| 0 <= k < |rest| && rest[k].pid == x;
      assert rest[k] == q[if k < i then k else k + 1];
    }
  }

  /** The queue without the chosen block is resident in the old state and
      holds pids other than the chosen one. */
  lemma RestResident(s: Scheduler, i: nat)
    requires Invariant(s) && i < |s.readyQueue|
    ensures var q := s.readyQueue; var rest := q[..i] + q[i + 1..];
      forall j | 0 <= j < |rest| :: rest[j].pid != q[i].pid && Resident(s, rest[j])
  {
    var q := s.readyQueue;
    var rest := q[..i] + q[i + 1..];
    RemoveAt(q, i, 1);
    forall j | 0 <= j < |rest| ensures rest[j].pid != q[i].pid && Resident(s, rest[j]) {
      var k := if j < i then j else j + 1;
      assert rest[j] == q[k];
      assert Resident(s, q[k]);
    }
  }

  /** Every iteration keeps the scheduler consistent. */
  lemma StepKeepsInvariant(s: Scheduler, gain: nat)
    requires Invariant(s) && s.readyQueue != [] && s.mm.pageSize > 0 && s.timeQuantum >= 0 && gain <= 2
    ensures Admitted(s)
    ensures Invariant(Step(s, gain).sched)
  {
    InvariantAdmitted(s);
    var r := Step(s, gain);
    if r.ran.burstTime > 0 {
      RequeueKeepsInvariant(s, gain);
    } else {
      TerminateKeepsInvariant(s, gain);
    }
  }

  lemma RequeueKeepsInvariant(s: Scheduler, gain: nat)
    requires Invariant(s) && s.readyQueue != [] && s.mm.pageSize > 0 && s.timeQuantum >= 0 && gain <= 2
    requires Admitted(s)
    requires Step(s, gain).ran.burstTime > 0
    ensures Invariant(Step(s, gain).sched)
  {
    var r := Step(s, gain);
    RequeueInvariant(s, r.index, r.ran, r.sched);
  }

  /** Moving a queued block, with its pid and pages, to the end of the queue
      keeps the invariant. */
  lemma RequeueInvariant(s: Scheduler, i: nat, p: PCB, s2: Scheduler)
    requires Invariant(s) && i < |s.readyQueue|
    requires var prev := s.readyQueue[i];
      && p.pid == prev.pid && p.pages == prev.pages && p.pagesNeeded == prev.pagesNeeded
      && p.state == Ready
    requires s2.mm == s.mm && s2.threadManagers == s.threadManagers && s2.nextPid == s.nextPid
    requires s2.readyQueue == s.readyQueue[..i] + s.readyQueue[i + 1..] + [p]
    ensures Invariant(s2)
  {
    var q := s.readyQueue;
    var rest := q[..i] + q[i + 1..];
    assert Resident(s, q[i]);
    RemoveAt(q, i, 1);
    RestResident(s, i);
    PidsAppend(rest, p);
    AppendResident(s, rest, p);
  }

  /** Appending a resident block whose pid is new keeps a resident queue
      with distinct pids. */
  lemma AppendResident(s: Scheduler, rest: seq<PCB>, p: PCB)
    requires DistinctPids(rest) && Resident(s, p)
    requires forall j | 0 <= j < |rest| :: rest[j].pid != p.pid && Resident(s, rest[j])
    ensures DistinctPids(rest + [p])
    ensures forall j | 0 <= j < |rest| + 1 :: Resident(s, (rest + [p])[j])
  {
    var q2 := rest + [p];
    forall a, b | 0 <= a < b < |q2| ensures q2[a].pid != q2[b].pid {
      assert q2[a] == rest[a];
      if b < |rest| {
        assert q2[b] == rest[b];
      }
    }
    forall j | 0 <= j < |q2| ensures Resident(s, q2[j]) {
      if j < |rest| {
        assert q2[j] == rest[j];
      }
    }
  }

  lemma TerminateKeepsInvariant(s: Scheduler, gain: nat)
    requires Invariant(s) && s.readyQueue != [] && s.mm.pageSize > 0 && s.timeQuantum >= 0 && gain <= 2
    requires Admitted(s)
    requires Step(s, gain).ran.burstTime <= 0
    ensures Invariant(Step(s, gain).sched)
  {
    var r := Step(s, gain);
    var q := s.readyQueue;
    var i := r.index;
    var p := q[i];
    var rest := q[..i] + q[i + 1..];
    assert Resident(s, p);
    RemoveAt(q, i, 1);
    RestResident(s, i);
    var p1 := p.(state := Terminated, score := p.score + gain,
                 burstTime := p.burstTime - s.timeQuantum,
                 totalRuntime := p.totalRuntime + s.timeQuantum);
    assert r.sched.mm == Deallocate(s.mm, p1).0;
    DeallocatePreservesValid(s.mm, p1);
    forall j | 0 <= j < |rest| ensures Resident(r.sched, rest[j]) {
      assert Resident(s, rest[j]);
    }
  }

  /** Every iteration uses up exactly one of the quanta the queue needs. */
  lemma StepWork(s: Scheduler, gain: nat)
    requires Admitted(s) && s.readyQueue != [] && s.mm.pageSize > 0 && gain <= 2
    requires DistinctPids(s.readyQueue) && s.timeQuantum > 0
    ensures Work(Step(s, gain).sched.readyQueue, s.timeQuantum) == Work(s.readyQueue, s.timeQuantum) - 1
  {
    var r := Step(s, gain);
    var q := s.readyQueue;
    var i := r.index;
    assert i < |q| && r.ran.burstTime == q[i].burstTime - s.timeQuantum;
    QueueWork(q, i, r.ran, s.timeQuantum, r.sched.readyQueue);
  }

  /** The queue after one iteration, re-queued or not, needs one quantum
      less than before. */
  lemma QueueWork(q: seq<PCB>, i: nat, p: PCB, tq: int, q2: seq<PCB>)
    requires tq > 0 && i < |q| && p.burstTime == q[i].burstTime - tq
    requires p.burstTime > 0 ==> q2 == q[..i] + q[i + 1..] + [p]
    requires p.burstTime <= 0 ==> q2 == q[..i] + q[i + 1..]
    ensures Work(q2, tq) == Work(q, tq) - 1
  {
    RemoveAtWork(q, i, tq);
    if p.burstTime > 0 {
      RequeueWork(q, i, p, tq);
    }
  }

  /** Putting a block back at the end of the queue with one quantum's less
      burst time leaves one quantum less to run. */
  lemma RequeueWork(q: seq<PCB>, i: nat, p: PCB, tq: int)
    requires tq > 0 && i < |q|
    requires p.burstTime == q[i].burstTime - tq > 0
    ensures Work(q[..i] + q[i + 1..] + [p], tq) == Work(q, tq) - 1
  {
    var rest := q[..i] + q[i + 1..];
    RemoveAtWork(q, i, tq);
    WorkAppend(rest, [p], tq);
    assert Work([p], tq) == Quanta(p, tq);
    QuantaStep(q[i], tq);
    assert Quanta(p, tq) == Quanta(q[i].(burstTime := p.burstTime), tq);
  }

  /** `run`: give quanta until the ready queue is empty. `gains(k)` stands for
      the points the worker threads score during the k-th quantum. The loop
      runs exactly as many quanta as the queue needed, and afterwards every
      process has terminated, every page is free again in ascending order, and
      no page table or thread manager is left. */
  method Run(s: Scheduler, gains: nat -> nat) returns (r: Scheduler, quanta: nat)
    requires Invariant(s) && s.timeQuantum > 0 && s.mm.pageSize > 0
    requires forall k :: gains(k) <= 2
    ensures r.readyQueue == [] && Invariant(r)
    ensures quanta == Work(s.readyQueue, s.timeQuantum)
    ensures r.mm.pageTables == map[] && r.threadManagers == {}
    ensures r.mm.freePages == Range(s.mm.totalPages)
    ensures r.nextPid == s.nextPid && r.timeQuantum == s.timeQuantum
  {
    r := s;
    quanta := 0;
    while r.readyQueue != []
      invariant Invariant(r)
      invariant r.timeQuantum == s.timeQuantum && r.nextPid == s.nextPid
      invariant r.mm.pageSize == s.mm.pageSize && r.mm.totalPages == s.mm.totalPages
      invariant quanta + Work(r.readyQueue, s.timeQuantum) == Work(s.readyQueue, s.timeQuantum)
      decreases Work(r.readyQueue, s.timeQuantum)
    {
      StepKeepsInvariant(r, gains(quanta));
      StepWork(r, gains(quanta));
      var step := Step(r, gains(quanta));
      r := step.sched;
      quanta := quanta + 1;
    }
    assert r.mm.pageTables.Keys == {};
    assert Allocated(r.mm.pageTables) == {};
    AscendingCoverIsRange(r.mm.freePages, r.mm.totalPages);
  }
}
