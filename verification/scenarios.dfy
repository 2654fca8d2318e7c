/** Concrete runs of the model with the configuration the console starts
    with: 16 pages of 1024 addresses and a quantum of 2. */
module Scenarios {
  import opened Results
  import opened Seqs
  import opened Pcb
  import opened Memory
  import opened Files
  import opened Scheduling

  function Boot(fs: FileSystem): Scheduler
  {
    NewScheduler(2, Init(16, 1024), fs)
  }

  /** Three four-page games fit and leave four pages; a fourth game asking
      for eight pages is refused, leaving everything as it was except that
      its pid is used up. */
  lemma AdmissionUnderScarcity(fs: FileSystem)
    ensures var s3 := AddProcess(AddProcess(AddProcess(Boot(fs), "Snake", 6, 4), "Tetris", 6, 4), "Pong", 6, 4);
      && |s3.readyQueue| == 3 && |s3.mm.freePages| == 4
      && var s4 := AddProcess(s3, "Snake", 6, 8);
      && s4 == s3.(nextPid := 5)
      && |s4.mm.freePages| == 4
  {
  }

  /** The first game admitted gets pages [0, 1, 2, 3]; virtual address 1500
      is page 1, offset 476, and so physical address 1 * 1024 + 476 = 1500. */
  lemma TranslationOfFirstGame(fs: FileSystem)
    ensures var s := AddProcess(Boot(fs), "Snake", 6, 4);
      && s.readyQueue[0].pages == [0, 1, 2, 3]
      && Translate(s.mm, 1, 1500) == Translated(1500, 1, 476)
  {
    var s := AddProcess(Boot(fs), "Snake", 6, 4);
    var free := Range(16);
    assert s.readyQueue[0].pages == free[..4];
  }

  /** Booting and admitting a game with burst time 5 gives a consistent
      scheduler holding that one game, which has not run yet. */
  lemma SnakeAdmitted(fs: FileSystem)
    ensures var s := AddProcess(Boot(fs), "Snake", 5, 4);
      && Invariant(s) && s.timeQuantum == 2 && s.mm.pageSize == 1024
      && |s.readyQueue| == 1 && s.readyQueue[0].name == "Snake"
      && s.readyQueue[0].burstTime == 5 && s.readyQueue[0].totalRuntime == 0
  {
    NewSchedulerInvariant(2, 16, 1024, fs);
    AddProcessKeepsInvariant(Boot(fs), "Snake", 5, 4);
  }

  /** A game with burst time 5 alone in the queue under a quantum of 2: after
      one quantum it has 3 left, has run 2, and is back in the queue; the
      third quantum ends it, releasing its pages, its thread manager and its
      record, and leaves its score in the high-score table. */
  lemma QuantumLifecycle(s: Scheduler, g1: nat, g2: nat, g3: nat)
    requires Invariant(s) && s.timeQuantum == 2 && s.mm.pageSize > 0
    requires |s.readyQueue| == 1 && s.readyQueue[0].burstTime == 5 && s.readyQueue[0].totalRuntime == 0
    requires g1 <= 2 && g2 <= 2 && g3 <= 2
    ensures Admitted(s) && Step(s, g1).ran.burstTime == 3 && Step(s, g1).ran.totalRuntime == 2
    ensures Admitted(s) && Step(s, g1).ran.state == Ready && Step(s, g1).sched.readyQueue == [Step(s, g1).ran]
    ensures Admitted(s) && var s1 := Step(s, g1).sched;
      && Admitted(s1) && Step(s1, g2).ran.burstTime == 1 && Step(s1, g2).ran.state == Ready
      && var s2 := Step(s1, g2).sched;
      && Admitted(s2) && var last := Step(s2, g3);
      && last.ran.state == Terminated && last.ran.burstTime == -1 && last.ran.totalRuntime == 6
      && last.sched.readyQueue == [] && last.sched.mm.pageTables == map[]
      && last.ran.pages == [] && last.sched.mm.freePages == Range(s.mm.totalPages)
      && last.sched.threadManagers == {}
      && ReadFile(last.sched.fs, RecordName(s.readyQueue[0].name)) == None
      && Lookup(last.sched.fs.highScores, s.readyQueue[0].name) == Some(
           match Lookup(s.fs.highScores, s.readyQueue[0].name)
           case None => last.ran.score
           case Some(prev) => if last.ran.score > prev then last.ran.score else prev)
  {
    InvariantAdmitted(s);
    StepKeepsInvariant(s, g1);
    var s1 := Step(s, g1).sched;
    InvariantAdmitted(s1);
    StepKeepsInvariant(s1, g2);
    var s2 := Step(s1, g2).sched;
    InvariantAdmitted(s2);
    StepKeepsInvariant(s2, g3);
    var last := Step(s2, g3);
    assert last.sched.mm.pageTables.Keys == {};
    assert Allocated(last.sched.mm.pageTables) == {};
    AscendingCoverIsRange(last.sched.mm.freePages, last.sched.mm.totalPages);
  }
}
