/** The process control block of the simulated OS. */
module Pcb {

  datatype State = Ready | Running | Terminated

  /** One process. `pages` is the list the memory manager also stores as the
      process's page table; the input queue, score lock and thread handles
      exist only for the worker threads and are not part of the model. */
  datatype PCB = PCB(
    pid: int,
    name: string,
    state: State,
    burstTime: int,
    totalRuntime: int,
    pages: seq<int>,
    pagesNeeded: nat,
    score: int)

  /** A fresh block: ready, never run, holding no pages, scoring nothing. */
  ghost predicate IsFresh(p: PCB)
  {
    p.state == Ready && p.totalRuntime == 0 && p.pages == [] && p.score == 0
  }

  /** The constructor of the PCB class. */
  function NewPcb(pid: int, name: string, burstTime: int, pagesNeeded: nat): (p: PCB)
    ensures IsFresh(p)
    ensures p.pid == pid && p.name == name && p.burstTime == burstTime && p.pagesNeeded == pagesNeeded
  {
    PCB(pid, name, Ready, burstTime, 0, [], pagesNeeded, 0)
  }
}
