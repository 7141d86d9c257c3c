/**
  The code that takes the steps of module Registry: the enclave's map of contexts, and one
  generation task that runs through them in the host's order.
 */
module Enclave {
  import opened Bytes
  import opened Registry

  /** What the environment decides during one generation task. */
  datatype Outcome = Outcome(keysMade: bool, meta: Option<Hash>, replyBuilt: bool, replyDelivered: bool,
                             targetFound: bool, reportMade: bool, posted: bool)

  /** What it reads from the clock when it clears the list, starts, has its keys and ends. */
  datatype Clock = Clock(cleared: int, started: int, generated: int, finished: int)

  /**
    `heap` holds the contexts by address, so that a pointer that outlives its context can be told;
    the address of a context is the number of the task that allocates it.
   */
  class KeyContextList {
    var contexts: map<Hash, TaskId>
    var heap: map<TaskId, Context>
    ghost var tasks: map<TaskId, Task>

    constructor ()
      ensures View() == INITIAL
    {
      contexts, heap, tasks := map[], map[], map[];
    }

    ghost function View(): State
      reads this
    {
      State(contexts, heap, tasks)
    }

    // ---------- the critical sections

    /** One entry of the iteration below: frees its context and erases it if it has expired. */
    method VisitEntry(h: Hash, now: int, duration: int)
      requires h in contexts && contexts[h] in heap
      modifies this`contexts, this`heap
      ensures var c := old(contexts[h]);
              if IsExpired(old(heap[c]), now, duration)
              then contexts == old(contexts) - {h} && heap == old(heap) - {c}
              else contexts == old(contexts) && heap == old(heap)
    {
      var c := contexts[h];
      if heap[c].status == Error || heap[c].status == Unknown {
        heap := heap - {c};
        contexts := contexts - {h};
      } else if heap[c].status == Finished && now - heap[c].finishedTime > duration {
        heap := heap - {c};
        contexts := contexts - {h};
      }
    }

    /** Erases while it iterates: no context is freed twice, and exactly the expired entries go. */
    method ClearContext(now: int, duration: int)
      requires forall h <- contexts :: contexts[h] in heap
      requires forall g <- contexts, h <- contexts :: contexts[g] == contexts[h] ==> g == h
      modifies this`contexts, this`heap
      ensures contexts == ClearedRegistry(old(contexts), old(heap), now, duration)
      ensures heap == ClearedHeap(old(contexts), old(heap), now, duration)
      ensures forall h <- old(contexts) ::
                var c := old(heap[contexts[h]]);
                h in contexts <==> c.status in {Generating, Reporting, Callback}
                                   || (c.status == Finished && now - c.finishedTime <= duration)
    {
      var rest := contexts.Keys;
      while rest != {}
        invariant Visited(old(contexts), old(heap), contexts, heap, rest, now, duration)
        decreases |rest|
      {
        hide Visited;
        var h :| h in rest;
        VisitIsOneMore(old(contexts), old(heap), contexts, heap, rest, h, now, duration);
        rest := rest - {h};
        VisitEntry(h, now, duration);
      }
      AllVisitedIsCleared(old(contexts), old(heap), contexts, heap, now, duration);
      forall h <- old(contexts)
        ensures h in contexts <==> !IsExpired(old(heap[contexts[h]]), now, duration)
      {
      }
    }

    /** `ecall_set_generation_status`, the task's last step. */
    method SetGenerationStatus(t: TaskId, hash: Hash, finished: bool, now: int) returns (found: bool)
      requires Enabled(View(), Post(t, finished, now)) && tasks[t].pc.hash == hash
      requires forall h <- contexts :: contexts[h] in heap
      modifies this`heap, this`tasks
      ensures found <==> hash in contexts
      ensures View() == Next(old(View()), Post(t, finished, now))
    {
      tasks := tasks[t := tasks[t].(pc := Done)];
      found := hash in contexts;
      if found {
        var c := contexts[hash];
        if finished {
          heap := heap[c := heap[c].(finishedTime := now)];
        }
        heap := heap[c := heap[c].(status := if finished then Finished else Error)];
      }
    }

    /** The first critical section of `ecall_create_report`. */
    method ReadKeyMetaHash(t: TaskId, hash: Hash) returns (keyMetaHash: Option<Hash>)
      requires Enabled(View(), ReportReads(t)) && tasks[t].key == hash
      requires forall h <- contexts :: contexts[h] in heap
      modifies this`tasks
      ensures keyMetaHash == if hash in contexts then Some(heap[contexts[hash]].keyMetaHash) else None
      ensures View() == Next(old(View()), ReportReads(t))
    {
      if hash !in contexts {
        tasks := tasks[t := tasks[t].(pc := Exits(hash))];
        return None;
      }
      keyMetaHash := Some(heap[contexts[hash]].keyMetaHash);
      tasks := tasks[t := tasks[t].(pc := ReadMeta(keyMetaHash.value))];
    }

    /** The second one; `at` throws when the entry has gone since the first. */
    method WriteReportStatus(t: TaskId, hash: Hash, made: bool) returns (thrown: bool)
      requires Enabled(View(), if made then ReportDone(t) else ReportFails(t)) && tasks[t].key == hash
      requires forall h <- contexts :: contexts[h] in heap
      modifies this`heap, this`tasks
      ensures thrown <==> hash !in contexts
      ensures View() == Next(old(View()), if made then ReportDone(t) else ReportFails(t))
    {
      thrown := hash !in contexts;
      if thrown {
        tasks := tasks[t := tasks[t].(pc := Done)];
        return;
      }
      var c := contexts[hash];
      heap := heap[c := heap[c].(status := if made then Callback else Error)];
      ghost var report := if made then Some(DigestOf(hash, tasks[t].pc.keyMetaHash)) else tasks[t].report;
      tasks := tasks[t := tasks[t].(pc := Exits(hash), report := report)];
    }

    // ---------- the steps of `GenerateTask::execute`

    method IsDuplicate(t: TaskId, key: Hash) returns (duplicate: bool)
      requires Enabled(View(), CheckDuplicate(t)) && tasks[t].key == key
      modifies this`tasks
      ensures duplicate <==> key in contexts
      ensures View() == Next(old(View()), CheckDuplicate(t))
    {
      duplicate := key in contexts;
      tasks := tasks[t := tasks[t].(pc := if duplicate then Exits([]) else Checked)];
    }

    /** `insert` leaves an entry that is already there alone. */
    method Insert(t: TaskId, key: Hash, now: int)
      requires Enabled(View(), InsertContext(t, now)) && tasks[t].key == key
      modifies this
      ensures View() == Next(old(View()), InsertContext(t, now))
    {
      heap := heap[t := Context(Unknown, 0, 0, 0, [])];
      heap := heap[t := heap[t].(status := Generating)];
      heap := heap[t := heap[t].(startTime := now)];
      if key !in contexts {
        contexts := contexts[key := t];
      }
      tasks := tasks[t := tasks[t].(pc := Generates)];
    }

    /** The error exits write through the held pointer; the context must still be there. */
    method WriteError(t: TaskId, ghost a: Action)
      requires a == GenerateKeyFails(t) || a == MetaHashFails(t) || a == ReplyFails(t)
      requires Enabled(View(), a) && t in heap
      modifies this`heap, this`tasks
      ensures View() == Next(old(View()), a)
    {
      heap := heap[t := heap[t].(status := Error)];
      tasks := tasks[t := tasks[t].(pc := if a.GenerateKeyFails? then Done else Exits([]))];
    }

    method WriteKeyMetaHash(t: TaskId, hash: Hash)
      requires Enabled(View(), WriteMeta(t, hash)) && t in heap
      modifies this`heap, this`tasks
      ensures View() == Next(old(View()), WriteMeta(t, hash))
    {
      heap := heap[t := heap[t].(keyMetaHash := hash)];
      tasks := tasks[t := tasks[t].(pc := HasMeta, meta := Some(hash))];
    }

    method WriteReporting(t: TaskId, now: int)
      requires Enabled(View(), ReplyDone(t, now)) && t in heap
      modifies this`heap, this`tasks
      ensures View() == Next(old(View()), ReplyDone(t, now))
    {
      heap := heap[t := heap[t].(status := Reporting)];
      heap := heap[t := heap[t].(generatedTime := now)];
      tasks := tasks[t := tasks[t].(pc := Returned)];
    }

    // ---------- one task from end to end, with no other task in between

    /**
      `execute`: `ok` is a return value of 0, `reply` the hash in the reply text. A failed key
      generation returns false, which is 0, with an empty reply.
     */
    method Execute(t: TaskId, key: Hash, o: Outcome, clock: Clock) returns (ok: bool, reply: Option<Hash>)
      requires Enabled(View(), CheckDuplicate(t)) && tasks[t] == Task(Arrived, key, None, None) && t !in heap
      modifies this
      ensures t in tasks && tasks == old(tasks)[t := tasks[t]]
      ensures tasks[t].key == key && tasks[t].report == None
      ensures key in old(contexts) ==> !ok && contexts == old(contexts) && heap == old(heap)
      ensures key !in old(contexts) ==>
                && contexts == old(contexts)[key := t] && heap == old(heap)[t := ExecutedContext(o, clock)]
                && ok == (!o.keysMade || (o.meta.Some? && o.replyBuilt))
      ensures reply == if key !in old(contexts) && IsGenerated(o) then Some(key) else None
      ensures tasks[t].pc == if reply.Some? then Returned else if ok then Done else Exits([])
      ensures reply.Some? ==> tasks[t].meta == o.meta
    {
      var duplicate := IsDuplicate(t, key);
      if duplicate {
        return false, None;
      }
      Insert(t, key, clock.started);
      ok, reply := Generate(t, key, o, clock);
    }

    /** From the insertion on, through the held pointer. */
    method Generate(t: TaskId, key: Hash, o: Outcome, clock: Clock) returns (ok: bool, reply: Option<Hash>)
      requires t in tasks && tasks[t] == Task(Generates, key, None, None)
      requires t in heap && heap[t] == Context(Generating, clock.started, 0, 0, [])
      modifies this`heap, this`tasks
      ensures heap == old(heap)[t := ExecutedContext(o, clock)]
      ensures ok == (!o.keysMade || (o.meta.Some? && o.replyBuilt))
      ensures reply == if IsGenerated(o) then Some(key) else None
      ensures tasks == old(tasks)[t := Task(if reply.Some? then Returned else if ok then Done else Exits([]), key,
                                           if o.keysMade then o.meta else None, None)]
    {
      if !o.keysMade {
        WriteError(t, GenerateKeyFails(t));
        return true, None;
      }
      if o.meta.None? {
        WriteError(t, MetaHashFails(t));
        return false, None;
      }
      WriteKeyMetaHash(t, o.meta.value);
      if !o.replyBuilt {
        WriteError(t, ReplyFails(t));
        return false, None;
      }
      WriteReporting(t, clock.generated);
      return true, Some(key);
    }

    /**
      `GenerateKeyShard_Task`: run, report, post, set the final status. The exits before the hash is
      read from the reply post under the empty hash; an empty reply does not parse, and the task ends.
     */
    method GenerateKeyShard(t: TaskId, key: Hash, o: Outcome, clock: Clock)
      requires Invariant(View()) && t !in tasks && key != []
      modifies this
      ensures Invariant(View())
      ensures var registry := ClearedRegistry(old(contexts), old(heap), clock.cleared, ALIVE_DURATION);
              var cleared := ClearedHeap(old(contexts), old(heap), clock.cleared, ALIVE_DURATION);
              if key in registry then contexts == registry && heap == cleared
              else contexts == registry[key := t] && heap == cleared[t := FinalContext(o, clock)]
      ensures t in tasks && tasks == old(tasks)[t := tasks[t]] && tasks[t].pc == Done
      ensures var isNew := key !in ClearedRegistry(old(contexts), old(heap), clock.cleared, ALIVE_DURATION);
              tasks[t].report == if isNew && IsReported(o) then Some(DigestOf(key, o.meta.value)) else None
    {
      hide ClearedRegistry, ClearedHeap, Invariant;
      StartTask(t, key, clock.cleared);
      ghost var started := View();
      var over, hash := RunAndReport(t, key, o, clock);
      if !over {
        var found := PostStatus(t, hash, o.posted, clock.finished);
      }
      EndKeepsInvariant(started, View(), t, key);
    }

    /** `SetGenerationStatus`, with the new state written out. */
    method PostStatus(t: TaskId, hash: Hash, finished: bool, now: int) returns (found: bool)
      requires t in tasks && tasks[t].pc == Exits(hash)
      requires forall h <- contexts :: contexts[h] in heap
      modifies this`heap, this`tasks
      ensures found <==> hash in contexts
      ensures heap ==
              if found
              then old(heap)[contexts[hash] := old(heap)[contexts[hash]].(
                     status := if finished then Finished else Error,
                     finishedTime := if finished then now else old(heap)[contexts[hash]].finishedTime)]
              else old(heap)
      ensures tasks == old(tasks)[t := old(tasks)[t].(pc := Done)]
    {
      found := SetGenerationStatus(t, hash, finished, now);
    }

    /** Up to the label `_exit`: `hash` is the one for the final status; `over` says that the reply did not parse. */
    method RunAndReport(t: TaskId, key: Hash, o: Outcome, clock: Clock) returns (over: bool, hash: Hash)
      requires Enabled(View(), CheckDuplicate(t)) && tasks[t] == Task(Arrived, key, None, None) && t !in heap
      requires forall h <- contexts :: contexts[h] in heap
      modifies this
      ensures if key in old(contexts) then contexts == old(contexts) && heap == old(heap)
              else contexts == old(contexts)[key := t] && heap == old(heap)[t := ReportedContext(o, clock)]
      ensures hash == if key !in old(contexts) && IsGenerated(o) && o.replyDelivered then key else []
      ensures over <==> key !in old(contexts) && !o.keysMade
      ensures t in tasks && tasks == old(tasks)[t := tasks[t]]
      ensures tasks[t].key == key && tasks[t].pc == if over then Done else Exits(hash)
      ensures tasks[t].report ==
              if key !in old(contexts) && IsReported(o) then Some(DigestOf(key, o.meta.value)) else None
      ensures tasks[t].report.Some? ==> tasks[t].meta == o.meta
    {
      var ok, reply := Execute(t, key, o, clock);
      hash := [];
      over := ok && reply.None?;
      if reply.Some? {
        if o.replyDelivered {
          MakeReport(t, key, o);
          hash := key;
        } else {
          tasks := tasks[t := tasks[t].(pc := Exits([]))];
        }
      }
    }

    method MakeReport(t: TaskId, key: Hash, o: Outcome)
      requires t in tasks && tasks[t].pc == Returned && tasks[t].key == key
      requires key in contexts && contexts[key] == t && forall h <- contexts :: contexts[h] in heap
      modifies this`heap, this`tasks
      ensures heap == if o.targetFound
                      then old(heap)[t := old(heap[t]).(status := if o.reportMade then Callback else Error)]
                      else old(heap)
      ensures tasks == old(tasks)[t := old(tasks[t]).(pc := Exits(key),
                report := if o.targetFound && o.reportMade then Some(DigestOf(key, old(heap[t]).keyMetaHash))
                          else old(tasks[t]).report)]
    {
      if !o.targetFound {
        tasks := tasks[t := tasks[t].(pc := Exits(key))];
        return;
      }
      var keyMetaHash := ReadKeyMetaHash(t, key);
      var thrown := WriteReportStatus(t, key, o.reportMade);
    }

    /** `ecall_run` clears the list before it dispatches. */
    method StartTask(t: TaskId, key: Hash, now: int)
      requires Invariant(View()) && t !in tasks && key != []
      modifies this
      ensures contexts == ClearedRegistry(old(contexts), old(heap), now, ALIVE_DURATION)
      ensures heap == ClearedHeap(old(contexts), old(heap), now, ALIVE_DURATION)
      ensures tasks == old(tasks)[t := Task(Arrived, key, None, None)]
      ensures t !in heap && [] !in contexts && forall h <- contexts :: contexts[h] in heap
      ensures Invariant(View())
    {
      InvariantIsSafe(View());
      EntriesAreDistinct(View());
      ClearKeepsInvariant(View(), now);
      ClearContext(now, ALIVE_DURATION);
      assert View() == Next(old(View()), Clear(now));
      NoEntryUnderEmptyHash(View());
      ArrivalKeepsInvariant(View(), t, key);
      tasks := tasks[t := Task(Arrived, key, None, None)];
      InvariantIsSafe(View());
    }
  }

  /** A task that was alone since it arrived has made an entry of its own, or none. */
  ghost predicate EndsAs(s: State, n: State, t: TaskId, key: Hash) {
    && t in n.tasks && n.tasks == s.tasks[t := n.tasks[t]]
    && n.tasks[t].key == key && n.tasks[t].pc == Done
    && (n.tasks[t].report.Some? ==>
          n.tasks[t].meta.Some? && n.tasks[t].report.value == DigestOf(key, n.tasks[t].meta.value))
    && (if key in s.registry then n.registry == s.registry && n.heap == s.heap
        else t in n.heap && n.heap[t].status != Unknown
             && n.registry == s.registry[key := t] && n.heap == s.heap[t := n.heap[t]])
  }

  lemma EndKeepsInvariant(s: State, n: State, t: TaskId, key: Hash)
    requires Invariant(s) && t in s.tasks && s.tasks[t].pc == Arrived && key != [] && EndsAs(s, n, t, key)
    ensures Invariant(n)
  {
    assert TaskFits(s, t);
    forall h <- n.registry
      ensures EntryFits(n, h)
    {
      assert h in s.registry ==> EntryFits(s, h);
    }
    forall u <- n.tasks
      ensures TaskFits(n, u)
    {
      assert TaskFits(s, u);
    }
  }

  lemma EntriesAreDistinct(s: State)
    requires Invariant(s)
    ensures forall g <- s.registry, h <- s.registry :: s.registry[g] == s.registry[h] ==> g == h
  {
    forall g <- s.registry, h <- s.registry | s.registry[g] == s.registry[h]
      ensures g == h
    {
      assert EntryFits(s, g) && EntryFits(s, h);
    }
  }

  predicate IsGenerated(o: Outcome) {
    o.keysMade && o.meta.Some? && o.replyBuilt
  }

  predicate IsReported(o: Outcome) {
    IsGenerated(o) && o.replyDelivered && o.targetFound && o.reportMade
  }

  /** The context a task leaves when `execute` returns. */
  function ExecutedContext(o: Outcome, clock: Clock): Context {
    Context(if IsGenerated(o) then Reporting else Error, clock.started,
            if IsGenerated(o) then clock.generated else 0, 0,
            if o.keysMade && o.meta.Some? then o.meta.value else [])
  }

  /** ... when the host reaches its label `_exit`. */
  function ReportedContext(o: Outcome, clock: Clock): Context {
    if IsGenerated(o) && o.replyDelivered && o.targetFound
    then ExecutedContext(o, clock).(status := if o.reportMade then Callback else Error)
    else ExecutedContext(o, clock)
  }

  function FinalStatus(o: Outcome): Status {
    if !IsGenerated(o) then Error
    else if !o.replyDelivered then Reporting
    else if o.posted then Finished else Error
  }

  /** ... and when the task is over: a lost reply leaves it Reporting. */
  function FinalContext(o: Outcome, clock: Clock): Context {
    ExecutedContext(o, clock).(
      status := FinalStatus(o), finishedTime := if FinalStatus(o) == Finished then clock.finished else 0)
  }

  /** The map and the heap in the middle of `ClearContext`, with the keys in `rest` still to be visited. */
  ghost predicate Visited(before: map<Hash, TaskId>, live: map<TaskId, Context>,
                          contexts: map<Hash, TaskId>, heap: map<TaskId, Context>, rest: set<Hash>,
                          now: int, duration: int)
  {
    && rest <= contexts.Keys <= before.Keys
    && (forall h <- before :: before[h] in live)
    && (forall g <- before, h <- before :: before[g] == before[h] ==> g == h)
    && (forall h <- contexts :: contexts[h] == before[h])
    && (forall h <- before :: h in contexts <==> h in rest || !IsExpired(live[before[h]], now, duration))
    && heap.Keys <= live.Keys
    && (forall c <- heap :: heap[c] == live[c])
    && (forall c <- live :: c !in heap ==> IsExpired(live[c], now, duration) && c in before.Values)
    && (forall h <- before :: before[h] in heap <==> h in contexts)
  }

  lemma VisitIsOneMore(before: map<Hash, TaskId>, live: map<TaskId, Context>,
                       contexts: map<Hash, TaskId>, heap: map<TaskId, Context>, rest: set<Hash>, h: Hash,
                       now: int, duration: int)
    requires Visited(before, live, contexts, heap, rest, now, duration) && h in rest
    ensures h in contexts && contexts[h] in heap
    ensures if IsExpired(heap[contexts[h]], now, duration)
            then Visited(before, live, contexts - {h}, heap - {contexts[h]}, rest - {h}, now, duration)
            else Visited(before, live, contexts, heap, rest - {h}, now, duration)
  {
    hide IsExpired;
  }

  lemma AllVisitedIsCleared(before: map<Hash, TaskId>, live: map<TaskId, Context>,
                            contexts: map<Hash, TaskId>, heap: map<TaskId, Context>, now: int, duration: int)
    requires Visited(before, live, contexts, heap, {}, now, duration)
    ensures contexts == ClearedRegistry(before, live, now, duration)
    ensures heap == ClearedHeap(before, live, now, duration)
  {
    hide IsExpired;
  }
}
