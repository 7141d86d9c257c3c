/** The registry of generation contexts as a system of steps over many tasks. */
module Registry {
  import opened Bytes

  type Hash = seq<byte>
  /** A task, and the context it allocates: every task allocates at most one. */
  type TaskId = nat

  datatype Status = Unknown | Generating | Reporting | Callback | Finished | Error

  datatype Context = Context(status: Status, startTime: int, generatedTime: int, finishedTime: int, keyMetaHash: Hash)

  /** The user data of a report: the digest, kept symbolic, of the two decoded hashes in a row. */
  datatype ReportData = DigestOf(requestKey: Hash, keyMetaHash: Hash)

  /** Where a generation task stands. */
  datatype Pc =
    | Arrived                          // before the duplicate check
    | Checked                          // found no duplicate, lock released
    | Generates                        // context inserted, keys being generated
    | HasMeta                          // key_meta_hash written, reply being built
    | Returned                         // status Reporting written, back on the host
    | ReadMeta(keyMetaHash: Hash)      // inside ecall_create_report, between its two critical sections
    | Exits(hash: Hash)                // at _exit, with the hash for the final status
    | Done

  /** `meta` and `report` record what the task computed and what it put into its report. */
  datatype Task = Task(pc: Pc, key: Hash, meta: Option<Hash>, report: Option<ReportData>)

  datatype State = State(registry: map<Hash, TaskId>, heap: map<TaskId, Context>, tasks: map<TaskId, Task>)

  datatype Action =
    | Arrive(t: TaskId, key: Hash)
    | Rejected(t: TaskId)              // the ECALL or the request fails before the duplicate check
    | CheckDuplicate(t: TaskId)
    | InsertContext(t: TaskId, now: int)
    | GenerateKeyFails(t: TaskId)
    | MetaHashFails(t: TaskId)
    | WriteMeta(t: TaskId, hash: Hash)
    | ReplyFails(t: TaskId)
    | ReplyDone(t: TaskId, now: int)
    | ReplyLost(t: TaskId)             // the reply does not reach the host although the status is Reporting
    | ReportNotCreated(t: TaskId)      // quoting fails before ecall_create_report
    | ReportReads(t: TaskId)
    | ReportDone(t: TaskId)
    | ReportFails(t: TaskId)
    | Post(t: TaskId, ok: bool, now: int)
    | Query(hash: Hash)
    | Clear(now: int)

  const ALIVE_DURATION: int := 5

  predicate IsExpired(c: Context, now: int, duration: int) {
    c.status == Error || c.status == Unknown || (c.status == Finished && now - c.finishedTime > duration)
  }

  /** The entries `clear_context` keeps; the contexts of the others are freed. */
  function ClearedRegistry(registry: map<Hash, TaskId>, heap: map<TaskId, Context>, now: int, duration: int)
    : map<Hash, TaskId>
  {
    map h | h in registry && !(registry[h] in heap && IsExpired(heap[registry[h]], now, duration)) :: registry[h]
  }

  function ClearedHeap(registry: map<Hash, TaskId>, heap: map<TaskId, Context>, now: int, duration: int)
    : map<TaskId, Context>
  {
    map c | c in heap && !(c in registry.Values && IsExpired(heap[c], now, duration)) :: heap[c]
  }

  /** A write of the status through a pointer to a context; a freed context is not there any more. */
  function WithStatus(heap: map<TaskId, Context>, c: TaskId, status: Status): map<TaskId, Context> {
    if c in heap then heap[c := heap[c].(status := status)] else heap
  }

  /** `ecall_set_generation_status`: finds the context by hash; the time is written for Finished only. */
  function WithFinalStatus(s: State, hash: Hash, status: Status, now: int): map<TaskId, Context> {
    if hash in s.registry && s.registry[hash] in s.heap then
      var c := s.heap[s.registry[hash]];
      s.heap[s.registry[hash] :=
        c.(status := status, finishedTime := if status == Finished then now else c.finishedTime)]
    else s.heap
  }

  function WithPc(s: State, t: TaskId, pc: Pc): State
    requires t in s.tasks
  {
    s.(tasks := s.tasks[t := s.tasks[t].(pc := pc)])
  }

  predicate Enabled(s: State, a: Action) {
    match a
    case Arrive(t, key) => t !in s.tasks && key != []
    case Rejected(t) => t in s.tasks && s.tasks[t].pc == Arrived
    case CheckDuplicate(t) => t in s.tasks && s.tasks[t].pc == Arrived
    case InsertContext(t, _) => t in s.tasks && s.tasks[t].pc == Checked
    case GenerateKeyFails(t) => t in s.tasks && s.tasks[t].pc == Generates
    case MetaHashFails(t) => t in s.tasks && s.tasks[t].pc == Generates
    case WriteMeta(t, _) => t in s.tasks && s.tasks[t].pc == Generates
    case ReplyFails(t) => t in s.tasks && s.tasks[t].pc == HasMeta
    case ReplyDone(t, _) => t in s.tasks && s.tasks[t].pc == HasMeta
    case ReplyLost(t) => t in s.tasks && s.tasks[t].pc == Returned
    case ReportNotCreated(t) => t in s.tasks && s.tasks[t].pc == Returned
    case ReportReads(t) => t in s.tasks && s.tasks[t].pc == Returned
    case ReportDone(t) => t in s.tasks && s.tasks[t].pc.ReadMeta?
    case ReportFails(t) => t in s.tasks && s.tasks[t].pc.ReadMeta?
    case Post(t, _, _) => t in s.tasks && s.tasks[t].pc.Exits?
    case Query(_) => true
    case Clear(_) => true
  }

  /** The state after an action. */
  function Next(s: State, a: Action): State
    requires Enabled(s, a)
  {
    match a
    case Arrive(t, key) =>
      s.(tasks := s.tasks[t := Task(Arrived, key, None, None)])
    case Rejected(t) =>
      WithPc(s, t, Exits([]))
    case CheckDuplicate(t) =>
      WithPc(s, t, if s.tasks[t].key in s.registry then Exits([]) else Checked)
    case InsertContext(t, now) =>
      // `std::map::insert` leaves an entry that is already there alone.
      var key := s.tasks[t].key;
      WithPc(s.(heap := s.heap[t := Context(Generating, now, 0, 0, [])],
            registry := if key in s.registry then s.registry else s.registry[key := t]), t, Generates)
    case GenerateKeyFails(t) =>
      // execute returns 0 with an empty reply; the host fails to parse it and sets no status.
      WithPc(s.(heap := WithStatus(s.heap, t, Error)), t, Done)
    case MetaHashFails(t) =>
      WithPc(s.(heap := WithStatus(s.heap, t, Error)), t, Exits([]))
    case WriteMeta(t, hash) =>
      var heap := if t in s.heap then s.heap[t := s.heap[t].(keyMetaHash := hash)] else s.heap;
      s.(heap := heap, tasks := s.tasks[t := s.tasks[t].(pc := HasMeta, meta := Some(hash))])
    case ReplyFails(t) =>
      WithPc(s.(heap := WithStatus(s.heap, t, Error)), t, Exits([]))
    case ReplyDone(t, now) =>
      var heap := if t in s.heap then s.heap[t := s.heap[t].(status := Reporting, generatedTime := now)] else s.heap;
      WithPc(s.(heap := heap), t, Returned)
    case ReplyLost(t) =>
      WithPc(s, t, Exits([]))
    case ReportNotCreated(t) =>
      WithPc(s, t, Exits(s.tasks[t].key))
    case ReportReads(t) =>
      var key := s.tasks[t].key;
      if key in s.registry && s.registry[key] in s.heap
      then WithPc(s, t, ReadMeta(s.heap[s.registry[key]].keyMetaHash))
      else WithPc(s, t, Exits(key))
    case ReportDone(t) =>
      var task := s.tasks[t];
      var report := DigestOf(task.key, task.pc.keyMetaHash);
      if task.key in s.registry
      then State(s.registry, WithStatus(s.heap, s.registry[task.key], Callback),
                 s.tasks[t := task.(pc := Exits(task.key), report := Some(report))])
      else WithPc(s, t, Done)  // `at` throws
    case ReportFails(t) =>
      var key := s.tasks[t].key;
      if key in s.registry
      then WithPc(s.(heap := WithStatus(s.heap, s.registry[key], Error)), t, Exits(key))
      else WithPc(s, t, Done)
    case Post(t, ok, now) =>
      WithPc(s.(heap := WithFinalStatus(s, s.tasks[t].pc.hash, if ok then Finished else Error, now)), t, Done)
    case Query(_) => s
    case Clear(now) =>
      State(ClearedRegistry(s.registry, s.heap, now, ALIVE_DURATION),
            ClearedHeap(s.registry, s.heap, now, ALIVE_DURATION), s.tasks)
  }

  const INITIAL: State := State(map[], map[], map[])

  // ---------- the two assumptions

  /** No other task inserts the same key between a task's duplicate check and its insertion. */
  predicate InsertsAlone(s: State, a: Action)
    requires Enabled(s, a)
  {
    a.InsertContext? ==> s.tasks[a.t].key !in s.registry
  }

  /** `races` and `failures` say which of the two is not assumed. */
  predicate Allowed(s: State, a: Action, races: bool, failures: bool)
    requires Enabled(s, a)
  {
    (races || InsertsAlone(s, a)) && (failures || !a.ReportFails?)
  }

  predicate Assumed(s: State, a: Action)
    requires Enabled(s, a)
  {
    Allowed(s, a, false, false)
  }

  /** The actions can be taken one after the other from `s`. */
  predicate CanRun(s: State, actions: seq<Action>)
    decreases |actions|
  {
    actions == [] || (Enabled(s, actions[0]) && CanRun(Next(s, actions[0]), actions[1..]))
  }

  function After(s: State, actions: seq<Action>): State
    requires CanRun(s, actions)
    decreases |actions|
  {
    if actions == [] then s else After(Next(s, actions[0]), actions[1..])
  }

  /** ... and every one of them is allowed. */
  predicate RunsAllowed(s: State, actions: seq<Action>, races: bool, failures: bool)
    decreases |actions|
  {
    actions == [] ||
    (&& Enabled(s, actions[0]) && Allowed(s, actions[0], races, failures)
     && RunsAllowed(Next(s, actions[0]), actions[1..], races, failures))
  }

  predicate RunsAsAssumed(s: State, actions: seq<Action>) {
    RunsAllowed(s, actions, false, false)
  }

  ghost predicate Reachable(s: State, races: bool, failures: bool) {
    exists actions ::
      CanRun(INITIAL, actions) && RunsAllowed(INITIAL, actions, races, failures) && After(INITIAL, actions) == s
  }

  // ---------- safety

  /** The task holds, or the host will use, the context the task inserted. */
  predicate IsActive(pc: Pc) {
    pc.Generates? || pc.HasMeta? || pc.Returned? || pc.ReadMeta? || (pc.Exits? && pc.hash != [])
  }

  /** Between these points `execute` writes through the pointer it holds. */
  predicate HoldsPointer(pc: Pc) {
    pc.Generates? || pc.HasMeta?
  }

  predicate StatusFits(pc: Pc, status: Status) {
    match pc
    case Generates => status == Generating
    case HasMeta => status == Generating
    case Returned => status == Reporting
    case ReadMeta(_) => status == Reporting
    case Exits(_) => status == Reporting || status == Callback
    case _ => true
  }

  /** No task writes through a freed pointer, and every entry of the registry points to a live context. */
  predicate IsSafe(s: State) {
    && (forall t <- s.tasks :: HoldsPointer(s.tasks[t].pc) ==> t in s.heap)
    && (forall h <- s.registry :: s.registry[h] in s.heap)
  }

  /** What an entry says of the task that owns it. */
  predicate EntryFits(s: State, h: Hash)
    requires h in s.registry
  {
    var t := s.registry[h];
    t in s.heap && t in s.tasks && s.tasks[t].key == h && s.tasks[t].pc !in {Arrived, Checked}
  }

  /** What a task's program counter says of the registry and of its context. */
  predicate TaskFits(s: State, t: TaskId)
    requires t in s.tasks
  {
    var task := s.tasks[t];
    && task.key != []
    && (task.pc.Exits? ==> task.pc.hash == [] || task.pc.hash == task.key)
    && (t in s.heap ==> task.pc !in {Arrived, Checked} && task.key in s.registry && s.registry[task.key] == t)
    && (IsActive(task.pc) ==>
          && task.key in s.registry && s.registry[task.key] == t && t in s.heap
          && StatusFits(task.pc, s.heap[t].status))
    && (task.pc in {HasMeta, Returned} || task.pc.ReadMeta? ==>
          && task.meta.Some? && t in s.heap && s.heap[t].keyMetaHash == task.meta.value)
    && (task.pc.ReadMeta? ==> task.meta == Some(task.pc.keyMetaHash))
    && (t in s.heap ==> s.heap[t].status != Unknown)
    && (task.report.Some? ==> task.pc.Exits? || task.pc.Done?)
    && (task.report.Some? ==> task.meta.Some? && task.report.value == DigestOf(task.key, task.meta.value))
  }

  predicate Invariant(s: State) {
    && (forall h <- s.registry :: EntryFits(s, h))
    && (forall c <- s.heap :: c in s.tasks)
    && (forall t <- s.tasks :: TaskFits(s, t))
  }

  lemma InvariantIsSafe(s: State)
    requires Invariant(s)
    ensures IsSafe(s)
  {
    forall t <- s.tasks | HoldsPointer(s.tasks[t].pc)
      ensures t in s.heap
    {
      assert TaskFits(s, t);
    }
    forall h <- s.registry
      ensures s.registry[h] in s.heap
    {
      assert EntryFits(s, h);
    }
  }

  // ---------- every step keeps the invariant

  /** A step of `t` that touches nothing but the program counter of `t` and the context of `t`. */
  ghost predicate IsOwnStep(s: State, n: State, t: TaskId) {
    && t in s.tasks && n.registry == s.registry
    && n.heap.Keys == s.heap.Keys && n.tasks.Keys == s.tasks.Keys
    && (forall c <- s.heap :: c != t ==> n.heap[c] == s.heap[c])
    && (forall u <- s.tasks :: u != t ==> n.tasks[u] == s.tasks[u])
    && n.tasks[t].key == s.tasks[t].key
  }

  lemma OwnStepKeepsInvariant(s: State, n: State, t: TaskId)
    requires Invariant(s) && IsOwnStep(s, n, t) && TaskFits(n, t)
    ensures Invariant(n)
  {
    forall h <- n.registry
      ensures EntryFits(n, h)
    {
      assert EntryFits(s, h);
    }
    forall u <- n.tasks
      ensures TaskFits(n, u)
    {
      assert TaskFits(s, u);
    }
  }

  /** Every step that writes through the pointer a task holds finds its context there. */
  lemma FailureIsOwnStep(s: State, a: Action)
    requires Invariant(s) && Enabled(s, a) && (a.GenerateKeyFails? || a.MetaHashFails? || a.ReplyFails?)
    ensures a.t in s.heap && IsOwnStep(s, Next(s, a), a.t) && TaskFits(Next(s, a), a.t)
  {
    assert TaskFits(s, a.t);
  }

  lemma ContextWriteIsOwnStep(s: State, a: Action)
    requires Invariant(s) && Enabled(s, a) && (a.WriteMeta? || a.ReplyDone?)
    ensures a.t in s.heap && IsOwnStep(s, Next(s, a), a.t) && TaskFits(Next(s, a), a.t)
  {
    assert TaskFits(s, a.t);
  }

  lemma CounterStepIsOwnStep(s: State, a: Action)
    requires Invariant(s) && Enabled(s, a)
    requires a.Rejected? || a.CheckDuplicate? || a.ReplyLost? || a.ReportNotCreated?
    ensures IsOwnStep(s, Next(s, a), a.t) && TaskFits(Next(s, a), a.t)
  {
    assert TaskFits(s, a.t);
  }

  lemma ReadIsOwnStep(s: State, a: Action)
    requires Invariant(s) && Enabled(s, a) && a.ReportReads?
    ensures IsOwnStep(s, Next(s, a), a.t) && TaskFits(Next(s, a), a.t)
  {
    assert TaskFits(s, a.t);
  }

  lemma ReportIsOwnStep(s: State, a: Action)
    requires Invariant(s) && Enabled(s, a) && a.ReportDone?
    ensures IsOwnStep(s, Next(s, a), a.t) && TaskFits(Next(s, a), a.t)
  {
    assert TaskFits(s, a.t);
  }

  lemma NoEntryUnderEmptyHash(s: State)
    requires Invariant(s)
    ensures [] !in s.registry
  {
    forall h <- s.registry
      ensures h != []
    {
      assert EntryFits(s, h);
      assert TaskFits(s, s.registry[h]);
    }
  }

  /** The final status goes to the task's own context, or, from an exit without a hash, to none. */
  lemma PostIsOwnStep(s: State, a: Action)
    requires Invariant(s) && Enabled(s, a) && a.Post?
    ensures IsOwnStep(s, Next(s, a), a.t) && TaskFits(Next(s, a), a.t)
  {
    assert TaskFits(s, a.t);
    NoEntryUnderEmptyHash(s);
  }

  /** The actions of a task between its arrival and its end, the insertion excepted, are steps of its own. */
  lemma TaskActionIsOwnStep(s: State, a: Action)
    requires Invariant(s) && Enabled(s, a) && Assumed(s, a)
    requires !a.Arrive? && !a.InsertContext? && !a.Query? && !a.Clear?
    ensures IsOwnStep(s, Next(s, a), a.t) && TaskFits(Next(s, a), a.t)
  {
    hide Invariant, IsOwnStep, TaskFits, Next, Enabled;
    if a.GenerateKeyFails? || a.MetaHashFails? || a.ReplyFails? {
      FailureIsOwnStep(s, a);
    } else if a.WriteMeta? || a.ReplyDone? {
      ContextWriteIsOwnStep(s, a);
    } else if a.ReportReads? {
      ReadIsOwnStep(s, a);
    } else if a.ReportDone? {
      ReportIsOwnStep(s, a);
    } else if a.Post? {
      PostIsOwnStep(s, a);
    } else {
      CounterStepIsOwnStep(s, a);
    }
  }

  lemma ArrivalKeepsInvariant(s: State, t: TaskId, key: Hash)
    requires Invariant(s) && t !in s.tasks && key != []
    ensures Invariant(Next(s, Arrive(t, key)))
  {
    var n := Next(s, Arrive(t, key));
    forall h <- n.registry
      ensures EntryFits(n, h)
    {
      assert EntryFits(s, h);
    }
    forall u <- n.tasks
      ensures TaskFits(n, u)
    {
      if u != t {
        assert TaskFits(s, u);
      }
    }
  }

  lemma InsertionKeepsInvariant(s: State, a: Action)
    requires Invariant(s) && Enabled(s, a) && a.InsertContext? && Assumed(s, a)
    ensures Invariant(Next(s, a))
  {
    var n := Next(s, a);
    assert TaskFits(s, a.t);
    forall h <- n.registry
      ensures EntryFits(n, h)
    {
      if h in s.registry {
        assert EntryFits(s, h);
      }
    }
    forall u <- n.tasks
      ensures TaskFits(n, u)
    {
      assert TaskFits(s, u);
    }
  }

  lemma ClearKeepsInvariant(s: State, now: int)
    requires Invariant(s)
    ensures Invariant(Next(s, Clear(now)))
  {
    var n := Next(s, Clear(now));
    forall h <- n.registry
      ensures EntryFits(n, h)
    {
      assert EntryFits(s, h);
    }
    forall u <- n.tasks
      ensures TaskFits(n, u)
    {
      assert TaskFits(s, u);
    }
  }

  lemma StepKeepsInvariant(s: State, a: Action)
    requires Invariant(s) && Enabled(s, a) && Assumed(s, a)
    ensures Invariant(Next(s, a))
  {
    if a.Arrive? {
      ArrivalKeepsInvariant(s, a.t, a.key);
    } else if a.InsertContext? {
      InsertionKeepsInvariant(s, a);
    } else if a.Clear? {
      ClearKeepsInvariant(s, a.now);
    } else if !a.Query? {
      TaskActionIsOwnStep(s, a);
      OwnStepKeepsInvariant(s, Next(s, a), a.t);
    }
  }

  /** The two assumptions are exact: any other step leaves the invariant. */
  lemma StepKeepsInvariantExactlyIfAssumed(s: State, a: Action)
    requires Invariant(s) && Enabled(s, a)
    ensures Invariant(Next(s, a)) <==> Assumed(s, a)
  {
    if Assumed(s, a) {
      StepKeepsInvariant(s, a);
    } else {
      assert TaskFits(s, a.t);
      assert !TaskFits(Next(s, a), a.t);
    }
  }

  // ---------- whole runs

  lemma {:induction false} RunKeepsInvariant(s: State, actions: seq<Action>)
    requires Invariant(s) && RunsAsAssumed(s, actions)
    ensures CanRun(s, actions) && Invariant(After(s, actions))
    decreases |actions|
  {
    if actions != [] {
      StepKeepsInvariant(s, actions[0]);
      RunKeepsInvariant(Next(s, actions[0]), actions[1..]);
    }
  }

  /** Safety: in every interleaving under the two assumptions no write goes through a freed pointer. */
  lemma EveryRunIsSafe(actions: seq<Action>)
    requires RunsAsAssumed(INITIAL, actions)
    ensures CanRun(INITIAL, actions) && IsSafe(After(INITIAL, actions))
  {
    RunKeepsInvariant(INITIAL, actions);
    InvariantIsSafe(After(INITIAL, actions));
  }

  /** The data a task put in its report is the digest of its own request key and of the key-meta hash it wrote. */
  lemma EveryReportIsOwn(actions: seq<Action>, t: TaskId)
    requires RunsAsAssumed(INITIAL, actions)
    ensures CanRun(INITIAL, actions)
    ensures var s := After(INITIAL, actions);
            t in s.tasks && s.tasks[t].report.Some? ==>
              s.tasks[t].meta.Some? && s.tasks[t].report.value == DigestOf(s.tasks[t].key, s.tasks[t].meta.value)
  {
    RunKeepsInvariant(INITIAL, actions);
    var s := After(INITIAL, actions);
    if t in s.tasks {
      assert TaskFits(s, t);
    }
  }

  // ---------- statuses

  function Rank(status: Status): nat {
    match status
    case Unknown => 0
    case Generating => 1
    case Reporting => 2
    case Callback => 3
    case Finished => 4
    case Error => 4
  }

  /** Forward, possibly skipping, and never out of Finished or Error. */
  predicate MovesForward(from: Status, to: Status) {
    from == to || Rank(from) < Rank(to)
  }

  /** One step moves the status of a context forward, and only the task that inserted it changes it. */
  lemma StatusMovesForward(s: State, a: Action, c: TaskId)
    requires Invariant(s) && Enabled(s, a) && Assumed(s, a)
    requires c in s.heap && c in Next(s, a).heap
    ensures MovesForward(s.heap[c].status, Next(s, a).heap[c].status)
    ensures s.heap[c].status != Next(s, a).heap[c].status ==> !a.Query? && !a.Clear? && a.t == c
  {
    if a.Arrive? || a.InsertContext? || a.Query? || a.Clear? {
      assert TaskFits(s, c);
    } else {
      hide Invariant, Enabled, Assumed, Next;
      TaskActionIsOwnStep(s, a);
      if a.t == c {
        OwnStatusMovesForward(s, a);
      }
    }
  }

  lemma OwnStatusMovesForward(s: State, a: Action)
    requires Invariant(s) && Enabled(s, a) && Assumed(s, a)
    requires !a.Arrive? && !a.InsertContext? && !a.Query? && !a.Clear?
    requires a.t in s.heap && a.t in Next(s, a).heap
    ensures MovesForward(s.heap[a.t].status, Next(s, a).heap[a.t].status)
  {
    if a.ReportDone? || a.Post? {
      assert TaskFits(s, a.t);
      NoEntryUnderEmptyHash(s);
    } else if a.GenerateKeyFails? || a.MetaHashFails? || a.ReplyFails? {
      ErrorMovesForward(s, a);
    } else {
      assert TaskFits(s, a.t);
    }
  }

  lemma ErrorMovesForward(s: State, a: Action)
    requires Invariant(s) && Enabled(s, a) && (a.GenerateKeyFails? || a.MetaHashFails? || a.ReplyFails?)
    ensures a.t in s.heap && MovesForward(s.heap[a.t].status, Next(s, a).heap[a.t].status)
  {
    assert TaskFits(s, a.t);
  }

  /**
    An entry leaves the map, and its context is freed, only in a clear, after its own task has set
    Finished or Error and has left its pointer behind.
   */
  lemma EntryStaysUntilItsTaskEnds(s: State, a: Action, h: Hash)
    requires Invariant(s) && Enabled(s, a) && Assumed(s, a) && h in s.registry
    ensures var t := s.registry[h];
            t in s.tasks && t in s.heap &&
            var n := Next(s, a);
            if h in n.registry then n.registry[h] == t && t in n.heap
            else a.Clear? && HasEnded(s, t)
  {
    var t := s.registry[h];
    assert EntryFits(s, h);
    assert TaskFits(s, t);
    if !a.Arrive? && !a.InsertContext? && !a.Query? && !a.Clear? {
      TaskActionIsOwnStep(s, a);
    }
  }

  /** At some point of the run the task has set Finished or Error and has left its pointer behind. */
  predicate EndsDuring(s: State, actions: seq<Action>, t: TaskId)
    requires CanRun(s, actions)
    decreases |actions|
  {
    HasEnded(s, t) || (actions != [] && EndsDuring(Next(s, actions[0]), actions[1..], t))
  }

  predicate HasEnded(s: State, t: TaskId) {
    t in s.tasks && t in s.heap && s.heap[t].status in {Finished, Error} && !IsActive(s.tasks[t].pc)
  }

  /** Over a whole run an entry stays, with its context alive, unless its own task ends on the way. */
  lemma {:induction false} EntryStaysOrItsTaskEnds(s: State, actions: seq<Action>, h: Hash)
    requires Invariant(s) && RunsAsAssumed(s, actions) && h in s.registry
    ensures CanRun(s, actions)
    ensures var t, n := s.registry[h], After(s, actions);
            EndsDuring(s, actions, t) || (h in n.registry && n.registry[h] == t && t in n.heap)
    decreases |actions|
  {
    hide Invariant, Next, Enabled, HasEnded;
    EntryStaysUntilItsTaskEnds(s, if actions == [] then Query(h) else actions[0], h);
    if actions != [] {
      StepKeepsInvariant(s, actions[0]);
      var n := Next(s, actions[0]);
      RunKeepsInvariant(n, actions[1..]);
      if h in n.registry {
        EntryStaysOrItsTaskEnds(n, actions[1..], h);
      }
    }
  }

  lemma NewContextIsOfAnArrivedTask(s: State, a: Action, c: TaskId)
    requires Enabled(s, a) && c !in s.heap && c in s.tasks && s.tasks[c].pc !in {Arrived, Checked}
    ensures c !in Next(s, a).heap && c in Next(s, a).tasks && Next(s, a).tasks[c].pc !in {Arrived, Checked}
  {
  }

  /** A freed context does not come back. */
  lemma {:induction false} GoneForGood(s: State, actions: seq<Action>, c: TaskId)
    requires CanRun(s, actions) && c !in s.heap && c in s.tasks && s.tasks[c].pc !in {Arrived, Checked}
    ensures c !in After(s, actions).heap
    decreases |actions|
  {
    if actions != [] {
      NewContextIsOfAnArrivedTask(s, actions[0], c);
      GoneForGood(Next(s, actions[0]), actions[1..], c);
    }
  }

  /** Over a whole run the status of a context only moves forward. */
  lemma {:induction false} StatusOnlyMovesForward(s: State, actions: seq<Action>, c: TaskId)
    requires Invariant(s) && RunsAsAssumed(s, actions) && c in s.heap
    ensures CanRun(s, actions)
    ensures c in After(s, actions).heap ==> MovesForward(s.heap[c].status, After(s, actions).heap[c].status)
    decreases |actions|
  {
    hide Invariant, Next, Enabled;
    RunKeepsInvariant(s, actions);
    if actions != [] {
      var n := Next(s, actions[0]);
      StepKeepsInvariant(s, actions[0]);
      if c in n.heap {
        StatusMovesForward(s, actions[0], c);
        StatusOnlyMovesForward(n, actions[1..], c);
      } else {
        ContextsHaveTasks(n, s, actions[0], c);
        GoneForGood(n, actions[1..], c);
      }
    }
  }

  lemma ContextsHaveTasks(n: State, s: State, a: Action, c: TaskId)
    requires Invariant(s) && Enabled(s, a) && n == Next(s, a) && c in s.heap && c !in n.heap
    ensures c in n.tasks && n.tasks[c].pc !in {Arrived, Checked}
  {
    assert TaskFits(s, c);
  }

  /** The task is over, or will post under the empty hash, and its context says Reporting. */
  predicate IsStuck(s: State, t: TaskId) {
    && t in s.tasks && s.tasks[t].pc in {Done, Exits([])} && t in s.heap && s.heap[t].status == Reporting
    && s.tasks[t].key in s.registry && s.registry[s.tasks[t].key] == t
  }

  lemma StuckStep(s: State, a: Action, t: TaskId)
    requires Invariant(s) && Enabled(s, a) && Assumed(s, a) && IsStuck(s, t)
    ensures IsStuck(Next(s, a), t) && Next(s, a).tasks[t].key == s.tasks[t].key
  {
    if !a.Arrive? && !a.InsertContext? && !a.Query? && !a.Clear? {
      if a.t == t {
        NoEntryUnderEmptyHash(s);
      } else {
        TaskActionIsOwnStep(s, a);
      }
    }
  }

  /**
    A reply lost on its way to the host blocks its key for good: no clear ever removes the entry,
    so every later task with that key is turned away at its duplicate check.
   */
  lemma {:induction false} LostReplyBlocksItsKey(s: State, actions: seq<Action>, t: TaskId)
    requires Invariant(s) && Enabled(s, ReplyLost(t)) && RunsAsAssumed(Next(s, ReplyLost(t)), actions)
    ensures CanRun(Next(s, ReplyLost(t)), actions)
    ensures var n := After(Next(s, ReplyLost(t)), actions);
            forall u <- n.tasks :: n.tasks[u].pc == Arrived && n.tasks[u].key == s.tasks[t].key ==>
              Next(n, CheckDuplicate(u)).tasks[u].pc == Exits([])
  {
    assert TaskFits(s, t);
    CounterStepIsOwnStep(s, ReplyLost(t));
    OwnStepKeepsInvariant(s, Next(s, ReplyLost(t)), t);
    StaysStuck(Next(s, ReplyLost(t)), actions, t);
  }

  lemma {:induction false} StaysStuck(s: State, actions: seq<Action>, t: TaskId)
    requires Invariant(s) && RunsAsAssumed(s, actions) && IsStuck(s, t)
    ensures CanRun(s, actions) && IsStuck(After(s, actions), t)
    ensures After(s, actions).tasks[t].key == s.tasks[t].key
    decreases |actions|
  {
    hide Invariant, IsStuck, Next, Enabled;
    if actions != [] {
      StepKeepsInvariant(s, actions[0]);
      StuckStep(s, actions[0], t);
      StaysStuck(Next(s, actions[0]), actions[1..], t);
    }
  }

  /** `t` stops using its context in this step. */
  predicate EndsIn(s: State, a: Action, t: TaskId)
    requires Enabled(s, a)
  {
    && t in s.tasks && IsActive(s.tasks[t].pc)
    && t in Next(s, a).tasks && !IsActive(Next(s, a).tasks[t].pc)
  }

  /** Of all the steps by which a task can end, only the loss of the reply leaves no final status. */
  lemma EndIsFinalUnlessReplyLost(s: State, a: Action, t: TaskId)
    requires Invariant(s) && Enabled(s, a) && Assumed(s, a) && EndsIn(s, a, t)
    ensures t in Next(s, a).heap
    ensures if a.ReplyLost? then IsStuck(Next(s, a), t) else HasEnded(Next(s, a), t)
    ensures Next(s, a).heap[t].status in {Finished, Error} <==> !a.ReplyLost?
  {
    assert TaskFits(s, t);
    if !a.Arrive? && !a.InsertContext? && !a.Query? && !a.Clear? {
      TaskActionIsOwnStep(s, a);
    }
    if a.Post? && a.t == t {
      PostIsFinal(s, a);
    }
  }

  lemma PostIsFinal(s: State, a: Action)
    requires Invariant(s) && Enabled(s, a) && a.Post? && s.tasks[a.t].pc.hash != []
    ensures a.t in s.heap && a.t in Next(s, a).heap
    ensures Next(s, a).heap[a.t].status == if a.ok then Finished else Error
  {
    assert TaskFits(s, a.t);
  }

  lemma EndedStep(s: State, a: Action, t: TaskId)
    requires Invariant(s) && Enabled(s, a) && Assumed(s, a) && HasEnded(s, t)
    ensures t in Next(s, a).heap ==> HasEnded(Next(s, a), t)
    ensures t !in Next(s, a).heap ==> t in Next(s, a).tasks && Next(s, a).tasks[t].pc !in {Arrived, Checked}
  {
    assert TaskFits(s, t);
    if !a.Arrive? && !a.InsertContext? && !a.Query? && !a.Clear? {
      if a.t == t {
        NoEntryUnderEmptyHash(s);
      } else {
        TaskActionIsOwnStep(s, a);
      }
    }
  }

  lemma {:induction false} StaysEnded(s: State, actions: seq<Action>, t: TaskId)
    requires Invariant(s) && RunsAsAssumed(s, actions) && HasEnded(s, t)
    ensures CanRun(s, actions)
    ensures t in After(s, actions).heap ==> HasEnded(After(s, actions), t)
    decreases |actions|
  {
    hide Invariant, HasEnded, Next, Enabled;
    if actions != [] {
      var n := Next(s, actions[0]);
      StepKeepsInvariant(s, actions[0]);
      EndedStep(s, actions[0], t);
      if t in n.heap {
        StaysEnded(n, actions[1..], t);
      } else {
        RunKeepsInvariant(n, actions[1..]);
        GoneForGood(n, actions[1..], t);
      }
    }
  }

  /** The entry under the key of `t` is the one `t` made. */
  predicate OwnsEntry(s: State, t: TaskId) {
    t in s.tasks && s.tasks[t].key in s.registry && s.registry[s.tasks[t].key] == t
  }

  /** Once a task has set its final status, at any later time any clear that comes late enough removes its entry. */
  lemma EndedEntryIsCleared(s: State, actions: seq<Action>, t: TaskId, now: int)
    requires Invariant(s) && RunsAsAssumed(s, actions) && CanRun(s, actions) && HasEnded(s, t)
    requires t in After(s, actions).heap ==> now - After(s, actions).heap[t].finishedTime > ALIVE_DURATION
    ensures !OwnsEntry(Next(After(s, actions), Clear(now)), t)
  {
    hide Invariant, HasEnded, OwnsEntry, Next;
    RunKeepsInvariant(s, actions);
    StaysEnded(s, actions, t);
    LateClearRemovesEntry(After(s, actions), t, now);
  }

  lemma LateClearRemovesEntry(s: State, t: TaskId, now: int)
    requires Invariant(s)
    requires t in s.heap ==> HasEnded(s, t) && now - s.heap[t].finishedTime > ALIVE_DURATION
    ensures !OwnsEntry(Next(s, Clear(now)), t)
  {
    if OwnsEntry(s, t) {
      assert EntryFits(s, s.tasks[t].key);
    }
  }

  /**
    Whatever the other tasks do: the entry of a task that ends stays for good, and its key with it
    is refused, exactly if the task ended by the loss of its reply.
   */
  lemma EntryStaysForGoodExactlyIfReplyLost(s: State, a: Action, t: TaskId)
    requires Invariant(s) && Enabled(s, a) && Assumed(s, a) && EndsIn(s, a, t)
    ensures a.ReplyLost? <==>
            forall actions :: RunsAsAssumed(Next(s, a), actions) ==>
              CanRun(Next(s, a), actions) && OwnsEntry(After(Next(s, a), actions), t)
  {
    var n := Next(s, a);
    StepKeepsInvariant(s, a);
    EndIsFinalUnlessReplyLost(s, a, t);
    hide Invariant;
    if a.ReplyLost? {
      forall actions | RunsAsAssumed(n, actions)
        ensures CanRun(n, actions) && OwnsEntry(After(n, actions), t)
      {
        StaysStuck(n, actions, t);
      }
    } else {
      var now := n.heap[t].finishedTime + ALIVE_DURATION + 1;
      EndedEntryIsCleared(n, [], t, now);
      ClearRuns(n, now);
      assert !OwnsEntry(After(n, [Clear(now)]), t);
    }
  }

  lemma ClearRuns(s: State, now: int)
    ensures RunsAsAssumed(s, [Clear(now)]) && CanRun(s, [Clear(now)])
    ensures After(s, [Clear(now)]) == Next(s, Clear(now))
  {
    assert [Clear(now)][1..] == [];
    assert RunsAllowed(Next(s, Clear(now)), [Clear(now)][1..], false, false);
    assert CanRun(Next(s, Clear(now)), [Clear(now)][1..]);
  }

  // ---------- how long an entry stays

  /**
    What one clear keeps, exactly: entries of tasks that are not over, and those that finished at
    most five seconds ago. The context of an entry that stays is unchanged, the other one is freed.
   */
  lemma ClearKeepsExactly(s: State, now: int, h: Hash)
    requires Invariant(s) && h in s.registry
    ensures s.registry[h] in s.heap
    ensures var t, n := s.registry[h], Next(s, Clear(now));
            var c := s.heap[t];
            && (h in n.registry <==> c.status in {Generating, Reporting, Callback}
                                     || (c.status == Finished && now - c.finishedTime <= 5))
            && (if h in n.registry then n.registry[h] == t && t in n.heap && n.heap[t] == c else t !in n.heap)
  {
    assert EntryFits(s, h);
    assert TaskFits(s, s.registry[h]);
  }

  /** A clear at this time leaves the entry of a task that ended with this context. */
  predicate IsSpared(c: Context, now: int) {
    c.status == Finished && now - c.finishedTime <= 5
  }

  /** The entry and the context of `t` are there, the context being `c`. */
  predicate HasEntry(s: State, t: TaskId, c: Context) {
    OwnsEntry(s, t) && t in s.heap && s.heap[t] == c
  }

  lemma EndedKeepsContext(s: State, a: Action, t: TaskId)
    requires Invariant(s) && Enabled(s, a) && Assumed(s, a) && HasEnded(s, t)
    ensures HasEntry(s, t, s.heap[t])
    ensures !a.Clear? ==> HasEnded(Next(s, a), t) && Next(s, a).heap[t] == s.heap[t]
    ensures a.Clear? ==>
              if IsSpared(s.heap[t], a.now) then HasEnded(Next(s, a), t) && Next(s, a).heap[t] == s.heap[t]
              else t !in Next(s, a).heap
  {
    assert TaskFits(s, t);
    if a.Clear? {
      ClearKeepsExactly(s, a.now, s.tasks[t].key);
    } else if !a.Arrive? && !a.InsertContext? && !a.Query? {
      if a.t == t {
        NoEntryUnderEmptyHash(s);
      } else {
        TaskActionIsOwnStep(s, a);
      }
    }
  }

  /**
    Over every run the entry of a task that has ended stays, with its context as it was, exactly as
    long as each clear finds it finished and comes at most five seconds after the end; the entry of
    a task that ended in an error goes at the first clear.
   */
  lemma {:induction false} EndedEntryStaysExactlyWhileAlive(s: State, actions: seq<Action>, t: TaskId)
    requires Invariant(s) && RunsAsAssumed(s, actions) && HasEnded(s, t)
    ensures CanRun(s, actions)
    ensures HasEntry(After(s, actions), t, s.heap[t]) <==>
            forall a <- actions :: a.Clear? ==> s.heap[t].status == Finished && a.now - s.heap[t].finishedTime <= 5
    ensures HasEntry(After(s, actions), t, s.heap[t]) <==> t in After(s, actions).heap
    decreases |actions|
  {
    hide Invariant, HasEnded, HasEntry, Next, Enabled;
    EndedKeepsContext(s, if actions == [] then Query([]) else actions[0], t);
    if actions == [] {
      EntryHasContext(s, t);
    } else {
      var a, rest := actions[0], actions[1..];
      var n := Next(s, a);
      assert actions == [a] + rest;
      StepKeepsInvariant(s, a);
      EndedStep(s, a, t);
      RunKeepsInvariant(n, rest);
      if t in n.heap {
        EndedEntryStaysExactlyWhileAlive(n, rest, t);
      } else {
        GoneForGood(n, rest, t);
        NoContextNoEntry(After(n, rest), t, s.heap[t]);
      }
    }
  }

  lemma EntryHasContext(s: State, t: TaskId)
    requires HasEnded(s, t)
    ensures t in s.heap
  {
  }

  lemma NoContextNoEntry(s: State, t: TaskId, c: Context)
    requires t !in s.heap
    ensures !HasEntry(s, t, c)
  {
  }

  /** A task that posts its result under its key at time `f` ends, and its entry stays for five seconds from then. */
  lemma FinishedEntryStaysForFiveSeconds(s: State, t: TaskId, f: int, actions: seq<Action>)
    requires Invariant(s) && Enabled(s, Post(t, true, f)) && s.tasks[t].pc == Exits(s.tasks[t].key)
    requires s.tasks[t].key != [] && RunsAsAssumed(Next(s, Post(t, true, f)), actions)
    ensures var n := Next(s, Post(t, true, f));
            && CanRun(n, actions) && t in s.heap && t in n.heap
            && n.heap[t] == s.heap[t].(status := Finished, finishedTime := f)
            && (HasEntry(After(n, actions), t, n.heap[t]) <==>
                forall a <- actions :: a.Clear? ==> a.now - f <= 5)
  {
    var a := Post(t, true, f);
    var n := Next(s, a);
    assert TaskFits(s, t);
    StepKeepsInvariant(s, a);
    PostIsFinal(s, a);
    EndedEntryStaysExactlyWhileAlive(n, actions, t);
  }

  // ---------- neither assumption can be dropped

  lemma {:induction false} RunExtends(s: State, actions: seq<Action>, a: Action, races: bool, failures: bool)
    requires CanRun(s, actions) && RunsAllowed(s, actions, races, failures)
    requires Enabled(After(s, actions), a) && Allowed(After(s, actions), a, races, failures)
    ensures CanRun(s, actions + [a]) && RunsAllowed(s, actions + [a], races, failures)
    ensures After(s, actions + [a]) == Next(After(s, actions), a)
    decreases |actions|
  {
    var all := actions + [a];
    if actions == [] {
      assert all[1..] == [];
      assert CanRun(Next(s, a), all[1..]);
    } else {
      RunExtends(Next(s, actions[0]), actions[1..], a, races, failures);
      assert all[1..] == actions[1..] + [a];
    }
  }

  lemma Step(from: State, a: Action, to: State, races: bool, failures: bool)
    requires Reachable(from, races, failures) && Enabled(from, a) && Allowed(from, a, races, failures)
    requires Next(from, a) == to
    ensures Reachable(to, races, failures)
  {
    var actions :| CanRun(INITIAL, actions) && RunsAllowed(INITIAL, actions, races, failures)
                   && After(INITIAL, actions) == from;
    RunExtends(INITIAL, actions, a, races, failures);
  }

  const FRESH := Context(Generating, 0, 0, 0, [])

  function WithMeta(status: Status, meta: Hash): Context {
    Context(status, 0, 0, 0, meta)
  }

  /** Both tasks pass the duplicate check, then both insert. */
  lemma RaceInserts(key: Hash)
    requires key != []
    ensures Reachable(State(map[key := 1], map[1 := FRESH, 2 := FRESH],
                            map[1 := Task(Generates, key, None, None), 2 := Task(Generates, key, None, None)]),
                      true, false)
  {
    RaceChecks(key);
    hide Reachable;
    var checked, generates := Task(Checked, key, None, None), Task(Generates, key, None, None);
    var s4 := State(map[], map[], map[1 := checked, 2 := checked]);
    var s5 := State(map[key := 1], map[1 := FRESH], map[1 := generates, 2 := checked]);
    var s6 := State(map[key := 1], map[1 := FRESH, 2 := FRESH], map[1 := generates, 2 := generates]);
    Step(s4, InsertContext(1, 0), s5, true, false);
    Step(s5, InsertContext(2, 0), s6, true, false);
  }

  lemma RaceChecks(key: Hash)
    requires key != []
    ensures Reachable(State(map[], map[],
                            map[1 := Task(Checked, key, None, None), 2 := Task(Checked, key, None, None)]),
                      true, false)
  {
    assert CanRun(INITIAL, []) && After(INITIAL, []) == INITIAL;
    hide Reachable;
    var arrived, checked := Task(Arrived, key, None, None), Task(Checked, key, None, None);
    var s1 := State(map[], map[], map[1 := arrived]);
    var s2 := State(map[], map[], map[1 := arrived, 2 := arrived]);
    var s3 := State(map[], map[], map[1 := checked, 2 := arrived]);
    var s4 := State(map[], map[], map[1 := checked, 2 := checked]);
    Step(INITIAL, Arrive(1, key), s1, true, false);
    Step(s1, Arrive(2, key), s2, true, false);
    Step(s2, CheckDuplicate(1), s3, true, false);
    Step(s3, CheckDuplicate(2), s4, true, false);
  }

  /** The second task's report is made from the first one's context, which holds no key-meta hash yet. */
  lemma RaceReports(key: Hash, meta: Hash)
    requires key != []
    ensures Reachable(State(map[key := 1], map[1 := FRESH.(status := Callback), 2 := WithMeta(Reporting, meta)],
                            map[1 := Task(Generates, key, None, None),
                                2 := Task(Exits(key), key, Some(meta), Some(DigestOf(key, [])))]), true, false)
  {
    RaceReturns(key, meta);
    hide Reachable;
    var generates := Task(Generates, key, None, None);
    var entry, finished := map[key := 1], map[1 := FRESH, 2 := WithMeta(Reporting, meta)];
    var s8 := State(entry, finished, map[1 := generates, 2 := Task(Returned, key, Some(meta), None)]);
    var s9 := State(entry, finished, map[1 := generates, 2 := Task(ReadMeta([]), key, Some(meta), None)]);
    Step(s8, ReportReads(2), s9, true, false);
    Step(s9, ReportDone(2), Next(s9, ReportDone(2)), true, false);
  }

  lemma RaceReturns(key: Hash, meta: Hash)
    requires key != []
    ensures Reachable(State(map[key := 1], map[1 := FRESH, 2 := WithMeta(Reporting, meta)],
                            map[1 := Task(Generates, key, None, None), 2 := Task(Returned, key, Some(meta), None)]),
                      true, false)
  {
    RaceInserts(key);
    hide Reachable;
    var generates := Task(Generates, key, None, None);
    var s6 := State(map[key := 1], map[1 := FRESH, 2 := FRESH], map[1 := generates, 2 := generates]);
    var s7 := State(map[key := 1], map[1 := FRESH, 2 := WithMeta(Generating, meta)],
                    map[1 := generates, 2 := Task(HasMeta, key, Some(meta), None)]);
    Step(s6, WriteMeta(2, meta), s7, true, false);
    Step(s7, ReplyDone(2, 0), Next(s7, ReplyDone(2, 0)), true, false);
  }

  /**
    Without the assumption on insertions a task with any key can be left writing through a freed
    pointer: the other task's report and final status land on its context, which is then cleared.
   */
  lemma SafetyNeedsInsertsAlone(key: Hash, meta: Hash) returns (s: State)
    requires key != []
    ensures Reachable(s, true, false) && 1 in s.tasks && s.tasks[1] == Task(Generates, key, None, None)
    ensures 1 !in s.heap && !IsSafe(s)
  {
    RaceReports(key, meta);
    hide Reachable;
    var generates := Task(Generates, key, None, None);
    var ended := Task(Exits(key), key, Some(meta), Some(DigestOf(key, [])));
    var other := WithMeta(Reporting, meta);
    var s10 := State(map[key := 1], map[1 := FRESH.(status := Callback), 2 := other], map[1 := generates, 2 := ended]);
    var s11 := State(map[key := 1], map[1 := FRESH.(status := Finished), 2 := other],
                     map[1 := generates, 2 := ended.(pc := Done)]);
    s := State(map[], map[2 := other], map[1 := generates, 2 := ended.(pc := Done)]);
    Step(s10, Post(2, true, 0), s11, true, false);
    Step(s11, Clear(6), s, true, false);
  }

  /** A task whose report cannot be made is about to post its final status, and its context is cleared first. */
  lemma ReportIsLost(key: Hash, meta: Hash)
    requires key != []
    ensures Reachable(State(map[], map[], map[1 := Task(Exits(key), key, Some(meta), None)]), false, true)
  {
    ReportIsRead(key, meta);
    hide Reachable;
    var s6 := State(map[key := 1], map[1 := WithMeta(Reporting, meta)],
                    map[1 := Task(ReadMeta(meta), key, Some(meta), None)]);
    var s7 := State(map[key := 1], map[1 := WithMeta(Error, meta)], map[1 := Task(Exits(key), key, Some(meta), None)]);
    var s8 := State(map[], map[], map[1 := Task(Exits(key), key, Some(meta), None)]);
    Step(s6, ReportFails(1), s7, false, true);
    Step(s7, Clear(0), s8, false, true);
  }

  lemma ReportIsRead(key: Hash, meta: Hash)
    requires key != []
    ensures Reachable(State(map[key := 1], map[1 := WithMeta(Reporting, meta)],
                            map[1 := Task(ReadMeta(meta), key, Some(meta), None)]), false, true)
  {
    ContextIsInserted(key);
    hide Reachable;
    var s3 := State(map[key := 1], map[1 := FRESH], map[1 := Task(Generates, key, None, None)]);
    var s4 := State(map[key := 1], map[1 := WithMeta(Generating, meta)],
                    map[1 := Task(HasMeta, key, Some(meta), None)]);
    var s5 := State(map[key := 1], map[1 := WithMeta(Reporting, meta)],
                    map[1 := Task(Returned, key, Some(meta), None)]);
    Step(s3, WriteMeta(1, meta), s4, false, true);
    Step(s4, ReplyDone(1, 0), s5, false, true);
    Step(s5, ReportReads(1), Next(s5, ReportReads(1)), false, true);
  }

  lemma ContextIsInserted(key: Hash)
    requires key != []
    ensures Reachable(State(map[key := 1], map[1 := FRESH], map[1 := Task(Generates, key, None, None)]), false, true)
  {
    assert CanRun(INITIAL, []) && After(INITIAL, []) == INITIAL;
    hide Reachable;
    var s1 := State(map[], map[], map[1 := Task(Arrived, key, None, None)]);
    var s2 := State(map[], map[], map[1 := Task(Checked, key, None, None)]);
    Step(INITIAL, Arrive(1, key), s1, false, true);
    Step(s1, CheckDuplicate(1), s2, false, true);
    Step(s2, InsertContext(1, 0), Next(s2, InsertContext(1, 0)), false, true);
  }

  /** A second task then uses the same key. */
  lemma KeyIsReused(key: Hash, meta: Hash)
    requires key != []
    ensures Reachable(State(map[key := 2], map[2 := FRESH],
                            map[1 := Task(Exits(key), key, Some(meta), None), 2 := Task(Generates, key, None, None)]),
                      false, true)
  {
    ReportIsLost(key, meta);
    hide Reachable;
    var late := Task(Exits(key), key, Some(meta), None);
    var s8 := State(map[], map[], map[1 := late]);
    var s9 := State(map[], map[], map[1 := late, 2 := Task(Arrived, key, None, None)]);
    var s10 := State(map[], map[], map[1 := late, 2 := Task(Checked, key, None, None)]);
    Step(s8, Arrive(2, key), s9, false, true);
    Step(s9, CheckDuplicate(2), s10, false, true);
    Step(s10, InsertContext(2, 0), Next(s10, InsertContext(2, 0)), false, true);
  }

  /**
    Without the assumption on reports the final status of an old task, with any key, lands on the
    context of a newer task, which is then left writing through a freed pointer.
   */
  lemma SafetyNeedsReports(key: Hash, meta: Hash) returns (s: State)
    requires key != []
    ensures Reachable(s, false, true) && 2 in s.tasks && s.tasks[2] == Task(Generates, key, None, None)
    ensures 2 !in s.heap && !IsSafe(s)
  {
    KeyIsReused(key, meta);
    hide Reachable;
    var late, newer := Task(Exits(key), key, Some(meta), None), Task(Generates, key, None, None);
    var s11 := State(map[key := 2], map[2 := FRESH], map[1 := late, 2 := newer]);
    var s12 := State(map[key := 2], map[2 := FRESH.(status := Finished)], map[1 := late.(pc := Done), 2 := newer]);
    s := State(map[], map[], map[1 := late.(pc := Done), 2 := newer]);
    Step(s11, Post(1, true, 0), s12, false, true);
    Step(s12, Clear(6), s, false, true);
  }
}
