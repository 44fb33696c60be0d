/** The TLB shootdown of kernel/arch/i386/cpu/apic_ipi.c as the interleaved memory accesses
    of an initiator and of the interrupt handlers on the other processors, together with
    what each processor's TLB holds (invalidation across processors, section 4.10.5 of
    the Intel SDM Volume 3A).  One shootdown is under way at a time. */
module Shootdown {
  import opened Bits
  import opened Counting

  const EVERYTHING: nat := 0xFFFF_FFFF   // the address that asks for a full flush
  const SPIN_LIMIT: nat := 1_000_000

  /** A handler: not called for, called for, has looked whether it is a full flush, has
      invalidated but not yet acknowledged. */
  datatype Handler = Quiet | Signalled | Looked(full: bool) | Invalidated

  /** The initiator between two accesses. */
  datatype Initiator =
    | Idle
    | Counted(v: nat, n: nat)
    | Announced(v: nat, n: nat)
    | Armed(v: nat)
    | Waiting(v: nat, spins: nat, sent: bool)
    | Leaving(v: nat)

  /** Pages to frames. */
  type Translation = map<nat, nat>

  /** `running` are the processors a broadcast reaches, `online` the ones the topology
      counts; `tlb[c]` is what processor `c` translates without looking at the tables,
      `mapped` what the tables say. */
  datatype System = System(running: seq<bool>, online: seq<bool>, tlb: seq<Translation>, mapped: Translation,
                           addr: nat, pending: nat, timeouts: nat, handlers: seq<Handler>,
                           initiator: Initiator, who: nat)

  /** `Load` fills a TLB from the tables; `Enable` starts a processor on the kernel's tables;
      `Online` and `Offline` are the topology's marks.  `Map` writes a table entry and
      invalidates it locally, `Unmap` clears one and starts a shootdown of it, `Flush` starts
      a full one; `Send(false)` is an interrupt that was not accepted. */
  datatype Step =
    | Load(c: nat, p: nat) | Map(c: nat, p: nat, f: nat) | Enable(c: nat) | Online(c: nat) | Offline(c: nat)
    | Unmap(c: nat, v: nat) | Flush(c: nat) | Announce | Arm | Send(accepted: bool) | Poll | Finish
    | Look(c: nat) | Invalidate(c: nat) | Acknowledge(c: nat)

  function PageOf(v: nat): nat { v / 4096 }

  predicate Runs(s: System, c: nat) { c < |s.running| && c < |s.tlb| && s.running[c] }

  /** `paging_invlpg` on processor `c`. */
  function Without(tlb: seq<Translation>, c: nat, p: nat): seq<Translation>
  {
    if c < |tlb| then tlb[c := tlb[c] - {p}] else tlb
  }

  function Filled(tlb: seq<Translation>, c: nat, p: nat, f: nat): seq<Translation>
    requires c < |tlb|
  {
    var t: Translation := tlb[c][p := f];
    tlb[c := t]
  }

  function Next(s: System, step: Step): System
  {
    match step
    case Load(c, p) => if Runs(s, c) && p in s.mapped then s.(tlb := Filled(s.tlb, c, p, s.mapped[p])) else s
    case Map(c, p, f) => if Runs(s, c) then s.(mapped := s.mapped[p := f], tlb := Without(s.tlb, c, p)) else s
    case Enable(c) =>
      if c < |s.running| && c < |s.tlb| && !s.running[c] then
        s.(running := s.running[c := true], tlb := s.tlb[c := map[]])
      else s
    case Online(c) => if c < |s.online| then s.(online := s.online[c := true]) else s
    case Offline(c) => if c < |s.online| then s.(online := s.online[c := false]) else s
    case Unmap(c, v) =>
      if s.initiator.Idle? && Runs(s, c) && v < EVERYTHING then
        s.(mapped := s.mapped - {PageOf(v)}, initiator := Counted(v, CountTrue(s.online)), who := c)
      else s
    case Flush(c) =>
      if s.initiator.Idle? && Runs(s, c) then
        s.(initiator := Counted(EVERYTHING, CountTrue(s.online)), who := c)
      else s
    case Announce =>
      if !s.initiator.Counted? then s
      else if s.initiator.n <= 1 then s.(initiator := Leaving(s.initiator.v))
      else s.(addr := s.initiator.v, initiator := Announced(s.initiator.v, s.initiator.n))
    case Arm =>
      if s.initiator.Announced? && s.initiator.n > 0 then
        s.(pending := s.initiator.n - 1, initiator := Armed(s.initiator.v))
      else s
    case Send(accepted) =>
      if !s.initiator.Armed? then s
      else if !accepted then s.(initiator := Waiting(s.initiator.v, 0, false))
      else s.(handlers := Signal(s.handlers, s.running, s.who), initiator := Waiting(s.initiator.v, 0, true))
    case Poll =>
      if !s.initiator.Waiting? then s
      else if s.pending == 0 then s.(initiator := Leaving(s.initiator.v))
      else if s.initiator.spins + 1 >= SPIN_LIMIT then
        s.(pending := 0, timeouts := s.timeouts + 1, initiator := Leaving(s.initiator.v))
      else s.(initiator := s.initiator.(spins := s.initiator.spins + 1))
    case Finish =>
      if s.initiator.Leaving? then s.(tlb := Without(s.tlb, s.who, PageOf(s.initiator.v)), initiator := Idle) else s
    case Look(c) =>
      if c < |s.handlers| && s.handlers[c].Signalled? then
        s.(handlers := s.handlers[c := Looked(s.addr == EVERYTHING)])
      else s
    case Invalidate(c) =>
      if c < |s.handlers| && c < |s.tlb| && s.handlers[c].Looked? then
        s.(handlers := s.handlers[c := Invalidated],
           tlb := if s.handlers[c].full then s.tlb[c := map[]] else Without(s.tlb, c, PageOf(s.addr)))
      else s
    case Acknowledge(c) =>
      if c < |s.handlers| && s.handlers[c].Invalidated? then
        s.(handlers := s.handlers[c := Quiet], pending := (s.pending + WORD - 1) % WORD)
      else s
  }

  /** The interrupt reaches every running processor but the sender. */
  function Signal(handlers: seq<Handler>, running: seq<bool>, who: nat): seq<Handler>
  {
    seq(|handlers|, c requires 0 <= c < |handlers| =>
      if c < |running| && running[c] && c != who then Signalled else handlers[c])
  }

  function Run(s: System, steps: seq<Step>): System
    decreases |steps|
  {
    if steps == [] then s else Run(Next(s, steps[0]), steps[1..])
  }

  // ------------------------------------------------------------ when the code is right

  /** Running processors other than `c`. */
  function Others(running: seq<bool>, c: nat): nat
  {
    if c < |running| then CountTrue(running[c := false]) else CountTrue(running)
  }

  /** What a step needs of its moment.  A page is given a new frame only where it had none,
      or on the only processor.  A count of one is read only on the only processor.  The
      interrupt goes out to no more processors than acknowledgements are awaited. */
  predicate Orderly(s: System, step: Step)
  {
    match step
    case Map(c, p, f) => p in s.mapped ==> s.mapped[p] == f || Others(s.running, c) == 0
    case Unmap(c, _) => s.initiator.Idle? && CountTrue(s.online) <= 1 ==> Others(s.running, c) == 0
    case Flush(c) => s.initiator.Idle? && CountTrue(s.online) <= 1 ==> Others(s.running, c) == 0
    case Send(accepted) => s.initiator.Armed? && accepted ==> s.pending >= Others(s.running, s.who)
    case _ => true
  }

  predicate OrderlyRun(s: System, steps: seq<Step>)
    decreases |steps|
  {
    steps == [] || (Orderly(s, steps[0]) && OrderlyRun(Next(s, steps[0]), steps[1..]))
  }

  // ------------------------------------------------------------ the invariant

  /** The page a shootdown of `v` is about, if it is about one. */
  function Target(v: nat): set<nat> { if v == EVERYTHING then {} else {PageOf(v)} }

  /** Handlers that have yet to acknowledge. */
  ghost function Owing(handlers: seq<Handler>): seq<bool>
  {
    seq(|handlers|, c requires 0 <= c < |handlers| => !handlers[c].Quiet?)
  }

  ghost predicate Sized(s: System)
  {
    |s.tlb| == |s.handlers| == |s.online| == |s.running| < WORD && s.pending < WORD
  }

  ghost predicate AllQuiet(s: System) { forall c :: 0 <= c < |s.handlers| ==> s.handlers[c].Quiet? }

  /** What processor `c` translates is what the tables say, pages in `extra` aside. */
  ghost predicate Fresh(s: System, c: nat, extra: set<nat>)
  {
    c < |s.tlb| ==> forall p :: p in s.tlb[c] ==> p in extra || (p in s.mapped && s.mapped[p] == s.tlb[c][p])
  }

  ghost predicate AllFresh(s: System, extra: set<nat>)
  {
    forall c: nat :: c < |s.running| && s.running[c] ==> Fresh(s, c, extra)
  }

  ghost predicate OthersFresh(s: System)
  {
    forall c: nat :: c < |s.running| && s.running[c] && c != s.who ==> Fresh(s, c, {})
  }

  /** While the initiator waits: `pending` covers who has yet to acknowledge, and everyone
      past its invalidation is fresh. */
  ghost predicate Collecting(s: System, v: nat)
  {
    && s.addr == v && s.pending >= CountTrue(Owing(s.handlers))
    && (forall c: nat :: c < |s.handlers| && !s.handlers[c].Quiet? ==> c != s.who)
    && (forall c: nat :: c < |s.running| && c < |s.handlers| && s.running[c] && c != s.who ==>
          s.handlers[c].Quiet? || s.handlers[c].Invalidated? ==> Fresh(s, c, {}))
    && (forall c: nat :: c < |s.handlers| && s.handlers[c].Looked? ==> (s.handlers[c].full <==> v == EVERYTHING))
  }

  ghost predicate Coherent(s: System)
  {
    && Sized(s)
    && match s.initiator
       case Idle => AllQuiet(s) && AllFresh(s, {})
       case Counted(v, n) => AllQuiet(s) && AllFresh(s, Target(v)) && n < WORD && (n <= 1 ==> OthersFresh(s))
       case Announced(v, n) => AllQuiet(s) && AllFresh(s, Target(v)) && 1 < n < WORD && s.addr == v
       case Armed(v) => AllQuiet(s) && AllFresh(s, Target(v)) && s.pending > 0 && s.addr == v
       case Waiting(v, _, sent) =>
         AllFresh(s, Target(v)) && if sent then Collecting(s, v) else AllQuiet(s) && s.pending > 0
       case Leaving(v) => AllQuiet(s) && AllFresh(s, Target(v)) && OthersFresh(s)
  }

  // ------------------------------------------------------------ every step keeps it

  /** Tables and TLBs may change under the initiator as long as nobody gets less fresh. */
  lemma FreshKeeps(s: System, t: System)
    requires Coherent(s) && t == s.(mapped := t.mapped, tlb := t.tlb) && |t.tlb| == |s.tlb|
    requires forall d: nat, x: set<nat> :: d < |s.running| && s.running[d] && Fresh(s, d, x) ==> Fresh(t, d, x)
    ensures Coherent(t)
  {
    hide CountTrue, Owing, Fresh;
  }

  lemma LoadKeeps(s: System, c: nat, p: nat)
    requires Coherent(s)
    ensures Coherent(Next(s, Load(c, p)))
  {
    FreshKeeps(s, Next(s, Load(c, p)));
  }

  lemma OthersSome(running: seq<bool>, c: nat, d: nat)
    requires d < |running| && running[d] && d != c
    ensures Others(running, c) > 0
  {
    if c < |running| { CountSome(running[c := false], d); } else { CountSome(running, d); }
  }

  lemma MapFresh(s: System, c: nat, p: nat, f: nat, d: nat, x: set<nat>)
    requires Orderly(s, Map(c, p, f)) && d < |s.running| && s.running[d] && Fresh(s, d, x)
    ensures Fresh(Next(s, Map(c, p, f)), d, x)
  {
    if d != c { OthersSome(s.running, c, d); }
    hide Others;
  }

  lemma MapKeeps(s: System, c: nat, p: nat, f: nat)
    requires Coherent(s) && Orderly(s, Map(c, p, f))
    ensures Coherent(Next(s, Map(c, p, f)))
  {
    var t := Next(s, Map(c, p, f));
    hide Coherent, Orderly;
    forall d: nat, x: set<nat> | d < |s.running| && s.running[d] && Fresh(s, d, x) ensures Fresh(t, d, x) {
      MapFresh(s, c, p, f, d, x);
    }
    FreshKeeps(s, t);
  }

  lemma EnableKeeps(s: System, c: nat)
    requires Coherent(s)
    ensures Coherent(Next(s, Enable(c)))
  {
    var t := Next(s, Enable(c));
    forall d: nat, x: set<nat> | d < |t.running| && t.running[d]
      ensures s.running[d] && Fresh(s, d, x) ==> Fresh(t, d, x)
    {
    }
    forall d: nat, x: set<nat> | d < |t.running| && t.running[d] ensures !s.running[d] ==> Fresh(t, d, x) {}
    hide CountTrue, Owing, Fresh;
  }

  lemma MarksKeep(s: System, c: nat)
    requires Coherent(s)
    ensures Coherent(Next(s, Online(c))) && Coherent(Next(s, Offline(c)))
  {
    var t, u := Next(s, Online(c)), Next(s, Offline(c));
    forall d: nat, x: set<nat> ensures Fresh(s, d, x) ==> Fresh(t, d, x) && Fresh(u, d, x) {}
    hide CountTrue, Owing, Fresh;
  }

  lemma BeginKeeps(s: System, c: nat, v: nat)
    requires Coherent(s) && Orderly(s, Unmap(c, v))
    ensures Coherent(Next(s, Unmap(c, v))) && Coherent(Next(s, Flush(c)))
  {
    hide CountTrue, Owing, Others;
    CountBound(s.online);
    forall d: nat | d < |s.running| && s.running[d] && d != c ensures Others(s.running, c) > 0 {
      OthersSome(s.running, c, d);
    }
  }

  lemma AnnounceKeeps(s: System)
    requires Coherent(s)
    ensures Coherent(Next(s, Announce))
  {
    hide CountTrue, Owing;
  }

  lemma ArmKeeps(s: System)
    requires Coherent(s)
    ensures Coherent(Next(s, Arm))
  {
    hide CountTrue, Owing;
  }

  /** Signalling leaves as many to acknowledge as there are other running processors. */
  lemma SignalCount(handlers: seq<Handler>, running: seq<bool>, who: nat)
    requires |handlers| == |running| && forall c :: 0 <= c < |handlers| ==> handlers[c].Quiet?
    ensures CountTrue(Owing(Signal(handlers, running, who))) == Others(running, who)
  {
    var o := Owing(Signal(handlers, running, who));
    assert o == if who < |running| then running[who := false] else running;
  }

  lemma SendKeeps(s: System, accepted: bool)
    requires Coherent(s) && Orderly(s, Send(accepted))
    ensures Coherent(Next(s, Send(accepted)))
  {
    hide CountTrue, Owing, Others;
    if s.initiator.Armed? { SignalCount(s.handlers, s.running, s.who); }
  }

  lemma OwingZero(handlers: seq<Handler>)
    requires CountTrue(Owing(handlers)) == 0
    ensures forall c :: 0 <= c < |handlers| ==> handlers[c].Quiet?
  {
    CountZero(Owing(handlers));
    forall c | 0 <= c < |handlers| ensures handlers[c].Quiet? { assert !Owing(handlers)[c]; }
  }

  lemma PollKeeps(s: System)
    requires Coherent(s)
    ensures Next(s, Poll).timeouts == s.timeouts ==> Coherent(Next(s, Poll))
  {
    hide CountTrue, Owing;
    if s.initiator.Waiting? && s.pending == 0 && s.initiator.sent { OwingZero(s.handlers); }
  }

  lemma FinishKeeps(s: System)
    requires Coherent(s)
    ensures Coherent(Next(s, Finish))
  {
    hide CountTrue, Owing;
  }

  lemma OwingSame(handlers: seq<Handler>, c: nat, h: Handler)
    requires c < |handlers| && !handlers[c].Quiet? && !h.Quiet?
    ensures Owing(handlers[c := h]) == Owing(handlers)
  {}

  lemma LookKeeps(s: System, c: nat)
    requires Coherent(s)
    ensures Coherent(Next(s, Look(c)))
  {
    hide CountTrue, Owing;
    if c < |s.handlers| && s.handlers[c].Signalled? { OwingSame(s.handlers, c, Looked(s.addr == EVERYTHING)); }
  }

  lemma InvalidateKeeps(s: System, c: nat)
    requires Coherent(s)
    ensures Coherent(Next(s, Invalidate(c)))
  {
    hide CountTrue, Owing;
    if c < |s.handlers| && s.handlers[c].Looked? { OwingSame(s.handlers, c, Invalidated); }
  }

  lemma OwingLess(handlers: seq<Handler>, c: nat)
    requires c < |handlers| < WORD && !handlers[c].Quiet?
    ensures 0 < CountTrue(Owing(handlers)) < WORD
    ensures CountTrue(Owing(handlers[c := Quiet])) == CountTrue(Owing(handlers)) - 1
  {
    var o := Owing(handlers);
    assert o[c] && Owing(handlers[c := Quiet]) == o[c := false];
    CountSet(o, c, false);
    CountBound(o);
  }

  lemma AcknowledgeKeeps(s: System, c: nat)
    requires Coherent(s)
    ensures Coherent(Next(s, Acknowledge(c)))
  {
    hide CountTrue, Owing;
    if c < |s.handlers| && s.handlers[c].Invalidated? {
      OwingLess(s.handlers, c);
      WrapDown(s.pending);
    }
  }

  lemma WrapDown(x: nat)
    requires x < WORD
    ensures (x + WORD - 1) % WORD == if x == 0 then WORD - 1 else x - 1
  {}

  lemma StepKeeps(s: System, step: Step)
    requires Coherent(s) && Orderly(s, step)
    ensures Next(s, step).timeouts == s.timeouts ==> Coherent(Next(s, step))
  {
    hide Next, Coherent;
    match step
    case Load(c, p) => LoadKeeps(s, c, p);
    case Map(c, p, f) => MapKeeps(s, c, p, f);
    case Enable(c) => EnableKeeps(s, c);
    case Online(c) => MarksKeep(s, c);
    case Offline(c) => MarksKeep(s, c);
    case Unmap(c, v) => BeginKeeps(s, c, v);
    case Flush(c) => BeginKeeps(s, c, 0);
    case Announce => AnnounceKeeps(s);
    case Arm => ArmKeeps(s);
    case Send(a) => SendKeeps(s, a);
    case Poll => PollKeeps(s);
    case Finish => FinishKeeps(s);
    case Look(c) => LookKeeps(s, c);
    case Invalidate(c) => InvalidateKeeps(s, c);
    case Acknowledge(c) => AcknowledgeKeeps(s, c);
  }

  lemma TimeoutsGrow(s: System, step: Step)
    ensures Next(s, step).timeouts >= s.timeouts
  {}

  lemma {:induction false} RunTimeouts(s: System, steps: seq<Step>)
    ensures Run(s, steps).timeouts >= s.timeouts
    decreases |steps|
  {
    if steps != [] {
      TimeoutsGrow(s, steps[0]);
      RunTimeouts(Next(s, steps[0]), steps[1..]);
    }
  }

  /** Over every orderly run without a timeout, whatever the interleaving: the invariant
      holds, so between shootdowns no running processor translates a page otherwise than
      the tables do. */
  lemma {:induction false} EveryRunCoherent(s: System, steps: seq<Step>)
    requires Coherent(s) && OrderlyRun(s, steps)
    ensures Run(s, steps).timeouts == s.timeouts ==> Coherent(Run(s, steps))
    decreases |steps|
  {
    if steps != [] {
      hide Next, Coherent, Orderly;
      StepKeeps(s, steps[0]);
      TimeoutsGrow(s, steps[0]);
      RunTimeouts(Next(s, steps[0]), steps[1..]);
      if Next(s, steps[0]).timeouts == s.timeouts { EveryRunCoherent(Next(s, steps[0]), steps[1..]); }
    }
  }

  /** Processor `c` translates a page otherwise than the tables do. */
  predicate Stale(s: System, c: nat) { c < |s.tlb| && Runs(s, c) && exists p :: p in s.tlb[c] && Differs(s, c, p) }

  predicate Differs(s: System, c: nat, p: nat)
    requires c < |s.tlb| && p in s.tlb[c]
  {
    p !in s.mapped || s.mapped[p] != s.tlb[c][p]
  }

  lemma NoStaleTranslation(s: System, steps: seq<Step>, c: nat)
    requires Coherent(s) && OrderlyRun(s, steps)
    ensures Run(s, steps).timeouts == s.timeouts && Run(s, steps).initiator.Idle? ==> !Stale(Run(s, steps), c)
  {
    EveryRunCoherent(s, steps);
    if Run(s, steps).timeouts == s.timeouts && Run(s, steps).initiator.Idle? { IdleFresh(Run(s, steps), c); }
  }

  /** Unmapping reaches everybody: over every run from there that returns without a timeout
      and does not map the page again, no running processor translates it afterwards. */
  lemma UnmapReachesAll(s: System, c: nat, v: nat, steps: seq<Step>, d: nat)
    requires Coherent(s) && s.initiator.Idle? && Runs(s, c) && v < 0xFFFF_FFFF && Orderly(s, Unmap(c, v))
    requires Returns(Next(s, Unmap(c, v)), steps)
    requires forall i :: 0 <= i < |steps| ==> !(steps[i].Map? && steps[i].p == v / 4096)
    ensures var t := Run(Next(s, Unmap(c, v)), steps);
            v / 4096 !in t.mapped && (Runs(t, d) ==> d < |t.tlb| && v / 4096 !in t.tlb[d])
  {
    BeginKeeps(s, c, v);
    var u, p := Next(s, Unmap(c, v)), v / 4096;
    assert p !in u.mapped by { hide CountTrue; }
    hide Next, Coherent, Orderly, OrderlyRun;
    StaysUnmapped(u, steps, p);
    NoStaleTranslation(u, steps, d);
    var t := Run(u, steps);
    if Runs(t, d) && p in t.tlb[d] { assert Differs(t, d, p); }
  }

  lemma {:induction false} StaysUnmapped(s: System, steps: seq<Step>, p: nat)
    requires p !in s.mapped && forall i :: 0 <= i < |steps| ==> !(steps[i].Map? && steps[i].p == p)
    ensures p !in Run(s, steps).mapped
    decreases |steps|
  {
    hide CountTrue;
    if steps != [] { StaysUnmapped(Next(s, steps[0]), steps[1..], p); }
  }

  lemma IdleFresh(s: System, c: nat)
    requires Coherent(s) && s.initiator.Idle?
    ensures !Stale(s, c)
  {
    if Runs(s, c) { assert Fresh(s, c, {}); }
  }

  /** Before anything runs, is cached, called for or under way. */
  function Start(n: nat): System
  {
    System(seq(n, c => false), seq(n, c => false), seq(n, c => map[]), map[], 0, 0, 0, seq(n, c => Quiet), Idle, 0)
  }

  lemma StartCoherent(n: nat)
    requires n < WORD
    ensures Coherent(Start(n))
  {}

  // ------------------------------------------------------------ a topology that stands still

  /** No processor comes or goes during a shootdown, every running one is counted when it
      starts, and pages get frames only where they had none. */
  predicate Stable(s: System, step: Step)
  {
    match step
    case Enable(_) => s.initiator.Idle?
    case Online(_) => s.initiator.Idle?
    case Offline(_) => s.initiator.Idle?
    case Unmap(_, _) => s.online == s.running
    case Flush(_) => s.online == s.running
    case Map(_, p, f) => p in s.mapped ==> s.mapped[p] == f
    case _ => true
  }

  predicate StableRun(s: System, steps: seq<Step>)
    decreases |steps|
  {
    steps == [] || (Stable(s, steps[0]) && StableRun(Next(s, steps[0]), steps[1..]))
  }

  /** The counts agree: what was read is what is online, and `pending` is exactly the number
      of processors yet to acknowledge. */
  ghost predicate Matched(s: System)
  {
    && (!s.initiator.Idle? ==> s.online == s.running && Runs(s, s.who))
    && match s.initiator
       case Counted(_, n) => n == CountTrue(s.online)
       case Announced(_, n) => n == CountTrue(s.online)
       case Armed(_) => s.pending == CountTrue(s.online) - 1
       case Waiting(_, _, sent) => sent ==> s.pending == CountTrue(Owing(s.handlers))
       case _ => true
  }

  lemma AllButOne(running: seq<bool>, c: nat)
    requires c < |running| && running[c]
    ensures Others(running, c) == CountTrue(running) - 1
  {
    CountSet(running, c, false);
  }

  lemma StableIsOrderly(s: System, step: Step)
    requires Matched(s) && Stable(s, step)
    ensures Next(s, step) == s || Orderly(s, step)
  {
    hide CountTrue, Owing, Others;
    if s.initiator.Armed? { AllButOne(s.running, s.who); }
    if (step.Unmap? || step.Flush?) && Runs(s, step.c) { AllButOne(s.running, step.c); }
  }

  lemma StableKeeps(s: System, step: Step)
    requires Coherent(s) && Matched(s) && Stable(s, step) && Next(s, step).timeouts == s.timeouts
    ensures Coherent(Next(s, step)) && Matched(Next(s, step))
  {
    StableIsOrderly(s, step);
    if Next(s, step) != s {
      StepKeeps(s, step);
      hide Coherent, CountTrue, Owing, Others;
      MatchedKeeps(s, step);
    }
  }

  lemma MatchedKeeps(s: System, step: Step)
    requires Coherent(s) && Matched(s) && Stable(s, step)
    ensures Matched(Next(s, step))
  {
    hide CountTrue, Owing, Others;
    if s.initiator.Armed? {
      SignalCount(s.handlers, s.running, s.who);
      AllButOne(s.running, s.who);
    }
    match step
    case Look(c) => if c < |s.handlers| && s.handlers[c].Signalled? {
      OwingSame(s.handlers, c, Looked(s.addr == EVERYTHING));
    }
    case Invalidate(c) => if c < |s.handlers| && s.handlers[c].Looked? { OwingSame(s.handlers, c, Invalidated); }
    case Acknowledge(c) => if c < |s.handlers| && s.handlers[c].Invalidated? {
      OwingLess(s.handlers, c);
      WrapDown(s.pending);
    }
    case _ =>
  }

  /** With a topology that stands still during shootdowns, every run without a timeout keeps
      `pending` equal to the processors yet to acknowledge, and returns only when every
      other running processor has invalidated. */
  lemma {:induction false} StableRunMatched(s: System, steps: seq<Step>)
    requires Coherent(s) && Matched(s) && StableRun(s, steps)
    ensures Run(s, steps).timeouts == s.timeouts ==> Coherent(Run(s, steps)) && Matched(Run(s, steps))
    decreases |steps|
  {
    if steps != [] {
      hide Next, Coherent, Matched, Stable;
      TimeoutsGrow(s, steps[0]);
      RunTimeouts(Next(s, steps[0]), steps[1..]);
      if Next(s, steps[0]).timeouts == s.timeouts {
        StableKeeps(s, steps[0]);
        StableRunMatched(Next(s, steps[0]), steps[1..]);
      }
    }
  }

  // ------------------------------------------------------------ and nothing less will do

  lemma {:induction false} RunConcat(s: System, a: seq<Step>, b: seq<Step>)
    ensures Run(s, a + b) == Run(Run(s, a), b)
    decreases |a|
  {
    if a == [] {
      assert a + b == b;
    } else {
      assert (a + b)[1..] == a[1..] + b;
      RunConcat(Next(s, a[0]), a[1..], b);
    }
  }

  lemma RunOne(s: System, a: Step)
    ensures Run(s, [a]) == Next(s, a)
  {
    hide Next;
    assert [a][1..] == [];
  }

  lemma RunThree(s: System, a: Step, b: Step, c: Step)
    ensures Run(s, [a, b, c]) == Next(Next(Next(s, a), b), c)
  {
    hide Next;
    assert [a, b, c] == [a] + [b] + [c];
    RunConcat(s, [a] + [b], [c]);
    RunConcat(s, [a], [b]);
    RunOne(s, a);
    RunOne(Next(s, a), b);
    RunOne(Next(Next(s, a), b), c);
  }

  predicate OnlyLoads(steps: seq<Step>) { forall i :: 0 <= i < |steps| ==> steps[i].Load? }

  lemma {:induction false} LoadsKeep(s: System, steps: seq<Step>)
    requires Coherent(s) && OnlyLoads(steps)
    ensures Coherent(Run(s, steps)) && Run(s, steps) == s.(tlb := Run(s, steps).tlb)
    decreases |steps|
  {
    if steps != [] {
      hide Coherent;
      LoadKeeps(s, steps[0].c, steps[0].p);
      LoadsKeep(Next(s, steps[0]), steps[1..]);
    }
  }

  /** A page may get a new frame without a shootdown exactly when it had none, keeps the one
      it had, or no other processor runs: whatever the TLBs have loaded by then. */
  lemma RemapExact(s: System, c: nat, p: nat, f: nat)
    requires Coherent(s) && s.initiator.Idle? && Runs(s, c)
    ensures Orderly(s, Map(c, p, f)) <==>
              forall steps :: OnlyLoads(steps) ==> Coherent(Next(Run(s, steps), Map(c, p, f)))
    ensures Orderly(s, Map(c, p, f)) <==>
              forall steps, d :: OnlyLoads(steps) ==> !Stale(Next(Run(s, steps), Map(c, p, f)), d)
  {
    if Orderly(s, Map(c, p, f)) {
      forall steps | OnlyLoads(steps)
        ensures var t := Next(Run(s, steps), Map(c, p, f)); Coherent(t) && forall d :: !Stale(t, d)
      {
        RemapSafe(s, c, p, f, steps);
      }
    } else {
      var d := OtherRunning(s.running, c);
      var steps := [Load(d, p)];
      RunOne(s, Load(d, p));
      RemapStale(s, c, d, p, f);
      assert OnlyLoads(steps) && Stale(Next(Run(s, steps), Map(c, p, f)), d);
    }
  }

  lemma RemapSafe(s: System, c: nat, p: nat, f: nat, steps: seq<Step>)
    requires Coherent(s) && s.initiator.Idle? && Orderly(s, Map(c, p, f)) && OnlyLoads(steps)
    ensures var t := Next(Run(s, steps), Map(c, p, f)); Coherent(t) && forall d :: !Stale(t, d)
  {
    hide Coherent, Stale;
    LoadsKeep(s, steps);
    MapKeeps(Run(s, steps), c, p, f);
    var t := Next(Run(s, steps), Map(c, p, f));
    forall d ensures !Stale(t, d) { IdleFresh(t, d); }
  }

  lemma OtherRunning(running: seq<bool>, c: nat) returns (d: nat)
    requires Others(running, c) > 0
    ensures d < |running| && running[d] && d != c
  {
    d := CountWitness(if c < |running| then running[c := false] else running);
  }

  lemma RemapStale(s: System, c: nat, d: nat, p: nat, f: nat)
    requires Coherent(s) && s.initiator.Idle? && Runs(s, c) && Runs(s, d) && c != d
    requires p in s.mapped && s.mapped[p] != f
    ensures var t := Next(Next(s, Load(d, p)), Map(c, p, f));
            t.initiator.Idle? && t.timeouts == s.timeouts && Stale(t, d) && !Coherent(t)
  {
    var t := Next(Next(s, Load(d, p)), Map(c, p, f));
    assert p in t.tlb[d] && Differs(t, d, p);
    if Coherent(t) { IdleFresh(t, d); }
  }

  /** With a count of one, unmapping is right exactly when the processor runs alone. */
  lemma AloneExact(s: System, c: nat, v: nat)
    requires Coherent(s) && s.initiator.Idle? && Runs(s, c) && v < 0xFFFF_FFFF && v / 4096 in s.mapped
    requires CountTrue(s.online) <= 1
    ensures Orderly(s, Unmap(c, v)) <==>
              forall steps :: OnlyLoads(steps) ==> Coherent(Run(Run(s, steps), [Unmap(c, v), Announce, Finish]))
    ensures Orderly(s, Unmap(c, v)) <==>
              forall steps, d :: OnlyLoads(steps) ==> !Stale(Run(Run(s, steps), [Unmap(c, v), Announce, Finish]), d)
  {
    if Orderly(s, Unmap(c, v)) {
      forall steps | OnlyLoads(steps)
        ensures var t := Run(Run(s, steps), [Unmap(c, v), Announce, Finish]); Coherent(t) && forall d :: !Stale(t, d)
      {
        AloneSafe(s, c, v, steps);
      }
    } else {
      var d := OtherRunning(s.running, c);
      RunOne(s, Load(d, PageOf(v)));
      AloneStale(s, c, d, v);
      assert OnlyLoads([Load(d, PageOf(v))]);
    }
  }

  lemma AloneSafe(s: System, c: nat, v: nat, steps: seq<Step>)
    requires Coherent(s) && s.initiator.Idle? && Runs(s, c) && CountTrue(s.online) <= 1
    requires Orderly(s, Unmap(c, v)) && v < EVERYTHING && OnlyLoads(steps)
    ensures var t := Run(Run(s, steps), [Unmap(c, v), Announce, Finish]); Coherent(t) && forall d :: !Stale(t, d)
  {
    LoadsKeep(s, steps);
    var u := Run(s, steps);
    var t := Run(u, [Unmap(c, v), Announce, Finish]);
    RunThree(u, Unmap(c, v), Announce, Finish);
    AloneEnds(u, c, v);
    hide Coherent, Next, CountTrue, Stale;
    BeginKeeps(u, c, v);
    AnnounceKeeps(Next(u, Unmap(c, v)));
    FinishKeeps(Next(Next(u, Unmap(c, v)), Announce));
    forall d ensures !Stale(t, d) { IdleFresh(t, d); }
  }

  lemma AloneEnds(s: System, c: nat, v: nat)
    requires s.initiator.Idle? && Runs(s, c) && CountTrue(s.online) <= 1
    ensures Next(Next(Next(s, Unmap(c, v)), Announce), Finish).initiator.Idle?
  {
    hide CountTrue;
  }

  lemma AloneStale(s: System, c: nat, d: nat, v: nat)
    requires Coherent(s) && s.initiator.Idle? && Runs(s, c) && Runs(s, d) && c != d
    requires v < EVERYTHING && PageOf(v) in s.mapped && CountTrue(s.online) <= 1
    ensures var t := Run(Next(s, Load(d, PageOf(v))), [Unmap(c, v), Announce, Finish]);
            t.initiator.Idle? && t.timeouts == s.timeouts && Stale(t, d) && !Coherent(t)
  {
    var u := Next(s, Load(d, PageOf(v)));
    var t := Run(u, [Unmap(c, v), Announce, Finish]);
    RunThree(u, Unmap(c, v), Announce, Finish);
    hide CountTrue;
    assert PageOf(v) in t.tlb[d] && Differs(t, d, PageOf(v));
    if Coherent(t) { IdleFresh(t, d); }
  }

  /** Handlers called for, processor `d` aside. */
  ghost function CalledFor(handlers: seq<Handler>, d: nat): seq<bool>
  {
    seq(|handlers|, c requires 0 <= c < |handlers| => c != d && handlers[c].Signalled?)
  }

  /** One other handler runs to its end; processor `d` has not moved. */
  lemma AnswerOne(s: System, d: nat) returns (c: nat)
    requires Sized(s) && s.initiator.Waiting? && s.pending > 0 && d < |s.handlers| && s.handlers[d].Signalled?
    requires CountTrue(CalledFor(s.handlers, d)) > 0
    ensures var t := Run(s, [Look(c), Invalidate(c), Acknowledge(c)]);
            && t == s.(tlb := t.tlb, handlers := t.handlers, pending := s.pending - 1) && Sized(t)
            && d < |t.tlb| && t.tlb[d] == s.tlb[d] && t.handlers[d].Signalled?
            && CountTrue(CalledFor(t.handlers, d)) == CountTrue(CalledFor(s.handlers, d)) - 1
  {
    c := CountWitness(CalledFor(s.handlers, d));
    RunThree(s, Look(c), Invalidate(c), Acknowledge(c));
    var t := Run(s, [Look(c), Invalidate(c), Acknowledge(c)]);
    WrapDown(s.pending);
    assert t.handlers == s.handlers[c := Quiet];
    assert CalledFor(t.handlers, d) == CalledFor(s.handlers, d)[c := false];
    CountSet(CalledFor(s.handlers, d), c, false);
  }

  /** If enough others answer, the count reaches zero with processor `d` still to come. */
  lemma {:induction false} AnswerWithout(s: System, d: nat) returns (steps: seq<Step>)
    requires Sized(s) && s.initiator.Waiting? && d < |s.handlers| && s.handlers[d].Signalled?
    requires CountTrue(CalledFor(s.handlers, d)) >= s.pending
    ensures var t := Run(s, steps);
            && t == s.(tlb := t.tlb, handlers := t.handlers, pending := 0) && Sized(t)
            && d < |t.tlb| && t.tlb[d] == s.tlb[d] && forall i :: 0 <= i < |steps| ==> Answers(steps[i])
    decreases s.pending
  {
    if s.pending == 0 {
      steps := [];
    } else {
      hide CountTrue, CalledFor, Run;
      var c := AnswerOne(s, d);
      var one := [Look(c), Invalidate(c), Acknowledge(c)];
      var rest := AnswerWithout(Run(s, one), d);
      steps := one + rest;
      RunConcat(s, one, rest);
    }
  }

  /** Answering and returning need nothing of their moment. */
  predicate Answers(step: Step)
  {
    step.Look? || step.Invalidate? || step.Acknowledge? || step.Poll? || step.Finish?
  }

  lemma {:induction false} AnswersOrderly(s: System, steps: seq<Step>)
    requires forall i :: 0 <= i < |steps| ==> Answers(steps[i])
    ensures OrderlyRun(s, steps)
    decreases |steps|
  {
    if steps != [] {
      hide Next;
      AnswersOrderly(Next(s, steps[0]), steps[1..]);
    }
  }

  /** An interrupt to more processors than are waited for: some run returns, without a
      timeout, while processor `d` still holds the page that is gone. */
  lemma LateStale(s: System, d: nat) returns (steps: seq<Step>)
    requires Coherent(s) && s.initiator.Armed? && Runs(s, d) && d != s.who && s.initiator.v != EVERYTHING
    requires s.pending < Others(s.running, s.who) && Stale(s, d)
    ensures var t := Run(Next(s, Send(true)), steps);
            && OrderlyRun(Next(s, Send(true)), steps)
            && t.initiator.Idle? && t.timeouts == s.timeouts && Stale(t, d) && !Coherent(t)
  {
    var u := Next(s, Send(true));
    SignalCount(s.handlers, s.running, s.who);
    CalledCount(s.handlers, s.running, s.who, d);
    hide CountTrue, CalledFor, Run, Signal, Owing, Others;
    var answers := AnswerWithout(u, d);
    steps := answers + [Poll, Finish];
    var w := Run(u, answers);
    RunConcat(u, answers, [Poll, Finish]);
    AllAnswered(w);
    hide Next, Coherent, Stale;
    AnswersOrderly(u, steps);
    StillStale(s, Run(u, steps), d);
  }

  lemma AllAnswered(w: System)
    requires w.initiator.Waiting? && w.pending == 0
    ensures Run(w, [Poll, Finish]) == w.(initiator := Idle, tlb := Without(w.tlb, w.who, PageOf(w.initiator.v)))
  {
    RunTwo(w, Poll, Finish);
  }

  lemma StillStale(s: System, t: System, d: nat)
    requires Stale(s, d) && t.mapped == s.mapped && t.running == s.running && d < |t.tlb| && t.tlb[d] == s.tlb[d]
    ensures Stale(t, d) && (t.initiator.Idle? ==> !Coherent(t))
  {
    var p :| p in s.tlb[d] && Differs(s, d, p);
    assert p in t.tlb[d] && Differs(t, d, p);
    hide Coherent;
    if Coherent(t) && t.initiator.Idle? { IdleFresh(t, d); }
  }

  lemma RunTwo(s: System, a: Step, b: Step)
    ensures Run(s, [a, b]) == Next(Next(s, a), b)
  {
    hide Next;
    assert [a, b] == [a] + [b];
    RunConcat(s, [a], [b]);
    RunOne(s, a);
    RunOne(Next(s, a), b);
  }

  lemma CalledCount(handlers: seq<Handler>, running: seq<bool>, who: nat, d: nat)
    requires |handlers| == |running| && (forall c :: 0 <= c < |handlers| ==> handlers[c].Quiet?)
    requires d < |running| && running[d] && d != who
    ensures CountTrue(CalledFor(Signal(handlers, running, who), d)) == Others(running, who) - 1
    ensures Signal(handlers, running, who)[d].Signalled?
  {
    var others := if who < |running| then running[who := false] else running;
    assert CalledFor(Signal(handlers, running, who), d) == others[d := false];
    CountSet(others, d, false);
  }

  /** The interrupt is safe to send exactly when no more processors run than are waited
      for: then every run from there that returns without a timeout leaves processor `d`
      without the page that is gone, and otherwise some such run leaves it there. */
  lemma SendExact(s: System, d: nat)
    requires Coherent(s) && s.initiator.Armed? && Runs(s, d) && d != s.who && s.initiator.v != EVERYTHING && Stale(s, d)
    ensures Orderly(s, Send(true)) <==>
              forall steps :: Returns(Next(s, Send(true)), steps) ==> !Stale(Run(Next(s, Send(true)), steps), d)
  {
    hide Stale, Coherent;
    var u := Next(s, Send(true));
    if Orderly(s, Send(true)) {
      SendKeeps(s, true);
      forall steps | Returns(u, steps) ensures !Stale(Run(u, steps), d) { NoStaleTranslation(u, steps, d); }
    } else {
      var steps := LateStale(s, d);
      assert Returns(u, steps);
    }
  }

  /** An orderly run at whose end the shootdown is over and nothing timed out. */
  predicate Returns(s: System, steps: seq<Step>)
  {
    OrderlyRun(s, steps) && Run(s, steps).timeouts == s.timeouts && Run(s, steps).initiator.Idle?
  }

  /** An instance: processor 1 holds page 5 when processor 0 unmaps it, processor 2 starts
      between the count and the interrupt, and its acknowledgement is taken for that of
      processor 1. */
  lemma LateProcessor()
    ensures var before := [Enable(0), Online(0), Enable(1), Online(1), Map(0, 5, 7), Load(1, 5)];
            var during := [Unmap(0, 5 * 4096), Enable(2), Online(2), Announce, Arm, Send(true)];
            var after := [Look(2), Invalidate(2), Acknowledge(2), Poll, Finish];
            var t := Run(Run(Run(Start(3), before), during), after);
            t.initiator.Idle? && t.timeouts == 0 && Stale(t, 1)
  {
    BeforeLate();
    DuringLate();
    AfterLate();
  }

  function Called(): System
  {
    System([true, true, true], [true, true, true], [map[], map[5 := 7], map[]], map[],
           5 * 4096, 1, 0, [Quiet, Signalled, Signalled], Waiting(5 * 4096, 0, true), 0)
  }

  lemma AfterLate()
    ensures var t := Run(Called(), [Look(2), Invalidate(2), Acknowledge(2), Poll, Finish]);
            t.initiator.Idle? && t.timeouts == 0 && Stale(t, 1)
  {
    var u, a := Called(), [Look(2), Invalidate(2), Acknowledge(2)];
    assert [Look(2), Invalidate(2), Acknowledge(2), Poll, Finish] == a + [Poll, Finish];
    RunConcat(u, a, [Poll, Finish]);
    RunThree(u, Look(2), Invalidate(2), Acknowledge(2));
    hide Run;
    AnswerLate();
    var w := Run(u, a);
    RunTwo(w, Poll, Finish);
    assert 5 in u.tlb[1] && Differs(u, 1, 5);
    StillStale(u, Next(Next(w, Poll), Finish), 1);
  }

  lemma AnswerLate()
    ensures Next(Next(Next(Called(), Look(2)), Invalidate(2)), Acknowledge(2)) ==
              Called().(pending := 0, handlers := [Quiet, Signalled, Quiet])
  {
    var u := Called();
    var a := Next(u, Look(2));
    assert a == u.(handlers := [Quiet, Signalled, Looked(false)]);
    var b := Next(a, Invalidate(2));
    assert u.tlb[2] - {5} == u.tlb[2];
    assert b == u.(handlers := [Quiet, Signalled, Invalidated]);
  }

  function Settled(): System
  {
    System([true, true, false], [true, true, false], [map[], map[5 := 7], map[]], map[5 := 7],
           0, 0, 0, [Quiet, Quiet, Quiet], Idle, 0)
  }

  /** Two processors run, one of them marked online. */
  function Started(): System
  {
    System([true, true, false], [true, false, false], [map[], map[], map[]], map[],
           0, 0, 0, [Quiet, Quiet, Quiet], Idle, 0)
  }

  lemma BeforeLate()
    ensures Run(Start(3), [Enable(0), Online(0), Enable(1), Online(1), Map(0, 5, 7), Load(1, 5)]) == Settled()
  {
    hide Next, Run, Start, Settled, Started;
    var a, b := [Enable(0), Online(0), Enable(1)], [Online(1), Map(0, 5, 7), Load(1, 5)];
    assert [Enable(0), Online(0), Enable(1), Online(1), Map(0, 5, 7), Load(1, 5)] == a + b;
    RunConcat(Start(3), a, b);
    RunThree(Start(3), Enable(0), Online(0), Enable(1));
    StartTwo();
    RunThree(Started(), Online(1), Map(0, 5, 7), Load(1, 5));
    SettleTwo();
  }

  lemma StartTwo()
    ensures Next(Next(Next(Start(3), Enable(0)), Online(0)), Enable(1)) == Started()
  {
    hide CountTrue;
    var s := Start(3);
    assert s == System([false, false, false], [false, false, false], [map[], map[], map[]], map[],
                       0, 0, 0, [Quiet, Quiet, Quiet], Idle, 0);
    assert Next(s, Enable(0)) == s.(running := [true, false, false]);
    assert Next(Next(s, Enable(0)), Online(0)) == s.(running := [true, false, false], online := [true, false, false]);
  }

  lemma SettleTwo()
    ensures Next(Next(Next(Started(), Online(1)), Map(0, 5, 7)), Load(1, 5)) == Settled()
  {
    hide CountTrue;
    var s := Started();
    assert Next(s, Online(1)) == s.(online := [true, true, false]);
    assert s.tlb[0] - {5} == s.tlb[0];
    assert Next(Next(s, Online(1)), Map(0, 5, 7)) == s.(online := [true, true, false], mapped := map[5 := 7]);
  }

  /** The page is gone and a third processor has come. */
  function Joined(): System
  {
    System([true, true, true], [true, true, true], [map[], map[5 := 7], map[]], map[],
           0, 0, 0, [Quiet, Quiet, Quiet], Counted(5 * 4096, 2), 0)
  }

  lemma DuringLate()
    ensures Run(Settled(), [Unmap(0, 5 * 4096), Enable(2), Online(2), Announce, Arm, Send(true)]) == Called()
  {
    hide Next, Run, Settled, Joined, Called;
    var a, b := [Unmap(0, 5 * 4096), Enable(2), Online(2)], [Announce, Arm, Send(true)];
    assert [Unmap(0, 5 * 4096), Enable(2), Online(2), Announce, Arm, Send(true)] == a + b;
    RunConcat(Settled(), a, b);
    RunThree(Settled(), Unmap(0, 5 * 4096), Enable(2), Online(2));
    JoinThird();
    RunThree(Joined(), Announce, Arm, Send(true));
    CallAll();
  }

  lemma JoinThird()
    ensures Next(Next(Next(Settled(), Unmap(0, 5 * 4096)), Enable(2)), Online(2)) == Joined()
  {
    CountTwo();
    hide CountTrue;
    var s := Settled();
    assert s.mapped - {5} == map[];
    var u := Next(s, Unmap(0, 5 * 4096));
    assert u == s.(mapped := map[], initiator := Counted(5 * 4096, 2));
    assert Next(u, Enable(2)) == u.(running := [true, true, true]);
  }

  lemma CallAll()
    ensures Next(Next(Next(Joined(), Announce), Arm), Send(true)) == Called()
  {
    hide CountTrue;
    var s := Joined();
    var u := Next(Next(s, Announce), Arm);
    assert u == s.(addr := 5 * 4096, pending := 1, initiator := Armed(5 * 4096));
    assert Signal(u.handlers, u.running, u.who) == [Quiet, Signalled, Signalled];
  }

  lemma CountTwo()
    ensures CountTrue([true, true, false]) == 2
  {
    var s := [true, true, false];
    assert s[1..] == [true, false] && s[1..][1..] == [false] && s[1..][1..][1..] == [];
  }

  // ------------------------------------------------------------ timeouts and full flushes

  /** The guarantee ends with a timeout: giving up on a processor that has not answered
      leaves it a translation of the page that is gone. */
  lemma TimeoutLeavesStale(s: System, d: nat)
    requires Coherent(s) && s.initiator.Waiting? && s.initiator.spins + 1 >= 1_000_000 && s.pending > 0
    requires Runs(s, d) && d != s.who && Stale(s, d)
    ensures var t := Run(s, [Poll, Finish]);
            t.initiator.Idle? && t.timeouts == s.timeouts + 1 && Stale(t, d) && !Coherent(t)
  {
    RunTwo(s, Poll, Finish);
    hide Run, Coherent;
    StillStale(s, Next(Next(s, Poll), Finish), d);
  }

  /** No wait ends early: giving up takes 1000000 polls that find acknowledgements missing. */
  lemma {:induction false} NoEarlyTimeout(s: System, steps: seq<Step>)
    requires s.initiator.Waiting? && s.initiator.spins + Polls(steps) < 1_000_000
    requires forall i :: 0 <= i < |steps| ==> !steps[i].Announce? && !steps[i].Unmap? && !steps[i].Flush?
    ensures Run(s, steps).timeouts == s.timeouts
    decreases |steps|
  {
    hide CountTrue;
    if steps != [] {
      var t := Next(s, steps[0]);
      if t.initiator.Waiting? { NoEarlyTimeout(t, steps[1..]); } else { OverAndDone(t, steps[1..]); }
    }
  }

  function Polls(steps: seq<Step>): nat
  {
    if steps == [] then 0 else (if steps[0].Poll? then 1 else 0) + Polls(steps[1..])
  }

  lemma {:induction false} OverAndDone(s: System, steps: seq<Step>)
    requires s.initiator.Idle? || s.initiator.Leaving?
    requires forall i :: 0 <= i < |steps| ==> !steps[i].Announce? && !steps[i].Unmap? && !steps[i].Flush?
    ensures Run(s, steps).timeouts == s.timeouts
    decreases |steps|
  {
    hide CountTrue;
    if steps != [] { OverAndDone(Next(s, steps[0]), steps[1..]); }
  }

  /** Pages that processor `d` loads in a run. */
  ghost function Loads(steps: seq<Step>, d: nat): set<nat>
  {
    if steps == [] then {}
    else (if steps[0].Load? && steps[0].c == d then {steps[0].p} else {}) + Loads(steps[1..], d)
  }

  /** Every translation of processor `d` is of a page in `pages`. */
  ghost predicate Only(s: System, d: nat, pages: set<nat>)
  {
    d < |s.tlb| && forall p :: p in s.tlb[d] ==> p in pages
  }

  /** Processor `d` has thrown away what it held, or is about to. */
  ghost predicate Emptied(s: System, d: nat, pages: set<nat>)
  {
    && Runs(s, d) && d < |s.handlers|
    && match s.handlers[d]
       case Quiet => Only(s, d, pages)
       case Invalidated => Only(s, d, pages)
       case Signalled => s.addr == EVERYTHING || Only(s, d, pages)
       case Looked(full) => full || Only(s, d, pages)
  }

  lemma OnlyStep(s: System, step: Step, d: nat, pages: set<nat>)
    requires Only(s, d, pages)
    ensures Only(Next(s, step), d, pages + Loads([step], d))
  {
    assert Loads([step], d) == if step.Load? && step.c == d then {step.p} else {} by { assert [step][1..] == []; }
    hide CountTrue, Loads, Signal, WORD, SPIN_LIMIT, EVERYTHING;
  }

  lemma FullInvalidates(s: System, d: nat, pages: set<nat>)
    requires Runs(s, d) && d < |s.handlers|
    ensures s.handlers[d].Looked? && s.handlers[d].full ==> Only(Next(s, Invalidate(d)), d, pages)
  {}

  lemma EmptiedStep(s: System, step: Step, d: nat, pages: set<nat>)
    requires Emptied(s, d, pages) && (s.initiator.Counted? || s.initiator.Armed? ==> s.handlers[d].Quiet?)
    ensures Emptied(Next(s, step), d, pages + Loads([step], d))
  {
    hide CountTrue, Loads, Only, PageOf, WORD, SPIN_LIMIT, EVERYTHING;
    if Only(s, d, pages) { OnlyStep(s, step, d, pages); }
    if step == Invalidate(d) { FullInvalidates(s, d, pages + Loads([step], d)); }
  }

  lemma StillQuiet(s: System, d: nat, pages: set<nat>)
    requires Coherent(s) && Emptied(s, d, pages)
    ensures d < |s.handlers| && (s.initiator.Counted? || s.initiator.Armed? ==> s.handlers[d].Quiet?)
  {
    hide CountTrue, Owing, AllFresh, OthersFresh, Only;
  }

  lemma {:induction false} EmptiedRun(s: System, steps: seq<Step>, d: nat, pages: set<nat>)
    requires Coherent(s) && OrderlyRun(s, steps) && Run(s, steps).timeouts == s.timeouts && Emptied(s, d, pages)
    ensures Emptied(Run(s, steps), d, pages + Loads(steps, d))
    decreases |steps|
  {
    if steps == [] {
      assert pages + Loads(steps, d) == pages;
    } else {
      hide Next, Coherent, Orderly, Emptied;
      var t := Next(s, steps[0]);
      TimeoutsGrow(s, steps[0]);
      RunTimeouts(t, steps[1..]);
      StepKeeps(s, steps[0]);
      StillQuiet(s, d, pages);
      EmptiedStep(s, steps[0], d, pages);
      EmptiedRun(t, steps[1..], d, pages + Loads([steps[0]], d));
      LoadsParts(steps, d, pages);
    }
  }

  lemma LoadsParts(steps: seq<Step>, d: nat, pages: set<nat>)
    requires steps != []
    ensures pages + Loads([steps[0]], d) + Loads(steps[1..], d) == pages + Loads(steps, d)
  {
    assert [steps[0]][1..] == [];
  }

  /** A full flush reaches everybody else: whatever the interleaving, once it returns without a
      timeout, each other processor that ran when the interrupt was sent holds only what it
      has loaded itself since then, and nothing at all if it loaded nothing. */
  lemma FlushEmptiesOthers(s: System, c: nat, before: seq<Step>, after: seq<Step>, d: nat)
    requires Coherent(s) && s.initiator.Idle? && Runs(s, c) && OrderlyRun(s, [Flush(c)] + before)
    requires forall i :: 0 <= i < |before| ==> !before[i].Finish?
    requires var u := Run(s, [Flush(c)] + before);
             && u.timeouts == s.timeouts && u.initiator.Armed? && Orderly(u, Send(true)) && Runs(u, d) && d != c
             && Returns(Next(u, Send(true)), after)
    ensures Run(s, [Flush(c)] + before).addr == 0xFFFF_FFFF
    ensures var t := Run(Next(Run(s, [Flush(c)] + before), Send(true)), after);
            && d < |t.tlb| && t.tlb[d].Keys <= Loads(after, d)
            && (Loads(after, d) == {} ==> t.tlb[d] == map[])
  {
    hide Next, Coherent, Orderly, Loads;
    var u := Run(s, [Flush(c)] + before);
    EveryRunCoherent(s, [Flush(c)] + before);
    FlushBegins(s, c);
    FlushGoesOn(Next(s, Flush(c)), before, c);
    assert ([Flush(c)] + before)[1..] == before;
    SendEmpties(u, d);
    SendKeeps(u, true);
    EmptiedRun(Next(u, Send(true)), after, d, {});
    EveryRunCoherent(Next(u, Send(true)), after);
    var t := Run(Next(u, Send(true)), after);
    IdleQuiet(t);
    assert {} + Loads(after, d) == Loads(after, d);
  }

  /** A full flush by `c` is under way. */
  predicate Flushing(s: System, c: nat) { !s.initiator.Idle? && s.who == c && s.initiator.v == EVERYTHING }

  lemma FlushBegins(s: System, c: nat)
    requires s.initiator.Idle? && Runs(s, c)
    ensures Flushing(Next(s, Flush(c)), c)
  {
    hide CountTrue;
  }

  lemma {:induction false} FlushGoesOn(s: System, steps: seq<Step>, c: nat)
    requires Flushing(s, c) && forall i :: 0 <= i < |steps| ==> !steps[i].Finish?
    ensures Flushing(Run(s, steps), c)
    decreases |steps|
  {
    hide CountTrue;
    if steps != [] { FlushGoesOn(Next(s, steps[0]), steps[1..], c); }
  }

  lemma SendEmpties(u: System, d: nat)
    requires Coherent(u) && u.initiator.Armed? && u.initiator.v == EVERYTHING && Runs(u, d) && d != u.who
    ensures Emptied(Next(u, Send(true)), d, {}) && Next(u, Send(true)).timeouts == u.timeouts && u.addr == EVERYTHING
  {
    hide CountTrue, Owing, Others;
  }

  lemma IdleQuiet(s: System)
    requires Coherent(s) && s.initiator.Idle?
    ensures AllQuiet(s)
  {}

  /** The shootdown of `c` is under way and its own TLB is as it was. */
  predicate Untouched(s: System, c: nat, t: Translation)
  {
    && !s.initiator.Idle? && s.who == c && s.initiator.v == EVERYTHING
    && c < |s.tlb| && s.tlb[c] == t && Runs(s, c) && c < |s.handlers| && s.handlers[c].Quiet?
  }

  /** Not a step that changes the TLB of `c` from outside the shootdown, or ends it. */
  predicate Elsewhere(step: Step, c: nat)
  {
    !step.Finish? && (step.Load? ==> step.c != c) && (step.Map? ==> step.c != c)
  }

  lemma UntouchedStep(s: System, step: Step, c: nat, t: Translation)
    requires Untouched(s, c, t) && Elsewhere(step, c)
    ensures Untouched(Next(s, step), c, t)
  {
    hide CountTrue;
  }

  lemma {:induction false} InitiatorUntouched(s: System, steps: seq<Step>, c: nat, t: Translation)
    requires Untouched(s, c, t) && forall i :: 0 <= i < |steps| ==> Elsewhere(steps[i], c)
    ensures Untouched(Run(s, steps), c, t)
    decreases |steps|
  {
    if steps != [] {
      assert Elsewhere(steps[0], c);
      UntouchedStep(s, steps[0], c, t);
      hide Next, Untouched;
      InitiatorUntouched(Next(s, steps[0]), steps[1..], c, t);
    }
  }

  /** Whatever the others do meanwhile, the initiator of a full flush comes out of it with
      every translation it had but the one of the last page: it does not flush itself. */
  lemma FlushSparesInitiator(s: System, c: nat, steps: seq<Step>, p: nat)
    requires Coherent(s) && s.initiator.Idle? && Runs(s, c)
    requires forall i :: 0 <= i < |steps| ==> Elsewhere(steps[i], c)
    requires Run(Next(s, Flush(c)), steps).initiator.Leaving?
    ensures var t := Next(Run(Next(s, Flush(c)), steps), Finish);
            c < |t.tlb| && (p in t.tlb[c] <==> p in s.tlb[c] && p != PageOf(EVERYTHING))
  {
    hide CountTrue;
    InitiatorUntouched(Next(s, Flush(c)), steps, c, s.tlb[c]);
  }
}
