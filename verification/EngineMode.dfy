/** R5xx: the 2D and the 3D engine share one command stream. Before one of them draws, the
    driver makes it wait until the other is idle, and remembers in a mode what it waited for. */
module EngineMode {
  import opened Wrappers

  datatype Mode = Unknown | IdleFull | Idle2D | Idle3D

  /** What the driver remembers: what was waited for last, and whether its 3D state is in the engine. */
  datatype State = State(mode: Mode, has3D: bool)

  datatype Cmd = Draw2D | Draw3D | Wait2D | Wait3D | WaitEngines | WaitAll

  // ---- The stream as the card sees it ----

  /** Which engine has drawing that nothing has waited for yet. */
  datatype Pending = Pending(twoD: bool, threeD: bool)

  /** A command's effect, or None if an engine draws while the other still has drawing in flight. */
  function Execute(p: Pending, c: Cmd): Option<Pending> {
    match c
    case Draw2D => if p.threeD then None else Some(p.(twoD := true))
    case Draw3D => if p.twoD then None else Some(p.(threeD := true))
    case Wait2D => Some(p.(twoD := false))
    case Wait3D => Some(p.(threeD := false))
    case WaitEngines => Some(Pending(false, false))
    case WaitAll => Some(Pending(false, false))
  }

  function ExecuteAll(p: Pending, log: seq<Cmd>): Option<Pending>
    decreases log
  {
    if log == [] then Some(p)
    else
      match Execute(p, log[0])
      case Some(q) => ExecuteAll(q, log[1..])
      case None => None
  }

  predicate Safe(p: Pending, log: seq<Cmd>) {
    ExecuteAll(p, log).Some?
  }

  lemma {:induction false} ExecuteAppend(p: Pending, a: seq<Cmd>, b: seq<Cmd>)
    ensures ExecuteAll(p, a + b) == match ExecuteAll(p, a) case Some(q) => ExecuteAll(q, b) case None => None
    decreases a
  {
    if a == [] {
      assert a + b == b;
    } else {
      assert (a + b)[0] == a[0] && (a + b)[1..] == a[1..] + b;
      if Execute(p, a[0]).Some? {
        ExecuteAppend(Execute(p, a[0]).value, a[1..], b);
      }
    }
  }

  // ---- What the server may ask for ----

  datatype Event =
    | PrepareSolid | Solid | DoneSolid
    | PrepareCopy | Copy | DoneCopy
    | PrepareComposite | RefuseComposite | Composite(tiles: nat) | DoneComposite
    | Upload(packets: nat) | Download(blits: nat)
    | VideoUpload(packets: nat) | TexturedVideo(boxes: nat)
    | WaitFull | LoseState

  datatype Phase = Between | Solids | Copies | Composites

  /** The phase an event leads to: drawing only after its Prepare, everything else only in between. */
  function Follow(phase: Phase, e: Event): Option<Phase> {
    match (phase, e)
    case (Between, PrepareSolid) => Some(Solids)
    case (Solids, Solid) => Some(Solids)
    case (Solids, DoneSolid) => Some(Between)
    case (Between, PrepareCopy) => Some(Copies)
    case (Copies, Copy) => Some(Copies)
    case (Copies, DoneCopy) => Some(Between)
    case (Between, PrepareComposite) => Some(Composites)
    case (Composites, Composite(_)) => Some(Composites)
    case (Composites, DoneComposite) => Some(Between)
    case (Between, Upload(_)) => Some(Between)
    case (Between, Download(_)) => Some(Between)
    case (Between, VideoUpload(_)) => Some(Between)
    case (Between, TexturedVideo(_)) => Some(Between)
    case (Between, RefuseComposite) => Some(Between)
    case (Between, WaitFull) => Some(Between)
    case (Between, LoseState) => Some(Between)
    case _ => None
  }

  predicate Legal(phase: Phase, events: seq<Event>)
    decreases events
  {
    events == [] || match Follow(phase, events[0]) case Some(next) => Legal(next, events[1..]) case None => false
  }

  // ---- What the driver emits ----

  function WaitIdle3D(m: Mode): (seq<Cmd>, Mode) {
    (if m == Idle2D then [Wait3D] else [], Idle3D)
  }

  function WaitIdle2D(m: Mode): (seq<Cmd>, Mode) {
    (if m == Idle3D then [Wait2D] else [], Idle2D)
  }

  function Repeat(c: Cmd, n: nat): seq<Cmd> {
    if n == 0 then [] else Repeat(c, n - 1) + [c]
  }

  /** Putting the 3D state into the engine waits for both engines, three times on the way. */
  function SetUp(has3D: bool): seq<Cmd> {
    if has3D then [] else [WaitEngines, WaitEngines, WaitEngines]
  }

  /** The commands of an event, and the state after it. */
  function Emit(s: State, e: Event): (seq<Cmd>, State) {
    var m := s.mode;
    match e
    case PrepareSolid => (WaitIdle3D(m).0, s.(mode := Idle3D))
    case Solid => ([Draw2D], s)
    case DoneSolid => (WaitIdle2D(m).0, s.(mode := Idle2D))
    case PrepareCopy => (WaitIdle3D(m).0, s.(mode := Idle3D))
    case Copy => ([Draw2D], s)
    case DoneCopy => (WaitIdle2D(m).0, s.(mode := Idle2D))
    case PrepareComposite => (SetUp(s.has3D) + WaitIdle2D(m).0, State(Idle2D, true))
    case RefuseComposite => (SetUp(s.has3D), State(m, true))
    case Composite(n) => (Repeat(Draw3D, n), s)
    case DoneComposite => ([Wait3D], s)
    case Upload(n) => (WaitIdle3D(m).0 + Repeat(Draw2D, n) + WaitIdle2D(Idle3D).0, s.(mode := Idle2D))
    case Download(n) => (WaitIdle3D(m).0 + Repeat(Draw2D, n) + WaitIdle2D(Idle3D).0, s.(mode := Idle2D))
    case VideoUpload(n) => (WaitIdle3D(m).0 + Repeat(Draw2D, n), s.(mode := Idle3D))
    case TexturedVideo(n) =>
      (SetUp(s.has3D) + WaitIdle2D(m).0 + [WaitAll] + Repeat(Draw3D, n) + [Wait3D], State(Idle2D, true))
    case WaitFull => ([WaitAll], s.(mode := IdleFull))
    case LoseState => ([WaitAll], State(IdleFull, false))
  }

  function Run(s: State, events: seq<Event>): seq<Cmd>
    decreases events
  {
    if events == [] then [] else Emit(s, events[0]).0 + Run(Emit(s, events[0]).1, events[1..])
  }

  // ---- The interlock ----

  /** The driver's memory tells the truth: 3D drawing in flight means the mode claims only the 2D engine idle; 2D
      drawing the other way round, unless putting the 3D state back will make the engine wait in any case. */
  predicate Honest(s: State, p: Pending) {
    (p.twoD ==> s.mode == Idle3D || !s.has3D) && (p.threeD ==> s.mode == Idle2D)
  }

  /** In a drawing phase the other engine has been waited for. */
  predicate Kept(phase: Phase, s: State, p: Pending) {
    && Honest(s, p)
    && (phase in {Solids, Copies} ==> s.mode == Idle3D && !p.threeD)
    && (phase == Composites ==> s.mode == Idle2D && !p.twoD)
  }

  lemma {:induction false} RepeatedDraws(p: Pending, n: nat)
    ensures !p.threeD ==> ExecuteAll(p, Repeat(Draw2D, n)) == Some(if n == 0 then p else p.(twoD := true))
    ensures !p.twoD ==> ExecuteAll(p, Repeat(Draw3D, n)) == Some(if n == 0 then p else p.(threeD := true))
    decreases n
  {
    if n > 0 {
      RepeatedDraws(p, n - 1);
      ExecuteAppend(p, Repeat(Draw2D, n - 1), [Draw2D]);
      ExecuteAppend(p, Repeat(Draw3D, n - 1), [Draw3D]);
    }
  }

  lemma WaitFor3D(m: Mode, p: Pending)
    requires p.threeD ==> m == Idle2D
    ensures ExecuteAll(p, WaitIdle3D(m).0) == Some(p.(threeD := false))
  {
    if m == Idle2D {
      ExecuteOne(p, Wait3D);
    }
  }

  lemma WaitFor2D(m: Mode, p: Pending)
    requires p.twoD ==> m == Idle3D
    ensures ExecuteAll(p, WaitIdle2D(m).0) == Some(p.(twoD := false))
  {
    if m == Idle3D {
      ExecuteOne(p, Wait2D);
    }
  }

  lemma SetUpWaits(has3D: bool, p: Pending)
    ensures ExecuteAll(p, SetUp(has3D)) == Some(if has3D then p else Pending(false, false))
  {
    if !has3D {
      var idle := Pending(false, false);
      assert SetUp(has3D) == [WaitEngines] + ([WaitEngines] + [WaitEngines]);
      ExecuteAppend(p, [WaitEngines], [WaitEngines] + [WaitEngines]);
      ExecuteAppend(idle, [WaitEngines], [WaitEngines]);
      ExecuteOne(p, WaitEngines);
      ExecuteOne(idle, WaitEngines);
    }
  }

  /** The way into 3D drawing leaves no 2D drawing in flight. */
  lemma EnterComposite(s: State, p: Pending)
    requires Honest(s, p)
    ensures ExecuteAll(p, SetUp(s.has3D) + WaitIdle2D(s.mode).0) == Some(Pending(false, p.threeD && s.has3D))
  {
    SetUpWaits(s.has3D, p);
    ExecuteAppend(p, SetUp(s.has3D), WaitIdle2D(s.mode).0);
    WaitFor2D(s.mode, if s.has3D then p else Pending(false, false));
  }

  lemma ExecuteOne(p: Pending, c: Cmd)
    ensures ExecuteAll(p, [c]) == Execute(p, c)
  {
    assert [c][1..] == [];
    if Execute(p, c).Some? {
      assert ExecuteAll(Execute(p, c).value, []) == Execute(p, c);
    }
  }

  /** Every event keeps the invariant, and what it emits is safe. */
  lemma EventKeeps(phase: Phase, s: State, p: Pending, e: Event)
    requires Kept(phase, s, p) && Follow(phase, e).Some?
    ensures var q := ExecuteAll(p, Emit(s, e).0); q.Some? && Kept(Follow(phase, e).value, Emit(s, e).1, q.value)
  {
    WaitFor3D(s.mode, p);
    match e
    case Solid => ExecuteOne(p, Draw2D);
    case DoneSolid => WaitFor2D(s.mode, p);
    case Copy => ExecuteOne(p, Draw2D);
    case DoneCopy => WaitFor2D(s.mode, p);
    case PrepareComposite => EnterComposite(s, p);
    case RefuseComposite => SetUpWaits(s.has3D, p);
    case Composite(n) => RepeatedDraws(p, n);
    case DoneComposite => ExecuteOne(p, Wait3D);
    case Upload(n) => TransferKeeps(s.mode, p, n);
    case Download(n) => TransferKeeps(s.mode, p, n);
    case VideoUpload(n) =>
      ExecuteAppend(p, WaitIdle3D(s.mode).0, Repeat(Draw2D, n));
      RepeatedDraws(p.(threeD := false), n);
    case TexturedVideo(n) => FrameKeeps(s, p, n);
    case WaitFull => ExecuteOne(p, WaitAll);
    case LoseState => ExecuteOne(p, WaitAll);
    case _ =>
  }

  lemma TransferKeeps(m: Mode, p: Pending, n: nat)
    requires p.threeD ==> m == Idle2D
    ensures ExecuteAll(p, WaitIdle3D(m).0 + Repeat(Draw2D, n) + WaitIdle2D(Idle3D).0) == Some(Pending(false, false))
  {
    WaitFor3D(m, p);
    RepeatedDraws(p.(threeD := false), n);
    ExecuteAppend(p, WaitIdle3D(m).0, Repeat(Draw2D, n));
    ExecuteAppend(p, WaitIdle3D(m).0 + Repeat(Draw2D, n), [Wait2D]);
    ExecuteOne(if n == 0 then p.(threeD := false) else p.(threeD := false, twoD := true), Wait2D);
  }

  /** A video frame is safe whatever is in flight: it waits for everything first, and for its own drawing last. */
  lemma FrameKeeps(s: State, p: Pending, n: nat)
    ensures ExecuteAll(p, Emit(s, TexturedVideo(n)).0) == Some(Pending(false, false))
  {
    var idle, entry := Pending(false, false), SetUp(s.has3D) + WaitIdle2D(s.mode).0;
    SetUpWaits(s.has3D, p);
    var q := if s.has3D then p else idle;
    ExecuteAppend(p, SetUp(s.has3D), WaitIdle2D(s.mode).0);
    if s.mode == Idle3D {
      ExecuteOne(q, Wait2D);
    }
    ExecuteAppend(p, entry, [WaitAll]);
    ExecuteOne(if s.mode == Idle3D then q.(twoD := false) else q, WaitAll);
    ExecuteAppend(p, entry + [WaitAll], Repeat(Draw3D, n));
    RepeatedDraws(idle, n);
    ExecuteAppend(p, entry + [WaitAll] + Repeat(Draw3D, n), [Wait3D]);
    ExecuteOne(if n == 0 then idle else idle.(threeD := true), Wait3D);
  }

  lemma {:induction false} RunKeeps(phase: Phase, s: State, p: Pending, events: seq<Event>)
    requires Kept(phase, s, p) && Legal(phase, events)
    ensures Safe(p, Run(s, events))
    decreases events
  {
    if events != [] {
      EventKeeps(phase, s, p, events[0]);
      var q := ExecuteAll(p, Emit(s, events[0]).0).value;
      RunKeeps(Follow(phase, events[0]).value, Emit(s, events[0]).1, q, events[1..]);
      ExecuteAppend(p, Emit(s, events[0]).0, Run(Emit(s, events[0]).1, events[1..]));
    }
  }

  /** Whatever the server asks for, no engine draws into the other's unfinished work, exactly if
      the driver's memory tells the truth about what is in flight at the start. */
  lemma InterlockIff(s: State, p: Pending)
    ensures (forall events | Legal(Between, events) :: Safe(p, Run(s, events))) <==> Honest(s, p)
  {
    if Honest(s, p) {
      forall events | Legal(Between, events) ensures Safe(p, Run(s, events)) {
        RunKeeps(Between, s, p, events);
      }
    } else if p.twoD && s.mode != Idle3D && s.has3D {
      Clash3D(s, p);
    } else {
      Clash2D(s, p);
    }
  }

  /** A mode that hides 2D drawing lets a composite start over it. */
  lemma Clash3D(s: State, p: Pending)
    requires p.twoD && s.mode != Idle3D && s.has3D
    ensures Legal(Between, [PrepareComposite, Composite(1)]) && !Safe(p, Run(s, [PrepareComposite, Composite(1)]))
  {
    var events := [PrepareComposite, Composite(1)];
    assert events[1..] == [Composite(1)] && events[1..][1..] == [];
    assert Legal(Composites, events[1..][1..]) && Legal(Composites, events[1..]);
    assert Repeat(Draw3D, 1) == [Draw3D];
    assert Run(State(Idle2D, true), events[1..]) == [Draw3D];
    assert Run(s, events) == [Draw3D];
    ExecuteOne(p, Draw3D);
  }

  /** A mode that hides 3D drawing lets 2D drawing start over it. */
  lemma Clash2D(s: State, p: Pending)
    requires p.threeD && s.mode != Idle2D
    ensures Legal(Between, [VideoUpload(1)]) && !Safe(p, Run(s, [VideoUpload(1)]))
  {
    var events := [VideoUpload(1)];
    assert events[1..] == [] && Legal(Between, events[1..]);
    assert Repeat(Draw2D, 1) == [Draw2D];
    assert Run(s, events) == [Draw2D];
    ExecuteOne(p, Draw2D);
  }

  // ---- What is drawn ----

  /** The drawing an event asks for, in the order of its parts. */
  function AskedBy(e: Event): seq<Cmd> {
    match e
    case Solid => [Draw2D]
    case Copy => [Draw2D]
    case Composite(tiles) => seq(tiles, _ => Draw3D)
    case Upload(packets) => seq(packets, _ => Draw2D)
    case Download(blits) => seq(blits, _ => Draw2D)
    case VideoUpload(packets) => seq(packets, _ => Draw2D)
    case TexturedVideo(boxes) => seq(boxes, _ => Draw3D)
    case _ => []
  }

  function Asked(events: seq<Event>): seq<Cmd> {
    if events == [] then [] else AskedBy(events[0]) + Asked(events[1..])
  }

  /** A stream without its waits. */
  function Drawing(log: seq<Cmd>): seq<Cmd> {
    if log == [] then []
    else (if log[0] == Draw2D || log[0] == Draw3D then [log[0]] else []) + Drawing(log[1..])
  }

  lemma {:induction false} DrawingAppend(a: seq<Cmd>, b: seq<Cmd>)
    ensures Drawing(a + b) == Drawing(a) + Drawing(b)
    decreases a
  {
    if a == [] {
      assert a + b == b;
    } else {
      assert (a + b)[0] == a[0] && (a + b)[1..] == a[1..] + b;
      DrawingAppend(a[1..], b);
    }
  }

  lemma DrawingOfOne(c: Cmd)
    ensures Drawing([c]) == if c == Draw2D || c == Draw3D then [c] else []
  {
    assert [c][1..] == [];
    assert Drawing([]) == [];
  }

  lemma {:induction false} DrawingOfRepeat(c: Cmd, n: nat)
    requires c == Draw2D || c == Draw3D
    ensures Drawing(Repeat(c, n)) == seq(n, _ => c)
  {
    if n > 0 {
      DrawingOfRepeat(c, n - 1);
      DrawingAppend(Repeat(c, n - 1), [c]);
      DrawingOfOne(c);
    }
  }

  lemma WaitsDrawNothing(m: Mode, has3D: bool)
    ensures Drawing(WaitIdle3D(m).0) == [] && Drawing(WaitIdle2D(m).0) == [] && Drawing(SetUp(has3D)) == []
  {
    DrawingOfOne(Wait2D);
    DrawingOfOne(Wait3D);
    DrawingOfOne(WaitEngines);
    assert [WaitEngines, WaitEngines, WaitEngines] == [WaitEngines] + ([WaitEngines] + [WaitEngines]);
    DrawingAppend([WaitEngines], [WaitEngines] + [WaitEngines]);
    DrawingAppend([WaitEngines], [WaitEngines]);
  }

  /** Every event emits its drawing, and nothing else but waits. */
  lemma EventDraws(s: State, e: Event)
    ensures Drawing(Emit(s, e).0) == AskedBy(e)
  {
    WaitsDrawNothing(s.mode, s.has3D);
    match e
    case Solid => DrawingOfOne(Draw2D);
    case Copy => DrawingOfOne(Draw2D);
    case PrepareComposite => DrawingAppend(SetUp(s.has3D), WaitIdle2D(s.mode).0);
    case Composite(n) => DrawingOfRepeat(Draw3D, n);
    case DoneComposite => DrawingOfOne(Wait3D);
    case Upload(n) => TransferDraws(s, n);
    case Download(n) => TransferDraws(s, n);
    case VideoUpload(n) =>
      DrawingAppend(WaitIdle3D(s.mode).0, Repeat(Draw2D, n));
      DrawingOfRepeat(Draw2D, n);
    case TexturedVideo(n) => FrameDraws(s, n);
    case WaitFull => DrawingOfOne(WaitAll);
    case LoseState => DrawingOfOne(WaitAll);
    case _ =>
  }

  lemma TransferDraws(s: State, n: nat)
    ensures Drawing(WaitIdle3D(s.mode).0 + Repeat(Draw2D, n) + WaitIdle2D(Idle3D).0) == seq(n, _ => Draw2D)
  {
    WaitsDrawNothing(s.mode, s.has3D);
    WaitsDrawNothing(Idle3D, s.has3D);
    DrawingOfRepeat(Draw2D, n);
    DrawingAppend(WaitIdle3D(s.mode).0, Repeat(Draw2D, n));
    DrawingAppend(WaitIdle3D(s.mode).0 + Repeat(Draw2D, n), WaitIdle2D(Idle3D).0);
  }

  lemma FrameDraws(s: State, n: nat)
    ensures Drawing(Emit(s, TexturedVideo(n)).0) == seq(n, _ => Draw3D)
  {
    var a, b := SetUp(s.has3D), WaitIdle2D(s.mode).0;
    WaitsDrawNothing(s.mode, s.has3D);
    DrawingAppend(a, b);
    DrawingAppend(a + b, [WaitAll]);
    DrawingAppend(a + b + [WaitAll], Repeat(Draw3D, n));
    DrawingAppend(a + b + [WaitAll] + Repeat(Draw3D, n), [Wait3D]);
    DrawingOfOne(WaitAll);
    DrawingOfOne(Wait3D);
    DrawingOfRepeat(Draw3D, n);
  }

  /** From any state, a run draws what was asked for, in order, and nothing else. */
  lemma {:induction false} RunDraws(s: State, events: seq<Event>)
    ensures Drawing(Run(s, events)) == Asked(events)
    decreases events
  {
    if events != [] {
      EventDraws(s, events[0]);
      RunDraws(Emit(s, events[0]).1, events[1..]);
      DrawingAppend(Emit(s, events[0]).0, Run(Emit(s, events[0]).1, events[1..]));
    }
  }

  // ---- The driver's state ----

  class Interlock {
    var mode: Mode
    var has3D: bool
    var log: seq<Cmd>

    constructor ()
      ensures Now() == State(Unknown, false) && log == []
    {
      mode, has3D, log := Unknown, false, [];
    }

    function Now(): State
      reads this
    {
      State(mode, has3D)
    }

    method EngineWaitIdleFull()
      modifies `mode, `log
      ensures log == old(log) + [WaitAll] && mode == IdleFull
    {
      log := log + [WaitAll];
      mode := IdleFull;
    }

    method EngineWaitIdle3D()
      modifies `mode, `log
      ensures log == old(log) + (if old(mode) == Idle2D then [Wait3D] else []) && mode == Idle3D
    {
      if mode == Idle2D {
        log := log + [Wait3D];
      }
      mode := Idle3D;
    }

    method EngineWaitIdle2D()
      modifies `mode, `log
      ensures log == old(log) + (if old(mode) == Idle3D then [Wait2D] else []) && mode == Idle2D
    {
      if mode == Idle3D {
        log := log + [Wait2D];
      }
      mode := Idle2D;
    }

    method Draw(c: Cmd, n: nat)
      modifies `log
      ensures log == old(log) + Repeat(c, n)
    {
      var i := 0;
      while i < n
        invariant i <= n && log == old(log) + Repeat(c, i)
      {
        log := log + [c];
        i := i + 1;
      }
    }

    /** The 3D state goes into the engine if it is not there. */
    method NeedState()
      modifies `has3D, `log
      ensures log == old(log) + (if old(has3D) then [] else [WaitEngines, WaitEngines, WaitEngines]) && has3D
    {
      if !has3D {
        log := log + [WaitEngines, WaitEngines, WaitEngines];
        has3D := true;
      }
    }

    method Perform(e: Event)
      modifies this
      ensures log == old(log) + Emit(old(Now()), e).0 && Now() == Emit(old(Now()), e).1
    {
      match e {
        case PrepareSolid => EngineWaitIdle3D();
        case Solid => log := log + [Draw2D];
        case DoneSolid => EngineWaitIdle2D();
        case PrepareCopy => EngineWaitIdle3D();
        case Copy => log := log + [Draw2D];
        case DoneCopy => EngineWaitIdle2D();
        case PrepareComposite =>
          NeedState();
          EngineWaitIdle2D();
        case RefuseComposite => NeedState();
        case Composite(n) => Draw(Draw3D, n);
        case DoneComposite => log := log + [Wait3D];
        case Upload(n) => Transfer(n);
        case Download(n) => Transfer(n);
        case VideoUpload(n) =>
          EngineWaitIdle3D();
          Draw(Draw2D, n);
        case TexturedVideo(n) => DisplayFrame(n);
        case WaitFull => EngineWaitIdleFull();
        case LoseState =>
          has3D := false;
          EngineWaitIdleFull();
      }
    }

    /** A video frame: one 3D drawing for each clip box. */
    method DisplayFrame(n: nat)
      modifies this
      ensures log == old(log) + Emit(old(Now()), TexturedVideo(n)).0 && Now() == State(Idle2D, true)
    {
      NeedState();
      EngineWaitIdle2D();
      log := log + [WaitAll];
      Draw(Draw3D, n);
      log := log + [Wait3D];
    }

    /** Both directions: one 2D operation for each pass, between a wait for 3D and one for 2D. */
    method Transfer(n: nat)
      modifies `mode, `log
      ensures log == old(log) + (WaitIdle3D(old(mode)).0 + Repeat(Draw2D, n) + WaitIdle2D(Idle3D).0) && mode == Idle2D
    {
      EngineWaitIdle3D();
      Draw(Draw2D, n);
      EngineWaitIdle2D();
    }
  }

  /** The driver itself, over any legal run from its first state: the stream it has emitted is safe, and without its
      waits it is the drawing asked for. */
  method Session(events: seq<Event>) returns (log: seq<Cmd>)
    requires Legal(Between, events)
    ensures log == Run(State(Unknown, false), events)
    ensures Safe(Pending(false, false), log) && Drawing(log) == Asked(events)
  {
    var s := new Interlock();
    var i := 0;
    while i < |events|
      invariant i <= |events| && fresh(s)
      invariant s.log + Run(s.Now(), events[i..]) == Run(State(Unknown, false), events)
    {
      RunStep(s.log, s.Now(), events, i);
      s.Perform(events[i]);
      i := i + 1;
    }
    assert events[i..] == [] && s.log + [] == s.log;
    log := s.log;
    RunKeeps(Between, State(Unknown, false), Pending(false, false), events);
    RunDraws(State(Unknown, false), events);
  }

  lemma RunStep(log: seq<Cmd>, s: State, events: seq<Event>, i: nat)
    requires i < |events|
    ensures log + Run(s, events[i..]) == log + Emit(s, events[i]).0 + Run(Emit(s, events[i]).1, events[i + 1..])
  {
    assert events[i..][0] == events[i] && events[i..][1..] == events[i + 1..];
  }
}
