/** Every interleaving of the lifecycle's critical sections: no channel is closed twice, no attach
    waits on a forgotten channel, and each exit signals the activation it belongs to. */
module LifecycleRuns {
  import opened Wrappers
  import opened Lifecycle
  import opened RestartPolicy

  /** An Attach that waits for its channel. */
  datatype Parked<C> = Parked(id: string, ch: C)

  /** A HandleExit between its critical section and closing the done channel. */
  datatype Exiting<A> = Exiting(ac: A, code: int, cached: bool)

  /** `forgotten` has the channels that a removal took out of startNotify. */
  datatype World<A(==), C(==)> = World(
    life: Life<A, C>,
    parked: map<nat, Parked<C>>,
    exits: map<nat, Exiting<A>>,
    forgotten: set<C>)

  /** `t` and `x` name goroutines; `a` and `unused` are what the section allocates. */
  datatype Step<A, C> =
    | Attach(t: nat, id: string, unused: C)
    | LeaveAttach(t: nat)
    | Register(id: string, pid: int, a: A)
    | Unregister(id: string, pid: int)
    | TakeExit(x: nat, pid: int, code: int)
    | CacheExit(x: nat)
    | CloseDone(x: nat)
    | Remove(id: string)
    | MarkStopped(id: string)

  /** A goroutine runs its sections in order; what is allocated is new. */
  predicate Enabled<A(==), C(==)>(w: World<A, C>, step: Step<A, C>) {
    match step
    case Attach(t, id, unused) =>
      unused !in w.life.chans &&
      (t in w.parked ==> w.parked[t].id == id && w.parked[t].ch in w.life.chans && w.life.chans[w.parked[t].ch] > 0)
    case Register(_, _, a) => a !in w.life.acts
    case TakeExit(x, _, _) => x !in w.exits
    case CacheExit(x) => x in w.exits && !w.exits[x].cached
    case CloseDone(x) => x in w.exits && w.exits[x].cached
    case _ => true
  }

  /** crun refuses to create an ID that exists, and a pid is not reused while it is registered: no
      pid is registered for the container, and the new pid is not registered. */
  predicate Honest<A, C>(l: Life<A, C>, step: Step<A, C>) {
    step.Register? ==> step.pid !in l.pidMap && step.id !in l.pidMap.Values
  }

  /** A step that is not enabled does not happen. */
  ghost function Next<A, C>(w: World<A, C>, step: Step<A, C>): (n: World<A, C>)
    requires Sound(w)
    ensures Sound(n)
  {
    if !Enabled(w, step) then w
    else
      match step
      case Attach(t, id, unused) =>
        var (life, found) := AttachSection(w.life, id, unused);
        w.(life := life, parked := if found.Wait? then w.parked[t := Parked(id, found.ch)] else w.parked - {t})
      case LeaveAttach(t) => w.(parked := w.parked - {t})
      case Register(id, pid, a) => w.(life := RegisterSection(w.life, id, pid, a))
      case Unregister(id, pid) => w.(life := UnregisterSection(w.life, id, pid))
      case TakeExit(x, pid, code) =>
        var (life, taken) := TakeExitSection(w.life, pid);
        w.(life := life,
           exits := if taken.Some? && taken.value.1.Some? then w.exits[x := Exiting(taken.value.1.value, code, false)]
                    else w.exits)
      case CacheExit(x) =>
        w.(life := CacheExitSection(w.life, w.exits[x].ac, w.exits[x].code),
           exits := w.exits[x := w.exits[x].(cached := true)])
      case CloseDone(x) =>
        w.(life := CloseDoneSection(w.life, w.exits[x].ac), exits := w.exits - {x})
      case Remove(id) =>
        w.(life := RemoveSection(w.life, id),
           forgotten := w.forgotten + if id in w.life.startNotify then {w.life.startNotify[id]} else {})
      case MarkStopped(id) => w.(life := MarkStoppedSection(w.life, id))
  }

  /** References point to what was allocated. */
  ghost predicate Sound<A, C>(w: World<A, C>) {
    Closed(w.life) && forall x <- w.exits :: w.exits[x].ac in w.life.acts
  }

  ghost function Run<A, C>(steps: seq<Step<A, C>>): (w: World<A, C>)
    ensures Sound(w)
  {
    if steps == [] then World(Life(map[], map[], map[], map[], map[]), map[], map[], {})
    else
      Next(Run(steps[..|steps| - 1]), steps[|steps| - 1])
  }

  ghost predicate HonestRun<A, C>(steps: seq<Step<A, C>>) {
    steps == [] ||
    (HonestRun(steps[..|steps| - 1]) && Honest(Run(steps[..|steps| - 1]).life, steps[|steps| - 1]))
  }

  ghost function RunFrom<A, C>(w: World<A, C>, steps: seq<Step<A, C>>): (n: World<A, C>)
    requires Sound(w)
    ensures Sound(n)
  {
    if steps == [] then w else Next(RunFrom(w, steps[..|steps| - 1]), steps[|steps| - 1])
  }

  lemma RunFromSnoc<A, C>(w: World<A, C>, steps: seq<Step<A, C>>, step: Step<A, C>)
    requires Sound(w)
    ensures RunFrom(w, steps + [step]) == Next(RunFrom(w, steps), step)
  {
    assert (steps + [step])[..|steps|] == steps;
  }

  // ----- Attach and the notification channels

  /** A container is waited for only while it is not active, on an open channel of its own; no
      channel is closed twice. */
  ghost predicate NotifyOpen<A, C>(l: Life<A, C>) {
    && (forall id <- l.startNotify ::
          id !in l.active && l.startNotify[id] in l.chans && l.chans[l.startNotify[id]] == 0)
    && (forall i <- l.startNotify, j <- l.startNotify :: l.startNotify[i] == l.startNotify[j] ==> i == j)
    && (forall c <- l.chans :: l.chans[c] <= 1)
  }

  /** The next start of its container will close the channel this attach waits on. */
  predicate Current<A(==), C(==)>(w: World<A, C>, t: nat) {
    t in w.parked && w.parked[t].id in w.life.startNotify && w.life.startNotify[w.parked[t].id] == w.parked[t].ch
  }

  /** An attach that waits on an open channel waits on the one the next start will close, exactly unless a
      removal made the manager forget it. */
  ghost predicate ParkedRight<A, C>(w: World<A, C>, t: nat)
    requires t in w.parked
  {
    && w.parked[t].ch in w.life.chans
    && (w.life.chans[w.parked[t].ch] == 0 ==> (Current(w, t) <==> w.parked[t].ch !in w.forgotten))
  }

  ghost predicate ParkedCurrent<A, C>(w: World<A, C>) {
    forall t <- w.parked :: ParkedRight(w, t)
  }

  ghost predicate ForgottenApart<A, C>(w: World<A, C>) {
    && (forall id <- w.life.startNotify :: w.life.startNotify[id] !in w.forgotten)
    && (forall c <- w.forgotten :: c in w.life.chans)
  }

  lemma NotifyStays<A, C>(w: World<A, C>, step: Step<A, C>)
    requires Sound(w) && NotifyOpen(w.life)
    ensures NotifyOpen(Next(w, step).life)
  {
  }

  lemma ParkedStays<A, C>(w: World<A, C>, step: Step<A, C>)
    requires Sound(w) && NotifyOpen(w.life) && ForgottenApart(w) && ParkedCurrent(w)
    ensures ParkedCurrent(Next(w, step))
  {
    var n := Next(w, step);
    forall t | t in n.parked ensures ParkedRight(n, t) {
      if step.Attach? && Enabled(w, step) && step.t == t {
        NewlyParked(w, step, t);
      } else {
        assert ParkedRight(w, t);
        StillParked(w, step, t);
      }
    }
  }

  lemma NewlyParked<A, C>(w: World<A, C>, step: Step<A, C>, t: nat)
    requires Sound(w) && NotifyOpen(w.life) && ForgottenApart(w)
    requires step.Attach? && Enabled(w, step) && step.t == t && t in Next(w, step).parked
    ensures ParkedRight(Next(w, step), t)
  {
  }

  lemma StillParked<A, C>(w: World<A, C>, step: Step<A, C>, t: nat)
    requires Sound(w) && NotifyOpen(w.life) && t in w.parked && ParkedRight(w, t)
    requires t in Next(w, step).parked && Next(w, step).parked[t] == w.parked[t]
    ensures ParkedRight(Next(w, step), t)
  {
  }

  lemma ForgottenStays<A, C>(w: World<A, C>, step: Step<A, C>)
    requires Sound(w) && NotifyOpen(w.life) && ForgottenApart(w)
    ensures ForgottenApart(Next(w, step))
  {
  }

  /** In any interleaving, honest or not. */
  lemma {:induction false} AttachNeverMissesStart<A, C>(steps: seq<Step<A, C>>)
    ensures NotifyOpen(Run(steps).life) && ForgottenApart(Run(steps)) && ParkedCurrent(Run(steps))
  {
    if steps != [] {
      var before, step := steps[..|steps| - 1], steps[|steps| - 1];
      AttachNeverMissesStart(before);
      NotifyStays(Run(before), step);
      ForgottenStays(Run(before), step);
      ParkedStays(Run(before), step);
    }
  }

  /** The next registration wakes every attach that waits for the container on a channel not forgotten. */
  lemma RegisterWakes<A, C>(steps: seq<Step<A, C>>, id: string, pid: int, a: A, t: nat)
    requires var w := Run(steps);
             t in w.parked && w.parked[t].id == id && w.parked[t].ch !in w.forgotten && Enabled(w, Register(id, pid, a))
    ensures var w := Run(steps);
            var n := Next(w, Register(id, pid, a));
            n.parked == w.parked && w.parked[t].ch in n.life.chans && n.life.chans[w.parked[t].ch] == 1
            && id in n.life.active && id !in n.life.startNotify
  {
    AttachNeverMissesStart(steps);
    var w := Run(steps);
    NotifyStays(w, Register(id, pid, a));
  }

  /** An open channel that no container is registered with. */
  ghost predicate Orphan<A, C>(l: Life<A, C>, c: C) {
    c in l.chans && l.chans[c] == 0 && forall id <- l.startNotify :: l.startNotify[id] != c
  }

  lemma OrphanStays<A, C>(w: World<A, C>, step: Step<A, C>, c: C)
    requires Sound(w) && Orphan(w.life, c)
    ensures Orphan(Next(w, step).life, c)
  {
  }

  lemma {:induction false} OrphanForever<A, C>(w: World<A, C>, more: seq<Step<A, C>>, c: C)
    requires Sound(w) && Orphan(w.life, c)
    ensures Orphan(RunFrom(w, more).life, c)
  {
    if more != [] {
      OrphanForever(w, more[..|more| - 1], c);
      OrphanStays(RunFrom(w, more[..|more| - 1]), more[|more| - 1], c);
    }
  }

  /** Remove forgets the channel without closing it, and whatever happens afterwards nobody ever does. */
  lemma RemoveStrandsAttach<A, C>(steps: seq<Step<A, C>>, id: string, more: seq<Step<A, C>>)
    requires id in Run(steps).life.startNotify
    ensures var ch, n := Run(steps).life.startNotify[id], RunFrom(Next(Run(steps), Remove(id)), more);
            ch in n.life.chans && n.life.chans[ch] == 0
  {
    AttachNeverMissesStart(steps);
    OrphanForever(Next(Run(steps), Remove(id)), more, Run(steps).life.startNotify[id]);
  }

  ghost predicate Closes<A, C>(w: World<A, C>, more: seq<Step<A, C>>, c: C)
    requires Sound(w)
  {
    var n := RunFrom(w, more);
    c in n.life.chans && n.life.chans[c] > 0
  }

  /** An attach that waits on an open channel can still be woken exactly when that channel is the one
      entered for its container, which is when no removal made the manager forget it. */
  lemma CanWakeExactly<A, C>(steps: seq<Step<A, C>>, t: nat, a: A)
    requires var w := Run(steps);
             && t in w.parked && a !in w.life.acts
             && w.parked[t].ch in w.life.chans && w.life.chans[w.parked[t].ch] == 0
    ensures var w := Run(steps);
            && ((exists more: seq<Step<A, C>> :: Closes(w, more, w.parked[t].ch)) <==> Current(w, t))
            && (Current(w, t) <==> w.parked[t].ch !in w.forgotten)
            && (Current(w, t) <==> exists id <- w.life.startNotify :: w.life.startNotify[id] == w.parked[t].ch)
  {
    var w := Run(steps);
    var id, ch := w.parked[t].id, w.parked[t].ch;
    AttachNeverMissesStart(steps);
    if Current(w, t) {
      var step: Step<A, C> := Register(id, 0, a);
      RunFromSnoc(w, [], step);
      assert Closes(w, [] + [step], ch);
    } else {
      forall more: seq<Step<A, C>> ensures !Closes(w, more, ch) {
        OrphanForever(w, more, ch);
      }
    }
  }

  // ----- Exits and the done channels

  /** A registered pid leads to its own activation. */
  ghost predicate Agreement<A, C>(l: Life<A, C>)
    requires Closed(l)
  {
    forall p <- l.pidMap :: l.pidMap[p] in l.active ==> l.acts[l.active[l.pidMap[p]]].pid == p
  }

  predicate Reaches<A(==), C>(l: Life<A, C>, p: int, a: A) {
    p in l.pidMap && l.pidMap[p] in l.active && l.active[l.pidMap[p]] == a
  }

  /** Nothing has come of the activation's exit yet. */
  predicate Untouched<A(==), C(==)>(w: World<A, C>, a: A) {
    a in w.life.acts && w.life.acts[a].doneCloses == 0 && w.life.acts[a].exitCode == None
    && forall x <- w.exits :: w.exits[x].ac != a
  }

  ghost predicate ActiveIDs<A, C>(l: Life<A, C>)
    requires Closed(l)
  {
    forall id <- l.active :: l.acts[l.active[id]].id == id
  }

  /** Nothing is closed, and the code cached is the one the goroutine was given. */
  ghost predicate ExitRight<A, C>(w: World<A, C>, x: nat)
    requires Sound(w) && x in w.exits
  {
    var act := w.life.acts[w.exits[x].ac];
    act.doneCloses == 0 && act.exitCode == if w.exits[x].cached then Some(w.exits[x].code) else None
  }

  ghost predicate OneHolder<A, C>(w: World<A, C>) {
    forall x <- w.exits, y <- w.exits :: w.exits[x].ac == w.exits[y].ac ==> x == y
  }

  /** Between taking an exit and signalling it: at most one goroutine per activation. */
  ghost predicate ExitsOwn<A, C>(w: World<A, C>)
    requires Sound(w)
  {
    (forall x <- w.exits :: ExitRight(w, x)) && OneHolder(w)
  }

  ghost predicate DoneOnce<A, C>(w: World<A, C>) {
    && (forall a <- w.life.acts :: w.life.acts[a].doneCloses <= 1)
    && (forall a <- w.life.acts :: w.life.acts[a].doneCloses == 1 ==> w.life.acts[a].exitCode.Some?)
  }

  ghost predicate ReachableUntouched<A, C>(w: World<A, C>) {
    forall p <- w.life.pidMap :: w.life.pidMap[p] in w.life.active ==> Untouched(w, w.life.active[w.life.pidMap[p]])
  }

  ghost predicate SignalsRight<A, C>(w: World<A, C>)
    requires Sound(w)
  {
    ActiveIDs(w.life) && Agreement(w.life) && ExitsOwn(w) && DoneOnce(w) && ReachableUntouched(w)
  }

  /** Registering a pid keeps the agreement exactly when no other pid leads to the container. */
  lemma AgreementExactly<A, C>(l: Life<A, C>, id: string, pid: int, a: A)
    requires Closed(l) && Agreement(l) && a !in l.acts
    ensures Agreement(RegisterSection(l, id, pid, a)) <==> forall q <- l.pidMap :: l.pidMap[q] == id ==> q == pid
  {
    var n := RegisterSection(l, id, pid, a);
    if q :| q in l.pidMap && l.pidMap[q] == id && q != pid {
      assert n.pidMap[q] == id && n.acts[n.active[id]].pid == pid;
    }
  }

  lemma ActiveIDsStay<A, C>(w: World<A, C>, step: Step<A, C>)
    requires Sound(w) && ActiveIDs(w.life)
    ensures ActiveIDs(Next(w, step).life)
  {
  }

  lemma AgreementStays<A, C>(w: World<A, C>, step: Step<A, C>)
    requires Sound(w) && Agreement(w.life) && Honest(w.life, step)
    ensures Agreement(Next(w, step).life)
  {
  }

  lemma ExitsStay<A, C>(w: World<A, C>, step: Step<A, C>)
    requires Sound(w) && ExitsOwn(w) && ReachableUntouched(w)
    ensures ExitsOwn(Next(w, step))
  {
    var n := Next(w, step);
    forall x | x in n.exits ensures ExitRight(n, x) {
      assert x in w.exits ==> ExitRight(w, x);
      ExitStays(w, step, x);
    }
    HoldersStay(w, step);
  }

  lemma ExitStays<A, C>(w: World<A, C>, step: Step<A, C>, x: nat)
    requires Sound(w) && ReachableUntouched(w) && OneHolder(w)
    requires x in Next(w, step).exits && (x in w.exits ==> ExitRight(w, x))
    ensures ExitRight(Next(w, step), x)
  {
  }

  lemma HoldersStay<A, C>(w: World<A, C>, step: Step<A, C>)
    requires Sound(w) && OneHolder(w) && ReachableUntouched(w)
    ensures OneHolder(Next(w, step))
  {
  }

  lemma DoneStays<A, C>(w: World<A, C>, step: Step<A, C>)
    requires Sound(w) && ExitsOwn(w) && DoneOnce(w)
    ensures DoneOnce(Next(w, step))
  {
  }

  lemma PidsAgree<A, C>(l: Life<A, C>, a: A)
    requires Closed(l) && Agreement(l)
    ensures forall p, q :: Reaches(l, p, a) && Reaches(l, q, a) ==> p == q
  {
  }

  /** A section changes an activation a registered pid leads to only by taking the exit of that pid. */
  lemma UntouchedStays<A, C>(w: World<A, C>, step: Step<A, C>, p: int, a: A)
    requires Sound(w) && ActiveIDs(w.life) && Agreement(w.life) && Untouched(w, a)
    requires Reaches(w.life, p, a) && p in Next(w, step).life.pidMap
    ensures Untouched(Next(w, step), a)
  {
    PidsAgree(w.life, a);
  }

  lemma ReachableStays<A, C>(w: World<A, C>, step: Step<A, C>)
    requires Sound(w) && ActiveIDs(w.life) && Agreement(w.life) && ReachableUntouched(w) && Honest(w.life, step)
    ensures ReachableUntouched(Next(w, step))
  {
    var n := Next(w, step);
    forall p | p in n.life.pidMap && n.life.pidMap[p] in n.life.active
      ensures Untouched(n, n.life.active[n.life.pidMap[p]])
    {
      var a := n.life.active[n.life.pidMap[p]];
      if Reaches(w.life, p, a) {
        UntouchedStays(w, step, p, a);
      }
    }
  }

  /** In any honest interleaving each done channel is closed at most once and only with its exit
      code cached, and each exit is signalled to the activation with its pid. */
  lemma {:induction false} ExitsSignalOnce<A, C>(steps: seq<Step<A, C>>)
    requires HonestRun(steps)
    ensures SignalsRight(Run(steps))
  {
    if steps != [] {
      var before, step := steps[..|steps| - 1], steps[|steps| - 1];
      ExitsSignalOnce(before);
      ActiveIDsStay(Run(before), step);
      AgreementStays(Run(before), step);
      ExitsStay(Run(before), step);
      DoneStays(Run(before), step);
      ReachableStays(Run(before), step);
    }
  }

  lemma {:induction false} HonestPrefix<A, C>(steps: seq<Step<A, C>>, more: seq<Step<A, C>>)
    requires HonestRun(steps + more)
    ensures HonestRun(steps)
  {
    if more == [] {
      assert steps + more == steps;
    } else {
      assert (steps + more)[..|steps + more| - 1] == steps + more[..|more| - 1];
      HonestPrefix(steps, more[..|more| - 1]);
    }
  }

  /** Once an activation's done channel is closed, its exit code never changes: every waiter reads
      the same one. */
  lemma {:induction false} ExitCodeIsFinal<A, C>(steps: seq<Step<A, C>>, more: seq<Step<A, C>>, a: A)
    requires HonestRun(steps + more)
    requires a in Run(steps).life.acts && Run(steps).life.acts[a].doneCloses == 1
    ensures a in Run(steps + more).life.acts
    ensures Run(steps + more).life.acts[a].doneCloses == 1
    ensures Run(steps + more).life.acts[a].exitCode == Run(steps).life.acts[a].exitCode
  {
    if more == [] {
      assert steps + more == steps;
    } else {
      var init, step := more[..|more| - 1], more[|more| - 1];
      assert (steps + more)[..|steps + more| - 1] == steps + init;
      ExitCodeIsFinal(steps, init, a);
      HonestPrefix(steps + init, [step]) by { assert steps + init + [step] == steps + more; }
      ExitsSignalOnce(steps + init);
      FinalStays(Run(steps + init), step, a);
    }
  }

  lemma FinalStays<A, C>(w: World<A, C>, step: Step<A, C>, a: A)
    requires Sound(w) && ExitsOwn(w)
    requires a in w.life.acts && w.life.acts[a].doneCloses == 1
    ensures var n := Next(w, step);
            a in n.life.acts && n.life.acts[a].doneCloses == 1 && n.life.acts[a].exitCode == w.life.acts[a].exitCode
  {
  }

  /** Taking the exit of a registered pid hands it to the activation with that pid, and no second
      exit can be taken for the pid until it is registered again. */
  lemma ExitTakenOnce<A, C>(steps: seq<Step<A, C>>, x: nat, pid: int, code: int)
    requires HonestRun(steps)
    requires var w := Run(steps);
             x !in w.exits && pid in w.life.pidMap && w.life.pidMap[pid] in w.life.active
    ensures var n := Next(Run(steps), TakeExit(x, pid, code));
            && x in n.exits && !n.exits[x].cached && n.exits[x].code == code
            && n.life.acts[n.exits[x].ac].pid == pid
            && forall y, other :: y !in n.exits ==> Next(n, TakeExit(y, pid, other)) == n
  {
    ExitsSignalOnce(steps);
  }

  // ----- Who is signalled at all

  predicate Signalled<A(==), C(==)>(w: World<A, C>, a: A) {
    a in w.life.acts && w.life.acts[a].doneCloses > 0
  }

  predicate Unsignalled<A(==), C(==)>(w: World<A, C>, a: A) {
    a in w.life.acts && w.life.acts[a].doneCloses == 0
  }

  predicate Holds<A(==), C(==)>(w: World<A, C>, x: nat, a: A) {
    x in w.exits && w.exits[x].ac == a
  }

  /** A registered pid leads to the activation, or a goroutine that handles an exit holds it. */
  ghost predicate CanSignal<A, C>(w: World<A, C>, a: A) {
    (exists p: int :: Reaches(w.life, p, a)) || (exists x: nat :: Holds(w, x, a))
  }

  lemma CutOffStays<A, C>(w: World<A, C>, step: Step<A, C>, a: A)
    requires Sound(w) && Unsignalled(w, a) && !CanSignal(w, a)
    ensures Unsignalled(Next(w, step), a) && !CanSignal(Next(w, step), a)
  {
    var n := Next(w, step);
    if step.CloseDone? {
      assert !Holds(w, step.x, a);
    }
    forall p: int ensures !Reaches(n.life, p, a) {
      assert !Reaches(w.life, p, a);
    }
    forall x: nat ensures !Holds(n, x, a) {
      assert !Holds(w, x, a);
      if step.TakeExit? {
        assert !Reaches(w.life, step.pid, a);
      }
    }
  }

  lemma {:induction false} CutOffForever<A, C>(w: World<A, C>, more: seq<Step<A, C>>, a: A)
    requires Sound(w) && Unsignalled(w, a) && !CanSignal(w, a)
    ensures Unsignalled(RunFrom(w, more), a) && !CanSignal(RunFrom(w, more), a)
  {
    if more != [] {
      CutOffForever(w, more[..|more| - 1], a);
      CutOffStays(RunFrom(w, more[..|more| - 1]), more[|more| - 1], a);
    }
  }

  lemma {:induction false} UnusedName(used: set<nat>) returns (x: nat)
    ensures x !in used && forall y <- used :: y < x
  {
    x := 0;
    if used != {} {
      var y :| y in used;
      var rest := UnusedName(used - {y});
      assert used == (used - {y}) + {y};
      x := if y >= rest then y + 1 else rest;
    }
  }

  lemma CachedSignals<A, C>(w: World<A, C>, x: nat, a: A)
    requires Sound(w) && Holds(w, x, a) && w.exits[x].cached
    ensures Signalled(RunFrom(w, [CloseDone(x)]), a)
  {
    var step: Step<A, C> := CloseDone(x);
    RunFromSnoc(w, [], step);
    assert [] + [step] == [step];
  }

  lemma HolderSignals<A, C>(w: World<A, C>, x: nat, a: A) returns (more: seq<Step<A, C>>)
    requires Sound(w) && Holds(w, x, a)
    ensures Signalled(RunFrom(w, more), a)
  {
    more := [CloseDone(x)];
    if w.exits[x].cached {
      CachedSignals(w, x, a);
    } else {
      CachedSignals(Next(w, CacheExit(x)), x, a);
      RunFromTail(w, CacheExit(x), more);
      more := [CacheExit(x)] + more;
    }
  }

  lemma {:induction false} RunFromTail<A, C>(w: World<A, C>, step: Step<A, C>, more: seq<Step<A, C>>)
    requires Sound(w)
    ensures RunFrom(w, [step] + more) == RunFrom(Next(w, step), more)
  {
    if more == [] {
      RunFromSnoc(w, [], step);
      assert [step] + more == [] + [step];
    } else {
      var init, last := more[..|more| - 1], more[|more| - 1];
      RunFromTail(w, step, init);
      RunFromSnoc(w, [step] + init, last);
      RunFromSnoc(Next(w, step), init, last);
      assert [step] + more == [step] + init + [last] && more == init + [last];
    }
  }

  lemma ReachedSignals<A, C>(w: World<A, C>, p: int, a: A) returns (more: seq<Step<A, C>>)
    requires Sound(w) && Reaches(w.life, p, a)
    ensures Signalled(RunFrom(w, more), a)
  {
    var x := UnusedName(w.exits.Keys);
    var n := Next(w, TakeExit(x, p, 0));
    assert Holds(n, x, a);
    var rest := HolderSignals(n, x, a);
    RunFromTail(w, TakeExit(x, p, 0), rest);
    more := [TakeExit(x, p, 0)] + rest;
  }

  ghost predicate Wakes<A, C>(w: World<A, C>, more: seq<Step<A, C>>, a: A)
    requires Sound(w)
  {
    Signalled(RunFrom(w, more), a)
  }

  /** Whoever waits for an activation not signalled yet can still be woken exactly when a registered pid
      leads to it or its exit is being handled. */
  lemma CanSignalExactly<A, C>(w: World<A, C>, a: A)
    requires Sound(w) && Unsignalled(w, a)
    ensures (exists more: seq<Step<A, C>> :: Wakes(w, more, a)) <==> CanSignal(w, a)
  {
    if CanSignal(w, a) {
      var more: seq<Step<A, C>>;
      if p: int :| Reaches(w.life, p, a) {
        more := ReachedSignals(w, p, a);
      } else {
        var x: nat :| Holds(w, x, a);
        more := HolderSignals(w, x, a);
      }
      assert Wakes(w, more, a);
    } else {
      forall more: seq<Step<A, C>> ensures !Wakes(w, more, a) {
        CutOffForever(w, more, a);
      }
    }
  }

  /** The step takes the activation out of the active map: the container is removed, its start failed, or
      it is registered again. */
  predicate Drops<A(==), C(==)>(w: World<A, C>, step: Step<A, C>, id: string) {
    match step
    case Remove(i) => i == id
    case Unregister(i, _) => i == id
    case Register(i, _, b) => i == id && b !in w.life.acts
    case _ => false
  }

  /** An activation dropped or overwritten before its exit was taken is never signalled, whatever
      happens afterwards. */
  lemma DroppedNeverSignals<A, C>(w: World<A, C>, id: string, step: Step<A, C>, more: seq<Step<A, C>>)
    requires Sound(w) && SignalsRight(w)
    requires id in w.life.active && Untouched(w, w.life.active[id]) && Drops(w, step, id)
    ensures Unsignalled(RunFrom(Next(w, step), more), w.life.active[id])
  {
    var a, n := w.life.active[id], Next(w, step);
    assert forall i <- w.life.active :: w.life.active[i] == a ==> i == id;
    assert forall i <- n.life.active :: n.life.active[i] != a;
    CutOffForever(n, more, a);
  }

  ghost function Signal<A, C>(w: World<A, C>, x: nat): World<A, C>
    requires Sound(w)
  {
    Next(Next(w, CacheExit(x)), CloseDone(x))
  }

  lemma SignalCloses<A, C>(w: World<A, C>, x: nat)
    requires Sound(w) && x in w.exits && !w.exits[x].cached
    ensures var n, a := Signal(w, x), w.exits[x].ac;
            && n.exits == w.exits - {x}
            && a in n.life.acts && n.life.acts[a].doneCloses == w.life.acts[a].doneCloses + 1
  {
    var w1 := Next(w, CacheExit(x));
    assert w1.exits[x].cached && w1.exits[x].ac == w.exits[x].ac;
    assert w1.exits - {x} == w.exits - {x};
  }

  /** Why the promise is needed: as soon as two pids lead to one active container, their exits
      close the same done channel twice. */
  lemma TwoPidsCloseTwice<A, C>(w: World<A, C>, p: int, q: int, id: string, x: nat, y: nat)
    requires Sound(w) && p != q && x != y && x !in w.exits && y !in w.exits
    requires p in w.life.pidMap && q in w.life.pidMap && w.life.pidMap[p] == id == w.life.pidMap[q]
    requires id in w.life.active
    ensures var taken := Next(Next(w, TakeExit(x, p, 0)), TakeExit(y, q, 0));
            var n := Signal(Signal(taken, x), y);
            var a := w.life.active[id];
            a in n.life.acts && n.life.acts[a].doneCloses == w.life.acts[a].doneCloses + 2
  {
    var taken := Next(Next(w, TakeExit(x, p, 0)), TakeExit(y, q, 0));
    SignalCloses(taken, x);
    SignalCloses(Signal(taken, x), y);
  }

  /** A second pid registered for a running container: the first activation is never signalled, and the
      two exits close the second one's channel twice. */
  lemma SecondPid<A, C>(w: World<A, C>, id: string, p: int, q: int, b: A, x: nat, y: nat, more: seq<Step<A, C>>)
    requires Sound(w) && SignalsRight(w)
    requires p in w.life.pidMap && w.life.pidMap[p] == id && id in w.life.active
    requires p != q && x != y && x !in w.exits && y !in w.exits && b !in w.life.acts
    ensures var n := Next(w, Register(id, q, b));
            var taken := Next(Next(n, TakeExit(x, p, 0)), TakeExit(y, q, 0));
            && Unsignalled(RunFrom(n, more), w.life.active[id])
            && b in Signal(Signal(taken, x), y).life.acts
            && Signal(Signal(taken, x), y).life.acts[b].doneCloses == 2
  {
    var n := Next(w, Register(id, q, b));
    assert Untouched(w, w.life.active[id]);
    DroppedNeverSignals(w, id, Register(id, q, b), more);
    assert n.life.active[id] == b && n.life.acts[b].doneCloses == 0;
    TwoPidsCloseTwice(n, p, q, id, x, y);
  }

  // ----- Stopping

  /** The i-th step of the run marks this activation: it is the active entry of the container stopped. */
  ghost predicate Stops<A, C>(steps: seq<Step<A, C>>, i: nat, a: A)
    requires i < |steps|
  {
    var active := Run(steps[..i]).life.active;
    steps[i].MarkStopped? && steps[i].id in active && active[steps[i].id] == a
  }

  lemma StopsPrefix<A, C>(steps: seq<Step<A, C>>, k: nat, i: nat, a: A)
    requires i < k <= |steps|
    ensures Stops(steps[..k], i, a) <==> Stops(steps, i, a)
  {
    assert steps[..k][..i] == steps[..i];
  }

  predicate Stopped<A(==), C(==)>(w: World<A, C>, a: A) {
    a in w.life.acts && w.life.acts[a].manuallyStopped
  }

  lemma StoppedNext<A, C>(w: World<A, C>, step: Step<A, C>, a: A)
    requires Sound(w)
    ensures Stopped(Next(w, step), a)
            <==> Stopped(w, a) || (step.MarkStopped? && step.id in w.life.active && w.life.active[step.id] == a)
  {
  }

  lemma StoppedStep<A, C>(steps: seq<Step<A, C>>, a: A)
    requires steps != []
    ensures var before := Run(steps[..|steps| - 1]);
            Stopped(Run(steps), a) <==> Stopped(before, a) || Stops(steps, |steps| - 1, a)
  {
    StoppedNext(Run(steps[..|steps| - 1]), steps[|steps| - 1], a);
  }

  /** An activation counts as stopped by hand exactly when, in some step, its container was stopped while it
      was the active one. */
  lemma {:induction false} StoppedExactly<A, C>(steps: seq<Step<A, C>>, a: A)
    ensures Stopped(Run(steps), a) <==> exists i :: 0 <= i < |steps| && Stops(steps, i, a)
  {
    if steps != [] {
      var last := |steps| - 1;
      StoppedExactly(steps[..last], a);
      StoppedStep(steps, a);
      if Stopped(Run(steps[..last]), a) {
        var i :| 0 <= i < last && Stops(steps[..last], i, a);
        StopsPrefix(steps, last, i, a);
      }
      if i :| 0 <= i < last && Stops(steps, i, a) {
        StopsPrefix(steps, last, i, a);
      }
    }
  }

  /** So a container stopped by hand is not restarted, whatever its policy, its count and its exit code;
      and under "always" and "unless-stopped" any other is. */
  lemma StoppedNeverRestarts<A, C>(steps: seq<Step<A, C>>, a: A, policy: Policy, count: nat, code: int)
    requires a in Run(steps).life.acts
    ensures var restarts := ShouldRestart(policy, count, Exit(code, Run(steps).life.acts[a].manuallyStopped));
            && ((exists i :: 0 <= i < |steps| && Stops(steps, i, a)) ==> !restarts)
            && (policy.name in {"always", "unless-stopped"} ==>
                  (restarts <==> forall i :: 0 <= i < |steps| ==> !Stops(steps, i, a)))
  {
    StoppedExactly(steps, a);
  }

  // ----- What a failed start and a removal leave

  /** A start that fails leaves neither an active entry nor a pid behind: what there was before for other
      containers and pids is unchanged. */
  lemma FailedStartForgotten<A, C>(w: World<A, C>, id: string, pid: int, a: A)
    requires Sound(w) && Enabled(w, Register(id, pid, a))
    ensures var n := Next(Next(w, Register(id, pid, a)), Unregister(id, pid));
            n.life.active == w.life.active - {id} && n.life.pidMap == w.life.pidMap - {pid}
  {
  }

  /** Removing a container leaves its pids: an exit that comes later is still taken, for no activation. */
  lemma RemovalLeavesPids<A, C>(w: World<A, C>, id: string)
    requires Sound(w)
    ensures var n := Next(w, Remove(id));
            && n.life.pidMap == w.life.pidMap && id !in n.life.active && id !in n.life.startNotify
            && (forall other :: other != id ==> (other in n.life.active <==> other in w.life.active))
            && (forall pid :: pid in w.life.pidMap && w.life.pidMap[pid] == id ==>
                  TakeExitSection(n.life, pid).1 == Some((id, None)))
  {
  }
}
