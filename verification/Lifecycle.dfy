/** The container lifecycle of internal/runtime/container.go: the maps behind the manager's mutex
    and the critical sections that touch them.

    Activations (one per start) and notification channels are references; the state is generic in
    them, so that the same functions specify the class and describe runs. */
module Lifecycle {
  import opened Wrappers

  /** activeContainer. `doneCloses` counts how often its done channel was closed. */
  datatype Act = Act(id: string, pid: int, exitCode: Option<int>, doneCloses: nat, manuallyStopped: bool)

  /** `chans` counts how often each notification channel was closed. */
  datatype Life<A(==), C(==)> = Life(
    active: map<string, A>,
    pidMap: map<int, string>,
    startNotify: map<string, C>,
    acts: map<A, Act>,
    chans: map<C, nat>)

  /** Every reference in the maps is one that was allocated. */
  ghost predicate Closed<A, C>(l: Life<A, C>) {
    && (forall id <- l.active :: l.active[id] in l.acts)
    && (forall id <- l.startNotify :: l.startNotify[id] in l.chans)
  }

  /** What Attach finds in its critical section. */
  datatype Found<A, C> = Running(ac: A) | Wait(ch: C)

  /** `unused` is the channel made when none is registered. */
  function AttachSection<A, C>(l: Life<A, C>, id: string, unused: C): (Life<A, C>, Found<A, C>) {
    if id in l.active then (l, Running(l.active[id]))
    else if id in l.startNotify then (l, Wait(l.startNotify[id]))
    else (l.(startNotify := l.startNotify[id := unused], chans := l.chans[unused := 0]), Wait(unused))
  }

  function CloseChan<A, C>(l: Life<A, C>, c: C): Life<A, C>
    requires c in l.chans
  {
    l.(chans := l.chans[c := l.chans[c] + 1])
  }

  function Activate<A, C>(l: Life<A, C>, id: string, pid: int, a: A): Life<A, C> {
    l.(active := l.active[id := a], pidMap := l.pidMap[pid := id], acts := l.acts[a := Act(id, pid, None, 0, false)])
  }

  function WakeAttach<A, C>(l: Life<A, C>, id: string): Life<A, C>
    requires id in l.startNotify ==> l.startNotify[id] in l.chans
  {
    if id in l.startNotify then
      CloseChan(l, l.startNotify[id]).(startNotify := l.startNotify - {id})
    else l
  }

  /** Start, before crun start. */
  ghost function RegisterSection<A, C>(l: Life<A, C>, id: string, pid: int, a: A): Life<A, C>
    requires Closed(l)
  {
    WakeAttach(Activate(l, id, pid, a), id)
  }

  /** Start, when crun start failed. */
  function UnregisterSection<A, C>(l: Life<A, C>, id: string, pid: int): Life<A, C> {
    l.(active := l.active - {id}, pidMap := l.pidMap - {pid})
  }

  /** HandleExit's section: which container the pid belonged to and its activation, if any. */
  function TakeExitSection<A, C>(l: Life<A, C>, pid: int): (Life<A, C>, Option<(string, Option<A>)>) {
    if pid !in l.pidMap then (l, None)
    else
      var id := l.pidMap[pid];
      (l.(pidMap := l.pidMap - {pid}), Some((id, if id in l.active then Some(l.active[id]) else None)))
  }

  function CacheExitSection<A, C>(l: Life<A, C>, a: A, code: int): Life<A, C>
    requires a in l.acts
  {
    l.(acts := l.acts[a := l.acts[a].(exitCode := Some(code))])
  }

  function CloseDoneSection<A, C>(l: Life<A, C>, a: A): Life<A, C>
    requires a in l.acts
  {
    l.(acts := l.acts[a := l.acts[a].(doneCloses := l.acts[a].doneCloses + 1)])
  }

  /** The effect of the three sections of HandleExit in a row. */
  ghost function ExitHandled<A, C>(l: Life<A, C>, pid: int, code: int): Life<A, C>
    requires Closed(l)
  {
    var (next, taken) := TakeExitSection(l, pid);
    if taken.None? || taken.value.1.None? then next
    else CloseDoneSection(CacheExitSection(next, taken.value.1.value, code), taken.value.1.value)
  }

  function RemoveSection<A, C>(l: Life<A, C>, id: string): Life<A, C> {
    l.(active := l.active - {id}, startNotify := l.startNotify - {id})
  }

  ghost function MarkStoppedSection<A, C>(l: Life<A, C>, id: string): Life<A, C>
    requires Closed(l)
  {
    if id in l.active then
      var a := l.active[id];
      l.(acts := l.acts[a := l.acts[a].(manuallyStopped := true)])
    else l
  }

  // ----- The manager

  class Chan {
    var closes: nat

    constructor ()
      ensures closes == 0
    {
      closes := 0;
    }

    method Close()
      modifies this
      ensures closes == old(closes) + 1
    {
      closes := closes + 1;
    }
  }

  class ActiveContainer {
    const id: string
    const pid: int
    const done: Chan
    var exitCode: Option<int>
    var manuallyStopped: bool

    constructor (id: string, pid: int)
      ensures this.id == id && this.pid == pid && exitCode == None && !manuallyStopped
      ensures fresh(done) && done.closes == 0
    {
      this.id, this.pid := id, pid;
      done := new Chan();
      exitCode, manuallyStopped := None, false;
    }
  }

  class Manager {
    var active: map<string, ActiveContainer>
    var pidMap: map<int, string>
    var startNotify: map<string, Chan>
    /** Everything ever allocated: activations, notification channels, done channels. */
    ghost var acts: set<ActiveContainer>
    ghost var chans: set<Chan>
    ghost var dones: set<Chan>

    ghost predicate Valid()
      reads this, acts
    {
      && (forall id <- active :: active[id] in acts)
      && (forall id <- startNotify :: startNotify[id] in chans)
      && (forall a <- acts :: a.done in dones)
      && (forall a <- acts, b <- acts :: a.done == b.done ==> a == b)
      && chans !! dones
    }

    ghost function Acts(): map<ActiveContainer, Act>
      reads this, acts, dones
      requires Valid()
    {
      map a <- acts :: Act(a.id, a.pid, a.exitCode, a.done.closes, a.manuallyStopped)
    }

    ghost function Chans(): map<Chan, nat>
      reads this, chans
    {
      map c <- chans :: c.closes
    }

    ghost function View(): (l: Life<ActiveContainer, Chan>)
      reads this, acts, chans, dones
      requires Valid()
      ensures Closed(l)
    {
      Life(active, pidMap, startNotify, Acts(), Chans())
    }

    constructor ()
      ensures Valid() && View() == Life(map[], map[], map[], map[], map[])
    {
      active, pidMap, startNotify := map[], map[], map[];
      acts, chans, dones := {}, {}, {};
    }

    /** The critical section of one round of Attach; `unused` is the channel made when none is registered. */
    method Attach(id: string) returns (found: Found<ActiveContainer, Chan>, ghost unused: Chan)
      requires Valid()
      modifies this
      ensures Valid() && fresh(unused)
      ensures (View(), found) == AttachSection(old(View()), id, unused)
    {
      var none := new Chan();
      unused := none;
      if id in active {
        found := Running(active[id]);
        assert Acts() == old(Acts()) && Chans() == old(Chans());
        return;
      }
      if id !in startNotify {
        startNotify := startNotify[id := none];
        chans := chans + {none};
        assert Chans() == old(Chans())[none := 0];
      }
      assert Acts() == old(Acts());
      assert id in old(startNotify) ==> Chans() == old(Chans());
      found := Wait(startNotify[id]);
    }

    method Register(id: string, pid: int) returns (ac: ActiveContainer)
      requires Valid()
      modifies this, chans
      ensures Valid() && fresh(ac) && View() == RegisterSection(old(View()), id, pid, ac)
    {
      ac := Enter(id, pid);
      Wake(id);
    }

    method Wake(id: string)
      requires Valid()
      modifies this`startNotify, chans
      ensures Valid() && View() == WakeAttach(old(View()), id)
    {
      if id in startNotify {
        var ch := startNotify[id];
        ch.Close();
        assert Chans() == old(Chans())[ch := old(ch.closes) + 1];
        startNotify := startNotify - {id};
      }
      assert Acts() == old(Acts());
    }

    method Enter(id: string, pid: int) returns (ac: ActiveContainer)
      requires Valid()
      modifies this
      ensures Valid() && fresh(ac) && View() == Activate(old(View()), id, pid, ac)
      ensures chans == old(chans) && Acts() == old(Acts())[ac := Act(id, pid, None, 0, false)]
    {
      ac := new ActiveContainer(id, pid);
      active := active[id := ac];
      pidMap := pidMap[pid := id];
      acts := acts + {ac};
      dones := dones + {ac.done};
      assert Acts() == old(Acts())[ac := Act(id, pid, None, 0, false)];
      assert Chans() == old(Chans());
    }

    method Unregister(id: string, pid: int)
      requires Valid()
      modifies this`active, this`pidMap
      ensures Valid() && View() == UnregisterSection(old(View()), id, pid)
    {
      active := active - {id};
      pidMap := pidMap - {pid};
    }

    method TakeExit(pid: int) returns (taken: Option<(string, Option<ActiveContainer>)>)
      requires Valid()
      modifies this`pidMap
      ensures Valid() && (View(), taken) == TakeExitSection(old(View()), pid)
    {
      if pid !in pidMap {
        return None;
      }
      var containerID := pidMap[pid];
      taken := Some((containerID, if containerID in active then Some(active[containerID]) else None));
      pidMap := pidMap - {pid};
      assert Acts() == old(Acts()) && Chans() == old(Chans());
    }

    method CacheExit(ac: ActiveContainer, code: int)
      requires Valid() && ac in acts
      modifies ac
      ensures Valid() && View() == CacheExitSection(old(View()), ac, code)
    {
      ac.exitCode := Some(code);
      assert Acts() == old(Acts())[ac := old(Acts())[ac].(exitCode := Some(code))];
    }

    method CloseDone(ac: ActiveContainer)
      requires Valid() && ac in acts
      modifies ac.done
      ensures Valid() && View() == CloseDoneSection(old(View()), ac)
    {
      ac.done.Close();
      assert Acts() == old(Acts())[ac := old(Acts())[ac].(doneCloses := old(ac.done.closes) + 1)];
    }

    /** HandleExit without the other goroutines: whether or not the record is still in the store, the
        code is cached first and the done channel closed once. */
    method HandleExit(pid: int, exitCode: int, recordFound: bool)
      requires Valid()
      modifies this`pidMap, acts, dones
      ensures Valid() && View() == ExitHandled(old(View()), pid, exitCode)
    {
      var taken := TakeExit(pid);
      if taken.None? {
        return;
      }
      var ac := taken.value.1;
      if ac.Some? {
        CacheExit(ac.value, exitCode);
      }
      if !recordFound {
        if ac.Some? {
          CloseDone(ac.value);
        }
        return;
      }
      if ac.Some? {
        CloseDone(ac.value);
      }
    }

    method Remove(id: string)
      requires Valid()
      modifies this`active, this`startNotify
      ensures Valid() && View() == RemoveSection(old(View()), id)
    {
      active := active - {id};
      startNotify := startNotify - {id};
    }

    /** Stop's first section. */
    method MarkStopped(id: string)
      requires Valid()
      modifies acts
      ensures Valid() && View() == MarkStoppedSection(old(View()), id)
    {
      if id in active {
        var ac := active[id];
        ac.manuallyStopped := true;
        assert Acts() == old(Acts())[ac := old(Acts())[ac].(manuallyStopped := true)];
      }
    }
  }
}
