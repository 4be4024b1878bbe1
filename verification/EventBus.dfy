/** The event bus of internal/events/bus.go: filters, the bus itself, and its interleavings. */
module EventBus {
  import opened Wrappers

  datatype Message = Message(kind: string, action: string, actor: string, attributes: map<string, string>,
                             scope: string, time: int, timeNano: int)

  datatype Filters = Filters(types: seq<string>, actions: seq<string>, containers: seq<string>, images: seq<string>,
                             networks: seq<string>, volumes: seq<string>, labels: seq<string>)

  const BUFFER_SIZE: nat := 256

  // ----- Filters

  function ActorFilter(kind: string, f: Filters): seq<string> {
    if kind == "container" then f.containers
    else if kind == "image" then f.images
    else if kind == "network" then f.networks
    else if kind == "volume" then f.volumes
    else []
  }

  predicate MatchesActor(filter: seq<string>, msg: Message) {
    exists f <- filter :: f <= msg.actor || (if "name" in msg.attributes then msg.attributes["name"] else "") == f
  }

  /** strings.Cut at the first '='. */
  function Cut(s: string): (string, Option<string>) {
    if s == "" then ("", None)
    else if s[0] == '=' then ("", Some(s[1..]))
    else
      var (k, v) := Cut(s[1..]);
      ([s[0]] + k, v)
  }

  predicate MatchesLabel(wanted: string, attributes: map<string, string>) {
    var (k, v) := Cut(wanted);
    k in attributes && (v.Some? ==> attributes[k] == v.value)
  }

  predicate Matches(msg: Message, f: Filters) {
    && (f.types != [] ==> msg.kind in f.types)
    && (f.actions != [] ==> msg.action in f.actions)
    && (ActorFilter(msg.kind, f) != [] ==> MatchesActor(ActorFilter(msg.kind, f), msg))
    && (forall wanted <- f.labels :: MatchesLabel(wanted, msg.attributes))
  }

  /** Cut finds the first '=': the key has none, and key and value make up the label. */
  lemma {:induction false} CutSplits(s: string)
    ensures var (k, v) := Cut(s); '=' !in k && s == k + (if v.Some? then "=" + v.value else "")
  {
    if s != "" && s[0] != '=' {
      CutSplits(s[1..]);
    }
  }

  // ----- What the filters admit

  const NO_FILTERS := Filters([], [], [], [], [], [], [])

  /** A message passes all filters exactly when it passes each category alone. */
  lemma CategoriesApart(msg: Message, f: Filters)
    ensures Matches(msg, NO_FILTERS)
    ensures Matches(msg, f)
            <==> && Matches(msg, NO_FILTERS.(types := f.types)) && Matches(msg, NO_FILTERS.(actions := f.actions))
                 && Matches(msg, NO_FILTERS.(containers := f.containers))
                 && Matches(msg, NO_FILTERS.(images := f.images))
                 && Matches(msg, NO_FILTERS.(networks := f.networks))
                 && Matches(msg, NO_FILTERS.(volumes := f.volumes))
                 && Matches(msg, NO_FILTERS.(labels := f.labels))
  {
  }

  /** Types and actions admit what they list; an empty list admits everything. */
  lemma TypesAndActions(msg: Message, listed: seq<string>)
    ensures Matches(msg, NO_FILTERS.(types := listed)) <==> listed == [] || msg.kind in listed
    ensures Matches(msg, NO_FILTERS.(actions := listed)) <==> listed == [] || msg.action in listed
  {
  }

  /** The message is about something whose ID starts with a listed one, or whose name is listed. */
  predicate AboutOneOf(msg: Message, listed: seq<string>) {
    exists f <- listed :: f <= msg.actor || ("name" in msg.attributes && msg.attributes["name"] == f)
  }

  /** A list of containers, images, networks or volumes admits of the messages of that kind those about one
      of them, and every message of another kind. */
  lemma ActorsOfTheirKind(msg: Message, listed: seq<string>)
    requires listed != []
    ensures Matches(msg, NO_FILTERS.(containers := listed)) <==> msg.kind != "container" || AboutOneOf(msg, listed)
    ensures Matches(msg, NO_FILTERS.(images := listed)) <==> msg.kind != "image" || AboutOneOf(msg, listed)
    ensures Matches(msg, NO_FILTERS.(networks := listed)) <==> msg.kind != "network" || AboutOneOf(msg, listed)
    ensures Matches(msg, NO_FILTERS.(volumes := listed)) <==> msg.kind != "volume" || AboutOneOf(msg, listed)
  {
    assert MatchesActor(listed, msg) <==> AboutOneOf(msg, listed) by {
      forall f | f in listed
        ensures "name" !in msg.attributes && "" == f ==> f <= msg.actor
      {
      }
    }
  }

  /** A label without "=" admits messages that carry it, one with a value those that carry that value; all
      labels have to be met. */
  lemma LabelsMet(msg: Message, key: string, value: string, some: seq<string>, more: seq<string>)
    requires '=' !in key
    ensures Matches(msg, NO_FILTERS.(labels := [key])) <==> key in msg.attributes
    ensures Matches(msg, NO_FILTERS.(labels := [key + "=" + value]))
            <==> key in msg.attributes && msg.attributes[key] == value
    ensures Matches(msg, NO_FILTERS.(labels := some + more))
            <==> Matches(msg, NO_FILTERS.(labels := some)) && Matches(msg, NO_FILTERS.(labels := more))
  {
    CutKey(key, value);
    assert [key][0] in [key] && [key + "=" + value][0] in [key + "=" + value];
    assert forall x :: x in some + more <==> x in some || x in more;
  }

  lemma {:induction false} CutKey(key: string, value: string)
    requires '=' !in key
    ensures Cut(key) == (key, None) && Cut(key + "=" + value) == (key, Some(value))
  {
    if key != "" {
      CutKey(key[1..], value);
      assert (key + "=" + value)[1..] == key[1..] + "=" + value;
      assert [key[0]] + key[1..] == key;
    }
  }

  // ----- The bus

  function Stamp(msg: Message, now: int, nowNano: int): Message {
    msg.(time := if msg.time == 0 then now else msg.time,
         timeNano := if msg.timeNano == 0 then nowNano else msg.timeNano,
         scope := if msg.scope == "" then "local" else msg.scope)
  }

  /** A time or a scope that is set stays; one that is missing is filled in, and then stays too. */
  lemma StampFillsIn(msg: Message, now: int, nowNano: int)
    ensures msg.time != 0 && msg.timeNano != 0 && msg.scope != "" ==> Stamp(msg, now, nowNano) == msg
    ensures Stamp(msg.(time := 0, timeNano := 0, scope := ""), now, nowNano)
            == msg.(time := now, timeNano := nowNano, scope := "local")
    ensures now != 0 && nowNano != 0 ==>
              forall later, laterNano :: Stamp(Stamp(msg, now, nowNano), later, laterNano) == Stamp(msg, now, nowNano)
  {
  }

  /** A non-blocking send: a message that finds the buffer full is dropped. */
  function Push(queue: seq<Message>, msg: Message): seq<Message> {
    if |queue| < BUFFER_SIZE then queue + [msg] else queue
  }

  function Offer(queue: seq<Message>, f: Filters, msg: Message): seq<Message> {
    if Matches(msg, f) then Push(queue, msg) else queue
  }

  class Channel {
    var queue: seq<Message>
    var closed: bool

    constructor ()
      ensures queue == [] && !closed
    {
      queue, closed := [], false;
    }

    /** Sending on a closed channel panics. */
    method TrySend(msg: Message)
      requires !closed
      modifies this`queue
      ensures queue == Push(old(queue), msg)
    {
      if |queue| < BUFFER_SIZE {
        queue := queue + [msg];
      }
    }

    /** Closing a closed channel panics. */
    method Close()
      requires !closed
      modifies this`closed
      ensures closed
    {
      closed := true;
    }
  }

  datatype Subscriber = Subscriber(ch: Channel, filters: Filters)

  class Bus {
    var subscribers: map<nat, Subscriber>
    var nextID: nat

    ghost function Channels(): set<Channel>
      reads this
    {
      set id <- subscribers :: subscribers[id].ch
    }

    /** Registered channels are open and pairwise different, and ids are used once. */
    ghost predicate Valid()
      reads this, Channels()
    {
      && (forall id <- subscribers :: id < nextID && !subscribers[id].ch.closed)
      && (forall i <- subscribers, j <- subscribers :: subscribers[i].ch == subscribers[j].ch ==> i == j)
    }

    constructor ()
      ensures Valid() && subscribers == map[]
    {
      subscribers, nextID := map[], 0;
    }

    method Publish(msg: Message, now: int, nowNano: int)
      requires Valid()
      modifies Channels()`queue
      ensures Valid()
      ensures forall id <- subscribers ::
                subscribers[id].ch.queue == Offer(old(subscribers[id].ch.queue), subscribers[id].filters,
                                                  Stamp(msg, now, nowNano))
    {
      var stamped := Stamp(msg, now, nowNano);
      var remaining := subscribers.Keys;
      while remaining != {}
        invariant remaining <= subscribers.Keys
        invariant forall id <- subscribers ::
                    subscribers[id].ch.queue ==
                    if id in remaining then old(subscribers[id].ch.queue)
                    else Offer(old(subscribers[id].ch.queue), subscribers[id].filters, stamped)
        decreases |remaining|
      {
        var id :| id in remaining;
        remaining := remaining - {id};
        var sub := subscribers[id];
        if Matches(stamped, sub.filters) {
          sub.ch.TrySend(stamped);
        }
      }
    }

    method Subscribe(f: Filters) returns (ch: Channel, id: nat)
      requires Valid()
      modifies this
      ensures Valid() && fresh(ch) && ch.queue == []
      ensures id !in old(subscribers) && subscribers == old(subscribers)[id := Subscriber(ch, f)]
    {
      ch := new Channel();
      id := nextID;
      nextID := nextID + 1;
      subscribers := subscribers[id := Subscriber(ch, f)];
    }

    /** A second Close of the same subscription does nothing. */
    method Close(id: nat)
      requires Valid()
      modifies this`subscribers, Channels()`closed
      ensures Valid() && subscribers == old(subscribers) - {id}
      ensures forall c <- old(Channels()) :: c.closed <==> id in old(subscribers) && c == old(subscribers)[id].ch
    {
      var ok := id in subscribers;
      if ok {
        var sub := subscribers[id];
        subscribers := subscribers - {id};
        sub.ch.Close();
      }
    }
  }

  // ----- Interleavings

  /** A subscriber's channel. `received` is what the subscriber took out of it. */
  datatype Chan = Chan(filters: Filters, queue: seq<Message>, received: seq<Message>, closes: nat)

  /** A Publish that holds the read lock: the subscribers it still has to visit, and has visited. */
  datatype Publishing = Publishing(msg: Message, remaining: set<nat>, visited: set<nat>)

  /** `chans` holds every channel ever made, `subscribers` the ids registered now, `closers` the
      Close calls between their critical section and the close. */
  datatype World = World(
    subscribers: set<nat>,
    nextID: nat,
    chans: map<nat, Chan>,
    readers: map<nat, Publishing>,
    closers: map<nat, nat>,
    panicked: bool)

  /** `t` and `c` name goroutines. */
  datatype Step =
    | BeginPublish(t: nat, msg: Message)
    | Visit(t: nat, id: nat)
    | EndPublish(t: nat)
    | Subscribe(filters: Filters)
    | Unregister(c: nat, id: nat)
    | CloseChan(c: nat)
    | Receive(id: nat)

  /** The write lock is taken only while nobody holds the read lock. */
  predicate Enabled(w: World, step: Step) {
    match step
    case BeginPublish(t, _) => t !in w.readers
    case Visit(t, id) => t in w.readers && id in w.readers[t].remaining && id in w.chans
    case EndPublish(t) => t in w.readers && w.readers[t].remaining == {}
    case Subscribe(_) => w.readers == map[]
    case Unregister(c, _) => w.readers == map[] && c !in w.closers
    case CloseChan(c) => c in w.closers && w.closers[c] in w.chans
    case Receive(id) => id in w.chans && w.chans[id].queue != []
  }

  function SendTo(w: World, id: nat, msg: Message): World
    requires id in w.chans
  {
    var ch := w.chans[id];
    if Matches(msg, ch.filters) && ch.closes > 0 then w.(panicked := true)
    else w.(chans := w.chans[id := ch.(queue := Offer(ch.queue, ch.filters, msg))])
  }

  function Next(w: World, step: Step): World {
    if !Enabled(w, step) then w
    else
      match step
      case BeginPublish(t, msg) => w.(readers := w.readers[t := Publishing(msg, w.subscribers, {})])
      case Visit(t, id) =>
        var p := w.readers[t];
        SendTo(w, id, p.msg).(readers := w.readers[t := Publishing(p.msg, p.remaining - {id}, p.visited + {id})])
      case EndPublish(t) => w.(readers := w.readers - {t})
      case Subscribe(f) =>
        w.(subscribers := w.subscribers + {w.nextID}, nextID := w.nextID + 1,
           chans := w.chans[w.nextID := Chan(f, [], [], 0)])
      case Unregister(c, id) =>
        if id in w.subscribers then w.(subscribers := w.subscribers - {id}, closers := w.closers[c := id]) else w
      case CloseChan(c) =>
        var id := w.closers[c];
        if w.chans[id].closes > 0 then w.(panicked := true, closers := w.closers - {c})
        else w.(chans := w.chans[id := w.chans[id].(closes := 1)], closers := w.closers - {c})
      case Receive(id) =>
        var ch := w.chans[id];
        w.(chans := w.chans[id := ch.(queue := ch.queue[1..], received := ch.received + [ch.queue[0]])])
  }

  function Run(steps: seq<Step>): World {
    if steps == [] then World({}, 0, map[], map[], map[], false)
    else Next(Run(steps[..|steps| - 1]), steps[|steps| - 1])
  }

  /** A registered channel is open and nobody is about to close it; a channel about to be closed is
      open, unregistered and has one closer. */
  ghost predicate ChannelsOpen(w: World) {
    && !w.panicked
    && (forall id <- w.chans :: id < w.nextID)
    && (forall id <- w.subscribers :: id in w.chans && w.chans[id].closes == 0)
    && (forall c <- w.closers ::
          w.closers[c] in w.chans && w.chans[w.closers[c]].closes == 0 && w.closers[c] !in w.subscribers)
    && (forall c <- w.closers, d <- w.closers :: w.closers[c] == w.closers[d] ==> c == d)
  }

  /** A publisher visits the registered subscribers, each once. */
  ghost predicate VisitsRegistered(w: World) {
    forall t <- w.readers :: w.readers[t].remaining + w.readers[t].visited == w.subscribers
                             && w.readers[t].remaining !! w.readers[t].visited
  }

  ghost predicate Bounded(w: World) {
    forall id <- w.chans :: |w.chans[id].queue| <= 256
  }

  ghost predicate Orderly(w: World) {
    ChannelsOpen(w) && VisitsRegistered(w) && Bounded(w)
  }

  lemma ChannelsStayOpen(w: World, step: Step)
    requires ChannelsOpen(w) && VisitsRegistered(w)
    ensures ChannelsOpen(Next(w, step))
  {
  }

  lemma VisitsStay(w: World, step: Step)
    requires VisitsRegistered(w)
    ensures VisitsRegistered(Next(w, step))
  {
  }

  lemma BoundedStays(w: World, step: Step)
    requires Bounded(w)
    ensures Bounded(Next(w, step))
  {
  }

  /** In every interleaving of publishers, subscribers and closers nothing is sent on a closed
      channel and no channel is closed twice. */
  lemma {:induction false} NeverPanics(steps: seq<Step>)
    ensures Orderly(Run(steps))
  {
    if steps != [] {
      var w, step := Run(steps[..|steps| - 1]), steps[|steps| - 1];
      NeverPanics(steps[..|steps| - 1]);
      ChannelsStayOpen(w, step);
      VisitsStay(w, step);
      BoundedStays(w, step);
    }
  }

  /** A Publish that ends has visited every subscriber registered, each exactly once. */
  lemma PublishVisitsAll(steps: seq<Step>, t: nat)
    requires Enabled(Run(steps), EndPublish(t))
    ensures Run(steps).readers[t].visited == Run(steps).subscribers
  {
    NeverPanics(steps);
  }

  /** The step sends a message the subscriber wants while `backlog` messages wait, less than 256. */
  predicate Keeps(w: World, step: Step, id: nat, backlog: nat) {
    step.Visit? && step.id == id && Enabled(w, step) && Matches(w.readers[step.t].msg, w.chans[id].filters)
    && backlog < 256
  }

  /** Read off the run: the messages for a subscriber that did not find its buffer full, in send
      order, and how many of them have not been received. */
  function Kept(steps: seq<Step>, id: nat): (seq<Message>, nat) {
    if steps == [] then ([], 0)
    else
      var before, step := steps[..|steps| - 1], steps[|steps| - 1];
      var w := Run(before);
      var (kept, backlog) := Kept(before, id);
      if Keeps(w, step, id, backlog) then (kept + [w.readers[step.t].msg], backlog + 1)
      else if step == Receive(id) && Enabled(w, step) && backlog > 0 then (kept, backlog - 1)
      else (kept, backlog)
  }

  ghost predicate Tracks(w: World, id: nat, kept: seq<Message>, backlog: nat) {
    if id in w.chans then
      w.chans[id].received + w.chans[id].queue == kept && |w.chans[id].queue| == backlog
    else kept == [] && backlog == 0
  }

  lemma SendTracks(w: World, step: Step, id: nat, kept: seq<Message>, backlog: nat)
    requires step.Visit? && step.id == id && Enabled(w, step)
    requires id in w.chans && w.chans[id].closes == 0 && Tracks(w, id, kept, backlog)
    ensures Tracks(Next(w, step), id,
                   if Keeps(w, step, id, backlog) then kept + [w.readers[step.t].msg] else kept,
                   if Keeps(w, step, id, backlog) then backlog + 1 else backlog)
  {
    var ch, msg := w.chans[id], w.readers[step.t].msg;
    assert ch.received + (ch.queue + [msg]) == ch.received + ch.queue + [msg];
  }

  lemma ReceiveTracks(w: World, id: nat, kept: seq<Message>, backlog: nat)
    requires Enabled(w, Receive(id)) && Tracks(w, id, kept, backlog)
    ensures backlog > 0 && Tracks(Next(w, Receive(id)), id, kept, backlog - 1)
  {
    var ch := w.chans[id];
    assert ch.received + [ch.queue[0]] + ch.queue[1..] == ch.received + ch.queue;
  }

  lemma OthersTrack(w: World, step: Step, id: nat, kept: seq<Message>, backlog: nat)
    requires forall i <- w.chans :: i < w.nextID
    requires !(step.Visit? && step.id == id && Enabled(w, step)) && !(step == Receive(id) && Enabled(w, step))
    requires Tracks(w, id, kept, backlog)
    ensures Tracks(Next(w, step), id, kept, backlog)
  {
  }

  /** What a subscriber received, followed by what waits for it, is exactly the matching messages
      sent to it, in send order, without those sent while 256 were waiting. */
  lemma {:induction false} LossExactly(steps: seq<Step>, id: nat)
    ensures Tracks(Run(steps), id, Kept(steps, id).0, Kept(steps, id).1)
  {
    if steps != [] {
      var before, step := steps[..|steps| - 1], steps[|steps| - 1];
      var w, kept, backlog := Run(before), Kept(before, id).0, Kept(before, id).1;
      LossExactly(before, id);
      NeverPanics(before);
      if step.Visit? && step.id == id && Enabled(w, step) {
        assert id in w.readers[step.t].remaining + w.readers[step.t].visited;
        SendTracks(w, step, id, kept, backlog);
      } else if step == Receive(id) && Enabled(w, step) {
        ReceiveTracks(w, id, kept, backlog);
      } else {
        OthersTrack(w, step, id, kept, backlog);
      }
    }
  }
}
