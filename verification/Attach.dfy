/** The attach fan-out of internal/runtime/io.go: what a container prints before the first client
    attaches is buffered and replayed once, later output goes to every attached client. */
module Attach {
  import opened Addresses
  import opened Stdcopy
  import Lines

  // ----- The state behind the mutex, and its three critical sections

  datatype Hub<W(==)> = Hub(buffer: Bytes, flushed: bool, attached: seq<W>, received: map<W, Bytes>)

  function Got<W>(received: map<W, Bytes>, w: W): Bytes {
    if w in received then received[w] else []
  }

  function Wire(tty: bool, s: Stream, data: Bytes): Bytes {
    if tty then data else Frame(s, data)
  }

  function WriteAll<W>(received: map<W, Bytes>, ws: seq<W>, out: Bytes): map<W, Bytes>
    decreases |ws|
  {
    if ws == [] then received
    else WriteAll(received[ws[0] := Got(received, ws[0]) + out], ws[1..], out)
  }

  function RemoveFirst<W(==)>(ws: seq<W>, w: W): seq<W> {
    if ws == [] then []
    else if ws[0] == w then ws[1..]
    else [ws[0]] + RemoveFirst(ws[1..], w)
  }

  function FanOut<W>(h: Hub<W>, out: Bytes): Hub<W> {
    if h.attached == [] && !h.flushed then h.(buffer := h.buffer + out)
    else h.(received := WriteAll(h.received, h.attached, out))
  }

  /** `had` is what a client not seen before has already been sent by others. */
  function AddWriter<W>(h: Hub<W>, w: W, had: Bytes): Hub<W> {
    Hub([], h.flushed || h.buffer != [], h.attached + [w],
        h.received[w := (if w in h.received then h.received[w] else had) + h.buffer])
  }

  function RemoveWriter<W>(h: Hub<W>, w: W): Hub<W> {
    h.(attached := RemoveFirst(h.attached, w))
  }

  // ----- The methods

  /** A client's connection; a write appends to what it received. */
  class Client {
    var received: Bytes

    constructor ()
      ensures received == []
    {
      received := [];
    }

    method Write(p: Bytes)
      modifies this
      ensures received == old(received) + p
    {
      received := received + p;
    }
  }

  class ContainerIO {
    const tty: bool
    var attachBuf: Bytes
    var attachBufFlushed: bool
    var attachOut: seq<Client>
    /** Every client that was ever attached. */
    ghost var clients: set<Client>

    ghost predicate Valid()
      reads this
    {
      forall w <- attachOut :: w in clients
    }

    ghost function View(): Hub<Client>
      reads this, clients
    {
      Hub(attachBuf, attachBufFlushed, attachOut, Received())
    }

    constructor (tty: bool)
      ensures Valid() && View() == Hub([], false, [], map[]) && this.tty == tty
    {
      this.tty := tty;
      attachBuf, attachBufFlushed, attachOut, clients := [], false, [], {};
    }

    method FanOutOrBuffer(data: Bytes, s: Stream)
      requires Valid()
      modifies this, clients
      ensures Valid() && clients == old(clients)
      ensures View() == FanOut(old(View()), Wire(tty, s, data))
    {
      var out := data;
      if !tty {
        var frame := BuildFrame(s, data);
        out := frame[..];
      }
      if |attachOut| == 0 && !attachBufFlushed {
        attachBuf := attachBuf + out;
      } else {
        WriteToAll(out);
      }
    }

    ghost function Received(): map<Client, Bytes>
      reads this, clients
    {
      map w <- clients :: w.received
    }

    method WriteToAll(out: Bytes)
      requires Valid()
      modifies clients
      ensures Received() == WriteAll(old(Received()), attachOut, out)
    {
      ghost var before := Received();
      for i := 0 to |attachOut|
        invariant WriteAll(Received(), attachOut[i..], out) == WriteAll(before, attachOut, out)
      {
        ghost var received := Received();
        var w := attachOut[i];
        w.Write(out);
        assert attachOut[i..][1..] == attachOut[i + 1..];
        assert Received() == received[w := Got(received, w) + out];
      }
      assert attachOut[|attachOut|..] == [];
    }

    method AddAttachWriter(w: Client)
      requires Valid()
      modifies this, w
      ensures Valid() && clients == old(clients) + {w}
      ensures View() == AddWriter(old(View()), w, old(w.received))
    {
      ghost var before := w.received;
      clients := clients + {w};
      if |attachBuf| > 0 {
        w.Write(attachBuf);
        attachBuf := [];
        attachBufFlushed := true;
      }
      attachOut := attachOut + [w];
      assert w.received == before + old(attachBuf);
      assert Received() == old(Received())[w := before + old(attachBuf)];
    }

    method RemoveAttachWriter(w: Client)
      requires Valid()
      modifies this`attachOut
      ensures Valid() && View() == RemoveWriter(old(View()), w)
    {
      var i := 0;
      while i < |attachOut| && attachOut[i] != w
        invariant 0 <= i <= |attachOut| && w !in attachOut[..i]
      {
        i := i + 1;
      }
      RemoveFirstAt(attachOut, i, w);
      if i < |attachOut| {
        attachOut := attachOut[..i] + attachOut[i + 1..];
      }
    }
  }

  lemma {:induction false} RemoveFirstAt<W>(ws: seq<W>, i: nat, w: W)
    requires i <= |ws| && w !in ws[..i] && (i < |ws| ==> ws[i] == w)
    ensures RemoveFirst(ws, w) == if i < |ws| then ws[..i] + ws[i + 1..] else ws
  {
    if i > 0 {
      assert ws[..i][0] == ws[0] && ws[1..][..i - 1] == ws[..i][1..];
      RemoveFirstAt(ws[1..], i - 1, w);
    }
  }

  // ----- Runs: the goroutines' critical sections in any order, each client on a new connection

  datatype Step<W> = Output(stream: Stream, data: Bytes) | Attach(w: W) | Detach(w: W)

  function Next<W>(tty: bool, h: Hub<W>, step: Step<W>): Hub<W> {
    match step
    case Output(s, data) => FanOut(h, Wire(tty, s, data))
    case Attach(w) => AddWriter(h, w, [])
    case Detach(w) => RemoveWriter(h, w)
  }

  function Run<W(==)>(tty: bool, steps: seq<Step<W>>): Hub<W> {
    if steps == [] then Hub([], false, [], map[])
    else Next(tty, Run(tty, steps[..|steps| - 1]), steps[|steps| - 1])
  }

  /** The global order of what was put on the wire. */
  function Outs<W>(tty: bool, steps: seq<Step<W>>): seq<Bytes> {
    if steps == [] then []
    else
      var outs := Outs(tty, steps[..|steps| - 1]);
      match steps[|steps| - 1]
      case Output(s, data) => outs + [Wire(tty, s, data)]
      case _ => outs
  }

  /** How many of the last outputs wait in the buffer. */
  function Pending<W(==)>(tty: bool, steps: seq<Step<W>>): nat {
    if steps == [] then 0
    else
      var before := steps[..|steps| - 1];
      match steps[|steps| - 1]
      case Output(_, _) =>
        var h := Run(tty, before);
        if h.attached == [] && !h.flushed then Pending(tty, before) + 1 else Pending(tty, before)
      case Attach(_) => 0
      case Detach(_) => Pending(tty, before)
  }

  /** The outputs a client is given: from the oldest one buffered when it attached to the last one
      before it detached. */
  datatype Span = Never | Open(from: nat) | Closed(from: nat, to: nat)

  function SpanOf<W(==)>(tty: bool, steps: seq<Step<W>>, w: W): Span {
    if steps == [] then Never
    else
      var before := steps[..|steps| - 1];
      var span := SpanOf(tty, before, w);
      var n := |Outs(tty, before)|;
      if steps[|steps| - 1] == Attach(w) then
        if Pending(tty, before) <= n then Open(n - Pending(tty, before)) else Never
      else if steps[|steps| - 1] == Detach(w) && span.Open? then Closed(span.from, n)
      else span
  }

  predicate AttachedOnce<W(==)>(steps: seq<Step<W>>, w: W) {
    forall i, j :: 0 <= i < j < |steps| ==> !(steps[i] == Attach(w) && steps[j] == Attach(w))
  }

  // ----- The buffer

  lemma {:induction false} BufferHoldsPending<W>(tty: bool, steps: seq<Step<W>>)
    ensures var outs := Outs(tty, steps);
            var n := Pending(tty, steps);
            n <= |outs| && Run(tty, steps).buffer == Flatten(outs[|outs| - n..])
    ensures Run(tty, steps).attached != [] || Run(tty, steps).flushed ==> Pending(tty, steps) == 0
  {
    if steps != [] {
      var before := steps[..|steps| - 1];
      var outs, n := Outs(tty, before), Pending(tty, before);
      BufferHoldsPending(tty, before);
      match steps[|steps| - 1]
      case Output(s, data) =>
        SuffixGrows(outs, n, Wire(tty, s, data));
      case Attach(w) =>
        assert Flatten(outs[|outs|..]) == [];
      case Detach(w) =>
        RemovedWasThere(Run(tty, before).attached, w);
    }
  }

  lemma SuffixGrows(outs: seq<Bytes>, n: nat, out: Bytes)
    requires n <= |outs|
    ensures Flatten((outs + [out])[|outs| - n..]) == Flatten(outs[|outs| - n..]) + out
    ensures n == 0 ==> Flatten((outs + [out])[|outs| + 1..]) == Flatten(outs[|outs|..]) == []
  {
    FlattenAppend(outs[|outs| - n..], [out]);
    FlattenOne(out);
    assert (outs + [out])[|outs| - n..] == outs[|outs| - n..] + [out];
  }

  lemma RemovedWasThere<W>(ws: seq<W>, w: W)
    ensures RemoveFirst(ws, w) != [] ==> ws != []
  {
  }

  lemma {:induction false} RemoveFirstCounts<W>(ws: seq<W>, w: W)
    ensures multiset(RemoveFirst(ws, w)) == multiset(ws) - multiset{w}
  {
    if ws != [] {
      RemoveFirstCounts(ws[1..], w);
      assert ws == [ws[0]] + ws[1..];
      if ws[0] != w {
        assert multiset(RemoveFirst(ws, w)) == multiset{ws[0]} + multiset(RemoveFirst(ws[1..], w));
      }
    }
  }

  /** No output is replayed to two clients: of any two attaches at most one finds something in the
      buffer. (A PTY read that yields nothing is not passed on.) */
  lemma ReplayedOnce<W>(tty: bool, steps: seq<Step<W>>, i: nat, j: nat)
    requires i < j < |steps| && steps[i].Attach? && steps[j].Attach?
    requires forall s <- steps :: s.Output? && tty ==> s.data != []
    ensures Run(tty, steps[..i]).buffer == [] || Run(tty, steps[..j]).buffer == []
  {
    if Run(tty, steps[..i]).buffer != [] {
      assert steps[..i + 1][..i] == steps[..i];
      assert Run(tty, steps[..i + 1]).flushed;
      FlushedStays(tty, steps, i + 1, j);
      BufferHoldsPending(tty, steps[..j]);
      assert Outs(tty, steps[..j])[|Outs(tty, steps[..j])|..] == [];
    }
  }

  lemma FlushedStep<W>(tty: bool, steps: seq<Step<W>>)
    requires steps != []
    ensures Run(tty, steps).flushed <==> Run(tty, steps[..|steps| - 1]).flushed || Replays(tty, steps, |steps| - 1)
  {
  }

  lemma ReplaysPrefix<W>(tty: bool, steps: seq<Step<W>>, k: nat, i: nat)
    requires i < k <= |steps|
    ensures Replays(tty, steps[..k], i) <==> Replays(tty, steps, i)
  {
    assert steps[..k][..i] == steps[..i];
  }

  /** The buffer counts as replayed from the first attach on that finds something in it, not before. */
  lemma {:induction false} FlushedExactly<W>(tty: bool, steps: seq<Step<W>>)
    ensures Run(tty, steps).flushed <==> ReplayedWithin(tty, steps, |steps|)
  {
    if steps != [] {
      FlushedExactly(tty, steps[..|steps| - 1]);
      FlushedStep(tty, steps);
      ReplayedBefore(tty, steps);
    }
  }

  lemma ReplayedBefore<W>(tty: bool, steps: seq<Step<W>>)
    requires steps != []
    ensures var last := |steps| - 1;
            ReplayedWithin(tty, steps, |steps|)
            <==> ReplayedWithin(tty, steps[..last], last) || Replays(tty, steps, last)
  {
    var last := |steps| - 1;
    forall i | 0 <= i < last ensures Replays(tty, steps[..last], i) <==> Replays(tty, steps, i) {
      ReplaysPrefix(tty, steps, last, i);
    }
  }

  /** One of the first k steps is an attach that finds something in the buffer. */
  ghost predicate ReplayedWithin<W>(tty: bool, steps: seq<Step<W>>, k: nat)
    requires k <= |steps|
  {
    exists i :: 0 <= i < k && Replays(tty, steps, i)
  }

  predicate Replays<W(==)>(tty: bool, steps: seq<Step<W>>, i: nat)
    requires i < |steps|
  {
    steps[i].Attach? && Run(tty, steps[..i]).buffer != []
  }

  lemma {:induction false} FlushedStays<W>(tty: bool, steps: seq<Step<W>>, i: nat, j: nat)
    requires i <= j <= |steps| && Run(tty, steps[..i]).flushed
    ensures Run(tty, steps[..j]).flushed
    decreases j - i
  {
    if i < j {
      FlushedStays(tty, steps, i, j - 1);
      assert steps[..j][..j - 1] == steps[..j - 1];
    }
  }

  // ----- What one client receives

  lemma {:induction false} WriteAllOnce<W>(received: map<W, Bytes>, ws: seq<W>, out: Bytes, w: W)
    requires multiset(ws)[w] <= 1
    ensures Got(WriteAll(received, ws, out), w) == if w in ws then Got(received, w) + out else Got(received, w)
    decreases |ws|
  {
    if ws != [] {
      var next := received[ws[0] := Got(received, ws[0]) + out];
      assert ws == [ws[0]] + ws[1..];
      WriteAllOnce(next, ws[1..], out, w);
    }
  }

  /** A client attached k times is sent every output k times. */
  lemma {:induction false} WriteAllCounts<W>(received: map<W, Bytes>, ws: seq<W>, out: Bytes, w: W)
    ensures |Got(WriteAll(received, ws, out), w)| == |Got(received, w)| + multiset(ws)[w] * |out|
    decreases |ws|
  {
    if ws != [] {
      var next := received[ws[0] := Got(received, ws[0]) + out];
      CountedFirst(ws, w);
      WriteAllCounts(next, ws[1..], out, w);
      if ws[0] == w {
        OneMoreTime(multiset(ws[1..])[w], |out|);
      }
    }
  }

  lemma CountedFirst<W>(ws: seq<W>, w: W)
    requires ws != []
    ensures multiset(ws)[w] == (if ws[0] == w then 1 else 0) + multiset(ws[1..])[w]
  {
    assert ws == [ws[0]] + ws[1..];
  }

  lemma OneMoreTime(k: nat, n: nat)
    ensures (k + 1) * n == k * n + n
  {
  }

  predicate SpanHolds(span: Span, outs: seq<Bytes>, got: Bytes, count: nat) {
    match span
    case Never => count == 0 && got == []
    case Open(from) => count == 1 && from <= |outs| && got == Flatten(outs[from..])
    case Closed(from, to) => count == 0 && from <= to <= |outs| && got == Flatten(outs[from..to])
  }

  lemma {:induction false} NeverAttached<W>(tty: bool, steps: seq<Step<W>>, w: W)
    requires Attach(w) !in steps
    ensures SpanOf(tty, steps, w).Never?
  {
    if steps != [] {
      assert steps[|steps| - 1] in steps;
      NeverAttached(tty, steps[..|steps| - 1], w);
    }
  }

  /** In any interleaving, a client attached once receives a contiguous block of whole outputs in
      the global order: from the oldest one buffered when it attached to its detaching. */
  lemma {:induction false} ReceivesBlock<W>(tty: bool, steps: seq<Step<W>>, w: W)
    requires AttachedOnce(steps, w)
    ensures var h := Run(tty, steps);
            SpanHolds(SpanOf(tty, steps, w), Outs(tty, steps), Got(h.received, w), multiset(h.attached)[w])
  {
    if steps != [] {
      var k := |steps| - 1;
      var before, step := steps[..k], steps[k];
      assert AttachedOnce(before, w);
      ReceivesBlock(tty, before, w);
      if step == Attach(w) {
        assert Attach(w) !in before;
        NeverAttached(tty, before, w);
      }
      BlockStep(tty, before, step, w);
      assert before + [step] == steps;
    }
  }

  lemma BlockStep<W>(tty: bool, before: seq<Step<W>>, step: Step<W>, w: W)
    requires var h := Run(tty, before);
             SpanHolds(SpanOf(tty, before, w), Outs(tty, before), Got(h.received, w), multiset(h.attached)[w])
    requires step == Attach(w) ==> SpanOf(tty, before, w).Never?
    ensures var steps := before + [step];
            var h := Run(tty, steps);
            SpanHolds(SpanOf(tty, steps, w), Outs(tty, steps), Got(h.received, w), multiset(h.attached)[w])
  {
    var h, outs, span, pending := Run(tty, before), Outs(tty, before), SpanOf(tty, before, w), Pending(tty, before);
    var next, more, nextSpan := Next(tty, h, step), outs + LastOut(tty, step), NextSpan(span, step, w, |outs|, pending);
    assert SpanHolds(nextSpan, more, Got(next.received, w), multiset(next.attached)[w]) by {
      BufferHoldsPending(tty, before);
      HubStep(tty, h, outs, span, pending, step, w);
    }
    assert Run(tty, before + [step]) == next && Outs(tty, before + [step]) == more
      && SpanOf(tty, before + [step], w) == nextSpan by {
      LastStep(tty, before, step, w);
    }
  }

  lemma HubStep<W>(tty: bool, h: Hub<W>, outs: seq<Bytes>, span: Span, pending: nat, step: Step<W>, w: W)
    requires SpanHolds(span, outs, Got(h.received, w), multiset(h.attached)[w])
    requires pending <= |outs| && h.buffer == Flatten(outs[|outs| - pending..])
    requires step == Attach(w) ==> span.Never?
    ensures var n := Next(tty, h, step);
            SpanHolds(NextSpan(span, step, w, |outs|, pending), outs + LastOut(tty, step),
                      Got(n.received, w), multiset(n.attached)[w])
  {
    match step
    case Output(s, data) =>
      OutputStep(h, outs, span, Wire(tty, s, data), w);
    case Attach(v) =>
      assert outs + [] == outs;
      AttachStep(h, outs, span, pending, v, w);
    case Detach(v) =>
      assert outs + [] == outs;
      DetachStep(h, outs, span, v, w);
  }

  function LastOut<W>(tty: bool, step: Step<W>): seq<Bytes> {
    if step.Output? then [Wire(tty, step.stream, step.data)] else []
  }

  function NextSpan<W(==)>(span: Span, step: Step<W>, w: W, n: nat, pending: nat): Span {
    if step == Attach(w) then if pending <= n then Open(n - pending) else Never
    else if step == Detach(w) && span.Open? then Closed(span.from, n)
    else span
  }

  lemma RunSnoc<W>(tty: bool, before: seq<Step<W>>, step: Step<W>)
    ensures Run(tty, before + [step]) == Next(tty, Run(tty, before), step)
  {
    assert (before + [step])[..|before|] == before;
  }

  lemma OutsSnoc<W>(tty: bool, before: seq<Step<W>>, step: Step<W>)
    ensures Outs(tty, before + [step]) == Outs(tty, before) + LastOut(tty, step)
  {
    assert (before + [step])[..|before|] == before;
  }

  lemma SpanSnoc<W>(tty: bool, before: seq<Step<W>>, step: Step<W>, w: W)
    ensures SpanOf(tty, before + [step], w)
            == NextSpan(SpanOf(tty, before, w), step, w, |Outs(tty, before)|, Pending(tty, before))
  {
    assert (before + [step])[..|before|] == before;
  }

  lemma LastStep<W>(tty: bool, before: seq<Step<W>>, step: Step<W>, w: W)
    ensures var steps := before + [step];
            && Run(tty, steps) == Next(tty, Run(tty, before), step)
            && Outs(tty, steps) == Outs(tty, before) + LastOut(tty, step)
            && SpanOf(tty, steps, w) == NextSpan(SpanOf(tty, before, w), step, w, |Outs(tty, before)|,
                                                 Pending(tty, before))
  {
    RunSnoc(tty, before, step);
    OutsSnoc(tty, before, step);
    SpanSnoc(tty, before, step, w);
  }

  lemma AttachStep<W>(h: Hub<W>, outs: seq<Bytes>, span: Span, pending: nat, v: W, w: W)
    requires SpanHolds(span, outs, Got(h.received, w), multiset(h.attached)[w])
    requires pending <= |outs| && h.buffer == Flatten(outs[|outs| - pending..])
    requires v == w ==> span.Never?
    ensures var n := AddWriter(h, v, []);
            SpanHolds(NextSpan(span, Attach(v), w, |outs|, pending), outs, Got(n.received, w), multiset(n.attached)[w])
  {
  }

  lemma DetachStep<W>(h: Hub<W>, outs: seq<Bytes>, span: Span, v: W, w: W)
    requires SpanHolds(span, outs, Got(h.received, w), multiset(h.attached)[w])
    ensures var n := RemoveWriter(h, v);
            SpanHolds(NextSpan(span, Detach(v), w, |outs|, 0), outs, Got(n.received, w), multiset(n.attached)[w])
  {
    RemovedCount(h.attached, v, w);
    if span.Open? {
      assert outs[span.from..] == outs[span.from..|outs|];
    }
  }

  lemma RemovedCount<W>(ws: seq<W>, v: W, w: W)
    ensures var n := multiset(ws)[w]; multiset(RemoveFirst(ws, v))[w] == if v == w && n > 0 then n - 1 else n
  {
    RemoveFirstCounts(ws, v);
  }

  lemma OutputStep<W>(h: Hub<W>, outs: seq<Bytes>, span: Span, out: Bytes, w: W)
    requires SpanHolds(span, outs, Got(h.received, w), multiset(h.attached)[w])
    ensures var n := FanOut(h, out);
            SpanHolds(span, outs + [out], Got(n.received, w), multiset(n.attached)[w])
  {
    WriteAllOnce(h.received, h.attached, out, w);
    match span
    case Never =>
    case Open(from) =>
      SuffixGrows(outs, |outs| - from, out);
    case Closed(from, to) =>
      assert (outs + [out])[from..to] == outs[from..to];
  }

  // ----- Which output is lost

  predicate Covers(span: Span, k: nat) {
    match span
    case Never => false
    case Open(from) => from <= k
    case Closed(from, to) => from <= k < to
  }

  predicate SomeoneGot<W(==)>(tty: bool, steps: seq<Step<W>>, k: nat) {
    exists i :: 0 <= i < |steps| && steps[i].Attach? && Covers(SpanOf(tty, steps, steps[i].w), k)
  }

  /** The k-th output came when nobody was attached, after the buffer had been replayed. */
  predicate Unheard<W(==)>(tty: bool, steps: seq<Step<W>>, k: nat) {
    if steps == [] then false
    else
      var before := steps[..|steps| - 1];
      if steps[|steps| - 1].Output? && k == |Outs(tty, before)| then
        Run(tty, before).attached == [] && Run(tty, before).flushed
      else
        Unheard(tty, before, k)
  }

  lemma {:induction false} AttachedHasStep<W>(tty: bool, steps: seq<Step<W>>, w: W)
    requires w in Run(tty, steps).attached
    ensures Attach(w) in steps
  {
    if steps != [] {
      var before, step := steps[..|steps| - 1], steps[|steps| - 1];
      assert steps == before + [step];
      if step.Detach? {
        RemoveFirstCounts(Run(tty, before).attached, step.w);
        assert multiset(Run(tty, steps).attached)[w] > 0;
      }
      if step != Attach(w) {
        AttachedHasStep(tty, before, w);
      }
    }
  }

  /** When every client attaches once, an output is lost exactly when it came while nobody was
      attached after the replay; any other is received by somebody or still waits in the buffer. */
  lemma {:induction false} LossExactly<W>(tty: bool, steps: seq<Step<W>>, k: nat)
    requires forall s <- steps :: s.Attach? ==> AttachedOnce(steps, s.w)
    requires k < |Outs(tty, steps)|
    ensures Unheard(tty, steps, k) <==>
            !SomeoneGot(tty, steps, k) && k < |Outs(tty, steps)| - Pending(tty, steps)
  {
    var last := |steps| - 1;
    var before, step := steps[..last], steps[last];
    assert steps == before + [step];
    forall s | s in before && s.Attach? ensures AttachedOnce(before, s.w) { assert AttachedOnce(steps, s.w); }
    if k < |Outs(tty, before)| {
      LossExactly(tty, before, k);
    }
    BufferHoldsPending(tty, before);
    match step
    case Output(s, data) =>
      LossAtOutput(tty, before, step, k);
    case Attach(v) =>
      LossAtAttach(tty, before, step, k);
    case Detach(v) =>
      LossAtDetach(tty, before, step, k);
  }

  lemma LossAtOutput<W>(tty: bool, before: seq<Step<W>>, step: Step<W>, k: nat)
    requires step.Output?
    requires forall s <- before :: s.Attach? ==> AttachedOnce(before, s.w)
    requires k < |Outs(tty, before)| ==> (Unheard(tty, before, k) <==>
             !SomeoneGot(tty, before, k) && k < |Outs(tty, before)| - Pending(tty, before))
    requires k <= |Outs(tty, before)|
    ensures var steps := before + [step];
            Unheard(tty, steps, k) <==> !SomeoneGot(tty, steps, k) && k < |Outs(tty, steps)| - Pending(tty, steps)
  {
    var steps := before + [step];
    assert steps[..|steps| - 1] == before;
    SomeoneGotOutput(tty, before, step, k);
    BufferHoldsPending(tty, before);
    if k == |Outs(tty, before)| {
      NextIsHeard(tty, before);
    }
  }

  lemma SomeoneGotOutput<W>(tty: bool, before: seq<Step<W>>, step: Step<W>, k: nat)
    requires step.Output?
    ensures SomeoneGot(tty, before + [step], k) <==> SomeoneGot(tty, before, k)
  {
    var steps := before + [step];
    assert steps[..|steps| - 1] == before;
    forall i | 0 <= i < |before| ensures steps[i] == before[i] {}
    forall w ensures SpanOf(tty, steps, w) == SpanOf(tty, before, w) {}
  }

  /** The next output has a receiver exactly when somebody is attached. */
  lemma NextIsHeard<W>(tty: bool, steps: seq<Step<W>>)
    requires forall s <- steps :: s.Attach? ==> AttachedOnce(steps, s.w)
    ensures SomeoneGot(tty, steps, |Outs(tty, steps)|) <==> Run(tty, steps).attached != []
  {
    var h, k := Run(tty, steps), |Outs(tty, steps)|;
    if h.attached != [] {
      var w := h.attached[0];
      AttachedHasStep(tty, steps, w);
      ReceivesBlock(tty, steps, w);
      assert multiset(h.attached)[w] > 0;
      var i :| 0 <= i < |steps| && steps[i] == Attach(w);
      assert Covers(SpanOf(tty, steps, steps[i].w), k);
    } else {
      forall i | 0 <= i < |steps| && steps[i].Attach? ensures !Covers(SpanOf(tty, steps, steps[i].w), k) {
        ReceivesBlock(tty, steps, steps[i].w);
      }
    }
  }

  lemma LossAtAttach<W>(tty: bool, before: seq<Step<W>>, step: Step<W>, k: nat)
    requires step.Attach?
    requires AttachedOnce(before + [step], step.w)
    requires Unheard(tty, before, k) <==>
             !SomeoneGot(tty, before, k) && k < |Outs(tty, before)| - Pending(tty, before)
    requires k < |Outs(tty, before)|
    ensures var steps := before + [step];
            Unheard(tty, steps, k) <==> !SomeoneGot(tty, steps, k) && k < |Outs(tty, steps)| - Pending(tty, steps)
  {
    var steps := before + [step];
    assert steps[..|steps| - 1] == before;
    BufferHoldsPending(tty, before);
    var n := |Outs(tty, before)| - Pending(tty, before);
    assert SomeoneGot(tty, steps, k) <==> SomeoneGot(tty, before, k) || n <= k by {
      forall i | 0 <= i < |before| && before[i].Attach?
        ensures before[i].w != step.w && SpanOf(tty, steps, before[i].w) == SpanOf(tty, before, before[i].w)
      {
        assert steps[i] == before[i] && steps[|before|] == step;
      }
      assert steps[|before|] == step && SpanOf(tty, steps, step.w) == Open(n);
      if SomeoneGot(tty, before, k) {
        var i :| 0 <= i < |before| && before[i].Attach? && Covers(SpanOf(tty, before, before[i].w), k);
        assert steps[i] == before[i];
      }
    }
  }

  lemma LossAtDetach<W>(tty: bool, before: seq<Step<W>>, step: Step<W>, k: nat)
    requires step.Detach?
    requires Unheard(tty, before, k) <==>
             !SomeoneGot(tty, before, k) && k < |Outs(tty, before)| - Pending(tty, before)
    requires k < |Outs(tty, before)|
    ensures var steps := before + [step];
            Unheard(tty, steps, k) <==> !SomeoneGot(tty, steps, k) && k < |Outs(tty, steps)| - Pending(tty, steps)
  {
    var steps := before + [step];
    assert steps[..|steps| - 1] == before;
    forall i | 0 <= i < |before| && before[i].Attach?
      ensures steps[i] == before[i]
      ensures Covers(SpanOf(tty, steps, before[i].w), k) == Covers(SpanOf(tty, before, before[i].w), k)
    {
    }
    if SomeoneGot(tty, before, k) {
      var i :| 0 <= i < |before| && before[i].Attach? && Covers(SpanOf(tty, before, before[i].w), k);
      assert steps[i] == before[i];
    }
  }

  // ----- The first client

  function Chunks<W>(steps: seq<Step<W>>): seq<Chunk> {
    if steps == [] then []
    else
      var chunks := Chunks(steps[..|steps| - 1]);
      match steps[|steps| - 1]
      case Output(s, data) => chunks + [Chunk(s, data)]
      case _ => chunks
  }

  lemma {:induction false} OutsAreFrames<W>(steps: seq<Step<W>>)
    ensures Outs(false, steps) == Frames(Chunks(steps))
  {
    if steps != [] {
      OutsAreFrames(steps[..|steps| - 1]);
    }
  }

  lemma {:induction false} AllPending<W>(tty: bool, steps: seq<Step<W>>)
    requires forall s <- steps :: !s.Attach?
    ensures Pending(tty, steps) == |Outs(tty, steps)|
    ensures Run(tty, steps).attached == [] && !Run(tty, steps).flushed
  {
    if steps != [] {
      assert steps[|steps| - 1] in steps;
      AllPending(tty, steps[..|steps| - 1]);
    }
  }

  lemma {:induction false} StaysOpen<W>(tty: bool, first: seq<Step<W>>, post: seq<Step<W>>, w: W)
    requires Attach(w) !in post && Detach(w) !in post
    ensures SpanOf(tty, first + post, w) == SpanOf(tty, first, w)
  {
    if post == [] {
      assert first + post == first;
    } else {
      var p := post[..|post| - 1];
      assert post[|post| - 1] in post;
      StaysOpen(tty, first, p, w);
      assert (first + post)[..|first + post| - 1] == first + p;
    }
  }

  /** The first client to attach, if it stays, receives everything, whenever it attaches and
      whoever else comes and goes. */
  lemma FirstClientGetsAll<W>(tty: bool, pre: seq<Step<W>>, w: W, post: seq<Step<W>>)
    requires forall s <- pre :: !s.Attach?
    requires Attach(w) !in post && Detach(w) !in post
    ensures var steps := pre + [Attach(w)] + post;
            Got(Run(tty, steps).received, w) == Flatten(Outs(tty, steps))
  {
    var first := pre + [Attach(w)];
    var steps := first + post;
    assert first[..|first| - 1] == pre;
    AllPending(tty, pre);
    assert SpanOf(tty, first, w) == Open(0);
    StaysOpen(tty, first, post, w);
    ReceivesBlock(tty, steps, w);
    assert Outs(tty, steps)[0..] == Outs(tty, steps);
  }

  /** What the container's reads yielded, in the order they were passed on. */
  function Written<W>(steps: seq<Step<W>>): seq<Bytes> {
    if steps == [] then []
    else Written(steps[..|steps| - 1]) + if steps[|steps| - 1].Output? then [steps[|steps| - 1].data] else []
  }

  /** On a TTY nothing is added to it on the wire. */
  lemma {:induction false} TerminalOuts<W>(steps: seq<Step<W>>)
    ensures Outs(true, steps) == Written(steps)
  {
    if steps != [] {
      TerminalOuts(steps[..|steps| - 1]);
    }
  }

  /** On a TTY that client has received exactly the container's bytes, from the first one on; when these
      are the chunks CopyStreamRaw passes on, its whole stream. */
  lemma FirstTerminalGetsStream<W>(pre: seq<Step<W>>, w: W, post: seq<Step<W>>)
    requires forall s <- pre :: !s.Attach?
    requires Attach(w) !in post && Detach(w) !in post
    ensures var steps := pre + [Attach(w)] + post;
            Got(Run(true, steps).received, w) == Flatten(Written(steps))
  {
    FirstClientGetsAll(true, pre, w, post);
    TerminalOuts(pre + [Attach(w)] + post);
  }

  /** Without a TTY, decoding what that client received gives the stdout lines and the stderr
      lines the container wrote, each in order: put together, the two byte streams. */
  lemma FirstClientReadsStreams<W>(pre: seq<Step<W>>, w: W, post: seq<Step<W>>, stdout: Bytes, stderr: Bytes)
    requires forall s <- pre :: !s.Attach?
    requires Attach(w) !in post && Detach(w) !in post
    requires var chunks := Chunks(pre + [Attach(w)] + post);
             && Select(chunks, Stdout) == Lines.Split(stdout)
             && Select(chunks, Stderr) == Lines.Split(stderr)
             && (forall c <- chunks :: |c.payload| < TWO_32)
    ensures var decoded := Decode(Got(Run(false, pre + [Attach(w)] + post).received, w));
            && decoded.Some?
            && Select(decoded.value, Stdout) == Lines.Split(stdout)
            && Select(decoded.value, Stderr) == Lines.Split(stderr)
            && Flatten(Select(decoded.value, Stdout)) == Lines.Terminated(stdout)
            && Flatten(Select(decoded.value, Stderr)) == Lines.Terminated(stderr)
  {
    var steps := pre + [Attach(w)] + post;
    FirstClientGetsAll(false, pre, w, post);
    OutsAreFrames(steps);
    DecodeFrames(Chunks(steps));
    Lines.SplitCovers(stdout);
    Lines.SplitCovers(stderr);
  }
}
