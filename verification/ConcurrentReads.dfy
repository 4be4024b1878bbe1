/** A reader beside the writer: ReadLogs lets go of the lock before it lists and opens the files, so
    Log calls fall between its steps (internal/log/jsonfile/jsonfile.go). Each system call of the writer
    is a step, and so is the reading of one file. */
module ConcurrentReads {
  import opened Wrappers
  import opened RotatingLog
  import opened RotatingRuns

  // ----- The system calls of the writer

  /** Rename(n) gives file n the number n + 1. */
  datatype Call = Remove(n: nat) | Rename(n: nat) | Create | Append(entry: Entry)

  function Effect(files: Files, c: Call): Files {
    match c
    case Remove(n) => files - {n}
    case Rename(n) => if n in files then files[n + 1 := files[n]] - {n} else files
    case Create => if 0 in files then files else files[0 := []]
    case Append(e) => files[0 := At(files, 0) + [e]]
  }

  /** The disk after these calls. */
  function After(calls: seq<Call>): Files {
    if calls == [] then map[] else Effect(After(calls[..|calls| - 1]), calls[|calls| - 1])
  }

  /** Everything they append. */
  function Logged(calls: seq<Call>): seq<Entry> {
    if calls == [] then []
    else Logged(calls[..|calls| - 1]) + if calls[|calls| - 1].Append? then [calls[|calls| - 1].entry] else []
  }

  /** The renames of files n, ..., 0 in this order. */
  function RenamesFrom(n: nat): seq<Call> {
    if n == 0 then [Rename(0)] else [Rename(n)] + RenamesFrom(n - 1)
  }

  /** A Log call in which nothing fails. */
  function LogCalls(files: Files, maxSize: int, maxFiles: int, e: Entry): seq<Call> {
    var m := MaxRotated(maxFiles);
    (if maxSize > 0 && Size(At(files, 0)) + e.size > maxSize then [Remove(m)] + RenamesFrom(m - 1) + [Create] else [])
    + [Append(e)]
  }

  /** Creating the driver opens the primary file. */
  ghost function RunCalls(maxSize: int, maxFiles: int, events: seq<Event>): seq<Call> {
    if events == [] then [Create]
    else
      var before, ev := events[..|events| - 1], events[|events| - 1];
      RunCalls(maxSize, maxFiles, before)
      + match ev
        case Write(e, _) => LogCalls(Run(maxSize, maxFiles, before).files, maxSize, maxFiles, e)
        case Restart => [Create]
  }

  /** Up to `m` rotated files are kept, and no rename replaces a file. */
  ghost predicate Allowed(files: Files, m: nat, c: Call) {
    match c
    case Remove(n) => n == m
    case Rename(n) => n < m && n + 1 !in files
    case _ => true
  }

  ghost predicate AllAllowed(calls: seq<Call>, m: nat) {
    calls == [] || (AllAllowed(calls[..|calls| - 1], m) && Allowed(After(calls[..|calls| - 1]), m, calls[|calls| - 1]))
  }

  /** These calls are allowed, lead to this disk and append this. */
  ghost predicate Leads(calls: seq<Call>, m: nat, files: Files, logged: seq<Entry>) {
    AllAllowed(calls, m) && After(calls) == files && Logged(calls) == logged
  }

  lemma OneCall(calls: seq<Call>, m: nat, files: Files, logged: seq<Entry>, c: Call)
    requires Leads(calls, m, files, logged) && Allowed(files, m, c)
    ensures Leads(calls + [c], m, Effect(files, c), logged + if c.Append? then [c.entry] else [])
  {
    assert (calls + [c])[..|calls + [c]| - 1] == calls;
  }

  /** The removal and the renames of files m-1 down to i+1 are done. */
  ghost predicate ShiftedTo(files: Files, m: nat, i: nat, here: Files) {
    forall n: nat :: Look(here, n) == Shifted(files, m, {}, i, n)
  }

  lemma RemovalDone(files: Files, m: nat)
    requires m >= 1
    ensures ShiftedTo(files, m, m - 1, Effect(files, Remove(m)))
  {
  }

  /** After the renames, before the primary file is created again. */
  ghost function Moved(files: Files, m: nat): Files
    requires 0 in files && m >= 1
  {
    var shifted := ShiftRotated(files, m, {});
    assert Look(shifted, 0) == Shifted(files, m, {}, 0, 0);
    MoveCurrent(shifted)
  }

  lemma OneRename(calls: seq<Call>, m: nat, here: Files, logged: seq<Entry>, files: Files, i: nat)
    requires Leads(calls, m, here, logged) && 0 < i < m && ShiftedTo(files, m, i, here)
    ensures Leads(calls + [Rename(i)], m, Effect(here, Rename(i)), logged)
    ensures ShiftedTo(files, m, i - 1, Effect(here, Rename(i)))
  {
    assert Look(here, i + 1) == Shifted(files, m, {}, i, i + 1);
    RenameLeads(calls, m, here, logged, i);
    RenameStep(files, here, m, {}, i);
  }

  lemma LastRename(calls: seq<Call>, m: nat, here: Files, logged: seq<Entry>, files: Files)
    requires Leads(calls, m, here, logged) && m >= 1 && 0 in files && ShiftedTo(files, m, 0, here)
    ensures Leads(calls + [Rename(0)], m, Moved(files, m), logged)
  {
    assert Look(here, 1) == Shifted(files, m, {}, 0, 1);
    assert Look(here, 0) == Shifted(files, m, {}, 0, 0);
    SameFiles(here, ShiftRotated(files, m, {}));
    RenameLeads(calls, m, here, logged, 0);
  }

  lemma Associates<T>(a: seq<T>, b: seq<T>, c: seq<T>)
    ensures a + (b + c) == a + b + c
  {
  }

  /** The renames one by one, when those of the higher numbers are done. */
  lemma {:induction false} RenamesAreShifts(calls: seq<Call>, m: nat, here: Files, logged: seq<Entry>, files: Files,
                                            i: nat, all: seq<Call>)
    requires Leads(calls, m, here, logged) && i < m && 0 in files && ShiftedTo(files, m, i, here)
    requires all == calls + RenamesFrom(i)
    ensures Leads(all, m, Moved(files, m), logged)
    decreases i
  {
    if i == 0 {
      LastRename(calls, m, here, logged, files);
    } else {
      var next, more := Effect(here, Rename(i)), calls + [Rename(i)];
      assert Leads(more, m, next, logged) && ShiftedTo(files, m, i - 1, next) by {
        OneRename(calls, m, here, logged, files, i);
      }
      Associates(calls, [Rename(i)], RenamesFrom(i - 1));
      RenamesAreShifts(more, m, next, logged, files, i - 1, all);
    }
  }

  lemma RotationIsCalls(calls: seq<Call>, m: nat, files: Files, logged: seq<Entry>)
    requires Leads(calls, m, files, logged) && 0 in files && m >= 1
    ensures Leads(calls + [Remove(m)] + RenamesFrom(m - 1) + [Create], m, Moved(files, m)[0 := []], logged)
  {
    RemovalLeads(calls, m, files, logged);
    RemovalDone(files, m);
    RenamesAreShifts(calls + [Remove(m)], m, Effect(files, Remove(m)), logged, files, m - 1,
                     calls + [Remove(m)] + RenamesFrom(m - 1));
    CreateLeads(calls + [Remove(m)] + RenamesFrom(m - 1), m, Moved(files, m), logged);
  }

  lemma RenameLeads(calls: seq<Call>, m: nat, files: Files, logged: seq<Entry>, i: nat)
    requires Leads(calls, m, files, logged) && Allowed(files, m, Rename(i))
    ensures Leads(calls + [Rename(i)], m, Effect(files, Rename(i)), logged)
  {
    OneCall(calls, m, files, logged, Rename(i));
    assert logged + [] == logged;
  }

  lemma RemovalLeads(calls: seq<Call>, m: nat, files: Files, logged: seq<Entry>)
    requires Leads(calls, m, files, logged)
    ensures Leads(calls + [Remove(m)], m, Effect(files, Remove(m)), logged)
  {
    OneCall(calls, m, files, logged, Remove(m));
    assert logged + [] == logged;
  }

  lemma CreateLeads(calls: seq<Call>, m: nat, files: Files, logged: seq<Entry>)
    requires Leads(calls, m, files, logged)
    ensures Leads(calls + [Create], m, if 0 in files then files else files[0 := []], logged)
  {
    OneCall(calls, m, files, logged, Create);
    assert logged + [] == logged;
  }

  lemma LogRotates(d: Disk, maxSize: int, maxFiles: int, e: Entry)
    requires d.open && 0 in d.files && maxSize > 0 && Size(d.files[0]) + e.size > maxSize
    ensures LogEntry(d, maxSize, maxFiles, e, NO_FAULT)
            == (Disk(Effect(Moved(d.files, MaxRotated(maxFiles))[0 := []], Append(e)), true), None)
  {
  }

  lemma RotationThenAppend(calls: seq<Call>, m: nat, files: Files, logged: seq<Entry>, e: Entry, all: seq<Call>)
    requires Leads(calls, m, files, logged) && 0 in files && m >= 1
    requires all == calls + [Remove(m)] + RenamesFrom(m - 1) + [Create] + [Append(e)]
    ensures Leads(all, m, Effect(Moved(files, m)[0 := []], Append(e)), logged + [e])
  {
    RotationIsCalls(calls, m, files, logged);
    OneCall(calls + [Remove(m)] + RenamesFrom(m - 1) + [Create], m, Moved(files, m)[0 := []], logged, Append(e));
  }

  lemma LogCallsSplit(calls: seq<Call>, d: Disk, maxSize: int, maxFiles: int, e: Entry)
    requires d.open && 0 in d.files
    ensures var m, all := MaxRotated(maxFiles), calls + LogCalls(d.files, maxSize, maxFiles, e);
            all == if maxSize > 0 && Size(d.files[0]) + e.size > maxSize
                   then calls + [Remove(m)] + RenamesFrom(m - 1) + [Create] + [Append(e)]
                   else calls + [Append(e)]
  {
  }

  /** The calls of one Log call do what the specification says. */
  lemma LogIsCalls(calls: seq<Call>, d: Disk, logged: seq<Entry>, maxSize: int, maxFiles: int, e: Entry)
    requires d.open && 0 in d.files && Leads(calls, MaxRotated(maxFiles), d.files, logged)
    ensures var (after, err) := LogEntry(d, maxSize, maxFiles, e, NO_FAULT);
            && Leads(calls + LogCalls(d.files, maxSize, maxFiles, e), MaxRotated(maxFiles), after.files, logged + [e])
            && err.None? && after.open
  {
    var m, all := MaxRotated(maxFiles), calls + LogCalls(d.files, maxSize, maxFiles, e);
    LogCallsSplit(calls, d, maxSize, maxFiles, e);
    if maxSize > 0 && Size(d.files[0]) + e.size > maxSize {
      RotationThenAppend(calls, m, d.files, logged, e, all);
      LogRotates(d, maxSize, maxFiles, e);
    } else {
      OneCall(calls, m, d.files, logged, Append(e));
    }
  }

  /** The calls of a run without failures lead to its disk, and append what it accepts. */
  lemma {:induction false} RunIsCalls(maxSize: int, maxFiles: int, events: seq<Event>)
    requires Faultless(events)
    ensures var (d, accepted) := (Run(maxSize, maxFiles, events), Accepted(maxSize, maxFiles, events));
            d.open && Leads(RunCalls(maxSize, maxFiles, events), MaxRotated(maxFiles), d.files, accepted)
  {
    var m := MaxRotated(maxFiles);
    if events == [] {
      OneCall([], m, map[], [], Create);
      assert [] + [Create] == [Create];
    } else {
      var before, ev := events[..|events| - 1], events[|events| - 1];
      assert ev in events;
      RunIsCalls(maxSize, maxFiles, before);
      var calls, d := RunCalls(maxSize, maxFiles, before), Run(maxSize, maxFiles, before);
      var accepted := Accepted(maxSize, maxFiles, before);
      if ev.Write? {
        LogIsCalls(calls, d, accepted, maxSize, maxFiles, ev.entry);
      } else {
        CreateLeads(calls, m, d.files, accepted);
      }
    }
  }


  // ----- Where entries are

  /** How many entries are in files with numbers below `n`. */
  function Below(files: Files, n: nat): nat {
    if n == 0 then 0 else |Content(files, n - 1)|
  }

  /** The place, in all that was logged, of the oldest entry in the files below `n`. */
  function Start(calls: seq<Call>, n: nat): int {
    |Logged(calls)| - Below(After(calls), n)
  }

  ghost predicate InPlace(files: Files, m: nat, logged: seq<Entry>) {
    forall n: nat :: n <= m ==> Suffix(Content(files, n), logged)
  }

  /** A removal or a rename takes file c.n away, and a rename gives its entries the next number. */
  lemma {:induction false} ContentAfter(files: Files, m: nat, c: Call, n: nat)
    requires Allowed(files, m, c) && n <= m && !c.Append?
    ensures Content(Effect(files, c), n)
            == if (c.Remove? || c.Rename?) && c.n == n then if n == 0 then [] else Content(files, n - 1)
               else Content(files, n)
  {
    var after := Effect(files, c);
    if n == 0 {
      assert Content(after, 0) == At(after, 0) && Content(files, 0) == At(files, 0);
    } else {
      ContentStep(after, n);
      ContentStep(files, n);
      ContentAfter(files, m, c, n - 1);
      if c.Rename? && c.n + 1 == n {
        assert At(files, n) == [] && At(after, n) == At(files, n - 1);
        if n == 1 {
          assert Content(files, 0) == At(files, 0);
        } else {
          ContentStep(files, n - 1);
        }
      }
    }
  }

  lemma AppendAfter(files: Files, e: Entry, n: nat)
    ensures Content(Effect(files, Append(e)), n) == Content(files, n) + [e]
  {
    var after := Effect(files, Append(e));
    SameRotated(files, after, n);
    assert Rotated(files, n) + (At(files, 0) + [e]) == Rotated(files, n) + At(files, 0) + [e];
  }

  lemma SuffixOfShorter(files: Files, n: nat, logged: seq<Entry>)
    requires n > 0 && Suffix(Content(files, n), logged)
    ensures Suffix(Content(files, n - 1), logged)
  {
    ContentStep(files, n);
    var a, b := At(files, n), Content(files, n - 1);
    assert (a + b)[|a|..] == b;
    assert logged[|logged| - |b|..] == logged[|logged| - |a + b|..][|a|..];
  }

  /** Before and between any two calls, also in the middle of a rotation, the files hold what was logged
      last, in order. */
  lemma {:induction false} AlwaysInPlace(calls: seq<Call>, m: nat)
    requires AllAllowed(calls, m)
    ensures InPlace(After(calls), m, Logged(calls))
  {
    if calls == [] {
      forall n: nat ensures Suffix(Content(map[], n), []) {
        EmptyRotated(map[], n);
      }
    } else {
      var before, c := calls[..|calls| - 1], calls[|calls| - 1];
      AlwaysInPlace(before, m);
      forall n: nat | n <= m ensures Suffix(Content(After(calls), n), Logged(calls)) {
        PlaceAfter(After(before), m, Logged(before), c, n);
      }
    }
  }

  lemma PlaceAfter(files: Files, m: nat, logged: seq<Entry>, c: Call, n: nat)
    requires InPlace(files, m, logged) && Allowed(files, m, c) && n <= m
    ensures Suffix(Content(Effect(files, c), n), logged + if c.Append? then [c.entry] else [])
  {
    assert Suffix(Content(files, n), logged);
    match c
    case Append(e) =>
      AppendAfter(files, e, n);
      SuffixGrowsBy(Content(files, n), logged, e);
    case _ =>
      assert logged + [] == logged;
      ContentAfter(files, m, c, n);
      if n > 0 {
        SuffixOfShorter(files, n, logged);
      }
  }

  /** File n holds the entries between two places. */
  lemma FileBetween(calls: seq<Call>, m: nat, n: nat)
    requires AllAllowed(calls, m) && n <= m
    ensures 0 <= Start(calls, n + 1) <= Start(calls, n) <= |Logged(calls)|
    ensures At(After(calls), n) == Logged(calls)[Start(calls, n + 1)..Start(calls, n)]
  {
    AlwaysInPlace(calls, m);
    var files, all := After(calls), Logged(calls);
    assert Suffix(Content(files, n), all);
    if n == 0 {
      assert Content(files, 0) == At(files, 0);
    } else {
      ContentStep(files, n);
      assert Suffix(Content(files, n - 1), all);
      HeadOfSuffix(At(files, n), Content(files, n - 1), all);
    }
  }

  lemma HeadOfSuffix(head: seq<Entry>, rest: seq<Entry>, all: seq<Entry>)
    requires Suffix(head + rest, all)
    ensures |head| + |rest| <= |all| && all[|all| - |rest| - |head|..|all| - |rest|] == head
  {
    assert (head + rest)[..|head|] == head;
  }

  // ----- What moves while the reader is at work

  lemma {:induction false} AllowedPrefix(calls: seq<Call>, m: nat, t: nat)
    requires AllAllowed(calls, m) && t <= |calls|
    ensures AllAllowed(calls[..t], m)
    decreases |calls|
  {
    if t == |calls| {
      assert calls[..t] == calls;
    } else {
      assert calls[..|calls| - 1][..t] == calls[..t];
      AllowedPrefix(calls[..|calls| - 1], m, t);
    }
  }

  lemma {:induction false} LoggedPrefix(calls: seq<Call>, t: nat)
    requires t <= |calls|
    ensures |Logged(calls[..t])| <= |Logged(calls)| && Logged(calls)[..|Logged(calls[..t])|] == Logged(calls[..t])
    decreases |calls|
  {
    if t == |calls| {
      assert calls[..t] == calls;
    } else {
      assert calls[..|calls| - 1][..t] == calls[..t];
      LoggedPrefix(calls[..|calls| - 1], t);
    }
  }

  /** From call t up to call u no rename takes entries out of file b. */
  ghost predicate Untouched(calls: seq<Call>, b: nat, t: nat, u: nat)
    requires t <= u <= |calls|
  {
    forall k :: t <= k < u && calls[k] == Rename(b) ==> At(After(calls[..k]), b) == []
  }

  /** The place where file b + 1 ends only ever moves on, by the renames of file b. */
  lemma {:induction false} StartMoves(calls: seq<Call>, m: nat, b: nat, t: nat, u: nat)
    requires AllAllowed(calls, m) && b < m && t <= u <= |calls|
    ensures Start(calls[..t], b + 1) <= Start(calls[..u], b + 1)
    ensures Start(calls[..t], b + 1) == Start(calls[..u], b + 1) <==> Untouched(calls, b, t, u)
    decreases u - t
  {
    if t < u {
      StartMoves(calls, m, b, t, u - 1);
      StartStepAt(calls, m, b, u);
      assert Untouched(calls, b, t, u)
             <==> Untouched(calls, b, t, u - 1) && (calls[u - 1] == Rename(b) ==> At(After(calls[..u - 1]), b) == []);
    }
  }

  lemma StartStep(calls: seq<Call>, m: nat, b: nat)
    requires AllAllowed(calls, m) && b < m && calls != []
    ensures var before, c := calls[..|calls| - 1], calls[|calls| - 1];
            Start(calls, b + 1)
            == Start(before, b + 1) + if c == Rename(b) then |At(After(before), b)| else 0
  {
    var before, c := calls[..|calls| - 1], calls[|calls| - 1];
    var files := After(before);
    if c.Append? {
      AppendAfter(files, c.entry, b);
    } else {
      ContentAfter(files, m, c, b);
      if c == Rename(b) && b > 0 {
        ContentStep(files, b);
      }
    }
  }

  lemma StartStepAt(calls: seq<Call>, m: nat, b: nat, u: nat)
    requires AllAllowed(calls, m) && b < m && 0 < u <= |calls|
    ensures Start(calls[..u], b + 1)
            == Start(calls[..u - 1], b + 1) + if calls[u - 1] == Rename(b) then |At(After(calls[..u - 1]), b)| else 0
  {
    AllowedPrefix(calls, m, u);
    assert calls[..u][..u - 1] == calls[..u - 1];
    StartStep(calls[..u], m, b);
  }

  /** The files with numbers between b and a hold nothing. */
  ghost predicate NothingBetween(files: Files, a: nat, b: nat) {
    forall k: nat :: b < k < a ==> At(files, k) == []
  }

  lemma {:induction false} BelowGrows(files: Files, a: nat, b: nat)
    requires b < a
    ensures Below(files, b + 1) <= Below(files, a)
    ensures Below(files, b + 1) == Below(files, a) <==> NothingBetween(files, a, b)
  {
    if a > b + 1 {
      BelowGrows(files, a - 1, b);
      ContentStep(files, a - 1);
      assert NothingBetween(files, a, b) <==> NothingBetween(files, a - 1, b) && At(files, a - 1) == [];
    }
  }

  /** File a is opened after t calls and file b is the next one, after u. No entries are in a file between
      them or get from file b into file b + 1 meanwhile. */
  ghost predicate NothingPasses(calls: seq<Call>, a: nat, t: nat, b: nat, u: nat)
    requires t <= u <= |calls|
  {
    NothingBetween(After(calls[..t]), a, b) && Untouched(calls, b, t, u)
  }

  lemma GapExactly(calls: seq<Call>, m: nat, a: nat, t: nat, b: nat, u: nat)
    requires AllAllowed(calls, m) && b < a <= m && t <= u <= |calls|
    ensures Start(calls[..t], a) <= Start(calls[..u], b + 1)
    ensures Start(calls[..t], a) == Start(calls[..u], b + 1) <==> NothingPasses(calls, a, t, b, u)
  {
    BelowGrows(After(calls[..t]), a, b);
    StartMoves(calls, m, b, t, u);
  }

  // ----- The reader

  /** Any descending list of numbers that ends with the primary file, opened one after the other. */
  ghost predicate Opens(calls: seq<Call>, m: nat, numbers: seq<nat>, openedAt: nat -> nat) {
    && numbers != [] && numbers[0] <= m && openedAt(numbers[0]) <= openedAt(0) <= |calls|
    && if |numbers| == 1 then numbers[0] == 0
       else
         && numbers[1] < numbers[0] && openedAt(numbers[0]) <= openedAt(numbers[1]) <= |calls|
         && Opens(calls, m, numbers[1..], openedAt)
  }

  ghost predicate NothingEverPasses(calls: seq<Call>, m: nat, numbers: seq<nat>, openedAt: nat -> nat)
    requires Opens(calls, m, numbers, openedAt)
  {
    |numbers| == 1
    || (NothingPasses(calls, numbers[0], openedAt(numbers[0]), numbers[1], openedAt(numbers[1]))
        && NothingEverPasses(calls, m, numbers[1..], openedAt))
  }

  /** Everything the files hold when they are opened, before scanning and filtering. */
  ghost function Opened(seen: nat -> Files, numbers: seq<nat>): seq<Entry> {
    if numbers == [] then [] else At(seen(numbers[0]), numbers[0]) + Opened(seen, numbers[1..])
  }

  ghost predicate Sees(calls: seq<Call>, numbers: seq<nat>, openedAt: nat -> nat, seen: nat -> Files) {
    numbers == []
    || (openedAt(numbers[0]) <= |calls| && seen(numbers[0]) == After(calls[..openedAt(numbers[0])])
        && Sees(calls, numbers[1..], openedAt, seen))
  }

  /** What ReadLogs lists is such a list, whatever it finds where when it looks. */
  lemma {:induction false} ListingOpens(calls: seq<Call>, m: nat, listed: nat -> Files, n: nat, openedAt: nat -> nat)
    requires n <= m && forall i: nat, j: nat :: i <= j <= n ==> openedAt(j) <= openedAt(i) <= |calls|
    ensures Opens(calls, m, Existing(listed, n) + [0], openedAt)
    ensures (Existing(listed, n) + [0])[0] <= n
  {
    var numbers := Existing(listed, n) + [0];
    if n > 0 {
      ListingOpens(calls, m, listed, n - 1, openedAt);
      var rest := Existing(listed, n - 1) + [0];
      if n in listed(n) {
        assert numbers == [n] + rest && numbers[1..] == rest;
      } else {
        assert numbers == rest;
      }
    }
  }

  /** File n, read after t calls, is the part between two places of what is logged after u. */
  ghost predicate PieceOf(calls: seq<Call>, n: nat, t: nat, u: nat)
    requires t <= u <= |calls|
  {
    var all, p, q := Logged(calls[..u]), Start(calls[..t], n + 1), Start(calls[..t], n);
    0 <= p <= q <= |all| && At(After(calls[..t]), n) == all[p..q]
  }

  lemma PieceRead(calls: seq<Call>, m: nat, n: nat, t: nat, u: nat)
    requires AllAllowed(calls, m) && n <= m && t <= u <= |calls|
    ensures PieceOf(calls, n, t, u)
  {
    AllowedPrefix(calls, m, t);
    FileBetween(calls[..t], m, n);
    assert calls[..u][..t] == calls[..t];
    LoggedPrefix(calls[..u], t);
  }

  // ----- Putting the pieces together

  predicate IsPiece(all: seq<Entry>, piece: seq<Entry>, p: int, q: int) {
    0 <= p <= q <= |all| && piece == all[p..q]
  }

  /** File n of the list is the piece of `all` from begin(n) to end(n), and the last piece ends it. */
  ghost predicate Pieces(all: seq<Entry>, numbers: seq<nat>, seen: nat -> Files, begin: nat -> int, end: nat -> int) {
    && numbers != [] && IsPiece(all, At(seen(numbers[0]), numbers[0]), begin(numbers[0]), end(numbers[0]))
    && if |numbers| == 1 then end(numbers[0]) == |all|
       else end(numbers[0]) <= begin(numbers[1]) && Pieces(all, numbers[1..], seen, begin, end)
  }

  /** Each piece begins where the one before ends. */
  ghost predicate NoGaps(numbers: seq<nat>, begin: nat -> int, end: nat -> int) {
    |numbers| <= 1 || (end(numbers[0]) == begin(numbers[1]) && NoGaps(numbers[1..], begin, end))
  }

  lemma {:induction false} PiecesRead(all: seq<Entry>, numbers: seq<nat>, seen: nat -> Files,
                                      begin: nat -> int, end: nat -> int)
    requires Pieces(all, numbers, seen, begin, end)
    ensures 0 <= begin(numbers[0]) <= |all|
    ensures ReadsTo(Opened(seen, numbers), all[begin(numbers[0])..], NoGaps(numbers, begin, end))
    ensures Subsequence(Opened(seen, numbers), all[begin(numbers[0])..])
    decreases |numbers|
  {
    var a, rest := numbers[0], numbers[1..];
    var here, p, q := At(seen(a), a), begin(a), end(a);
    assert Opened(seen, numbers) == here + Opened(seen, rest);
    if |numbers| == 1 {
      SubsequenceSelf(here);
      assert Opened(seen, rest) == [] && here + [] == here == all[p..];
    } else {
      PiecesRead(all, rest, seen, begin, end);
      Joined(here, Opened(seen, rest), all, p, q, begin(rest[0]), NoGaps(rest, begin, end));
    }
  }

  lemma Joined(here: seq<Entry>, rest: seq<Entry>, all: seq<Entry>, p: int, q: int, r: int, reached: bool)
    requires 0 <= p <= q <= r <= |all| && here == all[p..q]
    requires ReadsTo(rest, all[r..], reached) && Subsequence(rest, all[r..])
    ensures ReadsTo(here + rest, all[p..], q == r && reached) && Subsequence(here + rest, all[p..])
  {
    var skipped := all[q..r];
    assert all[p..] == here + (skipped + all[r..]);
    SubsequenceAppend([], skipped, rest, all[r..]);
    SubsequenceSelf(here);
    assert [] + rest == rest;
    SubsequenceAppend(here, here, rest, skipped + all[r..]);
  }

  // ----- The theorem

  function BeginOf(calls: seq<Call>, openedAt: nat -> nat): nat -> int {
    (n: nat) => if openedAt(n) <= |calls| then Start(calls[..openedAt(n)], n + 1) else 0
  }

  function EndOf(calls: seq<Call>, openedAt: nat -> nat): nat -> int {
    (n: nat) => if openedAt(n) <= |calls| then Start(calls[..openedAt(n)], n) else 0
  }

  lemma {:induction false} ListedPieces(calls: seq<Call>, m: nat, numbers: seq<nat>, openedAt: nat -> nat,
                                        seen: nat -> Files, begin: nat -> int, end: nat -> int)
    requires AllAllowed(calls, m) && Opens(calls, m, numbers, openedAt) && Sees(calls, numbers, openedAt, seen)
    requires begin == BeginOf(calls, openedAt) && end == EndOf(calls, openedAt)
    ensures Pieces(Logged(calls[..openedAt(0)]), numbers, seen, begin, end)
    ensures NoGaps(numbers, begin, end) <==> NothingEverPasses(calls, m, numbers, openedAt)
    decreases |numbers|
  {
    var a, t := numbers[0], openedAt(numbers[0]);
    assert IsPiece(Logged(calls[..openedAt(0)]), At(seen(a), a), begin(a), end(a)) by {
      PieceRead(calls, m, a, t, openedAt(0));
    }
    if |numbers| == 1 {
      assert end(0) == |Logged(calls[..openedAt(0)])|;
    } else {
      var b, u := numbers[1], openedAt(numbers[1]);
      ListedPieces(calls, m, numbers[1..], openedAt, seen, begin, end);
      assert end(a) <= begin(b) && (end(a) == begin(b) <==> NothingPasses(calls, a, t, b, u)) by {
        GapExactly(calls, m, a, t, b, u);
      }
    }
  }

  lemma ReadsOn(calls: seq<Call>, m: nat, numbers: seq<nat>, openedAt: nat -> nat, seen: nat -> Files)
    requires AllAllowed(calls, m) && Opens(calls, m, numbers, openedAt) && Sees(calls, numbers, openedAt, seen)
    ensures var all, first := Logged(calls[..openedAt(0)]), Start(calls[..openedAt(numbers[0])], numbers[0] + 1);
            && 0 <= first <= |all|
            && ReadsTo(Opened(seen, numbers), all[first..], NothingEverPasses(calls, m, numbers, openedAt))
            && Subsequence(Opened(seen, numbers), all[first..])
  {
    var begin, end := BeginOf(calls, openedAt), EndOf(calls, openedAt);
    ListedPieces(calls, m, numbers, openedAt, seen, begin, end);
    PiecesRead(Logged(calls[..openedAt(0)]), numbers, seen, begin, end);
  }

  /** Without failures, whatever system calls of the writer fall between the steps of the reader, and
      whichever numbers it listed: nothing is read twice or out of order, and together the files give
      every entry from the first one read on, up to the last one logged when the primary file is
      read, exactly when no entry passes the reader. */
  lemma ConcurrentReadExactly(maxSize: int, maxFiles: int, events: seq<Event>, numbers: seq<nat>, openedAt: nat -> nat,
                              seen: nat -> Files)
    requires Faultless(events)
    requires var calls := RunCalls(maxSize, maxFiles, events);
             Opens(calls, MaxRotated(maxFiles), numbers, openedAt) && Sees(calls, numbers, openedAt, seen)
    ensures var calls := RunCalls(maxSize, maxFiles, events);
            var all, first := Logged(calls[..openedAt(0)]), Start(calls[..openedAt(numbers[0])], numbers[0] + 1);
            && 0 <= first <= |all| && all <= Accepted(maxSize, maxFiles, events)
            && Subsequence(Opened(seen, numbers), all[first..])
            && (Opened(seen, numbers) == all[first..]
                <==> NothingEverPasses(calls, MaxRotated(maxFiles), numbers, openedAt))
  {
    var calls, m := RunCalls(maxSize, maxFiles, events), MaxRotated(maxFiles);
    RunIsCalls(maxSize, maxFiles, events);
    LoggedPrefix(calls, openedAt(0));
    ReadsOn(calls, m, numbers, openedAt, seen);
  }

  lemma ReadsOne(files: Files, n: nat, opts: ReadOpts)
    requires forall e <- At(files, n) :: e.size <= MAX_TOKEN
    ensures ReadOne(files, n, opts) == Filter(At(files, n), opts)
  {
    FileReadExactly(At(files, n), opts);
  }

  /** What is handed out of it: the entries that pass, when no line is over-long. */
  lemma {:induction false} ReadsOpened(seen: nat -> Files, numbers: seq<nat>, opts: ReadOpts)
    requires forall e <- Opened(seen, numbers) :: e.size <= MAX_TOKEN
    ensures ReadEach(seen, numbers, opts) == Filter(Opened(seen, numbers), opts)
  {
    if numbers != [] {
      var here, rest := At(seen(numbers[0]), numbers[0]), Opened(seen, numbers[1..]);
      assert forall e <- here :: e in here + rest;
      assert forall e <- rest :: e in here + rest;
      ReadsOne(seen(numbers[0]), numbers[0], opts);
      ReadsOpened(seen, numbers[1..], opts);
      FilterAppend(here, rest, opts);
    }
  }
}
