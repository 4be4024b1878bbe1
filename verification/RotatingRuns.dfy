/** What any sequence of Log calls leaves on disk, and what a reader then sees. */
module RotatingRuns {
  import opened Wrappers
  import opened Stdcopy
  import opened RotatingLog

  /** A Log call, or the driver being created again on what is on disk (a daemon restart). */
  datatype Event = Write(entry: Entry, fault: Fault) | Restart

  ghost function Next(d: Disk, maxSize: int, maxFiles: int, ev: Event): Disk
    requires d.open ==> 0 in d.files
  {
    match ev
    case Write(e, fault) => LogEntry(d, maxSize, maxFiles, e, fault).0
    case Restart => Reopen(d.files)
  }

  ghost function Run(maxSize: int, maxFiles: int, events: seq<Event>): (d: Disk)
    ensures d.open ==> 0 in d.files
  {
    if events == [] then Reopen(map[])
    else Next(Run(maxSize, maxFiles, events[..|events| - 1]), maxSize, maxFiles, events[|events| - 1])
  }

  /** The entries whose Log call returned no error. */
  ghost function Accepted(maxSize: int, maxFiles: int, events: seq<Event>): seq<Entry> {
    if events == [] then []
    else
      var before, ev := events[..|events| - 1], events[|events| - 1];
      var accepted := Accepted(maxSize, maxFiles, before);
      if ev.Write? && LogEntry(Run(maxSize, maxFiles, before), maxSize, maxFiles, ev.entry, ev.fault).1.None?
      then accepted + [ev.entry] else accepted
  }

  function At(files: Files, n: nat): seq<Entry> {
    if n in files then files[n] else []
  }

  /** The entries of files n, ..., 1 in this order. */
  function Rotated(files: Files, n: nat): seq<Entry> {
    if n == 0 then [] else At(files, n) + Rotated(files, n - 1)
  }

  /** All entries, the oldest file first and the primary one last. */
  function Content(files: Files, n: nat): seq<Entry> {
    Rotated(files, n) + At(files, 0)
  }

  predicate Suffix<T(==)>(s: seq<T>, all: seq<T>) {
    |s| <= |all| && all[|all| - |s|..] == s
  }

  predicate Distinct<T(==)>(s: seq<T>) {
    forall i, j :: 0 <= i < j < |s| ==> s[i] != s[j]
  }

  // ----- What a rotation leaves, whichever of its calls fail

  /** File j is renamed; the primary one when `primary` holds. */
  predicate Moves(files: Files, stuck: set<nat>, primary: bool, j: nat) {
    j in files && if j == 0 then primary else j !in stuck
  }

  /** After the rotation the entries of file n are still on disk: it was renamed, or left in place and
      nothing was renamed over it. */
  predicate Survives(files: Files, m: nat, stuck: set<nat>, primary: bool, n: nat) {
    n == 0 || (n < m && n !in stuck) || (n in stuck && !Moves(files, stuck, primary, n - 1))
  }

  /** The entries of the files that survive. */
  function Kept(files: Files, m: nat, stuck: set<nat>, primary: bool, n: nat): seq<Entry> {
    if n == 0 then At(files, 0)
    else (if Survives(files, m, stuck, primary, n) then At(files, n) else []) + Kept(files, m, stuck, primary, n - 1)
  }

  lemma ContentStep(files: Files, n: nat)
    requires n > 0
    ensures Content(files, n) == At(files, n) + Content(files, n - 1)
  {
    var oldest, others, primary := At(files, n), Rotated(files, n - 1), At(files, 0);
    assert oldest + others + primary == oldest + (others + primary);
  }

  /** The files after all renames. */
  ghost predicate Renamed(files: Files, after: Files, m: nat, stuck: set<nat>, primary: bool) {
    && 0 in files
    && (forall n: nat :: 2 <= n <= m ==> Look(after, n) == Shifted(files, m, stuck, 0, n))
    && At(after, 1) == (if primary then At(files, 0) else if 1 in stuck then At(files, 1) else [])
    && At(after, 0) == if primary then [] else At(files, 0)
  }

  /** Entries move up or stay: file k has its own ones only when it was left in place. */
  lemma {:induction false} RenamedContent(files: Files, after: Files, m: nat, stuck: set<nat>, primary: bool, k: nat)
    requires Renamed(files, after, m, stuck, primary) && 1 <= k <= m
    ensures Content(after, k)
            == (if k in stuck && !Moves(files, stuck, primary, k - 1) then At(files, k) else [])
               + Kept(files, m, stuck, primary, k - 1)
  {
    ContentStep(after, k);
    if k == 1 {
      assert Content(after, 0) == At(after, 0);
    } else {
      RenamedContent(files, after, m, stuck, primary, k - 1);
      assert Look(after, k) == Shifted(files, m, stuck, 0, k);
    }
  }

  lemma RenamedKeeps(files: Files, after: Files, m: nat, stuck: set<nat>, primary: bool)
    requires Renamed(files, after, m, stuck, primary) && m >= 1
    ensures Content(after, m) == Kept(files, m, stuck, primary, m)
  {
    RenamedContent(files, after, m, stuck, primary, m);
  }

  /** The call would rotate: there is a limit, and the entry does not fit any more. */
  ghost predicate RotationDue(d: Disk, maxSize: int, size: nat)
    requires d.open ==> 0 in d.files
  {
    maxSize > 0 && d.open && Size(d.files[0]) + size > maxSize
  }

  /** The rotation gets as far as renaming. */
  ghost predicate Renames(d: Disk, maxSize: int, size: nat, fault: Fault)
    requires d.open ==> 0 in d.files
  {
    RotationDue(d, maxSize, size) && !fault.call.StatFails? && !fault.call.CloseFails?
  }

  lemma RotateKeeps(d: Disk, maxSize: int, maxFiles: int, size: nat, fault: Fault)
    requires maxSize > 0 && (d.open ==> 0 in d.files)
    ensures var m := MaxRotated(maxFiles);
            Content(Rotate(d, maxSize, maxFiles, size, fault).0.files, m)
            == if Renames(d, maxSize, size, fault) then Kept(d.files, m, fault.stuck, !fault.call.RenameFails?, m)
               else Content(d.files, m)
  {
    if Renames(d, maxSize, size, fault) {
      var m := MaxRotated(maxFiles);
      var shifted := ShiftRotated(d.files, m, fault.stuck);
      assert Look(shifted, 0) == Shifted(d.files, m, fault.stuck, 0, 0);
      assert Look(shifted, 1) == Shifted(d.files, m, fault.stuck, 0, 1);
      var after := Rotate(d, maxSize, maxFiles, size, fault).0.files;
      forall n: nat | 2 <= n <= m ensures Look(after, n) == Shifted(d.files, m, fault.stuck, 0, n) {
        assert Look(shifted, n) == Shifted(d.files, m, fault.stuck, 0, n);
      }
      RenamedKeeps(d.files, after, m, fault.stuck, !fault.call.RenameFails?);
    }
  }

  // ----- When that is an unbroken suffix

  /** Whenever the entries of one file go, those of all older ones go too. */
  ghost predicate OldestGo(files: Files, m: nat, stuck: set<nat>, primary: bool, top: nat) {
    forall n, k :: 1 <= n < k <= top && At(files, n) != [] && At(files, k) != [] ==>
      (!Survives(files, m, stuck, primary, n) ==> !Survives(files, m, stuck, primary, k))
  }

  ghost predicate AllSurvive(files: Files, m: nat, stuck: set<nat>, primary: bool, top: nat) {
    forall n :: 1 <= n <= top && At(files, n) != [] ==> Survives(files, m, stuck, primary, n)
  }

  lemma {:induction false} KeptLength(files: Files, m: nat, stuck: set<nat>, primary: bool, n: nat)
    ensures ReadsTo(Kept(files, m, stuck, primary, n), Content(files, n), AllSurvive(files, m, stuck, primary, n))
  {
    if n > 0 {
      KeptLength(files, m, stuck, primary, n - 1);
      ContentStep(files, n);
      assert AllSurvive(files, m, stuck, primary, n)
             <==> AllSurvive(files, m, stuck, primary, n - 1)
                  && (At(files, n) != [] ==> Survives(files, m, stuck, primary, n));
    }
  }

  /** What is kept is a suffix when the oldest entries go first; and only then, when no entry occurs
      twice. */
  lemma {:induction false} KeptSuffix(files: Files, m: nat, stuck: set<nat>, primary: bool, n: nat)
    ensures var kept, all := Kept(files, m, stuck, primary, n), Content(files, n);
            && (OldestGo(files, m, stuck, primary, n) ==> Suffix(kept, all))
            && (Suffix(kept, all) && Distinct(all) ==> OldestGo(files, m, stuck, primary, n))
  {
    if n > 0 {
      var here, kept, all := At(files, n), Kept(files, m, stuck, primary, n - 1), Content(files, n - 1);
      ContentStep(files, n);
      KeptLength(files, m, stuck, primary, n - 1);
      KeptSuffix(files, m, stuck, primary, n - 1);
      if here == [] || !Survives(files, m, stuck, primary, n) {
        assert Kept(files, m, stuck, primary, n) == kept;
        OldestGoStep(files, m, stuck, primary, n);
        HeadDropped(here, kept, all, OldestGo(files, m, stuck, primary, n));
      } else {
        assert Kept(files, m, stuck, primary, n) == here + kept;
        OldestGoTop(files, m, stuck, primary, n);
        WholeSuffix(here, kept, all);
      }
    }
  }

  lemma HeadDropped<T>(head: seq<T>, kept: seq<T>, all: seq<T>, oldest: bool)
    requires |kept| <= |all|
    requires (oldest ==> Suffix(kept, all)) && (Suffix(kept, all) && Distinct(all) ==> oldest)
    ensures (oldest ==> Suffix(kept, head + all)) && (Suffix(kept, head + all) && Distinct(head + all) ==> oldest)
  {
    ShorterSuffix(head, kept, all);
    DistinctParts(head, all);
  }

  lemma OldestGoStep(files: Files, m: nat, stuck: set<nat>, primary: bool, n: nat)
    requires n > 0 && (At(files, n) == [] || !Survives(files, m, stuck, primary, n))
    ensures OldestGo(files, m, stuck, primary, n) <==> OldestGo(files, m, stuck, primary, n - 1)
  {
  }

  lemma OldestGoTop(files: Files, m: nat, stuck: set<nat>, primary: bool, n: nat)
    requires n > 0 && At(files, n) != [] && Survives(files, m, stuck, primary, n)
    ensures OldestGo(files, m, stuck, primary, n) <==> AllSurvive(files, m, stuck, primary, n - 1)
  {
  }

  lemma DistinctParts<T>(a: seq<T>, b: seq<T>)
    ensures Distinct(a + b) ==> Distinct(b)
  {
    if Distinct(a + b) {
      forall i, j | 0 <= i < j < |b| ensures b[i] != b[j] {
        assert (a + b)[|a| + i] == b[i] && (a + b)[|a| + j] == b[j];
      }
    }
  }

  lemma ShorterSuffix<T>(a: seq<T>, kept: seq<T>, all: seq<T>)
    requires |kept| <= |all|
    ensures Suffix(kept, a + all) <==> Suffix(kept, all)
  {
    assert (a + all)[|a + all| - |kept|..] == all[|all| - |kept|..];
  }

  lemma WholeSuffix<T>(a: seq<T>, kept: seq<T>, all: seq<T>)
    requires a != [] && |kept| <= |all|
    ensures kept == all ==> Suffix(a + kept, a + all)
    ensures Suffix(a + kept, a + all) && Distinct(a + all) ==> |kept| == |all|
  {
    if Suffix(a + kept, a + all) && |kept| < |all| {
      var gone := |all| - |kept|;
      assert (a + all)[gone] == (a + all)[gone..][0] == (a + kept)[0] == a[0] == (a + all)[0];
    }
  }

  lemma SuffixGrowsBy<T>(a: seq<T>, all: seq<T>, x: T)
    ensures Suffix(a + [x], all + [x]) <==> Suffix(a, all)
  {
    if |a| <= |all| {
      assert (all + [x])[|all| - |a|..] == all[|all| - |a|..] + [x];
      assert (a + [x])[..|a|] == a && (all[|all| - |a|..] + [x])[..|a|] == all[|all| - |a|..];
    }
  }

  lemma AppendsLast(files: Files, e: Entry, m: nat)
    requires 0 in files
    ensures Content(files[0 := files[0] + [e]], m) == Content(files, m) + [e]
  {
    var after := files[0 := files[0] + [e]];
    SameRotated(files, after, m);
    assert Rotated(files, m) + (files[0] + [e]) == Rotated(files, m) + files[0] + [e];
  }

  lemma {:induction false} SameRotated(a: Files, b: Files, n: nat)
    requires forall k: nat :: k >= 1 ==> At(a, k) == At(b, k)
    ensures Rotated(a, n) == Rotated(b, n)
  {
    if n > 0 {
      SameRotated(a, b, n - 1);
    }
  }

  /** If the call renames, the oldest entries go first. */
  ghost predicate Orderly(d: Disk, maxSize: int, maxFiles: int, size: nat, fault: Fault)
    requires d.open ==> 0 in d.files
  {
    var m := MaxRotated(maxFiles);
    Renames(d, maxSize, size, fault) ==> OldestGo(d.files, m, fault.stuck, !fault.call.RenameFails?, m)
  }

  ghost predicate AllOrderly(maxSize: int, maxFiles: int, events: seq<Event>) {
    events == []
    || (var before, ev := events[..|events| - 1], events[|events| - 1];
        && AllOrderly(maxSize, maxFiles, before)
        && (ev.Write? ==> Orderly(Run(maxSize, maxFiles, before), maxSize, maxFiles, ev.entry.size, ev.fault)))
  }

  /** After any Log calls and restarts, whichever of them fail, as long as every rotation drops the oldest
      entries first, the files read oldest first hold an unbroken suffix of the entries that were
      accepted. */
  lemma {:induction false} UnbrokenSuffix(maxSize: int, maxFiles: int, events: seq<Event>)
    requires AllOrderly(maxSize, maxFiles, events)
    ensures Suffix(Content(Run(maxSize, maxFiles, events).files, MaxRotated(maxFiles)),
                   Accepted(maxSize, maxFiles, events))
  {
    var m := MaxRotated(maxFiles);
    if events == [] {
      EmptyRotated(Reopen(map[]).files, m);
    } else {
      var before, ev := events[..|events| - 1], events[|events| - 1];
      var d, accepted := Run(maxSize, maxFiles, before), Accepted(maxSize, maxFiles, before);
      UnbrokenSuffix(maxSize, maxFiles, before);
      match ev
      case Write(e, fault) =>
        SuffixStep(d, maxSize, maxFiles, e, fault, accepted);
      case Restart =>
        SameRotated(d.files, Reopen(d.files).files, m);
    }
  }

  /** And the first rotation that does not breaks it, when the entries accepted are all different. */
  lemma SuffixStepExactly(maxSize: int, maxFiles: int, events: seq<Event>, e: Entry, fault: Fault)
    requires AllOrderly(maxSize, maxFiles, events) && Distinct(Accepted(maxSize, maxFiles, events))
    ensures var after := events + [Write(e, fault)];
            Suffix(Content(Run(maxSize, maxFiles, after).files, MaxRotated(maxFiles)),
                   Accepted(maxSize, maxFiles, after))
            <==> AllOrderly(maxSize, maxFiles, after)
  {
    var after := events + [Write(e, fault)];
    assert after[..|after| - 1] == events;
    UnbrokenSuffix(maxSize, maxFiles, events);
    SuffixStep(Run(maxSize, maxFiles, events), maxSize, maxFiles, e, fault, Accepted(maxSize, maxFiles, events));
  }

  lemma {:induction false} EmptyRotated(files: Files, n: nat)
    requires forall k: nat :: At(files, k) == []
    ensures Rotated(files, n) == []
  {
    if n > 0 {
      EmptyRotated(files, n - 1);
    }
  }

  lemma SuffixStep(d: Disk, maxSize: int, maxFiles: int, e: Entry, fault: Fault, accepted: seq<Entry>)
    requires d.open ==> 0 in d.files
    requires Suffix(Content(d.files, MaxRotated(maxFiles)), accepted)
    ensures var (after, err) := LogEntry(d, maxSize, maxFiles, e, fault);
            var kept := Suffix(Content(after.files, MaxRotated(maxFiles)),
                               if err.None? then accepted + [e] else accepted);
            && (Orderly(d, maxSize, maxFiles, e.size, fault) ==> kept)
            && (kept && Distinct(accepted) ==> Orderly(d, maxSize, maxFiles, e.size, fault))
  {
    var m := MaxRotated(maxFiles);
    var rotated := if maxSize > 0 then Rotate(d, maxSize, maxFiles, e.size, fault).0 else d;
    RotatedSuffix(d, maxSize, maxFiles, e.size, fault, accepted);
    if rotated.open && LogEntry(d, maxSize, maxFiles, e, fault).1.None? {
      AppendsLast(rotated.files, e, m);
      SuffixGrowsBy(Content(rotated.files, m), accepted, e);
    }
  }

  lemma RotatedSuffix(d: Disk, maxSize: int, maxFiles: int, size: nat, fault: Fault, accepted: seq<Entry>)
    requires d.open ==> 0 in d.files
    requires Suffix(Content(d.files, MaxRotated(maxFiles)), accepted)
    ensures var rotated := if maxSize > 0 then Rotate(d, maxSize, maxFiles, size, fault).0 else d;
            var kept := Suffix(Content(rotated.files, MaxRotated(maxFiles)), accepted);
            && (Orderly(d, maxSize, maxFiles, size, fault) ==> kept)
            && (kept && Distinct(accepted) ==> Orderly(d, maxSize, maxFiles, size, fault))
  {
    var m := MaxRotated(maxFiles);
    if Renames(d, maxSize, size, fault) {
      var all, primary := Content(d.files, m), !fault.call.RenameFails?;
      RotateKeeps(d, maxSize, maxFiles, size, fault);
      KeptSuffix(d.files, m, fault.stuck, primary, m);
      KeptLength(d.files, m, fault.stuck, primary, m);
      var lost := accepted[..|accepted| - |all|];
      assert accepted == lost + all;
      DistinctParts(lost, all);
      ShorterSuffix(lost, Kept(d.files, m, fault.stuck, primary, m), all);
    } else if maxSize > 0 {
      RotateKeeps(d, maxSize, maxFiles, size, fault);
    }
  }

  // ----- Order, whatever fails

  /** `a` is `b` with entries left out. */
  predicate Subsequence<T(==)>(a: seq<T>, b: seq<T>)
    decreases |b|
  {
    a == [] || (b != [] && (Subsequence(a, b[..|b| - 1])
                            || (a[|a| - 1] == b[|b| - 1] && Subsequence(a[..|a| - 1], b[..|b| - 1]))))
  }

  lemma {:induction false} SubsequenceAppend<T>(a: seq<T>, b: seq<T>, c: seq<T>, d: seq<T>)
    requires Subsequence(a, b) && Subsequence(c, d)
    ensures Subsequence(a + c, b + d)
    decreases |d|
  {
    if d == [] {
      assert a + c == a && b + d == b;
    } else {
      var init := d[..|d| - 1];
      assert (b + d)[..|b + d| - 1] == b + init;
      if Subsequence(c, init) {
        SubsequenceAppend(a, b, c, init);
      } else {
        assert (a + c)[..|a + c| - 1] == a + c[..|c| - 1];
        SubsequenceAppend(a, b, c[..|c| - 1], init);
      }
    }
  }

  lemma {:induction false} SubsequenceSelf<T>(a: seq<T>)
    ensures Subsequence(a, a)
  {
    if a != [] {
      SubsequenceSelf(a[..|a| - 1]);
    }
  }

  lemma {:induction false} SubsequenceTrans<T>(a: seq<T>, b: seq<T>, c: seq<T>)
    requires Subsequence(a, b) && Subsequence(b, c)
    ensures Subsequence(a, c)
    decreases |c|
  {
    if a != [] && b != [] {
      var init := c[..|c| - 1];
      if Subsequence(b, init) {
        SubsequenceTrans(a, b, init);
      } else if Subsequence(a, b[..|b| - 1]) {
        SubsequenceTrans(a, b[..|b| - 1], init);
      } else {
        SubsequenceTrans(a[..|a| - 1], b[..|b| - 1], init);
      }
    }
  }

  lemma {:induction false} KeptInOrder(files: Files, m: nat, stuck: set<nat>, primary: bool, n: nat)
    ensures Subsequence(Kept(files, m, stuck, primary, n), Content(files, n))
  {
    if n == 0 {
      assert Content(files, 0) == At(files, 0);
      SubsequenceSelf(At(files, 0));
    } else {
      var here := if Survives(files, m, stuck, primary, n) then At(files, n) else [];
      SubsequenceSelf(At(files, n));
      KeptInOrder(files, m, stuck, primary, n - 1);
      ContentStep(files, n);
      SubsequenceAppend(here, At(files, n), Kept(files, m, stuck, primary, n - 1), Content(files, n - 1));
    }
  }

  /** Whatever fails, entries may be missing but never come twice or out of order: what the files hold is
      the entries accepted, in the order they were, with some left out. */
  lemma {:induction false} AlwaysInOrder(maxSize: int, maxFiles: int, events: seq<Event>)
    ensures Subsequence(Content(Run(maxSize, maxFiles, events).files, MaxRotated(maxFiles)),
                        Accepted(maxSize, maxFiles, events))
  {
    var m := MaxRotated(maxFiles);
    if events == [] {
      EmptyRotated(Reopen(map[]).files, m);
    } else {
      var before, ev := events[..|events| - 1], events[|events| - 1];
      var d, accepted := Run(maxSize, maxFiles, before), Accepted(maxSize, maxFiles, before);
      AlwaysInOrder(maxSize, maxFiles, before);
      match ev
      case Write(e, fault) =>
        InOrderStep(d, maxSize, maxFiles, e, fault, accepted);
      case Restart =>
        SameRotated(d.files, Reopen(d.files).files, m);
    }
  }

  lemma InOrderStep(d: Disk, maxSize: int, maxFiles: int, e: Entry, fault: Fault, accepted: seq<Entry>)
    requires d.open ==> 0 in d.files
    requires Subsequence(Content(d.files, MaxRotated(maxFiles)), accepted)
    ensures var (after, err) := LogEntry(d, maxSize, maxFiles, e, fault);
            Subsequence(Content(after.files, MaxRotated(maxFiles)), if err.None? then accepted + [e] else accepted)
  {
    var m := MaxRotated(maxFiles);
    var rotated := if maxSize > 0 then Rotate(d, maxSize, maxFiles, e.size, fault).0 else d;
    assert Subsequence(Content(rotated.files, m), accepted) by {
      if maxSize > 0 {
        RotateKeeps(d, maxSize, maxFiles, e.size, fault);
        KeptInOrder(d.files, m, fault.stuck, !fault.call.RenameFails?, m);
        SubsequenceSelf(Content(d.files, m));
        SubsequenceTrans(Content(rotated.files, m), Content(d.files, m), accepted);
      }
    }
    if LogEntry(d, maxSize, maxFiles, e, fault).1.None? {
      AppendsLast(rotated.files, e, m);
      SubsequenceSelf([e]);
      SubsequenceAppend(Content(rotated.files, m), accepted, [e], [e]);
    }
  }

  // ----- Which failures tear a gap

  /** Rotated files without gaps, none of them empty; `h` is the highest number. */
  ghost predicate Gapless(files: Files, m: nat, h: nat) {
    && (forall n: nat :: n <= m ==> (n in files <==> n <= h))
    && (forall n: nat :: 1 <= n <= h && n <= m ==> At(files, n) != [])
  }

  /** On such files a rotation drops the oldest entries first exactly when no rename fails but that of the
      highest file renamed, and not that one either when the removal above it fails. */
  lemma TearsExactly(files: Files, m: nat, stuck: set<nat>, h: nat)
    requires Gapless(files, m, h) && m >= 1
    ensures var top := if h < m then h else m - 1;
            OldestGo(files, m, stuck, true, m)
            <==> (forall j <- stuck :: j == 0 || j >= top) && !(h >= m > 1 && m in stuck && m - 1 in stuck)
  {
    var top := if h < m then h else m - 1;
    if j :| j in stuck && 1 <= j < top {
      TornAt(files, m, stuck, h, j);
    } else if h >= m > 1 && m in stuck && m - 1 in stuck {
      assert !Survives(files, m, stuck, true, m - 1) && Survives(files, m, stuck, true, m);
    } else {
      forall n | 1 <= n < top ensures Survives(files, m, stuck, true, n) {}
    }
  }

  lemma TornAt(files: Files, m: nat, stuck: set<nat>, h: nat, j: nat)
    requires Gapless(files, m, h) && m >= 1 && j in stuck && 1 <= j < (if h < m then h else m - 1)
    ensures !OldestGo(files, m, stuck, true, m)
    decreases j
  {
    var top := if h < m then h else m - 1;
    if j - 1 in stuck && j > 1 {
      TornAt(files, m, stuck, h, j - 1);
    } else {
      assert Moves(files, stuck, true, j - 1) && !Survives(files, m, stuck, true, j);
      assert Survives(files, m, stuck, true, top) || Survives(files, m, stuck, true, top - 1);
    }
  }

  /** A removal that fails alone does no harm. */
  lemma FailedRemovalAlone(files: Files, m: nat, h: nat)
    requires Gapless(files, m, h) && m >= 1
    ensures OldestGo(files, m, {m}, true, m)
  {
    TearsExactly(files, m, {m}, h);
  }

  /** Three entries in three files; the middle rename fails and is passed over: "b" is gone, "a" is not. */
  lemma StuckRenameTears(a: Entry, b: Entry, c: Entry, d: Entry)
    requires c.size + d.size > 1
    ensures var files: Files := map[0 := [c], 1 := [b], 2 := [a]];
            var (after, err) := LogEntry(Disk(files, true), 1, 3, d, Fault(NoCall, {1}));
            Content(files, 3) == [a, b, c] && err.None? && Content(after.files, 3) == [a, c, d]
  {
    var files: Files := map[0 := [c], 1 := [b], 2 := [a]];
    var after: Files := map[0 := [d], 1 := [c], 3 := [a]];
    assert Size([c]) == c.size by { assert [c][..0] == []; }
    StuckShift(a, b, c);
    StuckAppend(a, b, c, d);
    assert LogEntry(Disk(files, true), 1, 3, d, Fault(NoCall, {1})) == (Disk(after, true), None);
    ThreeFiles(files);
    ThreeFiles(after);
  }

  lemma StuckShift(a: Entry, b: Entry, c: Entry)
    ensures ShiftRotated(map[0 := [c], 1 := [b], 2 := [a]], 3, {1}) == map[0 := [c], 1 := [b], 3 := [a]]
  {
    var files: Files, renamed: Files := map[0 := [c], 1 := [b], 2 := [a]], map[0 := [c], 1 := [b], 3 := [a]];
    var shifted := ShiftRotated(files, 3, {1});
    forall n: nat ensures Look(shifted, n) == Look(renamed, n) {
      assert Look(shifted, n) == Shifted(files, 3, {1}, 0, n);
    }
    SameFiles(shifted, renamed);
  }

  lemma StuckAppend(a: Entry, b: Entry, c: Entry, d: Entry)
    ensures var emptied := MoveCurrent(map[0 := [c], 1 := [b], 3 := [a]])[0 := []];
            emptied[0 := emptied[0] + [d]] == map[0 := [d], 1 := [c], 3 := [a]]
  {
    var emptied := MoveCurrent(map[0 := [c], 1 := [b], 3 := [a]])[0 := []];
    assert emptied[0] + [d] == [d];
    SameFiles(emptied[0 := [d]], map[0 := [d], 1 := [c], 3 := [a]]);
  }

  lemma ThreeFiles(files: Files)
    ensures Content(files, 3) == At(files, 3) + At(files, 2) + At(files, 1) + At(files, 0)
  {
    assert Rotated(files, 1) == At(files, 1) + Rotated(files, 0) == At(files, 1);
    assert Rotated(files, 2) == At(files, 2) + Rotated(files, 1);
    assert Rotated(files, 3) == At(files, 3) + Rotated(files, 2) == At(files, 3) + At(files, 2) + At(files, 1);
  }

  /** Since the last restart a rotation was due and failed to close, rename or reopen the file. */
  ghost predicate RotationFailed(maxSize: int, maxFiles: int, events: seq<Event>) {
    if events == [] then false
    else
      var before := events[..|events| - 1];
      match events[|events| - 1]
      case Restart => false
      case Write(e, fault) =>
        || RotationFailed(maxSize, maxFiles, before)
        || (RotationDue(Run(maxSize, maxFiles, before), maxSize, e.size)
            && (fault.call.CloseFails? || fault.call.RenameFails? || fault.call.OpenFails?))
  }

  /** The driver is closed exactly after such a failure. */
  lemma {:induction false} ClosedExactly(maxSize: int, maxFiles: int, events: seq<Event>)
    ensures !Run(maxSize, maxFiles, events).open <==> RotationFailed(maxSize, maxFiles, events)
  {
    if events != [] {
      ClosedExactly(maxSize, maxFiles, events[..|events| - 1]);
    }
  }

  /** A Log call whose own system calls succeed is accepted exactly when no rotation has failed since
      the last restart. */
  lemma AcceptsExactly(maxSize: int, maxFiles: int, events: seq<Event>, e: Entry)
    ensures LogEntry(Run(maxSize, maxFiles, events), maxSize, maxFiles, e, NO_FAULT).1.None?
            <==> !RotationFailed(maxSize, maxFiles, events)
  {
    ClosedExactly(maxSize, maxFiles, events);
  }

  /** On an open driver a Log call reports the first of its system calls that fails and is not ignored, and
      makes only those it comes to: none for the rotation without a limit, and past the size of the file only
      when the entry does not fit. */
  lemma LogReports(d: Disk, maxSize: int, maxFiles: int, e: Entry, fault: Fault)
    requires d.open && 0 in d.files
    ensures var err := LogEntry(d, maxSize, maxFiles, e, fault).1;
            && (err == Some(StatError) <==> fault.call.StatFails? && maxSize > 0)
            && (err == Some(CloseError) <==> fault.call.CloseFails? && RotationDue(d, maxSize, e.size))
            && (err == Some(RenameError) <==> fault.call.RenameFails? && RotationDue(d, maxSize, e.size))
            && (err == Some(OpenError) <==> fault.call.OpenFails? && RotationDue(d, maxSize, e.size))
            && (err == Some(WriteError) <==> fault.call.WriteFails?)
  {
  }

  /** A rotation that failed is final: every later Log call fails and changes nothing until the driver is
      created again. */
  lemma {:induction false} FailedRotationIsFinal(maxSize: int, maxFiles: int, events: seq<Event>, more: seq<Event>)
    requires RotationFailed(maxSize, maxFiles, events)
    requires Restart !in more
    ensures Run(maxSize, maxFiles, events + more) == Run(maxSize, maxFiles, events)
    ensures Accepted(maxSize, maxFiles, events + more) == Accepted(maxSize, maxFiles, events)
  {
    ClosedExactly(maxSize, maxFiles, events);
    if more == [] {
      assert events + more == events;
    } else {
      var k := |more| - 1;
      assert more[k] in more;
      FailedRotationIsFinal(maxSize, maxFiles, events, more[..k]);
      assert (events + more)[..|events + more| - 1] == events + more[..k];
      ClosedRefuses(Run(maxSize, maxFiles, events), maxSize, maxFiles, more[k].entry, more[k].fault);
    }
  }

  lemma ClosedRefuses(d: Disk, maxSize: int, maxFiles: int, e: Entry, fault: Fault)
    requires !d.open
    ensures LogEntry(d, maxSize, maxFiles, e, fault) == (d, Some(if maxSize > 0 then StatError else WriteError))
  {
  }

  // ----- Exactly which entries each file holds

  /** Cutting the entries greedily: an entry goes into the last group when it still fits. */
  function Groups(maxSize: int, es: seq<Entry>): (gs: seq<seq<Entry>>)
    ensures |gs| >= 1
  {
    if es == [] then [[]]
    else
      var gs := Groups(maxSize, es[..|es| - 1]);
      var last, e := gs[|gs| - 1], es[|es| - 1];
      if maxSize <= 0 || Size(last) + e.size <= maxSize then gs[..|gs| - 1] + [last + [e]] else gs + [[e]]
  }

  function GroupAt(gs: seq<seq<Entry>>, m: nat, n: nat): Option<seq<Entry>> {
    if n < |gs| && n <= m then Some(gs[|gs| - 1 - n]) else None
  }

  /** File `n` holds the n-th group from the end, as far as the limit on files goes; no file has
      any other number. */
  ghost predicate HoldsLastGroups(d: Disk, gs: seq<seq<Entry>>, m: nat) {
    d.open && forall n: nat :: Look(d.files, n) == GroupAt(gs, m, n)
  }

  predicate Faultless(events: seq<Event>) {
    forall ev <- events :: ev.Write? ==> ev.fault == NO_FAULT
  }

  lemma GroupsStep(d: Disk, maxSize: int, maxFiles: int, e: Entry, es: seq<Entry>)
    requires HoldsLastGroups(d, Groups(maxSize, es), MaxRotated(maxFiles)) && 0 in d.files
    ensures var (after, err) := LogEntry(d, maxSize, maxFiles, e, NO_FAULT);
            err.None? && HoldsLastGroups(after, Groups(maxSize, es + [e]), MaxRotated(maxFiles))
  {
    var m, gs := MaxRotated(maxFiles), Groups(maxSize, es);
    assert (es + [e])[..|es + [e]| - 1] == es;
    var last := gs[|gs| - 1];
    var next := Groups(maxSize, es + [e]);
    assert Look(d.files, 0) == GroupAt(gs, m, 0);
    if maxSize <= 0 || Size(last) + e.size <= maxSize {
      GroupGrows(d.files, gs, m, e, d.files[0 := d.files[0] + [e]], next);
    } else {
      var shifted := ShiftRotated(d.files, m, {});
      assert Look(shifted, 0) == Shifted(d.files, m, {}, 0, 0);
      var emptied := MoveCurrent(shifted)[0 := []];
      assert next == gs + [[e]];
      assert LogEntry(d, maxSize, maxFiles, e, NO_FAULT) == (Disk(emptied[0 := emptied[0] + [e]], true), None);
      GroupStarts(d.files, shifted, gs, m, e);
    }
  }

  lemma GroupGrows(files: Files, gs: seq<seq<Entry>>, m: nat, e: Entry, after: Files, next: seq<seq<Entry>>)
    requires gs != [] && 0 in files
    requires forall n: nat :: Look(files, n) == GroupAt(gs, m, n)
    requires after == files[0 := files[0] + [e]] && next == gs[..|gs| - 1] + [gs[|gs| - 1] + [e]]
    ensures forall n: nat :: Look(after, n) == GroupAt(next, m, n)
  {
    assert Look(files, 0) == GroupAt(gs, m, 0);
    forall n: nat ensures Look(after, n) == GroupAt(next, m, n) {
      assert Look(files, n) == GroupAt(gs, m, n);
    }
  }

  lemma GroupStarts(files: Files, shifted: Files, gs: seq<seq<Entry>>, m: nat, e: Entry)
    requires gs != [] && 0 in shifted && m >= 1
    requires forall n: nat :: Look(files, n) == GroupAt(gs, m, n)
    requires forall n: nat :: Look(shifted, n) == Shifted(files, m, {}, 0, n)
    ensures var after := MoveCurrent(shifted)[0 := []];
            forall n: nat :: Look(after[0 := after[0] + [e]], n) == GroupAt(gs + [[e]], m, n)
  {
    var emptied := MoveCurrent(shifted)[0 := []];
    var after := emptied[0 := emptied[0] + [e]];
    assert after[0] == [e];
    forall n: nat ensures Look(after, n) == GroupAt(gs + [[e]], m, n) {
      assert Look(shifted, n) == Shifted(files, m, {}, 0, n);
      assert Look(shifted, 0) == Shifted(files, m, {}, 0, 0);
      if n >= 1 {
        assert Look(files, n - 1) == GroupAt(gs, m, n - 1);
      }
      assert Look(files, n) == GroupAt(gs, m, n);
    }
  }

  /** The renaming of files refines greedy grouping: without failures, after any Log calls and
      restarts every call was accepted and the files are the last groups of the entries logged. */
  lemma {:induction false} FilesAreLastGroups(maxSize: int, maxFiles: int, events: seq<Event>)
    requires Faultless(events)
    ensures HoldsLastGroups(Run(maxSize, maxFiles, events),
                            Groups(maxSize, Accepted(maxSize, maxFiles, events)), MaxRotated(maxFiles))
    ensures Accepted(maxSize, maxFiles, events) == Entries(events)
  {
    var m := MaxRotated(maxFiles);
    if events != [] {
      var before, ev := events[..|events| - 1], events[|events| - 1];
      assert ev in events;
      var d, es := Run(maxSize, maxFiles, before), Accepted(maxSize, maxFiles, before);
      FilesAreLastGroups(maxSize, maxFiles, before);
      assert Look(d.files, 0) == GroupAt(Groups(maxSize, es), m, 0);
      if ev.Write? {
        GroupsStep(d, maxSize, maxFiles, ev.entry, es);
      }
    }
  }

  function Entries(events: seq<Event>): seq<Entry> {
    if events == [] then []
    else Entries(events[..|events| - 1]) + if events[|events| - 1].Write? then [events[|events| - 1].entry] else []
  }

  // ----- What the groups are

  lemma {:induction false} GroupsCover(maxSize: int, es: seq<Entry>)
    ensures Flatten(Groups(maxSize, es)) == es
  {
    if es == [] {
      FlattenOne<Entry>([]);
    } else {
      var k := |es| - 1;
      GroupsCover(maxSize, es[..k]);
      var gs, e := Groups(maxSize, es[..k]), es[k];
      var init, last := gs[..|gs| - 1], gs[|gs| - 1];
      FlattenLast(init, last);
      FlattenLast(init, last + [e]);
      FlattenLast(gs, [e]);
      assert init + [last] == gs;
      assert Flatten(init) + (last + [e]) == Flatten(init) + last + [e];
      assert es == es[..k] + [e];
    }
  }

  lemma FlattenLast<T>(parts: seq<seq<T>>, last: seq<T>)
    ensures Flatten(parts + [last]) == Flatten(parts) + last
  {
    FlattenAppend(parts, [last]);
    FlattenOne(last);
  }

  /** A group within the limit or of one entry. */
  predicate Fits(maxSize: int, g: seq<Entry>) {
    Size(g) <= maxSize || |g| == 1
  }

  /** The entry after the group would not have fitted any more. */
  predicate Full(maxSize: int, g: seq<Entry>, next: seq<Entry>) {
    next != [] && Size(g) + next[0].size > maxSize
  }

  lemma {:induction false} GroupsFit(maxSize: int, es: seq<Entry>)
    requires maxSize > 0
    ensures forall g <- Groups(maxSize, es) :: Fits(maxSize, g)
  {
    if es != [] {
      var gs, e := Groups(maxSize, es[..|es| - 1]), es[|es| - 1];
      GroupsFit(maxSize, es[..|es| - 1]);
      var last := gs[|gs| - 1];
      assert (last + [e])[..|last|] == last;
      forall g | g in Groups(maxSize, es) ensures Fits(maxSize, g) {
        assert g in gs || g == last + [e] || g == [e];
      }
    }
  }

  ghost predicate EachFull(maxSize: int, gs: seq<seq<Entry>>) {
    forall i :: 0 < i < |gs| ==> Full(maxSize, gs[i - 1], gs[i])
  }

  /** A new group is begun only where the last one is full. */
  lemma {:induction false} GroupsAreFull(maxSize: int, es: seq<Entry>)
    ensures maxSize <= 0 ==> |Groups(maxSize, es)| == 1
    ensures EachFull(maxSize, Groups(maxSize, es))
  {
    if es != [] {
      var before := Groups(maxSize, es[..|es| - 1]);
      GroupsAreFull(maxSize, es[..|es| - 1]);
      FullStays(maxSize, before, es[|es| - 1]);
    }
  }

  lemma FullStays(maxSize: int, gs: seq<seq<Entry>>, e: Entry)
    requires gs != [] && EachFull(maxSize, gs)
    ensures EachFull(maxSize, gs[..|gs| - 1] + [gs[|gs| - 1] + [e]])
    ensures Size(gs[|gs| - 1]) + e.size > maxSize ==> EachFull(maxSize, gs + [[e]])
  {
    var k := |gs| - 1;
    if k > 0 {
      assert Full(maxSize, gs[k - 1], gs[k]);
      assert (gs[k] + [e])[0] == gs[k][0];
    }
  }

  /** Without failures: a rotated file for each group up to the limit, numbered without gaps, and with a
      size limit each is within it or holds a single entry, and the next one was begun because its first
      entry did not fit. */
  lemma RotationBounds(maxSize: int, maxFiles: int, events: seq<Event>)
    requires Faultless(events)
    ensures var files := Run(maxSize, maxFiles, events).files;
            && (forall n: nat :: n in files <==> n < |Groups(maxSize, Entries(events))| && (n <= maxFiles || n <= 1))
            && (maxSize <= 0 ==> |Groups(maxSize, Entries(events))| == 1)
            && (maxSize > 0 ==> forall n <- files :: Fits(maxSize, files[n]))
            && (forall n: nat :: n + 1 in files ==> n in files && Full(maxSize, files[n + 1], files[n]))
  {
    FilesAreLastGroups(maxSize, maxFiles, events);
    var gs := Groups(maxSize, Entries(events));
    GroupsAreFull(maxSize, Entries(events));
    if maxSize > 0 {
      GroupsFit(maxSize, Entries(events));
    }
    GroupBounds(Run(maxSize, maxFiles, events).files, gs, MaxRotated(maxFiles), maxSize);
  }

  lemma GroupBounds(files: Files, gs: seq<seq<Entry>>, m: nat, maxSize: int)
    requires forall n: nat :: Look(files, n) == GroupAt(gs, m, n)
    requires maxSize > 0 ==> forall g <- gs :: Fits(maxSize, g)
    requires EachFull(maxSize, gs)
    ensures forall n: nat :: n in files <==> n < |gs| && n <= m
    ensures maxSize > 0 ==> forall n <- files :: Fits(maxSize, files[n])
    ensures forall n: nat :: n + 1 in files ==> n in files && Full(maxSize, files[n + 1], files[n])
  {
    forall n: nat
      ensures n in files <==> n < |gs| && n <= m
      ensures n in files ==> files[n] == gs[|gs| - 1 - n]
    {
      assert Look(files, n) == GroupAt(gs, m, n);
    }
    forall n: nat | n + 1 in files ensures n in files && Full(maxSize, files[n + 1], files[n]) {
      assert files[n + 1] == gs[|gs| - 1 - n - 1] && files[n] == gs[|gs| - 1 - n];
    }
  }

  // ----- What a reader sees

  lemma {:induction false} FilterAppend(a: seq<Entry>, b: seq<Entry>, opts: ReadOpts)
    ensures Filter(a + b, opts) == Filter(a, opts) + Filter(b, opts)
  {
    if b == [] {
      assert a + b == a;
    } else {
      assert (a + b)[..|a + b| - 1] == a + b[..|b| - 1];
      FilterAppend(a, b[..|b| - 1], opts);
    }
  }

  /** Written at or after `since` and at or before `until`, on a stream that is asked for. */
  predicate AskedFor(e: Entry, opts: ReadOpts) {
    && !(opts.since.Some? && e.time < opts.since.value)
    && !(opts.until.Some? && e.time > opts.until.value)
    && e.stream !in (if opts.stdout then {} else {"stdout"}) + if opts.stderr then {} else {"stderr"}
  }

  /** The filter goes entry by entry, in order: it is the one function that keeps an entry alone when that is
      asked for and takes a concatenation part by part. */
  lemma FilterExactly(f: seq<Entry> -> seq<Entry>, opts: ReadOpts)
    ensures (forall es :: f(es) == Filter(es, opts))
            <==> && f([]) == []
                 && (forall e :: f([e]) == if AskedFor(e, opts) then [e] else [])
                 && (forall a, b :: f(a + b) == f(a) + f(b))
  {
    if forall es :: f(es) == Filter(es, opts) {
      forall e ensures f([e]) == if AskedFor(e, opts) then [e] else [] {
        assert [e][..0] == [];
        assert f([e]) == Filter([e], opts);
      }
      forall a, b ensures f(a + b) == f(a) + f(b) {
        FilterAppend(a, b, opts);
      }
    }
    if
      && f([]) == []
      && (forall e :: f([e]) == if AskedFor(e, opts) then [e] else [])
      && (forall a, b :: f(a + b) == f(a) + f(b))
    {
      forall es ensures f(es) == Filter(es, opts) {
        FilterUnique(f, opts, es);
      }
    }
  }

  lemma {:induction false} FilterUnique(f: seq<Entry> -> seq<Entry>, opts: ReadOpts, es: seq<Entry>)
    requires f([]) == [] && (forall e :: f([e]) == if AskedFor(e, opts) then [e] else [])
    requires forall a, b :: f(a + b) == f(a) + f(b)
    ensures f(es) == Filter(es, opts)
  {
    if es != [] {
      FilterUnique(f, opts, es[..|es| - 1]);
      assert es == es[..|es| - 1] + [es[|es| - 1]];
    }
  }

  lemma {:induction false} FilterEmpty(es: seq<Entry>, opts: ReadOpts)
    ensures Filter(es, opts) == [] <==> forall i :: 0 <= i < |es| ==> !Passes(es[i], opts)
  {
    if es != [] {
      FilterEmpty(es[..|es| - 1], opts);
    }
  }

  /** No entry that passes the filters stands at or after an over-long line of its file. */
  predicate ScanReachesAll(file: seq<Entry>, opts: ReadOpts) {
    forall i, j :: 0 <= i <= j < |file| && file[i].size > MAX_TOKEN ==> !Passes(file[j], opts)
  }

  lemma {:induction false} ScannableStops(file: seq<Entry>)
    ensures var k := |Scannable(file)|;
            && k <= |file| && file[..k] == Scannable(file)
            && (k < |file| ==> file[k].size > MAX_TOKEN)
            && forall i :: 0 <= i < k ==> file[i].size <= MAX_TOKEN
  {
    if file != [] && file[0].size <= MAX_TOKEN {
      ScannableStops(file[1..]);
      var k := |Scannable(file[1..])|;
      assert file[..k + 1] == [file[0]] + file[1..][..k];
      forall i | 0 <= i < k + 1 ensures file[i].size <= MAX_TOKEN {
        if i > 0 { assert file[i] == file[1..][i - 1]; }
      }
    }
  }

  /** The scan stops at an over-long line, so it reaches all when nothing from there on passes. */
  lemma ReachedExactly(file: seq<Entry>, k: nat, opts: ReadOpts)
    requires k <= |file| && (k < |file| ==> file[k].size > MAX_TOKEN)
    requires forall i :: 0 <= i < k ==> file[i].size <= MAX_TOKEN
    ensures ScanReachesAll(file, opts) <==> Filter(file[k..], opts) == []
  {
    var rest := file[k..];
    FilterEmpty(rest, opts);
    assert forall i :: 0 <= i < |rest| ==> rest[i] == file[k + i];
    if Filter(rest, opts) == [] {
      forall i, j | 0 <= i <= j < |file| && file[i].size > MAX_TOKEN ensures !Passes(file[j], opts) {
        assert file[j] == rest[j - k];
      }
    }
  }

  lemma FileReadExactly(file: seq<Entry>, opts: ReadOpts)
    ensures ReadsTo(Filter(Scannable(file), opts), Filter(file, opts), ScanReachesAll(file, opts))
  {
    ScannableStops(file);
    var k := |Scannable(file)|;
    assert file == Scannable(file) + file[k..];
    FilterAppend(Scannable(file), file[k..], opts);
    ReachedExactly(file, k, opts);
  }

  predicate AllReached(files: Files, n: nat, opts: ReadOpts) {
    forall k <- files :: k <= n ==> ScanReachesAll(files[k], opts)
  }

  /** `read` falls short of `all` in length, and is all of it, exactly when `reached`. */
  predicate ReadsTo(read: seq<Entry>, all: seq<Entry>, reached: bool) {
    |read| <= |all| && (reached <==> |read| == |all|) && (reached ==> read == all)
  }

  lemma ReadsToAppend(a: seq<Entry>, allA: seq<Entry>, reachedA: bool, b: seq<Entry>, allB: seq<Entry>, reachedB: bool)
    requires ReadsTo(a, allA, reachedA) && ReadsTo(b, allB, reachedB)
    ensures ReadsTo(a + b, allA + allB, reachedA && reachedB)
  {
  }

  lemma AllReachedStep(files: Files, n: nat, opts: ReadOpts)
    ensures AllReached(files, n, opts) <==>
            ScanReachesAll(At(files, n), opts) && (n > 0 ==> AllReached(files, n - 1, opts))
  {
  }

  lemma {:induction false} ReadLengths(files: Files, n: nat, opts: ReadOpts)
    ensures ReadsTo(ReadFrom(files, n, opts), Filter(Content(files, n), opts), AllReached(files, n, opts))
  {
    var here, hereAll := ReadOne(files, n, opts), Filter(At(files, n), opts);
    var reached := ScanReachesAll(At(files, n), opts);
    assert ReadsTo(here, hereAll, reached) by {
      FileReadExactly(At(files, n), opts);
    }
    AllReachedStep(files, n, opts);
    if n == 0 {
      assert Content(files, 0) == At(files, 0);
    } else {
      var rest, restAll := ReadFrom(files, n - 1, opts), Filter(Content(files, n - 1), opts);
      assert ReadsTo(here + rest, hereAll + restAll, reached && AllReached(files, n - 1, opts)) by {
        ReadLengths(files, n - 1, opts);
        ReadsToAppend(here, hereAll, reached, rest, restAll, AllReached(files, n - 1, opts));
      }
      assert Filter(Content(files, n), opts) == hereAll + restAll by {
        ContentStep(files, n);
        FilterAppend(At(files, n), Content(files, n - 1), opts);
      }
    }
  }

  /** The reader gives all entries on disk that pass, oldest first, exactly when in no file an entry
      that passes stands at or after a line over 64 KiB. */
  lemma ReadsAllExactly(files: Files, m: nat, opts: ReadOpts)
    ensures ReadFrom(files, m, opts) == Filter(Content(files, m), opts) <==> AllReached(files, m, opts)
  {
    ReadLengths(files, m, opts);
  }

  lemma TwoRead(a: Entry, b: Entry, opts: ReadOpts)
    requires a.size <= MAX_TOKEN && b.size <= MAX_TOKEN && Passes(a, opts) && Passes(b, opts)
    ensures Filter(Scannable([a, b]), opts) == [a, b]
  {
    assert [a, b][1..] == [b] && [b][1..] == [] && Scannable([b]) == [b];
    assert [a] + [b] == [a, b];
    FilterAppend([a], [b], opts);
    assert [a][..0] == [] && [b][..0] == [];
  }

  /** A line of 64 KiB with its newline is read; one byte more, and what follows it is not read either. */
  lemma OverlongLineHidesRest(line: Entry, short: Entry)
    requires line.size == 65536 && short.size <= 65536
    ensures var opts := ReadOpts(None, None, true, true, -1);
            && ReadFrom(map[0 := [line, short]], 0, opts) == [line, short]
            && ReadFrom(map[0 := [line.(size := 65537), short]], 0, opts) == []
  {
    TwoRead(line, short, ReadOpts(None, None, true, true, -1));
    assert Scannable([line.(size := 65537), short]) == [];
  }

  /** After such a run, reading with a tail of k gives the last k of the entries that pass among all those
      accepted, as long as that many are still on disk; reading without a tail gives all that are. */
  lemma TailOfAllAccepted(maxSize: int, maxFiles: int, events: seq<Event>, opts: ReadOpts)
    requires AllOrderly(maxSize, maxFiles, events)
    requires forall e <- Accepted(maxSize, maxFiles, events) :: e.size <= MAX_TOKEN
    ensures var m, files := MaxRotated(maxFiles), Run(maxSize, maxFiles, events).files;
            var onDisk := Filter(Content(files, m), opts);
            LastOf(Tail(ReadFrom(files, m, opts), opts.tail), opts.tail, onDisk,
                   Filter(Accepted(maxSize, maxFiles, events), opts))
  {
    UnbrokenSuffix(maxSize, maxFiles, events);
    TailOfSuffix(Run(maxSize, maxFiles, events).files, MaxRotated(maxFiles), Accepted(maxSize, maxFiles, events), opts);
  }

  /** `read` is the last k of `all` when `onDisk` has so many, and else all of `onDisk`. */
  predicate LastOf(read: seq<Entry>, k: int, onDisk: seq<Entry>, all: seq<Entry>) {
    && |onDisk| <= |all|
    && if 0 <= k <= |onDisk| then read == all[|all| - k..] else read == onDisk
  }

  lemma TailOfSuffix(files: Files, m: nat, all: seq<Entry>, opts: ReadOpts)
    requires Suffix(Content(files, m), all)
    requires forall e <- all :: e.size <= MAX_TOKEN
    ensures LastOf(Tail(ReadFrom(files, m, opts), opts.tail), opts.tail, Filter(Content(files, m), opts),
                   Filter(all, opts))
  {
    var kept := Content(files, m);
    var lost := all[..|all| - |kept|];
    assert all == lost + kept;
    FilterAppend(lost, kept, opts);
    assert ReadFrom(files, m, opts) == Filter(kept, opts) by {
      assert forall e <- kept :: e in all;
      SmallLinesReached(files, m, opts);
      ReadsAllExactly(files, m, opts);
    }
    TailOfLast(Filter(lost, opts), Filter(kept, opts), opts.tail);
  }

  lemma TailOfLast(lost: seq<Entry>, onDisk: seq<Entry>, k: int)
    ensures LastOf(Tail(onDisk, k), k, onDisk, lost + onDisk)
  {
    if 0 <= k <= |onDisk| {
      assert (lost + onDisk)[|lost| + |onDisk| - k..] == onDisk[|onDisk| - k..];
    }
  }

  lemma {:induction false} SmallLinesReached(files: Files, n: nat, opts: ReadOpts)
    requires forall e <- Content(files, n) :: e.size <= MAX_TOKEN
    ensures AllReached(files, n, opts)
  {
    forall k | k in files && k <= n ensures ScanReachesAll(files[k], opts) {
      FileInContent(files, n, k);
    }
  }

  lemma {:induction false} FileInContent(files: Files, n: nat, k: nat)
    requires k <= n && k in files
    ensures forall e <- files[k] :: e in Content(files, n)
  {
    if k > 0 {
      FileInRotated(files, n, k);
    }
  }

  lemma {:induction false} FileInRotated(files: Files, n: nat, k: nat)
    requires 1 <= k <= n && k in files
    ensures forall e <- files[k] :: e in Rotated(files, n)
  {
    if k < n {
      FileInRotated(files, n - 1, k);
    }
  }
}
