/** The json-file log driver of internal/log/jsonfile/jsonfile.go: a shift register of files, and
    the reader over it.

    A file is the sequence of entries written to it; number 0 is the primary path, number n the
    path with suffix ".n". `size` is the length of the encoded line with its newline. */
module RotatingLog {
  import opened Wrappers

  datatype Entry = Entry(stream: string, line: string, time: int, size: nat)

  type Files = map<nat, seq<Entry>>

  datatype Disk = Disk(files: Files, open: bool)

  /** Which system call of a Log call fails with an error, if any. */
  datatype FailedCall = NoCall | StatFails | CloseFails | RenameFails | OpenFails | WriteFails

  /** The failures of a Log call. Those of the removal and of the renames between rotated files are ignored:
      `stuck` has the numbers of the files they leave in place. */
  datatype Fault = Fault(call: FailedCall, stuck: set<nat>)

  const NO_FAULT := Fault(NoCall, {})

  datatype LogError = StatError | CloseError | RenameError | OpenError | WriteError

  function Size(file: seq<Entry>): nat {
    if file == [] then 0 else Size(file[..|file| - 1]) + file[|file| - 1].size
  }

  lemma {:induction false} SizeAdds(a: seq<Entry>, b: seq<Entry>)
    ensures Size(a + b) == Size(a) + Size(b)
    ensures forall e: Entry :: Size([e]) == e.size
  {
    assert forall e: Entry :: [e][..0] == [];
    if b == [] {
      assert a + b == a;
    } else {
      SizeAdds(a, b[..|b| - 1]);
      assert (a + b)[..|a + b| - 1] == a + b[..|b| - 1];
    }
  }

  function Look(files: Files, n: nat): Option<seq<Entry>> {
    if n in files then Some(files[n]) else None
  }

  function MaxRotated(maxFiles: int): (m: nat)
    ensures m >= 1
  {
    if maxFiles <= 0 then 1 else maxFiles
  }

  /** What file `n` holds after the removal of file m and the renames of files m-1 down to i+1. A rename
      replaces what is in its way. */
  function Shifted(files: Files, m: nat, stuck: set<nat>, i: nat, n: nat): Option<seq<Entry>> {
    if n <= i || n > m then Look(files, n)
    else if n > i + 1 && n - 1 in files && n - 1 !in stuck then Some(files[n - 1])
    else if n in stuck then Look(files, n)
    else None
  }

  ghost function ShiftRotated(files: Files, m: nat, stuck: set<nat>): (r: Files)
    requires m >= 1
    ensures forall n: nat :: Look(r, n) == Shifted(files, m, stuck, 0, n)
  {
    var numbers := files.Keys + set k <- files.Keys :: k + 1;
    assert forall n: nat :: Shifted(files, m, stuck, 0, n).Some? ==> n in numbers by {
      forall n: nat | Shifted(files, m, stuck, 0, n).Some? ensures n in numbers {
        if n !in files { assert n - 1 in files.Keys; }
      }
    }
    map n <- numbers | Shifted(files, m, stuck, 0, n).Some? :: Shifted(files, m, stuck, 0, n).value
  }

  function MoveCurrent(files: Files): Files
    requires 0 in files
  {
    files[1 := files[0]] - {0}
  }

  /** rotateIfNeeded. */
  ghost function Rotate(d: Disk, maxSize: int, maxFiles: int, size: nat, fault: Fault): (Disk, Option<LogError>)
    requires d.open ==> 0 in d.files
  {
    if !d.open || fault.call.StatFails? then (d, Some(StatError))
    else if Size(d.files[0]) + size <= maxSize then (d, None)
    else if fault.call.CloseFails? then (d.(open := false), Some(CloseError))
    else
      var shifted := ShiftRotated(d.files, MaxRotated(maxFiles), fault.stuck);
      assert Look(shifted, 0) == Look(d.files, 0);
      if fault.call.RenameFails? then (Disk(shifted, false), Some(RenameError))
      else
        var moved := MoveCurrent(shifted);
        if fault.call.OpenFails? then (Disk(moved, false), Some(OpenError))
        else (Disk(moved[0 := []], true), None)
  }

  function Append(d: Disk, e: Entry, fault: Fault): (Disk, Option<LogError>)
    requires d.open ==> 0 in d.files
  {
    if !d.open || fault.call.WriteFails? then (d, Some(WriteError))
    else (d.(files := d.files[0 := d.files[0] + [e]]), None)
  }

  ghost function LogEntry(d: Disk, maxSize: int, maxFiles: int, e: Entry, fault: Fault): (Disk, Option<LogError>)
    requires d.open ==> 0 in d.files
  {
    if maxSize > 0 then
      var (rotated, err) := Rotate(d, maxSize, maxFiles, e.size, fault);
      if err.Some? then (rotated, err) else Append(rotated, e, fault)
    else
      Append(d, e, fault)
  }

  // ----- The driver

  class Driver {
    const maxSize: int
    const maxFiles: int
    var files: Files
    var open: bool

    ghost predicate Valid()
      reads this
    {
      open ==> 0 in files
    }

    ghost function View(): Disk
      reads this
    {
      Disk(files, open)
    }

    /** New: opens the primary file for appending, creating it when absent. */
    constructor (maxSize: int, maxFiles: int, existing: Files)
      ensures Valid() && View() == Reopen(existing) && this.maxSize == maxSize && this.maxFiles == maxFiles
    {
      this.maxSize, this.maxFiles := maxSize, maxFiles;
      files := if 0 in existing then existing else existing[0 := []];
      open := true;
    }

    method RotateIfNeeded(writeSize: nat, fault: Fault) returns (err: Option<LogError>)
      requires Valid()
      modifies this
      ensures Valid() && (View(), err) == Rotate(old(View()), maxSize, maxFiles, writeSize, fault)
    {
      if !open || fault.call.StatFails? {
        return Some(StatError);
      }
      if Size(files[0]) + writeSize <= maxSize {
        return None;
      }
      open := false;
      if fault.call.CloseFails? {
        return Some(CloseError);
      }
      var maxRotated := MaxRotated(maxFiles);
      ghost var before := files;
      if maxRotated !in fault.stuck {
        files := files - {maxRotated};
      }
      var i := maxRotated - 1;
      while i >= 1
        invariant 0 <= i <= maxRotated - 1
        invariant forall n: nat :: Look(files, n) == Shifted(before, maxRotated, fault.stuck, i, n)
        invariant !open
      {
        RenameStep(before, files, maxRotated, fault.stuck, i);
        if i in files && i !in fault.stuck {
          files := files[i + 1 := files[i]] - {i};
        }
        i := i - 1;
      }
      SameFiles(files, ShiftRotated(before, maxRotated, fault.stuck));
      assert Look(files, 0) == Look(before, 0);
      if fault.call.RenameFails? {
        return Some(RenameError);
      }
      files := files[1 := files[0]] - {0};
      if fault.call.OpenFails? {
        return Some(OpenError);
      }
      files := files[0 := []];
      open := true;
      return None;
    }

    method Log(e: Entry, fault: Fault) returns (err: Option<LogError>)
      requires Valid()
      modifies this
      ensures Valid() && (View(), err) == LogEntry(old(View()), maxSize, maxFiles, e, fault)
    {
      if maxSize > 0 {
        err := RotateIfNeeded(e.size, fault);
        if err.Some? {
          return;
        }
      }
      if !open || fault.call.WriteFails? {
        return Some(WriteError);
      }
      files := files[0 := files[0] + [e]];
      return None;
    }

    /** The files are looked for one by one, and then opened one by one, without the lock: `listed` and
        `seen` are the disk at these moments. */
    method ReadLogs(opts: ReadOpts, listed: nat -> Files, seen: nat -> Files) returns (messages: seq<Entry>)
      ensures messages == Tail(ReadEach(seen, Existing(listed, MaxRotated(maxFiles)) + [0], opts), opts.tail)
      ensures var all := ReadEach(seen, Existing(listed, MaxRotated(maxFiles)) + [0], opts);
              && |messages| == (if 0 <= opts.tail < |all| then opts.tail else |all|)
              && messages == all[|all| - |messages|..]
    {
      var numbers := RotatedFiles(listed, maxFiles);
      messages := ReadInOrder(seen, numbers + [0], opts);
      if opts.tail >= 0 && |messages| > opts.tail {
        messages := messages[|messages| - opts.tail..];
      }
    }
  }

  /** One rename of the descending loop. */
  lemma RenameStep(before: Files, files: Files, m: nat, stuck: set<nat>, i: nat)
    requires 1 <= i < m
    requires forall n: nat :: Look(files, n) == Shifted(before, m, stuck, i, n)
    ensures var renamed := if i in files && i !in stuck then files[i + 1 := files[i]] - {i} else files;
            forall n: nat :: Look(renamed, n) == Shifted(before, m, stuck, i - 1, n)
  {
    var renamed := if i in files && i !in stuck then files[i + 1 := files[i]] - {i} else files;
    assert Look(files, i) == Shifted(before, m, stuck, i, i) == Look(before, i);
    forall n: nat ensures Look(renamed, n) == Shifted(before, m, stuck, i - 1, n) {
      assert Look(files, n) == Shifted(before, m, stuck, i, n);
    }
  }

  function Reopen(existing: Files): Disk {
    Disk(if 0 in existing then existing else existing[0 := []], true)
  }

  lemma SameFiles(a: Files, b: Files)
    requires forall n: nat :: Look(a, n) == Look(b, n)
    ensures a == b
  {
    forall n: nat ensures n in a <==> n in b {
      assert Look(a, n) == Look(b, n);
    }
    forall n: nat | n in a ensures a[n] == b[n] {
      assert Look(a, n) == Look(b, n);
    }
    assert a.Keys == b.Keys;
  }

  // ----- Reading

  datatype ReadOpts = ReadOpts(since: Option<int>, until: Option<int>, stdout: bool, stderr: bool, tail: int)

  predicate Passes(e: Entry, opts: ReadOpts) {
    && (opts.since.Some? ==> e.time >= opts.since.value)
    && (opts.until.Some? ==> e.time <= opts.until.value)
    && (e.stream == "stdout" ==> opts.stdout)
    && (e.stream == "stderr" ==> opts.stderr)
  }

  function Filter(es: seq<Entry>, opts: ReadOpts): seq<Entry> {
    if es == [] then []
    else Filter(es[..|es| - 1], opts) + if Passes(es[|es| - 1], opts) then [es[|es| - 1]] else []
  }

  /** bufio.MaxScanTokenSize: a longer line ends the scan of its file. */
  const MAX_TOKEN: nat := 65536

  function Scannable(es: seq<Entry>): seq<Entry> {
    if es == [] || es[0].size > MAX_TOKEN then [] else [es[0]] + Scannable(es[1..])
  }

  method ReadLogFile(file: seq<Entry>, opts: ReadOpts) returns (messages: seq<Entry>)
    ensures messages == Filter(Scannable(file), opts)
  {
    messages := [];
    var i := 0;
    while i < |file| && file[i].size <= MAX_TOKEN
      invariant 0 <= i <= |file|
      invariant Scannable(file) == file[..i] + Scannable(file[i..])
      invariant messages == Filter(file[..i], opts)
    {
      var e := file[i];
      ScanStep(file, i, opts);
      i := i + 1;
      if opts.since.Some? && e.time < opts.since.value {
        continue;
      }
      if opts.until.Some? && e.time > opts.until.value {
        continue;
      }
      if e.stream == "stdout" && !opts.stdout {
        continue;
      }
      if e.stream == "stderr" && !opts.stderr {
        continue;
      }
      messages := messages + [e];
    }
    assert Scannable(file[i..]) == [];
    assert file[..i] + [] == file[..i];
  }

  lemma ScanStep(file: seq<Entry>, i: nat, opts: ReadOpts)
    requires i < |file| && file[i].size <= MAX_TOKEN && Scannable(file) == file[..i] + Scannable(file[i..])
    ensures Scannable(file) == file[..i + 1] + Scannable(file[i + 1..])
    ensures Filter(file[..i + 1], opts) == Filter(file[..i], opts) + if Passes(file[i], opts) then [file[i]] else []
  {
    assert file[i..][1..] == file[i + 1..];
    assert file[..i + 1] == file[..i] + [file[i]];
    assert file[..i] + ([file[i]] + Scannable(file[i + 1..])) == file[..i] + [file[i]] + Scannable(file[i + 1..]);
    assert file[..i + 1][..i] == file[..i];
  }

  /** A file that is not there any more is skipped. */
  method ReadInOrder(seen: nat -> Files, numbers: seq<nat>, opts: ReadOpts) returns (messages: seq<Entry>)
    ensures messages == ReadEach(seen, numbers, opts)
  {
    messages := [];
    ghost var all := ReadEach(seen, numbers, opts);
    for i := 0 to |numbers|
      invariant messages + ReadEach(seen, numbers[i..], opts) == all
    {
      var n := numbers[i];
      ReadStep(seen, numbers, i, opts, messages, all);
      if n in seen(n) {
        var more := ReadLogFile(seen(n)[n], opts);
        messages := messages + more;
      }
    }
    assert numbers[|numbers|..] == [];
  }

  lemma ReadStep(seen: nat -> Files, numbers: seq<nat>, i: nat, opts: ReadOpts, messages: seq<Entry>, all: seq<Entry>)
    requires i < |numbers| && messages + ReadEach(seen, numbers[i..], opts) == all
    ensures messages + ReadOne(seen(numbers[i]), numbers[i], opts) + ReadEach(seen, numbers[i + 1..], opts) == all
  {
    var rest := numbers[i..];
    assert rest[0] == numbers[i] && rest[1..] == numbers[i + 1..];
    assert ReadEach(seen, rest, opts) == ReadOne(seen(rest[0]), rest[0], opts) + ReadEach(seen, rest[1..], opts);
  }

  /** The numbers of the rotated files there are, oldest first. */
  method RotatedFiles(listed: nat -> Files, maxFiles: int) returns (numbers: seq<nat>)
    ensures numbers == Existing(listed, MaxRotated(maxFiles))
  {
    var max := MaxRotated(maxFiles);
    var ascending: seq<nat> := [];
    for i := 1 to max + 1
      invariant forall j, k :: 0 <= j < k < |ascending| ==> ascending[j] < ascending[k]
      invariant forall n :: n in ascending <==> 1 <= n < i && n in listed(n)
      invariant forall j :: 0 <= j < |ascending| ==> ascending[j] < i
    {
      if i in listed(i) {
        ascending := ascending + [i];
      }
    }
    numbers := seq(|ascending|, i requires 0 <= i < |ascending| => ascending[|ascending| - 1 - i]);
    forall n ensures n in numbers <==> n in ascending {
      if n in ascending {
        var k :| 0 <= k < |ascending| && ascending[k] == n;
        assert numbers[|ascending| - 1 - k] == n;
      }
    }
    ExistingExactly(listed, max, numbers);
  }

  /** The numbers up to `n` that exist, descending. */
  function Existing(listed: nat -> Files, n: nat): seq<nat> {
    if n == 0 then [] else (if n in listed(n) then [n] else []) + Existing(listed, n - 1)
  }

  predicate Descending(numbers: seq<nat>) {
    forall i, j :: 0 <= i < j < |numbers| ==> numbers[i] > numbers[j]
  }

  ghost predicate ListsRotated(listed: nat -> Files, n: nat, numbers: seq<nat>) {
    Descending(numbers) && forall k :: k in numbers <==> 1 <= k <= n && k in listed(k)
  }

  /** It is the one descending list of the rotated files there are. */
  lemma {:induction false} ExistingExactly(listed: nat -> Files, n: nat, numbers: seq<nat>)
    ensures numbers == Existing(listed, n) <==> ListsRotated(listed, n, numbers)
  {
    if n == 0 {
      if numbers != [] {
        assert numbers[0] in numbers;
      }
    } else if n in listed(n) {
      if numbers != [] && numbers[0] == n {
        ExistingExactly(listed, n - 1, numbers[1..]);
        FirstLeft(listed, n, numbers);
        FirstListed(listed, n, numbers);
      } else {
        FirstMissing(listed, n, numbers);
      }
    } else {
      ExistingExactly(listed, n - 1, numbers);
      NoneAt(listed, n, numbers);
    }
  }

  lemma FirstListed(listed: nat -> Files, n: nat, numbers: seq<nat>)
    requires n > 0 && n in listed(n) && numbers != [] && numbers[0] == n
    ensures numbers == Existing(listed, n) <==> numbers[1..] == Existing(listed, n - 1)
  {
    assert numbers == [n] + numbers[1..];
    assert Existing(listed, n)[1..] == Existing(listed, n - 1);
  }

  lemma FirstMissing(listed: nat -> Files, n: nat, numbers: seq<nat>)
    requires n > 0 && n in listed(n) && (numbers == [] || numbers[0] != n)
    ensures numbers != Existing(listed, n) && !ListsRotated(listed, n, numbers)
  {
    assert Existing(listed, n)[0] == n;
    if Descending(numbers) && n in numbers && (forall k <- numbers :: k <= n) {
      FirstIsLargest(numbers, n);
      assert false;
    }
  }

  lemma NoneAt(listed: nat -> Files, n: nat, numbers: seq<nat>)
    requires n > 0 && n !in listed(n)
    ensures ListsRotated(listed, n - 1, numbers) <==> ListsRotated(listed, n, numbers)
  {
    assert forall k :: (1 <= k <= n - 1 && k in listed(k)) <==> (1 <= k <= n && k in listed(k));
  }

  lemma FirstLeft(listed: nat -> Files, n: nat, numbers: seq<nat>)
    requires n > 0 && n in listed(n) && numbers != [] && numbers[0] == n
    ensures ListsRotated(listed, n - 1, numbers[1..]) <==> ListsRotated(listed, n, numbers)
  {
    var rest := numbers[1..];
    assert numbers == [n] + rest;
    assert forall k :: k in numbers <==> k == n || k in rest;
    if Descending(numbers) {
      forall k | k in rest ensures k < n {
        var i :| 0 <= i < |rest| && rest[i] == k;
        assert numbers[i + 1] == k;
      }
    }
    if ListsRotated(listed, n - 1, rest) {
      forall j | 0 < j < |numbers| ensures numbers[j] < n { assert numbers[j] == rest[j - 1] && rest[j - 1] in rest; }
    }
  }

  lemma FirstIsLargest(numbers: seq<nat>, n: nat)
    requires Descending(numbers) && n in numbers && (forall k <- numbers :: k <= n)
    ensures numbers != [] && numbers[0] == n
  {
    var i :| 0 <= i < |numbers| && numbers[i] == n;
    assert numbers[0] in numbers;
  }

  function ReadOne(files: Files, n: nat, opts: ReadOpts): seq<Entry> {
    if n in files then Filter(Scannable(files[n]), opts) else []
  }

  function ReadEach(seen: nat -> Files, numbers: seq<nat>, opts: ReadOpts): seq<Entry> {
    if numbers == [] then [] else ReadOne(seen(numbers[0]), numbers[0], opts) + ReadEach(seen, numbers[1..], opts)
  }

  /** Everything the reader scans and lets pass on a disk at rest, from file `n` down to the primary one. */
  function ReadFrom(files: Files, n: nat, opts: ReadOpts): seq<Entry> {
    if n == 0 then ReadOne(files, 0, opts) else ReadOne(files, n, opts) + ReadFrom(files, n - 1, opts)
  }

  function Tail(es: seq<Entry>, tail: int): seq<Entry> {
    if tail >= 0 && |es| > tail then es[|es| - tail..] else es
  }

  /** With no Log call in between that is what is read: skipping the numbers that do not exist changes
      nothing. */
  lemma {:induction false} ReadsAtRest(files: Files, n: nat, opts: ReadOpts, at: nat -> Files)
    requires forall k :: at(k) == files
    ensures ReadEach(at, Existing(at, n) + [0], opts) == ReadFrom(files, n, opts)
  {
    var numbers := Existing(at, n) + [0];
    if n == 0 {
      assert numbers == [0] && numbers[1..] == [];
    } else {
      ReadsAtRest(files, n - 1, opts, at);
      if n in at(n) {
        assert numbers[1..] == Existing(at, n - 1) + [0];
      } else {
        assert numbers == Existing(at, n - 1) + [0];
      }
    }
  }
}
