/** Line splitting: copyStreamRaw and copyStream of internal/runtime/io.go, and the progress
    writer of internal/image/pull.go. */
module Lines {
  import opened Addresses
  import opened Stdcopy

  const NL: Octet := 10

  function IndexFrom(s: Bytes, from: nat): (i: int)
    requires from <= |s|
    ensures i == -1 || from <= i < |s|
    decreases |s| - from
  {
    if from == |s| then -1 else if s[from] == NL then from else IndexFrom(s, from + 1)
  }

  /** bytes.IndexByte for the newline. */
  function IndexNL(s: Bytes): (i: int)
    ensures i == -1 || 0 <= i < |s|
  {
    IndexFrom(s, 0)
  }

  lemma {:induction false} IndexFromFinds(s: Bytes, from: nat, i: int)
    requires from <= |s|
    ensures i == IndexFrom(s, from) <==>
            if i == -1 then NL !in s[from..] else from <= i < |s| && s[i] == NL && NL !in s[from..i]
    decreases |s| - from
  {
    if from < |s| {
      IndexFromFinds(s, from + 1, i);
      assert s[from..] == [s[from]] + s[from + 1..];
      if from < i <= |s| {
        assert s[from..i] == [s[from]] + s[from + 1..i];
      }
    }
  }

  /** IndexNL is the position of the first newline, or -1 exactly when there is none. */
  lemma IndexNLFinds(s: Bytes, i: int)
    ensures i == IndexNL(s) <==> if i == -1 then NL !in s else 0 <= i < |s| && s[i] == NL && NL !in s[..i]
  {
    IndexFromFinds(s, 0, i);
    assert s[0..] == s;
    if 0 <= i <= |s| {
      assert s[0..i] == s[..i];
    }
  }

  /** The lines of `s` that have their newline, newline included. */
  function Complete(s: Bytes): seq<Bytes>
    decreases |s|
  {
    var i := IndexNL(s);
    if i < 0 then [] else [s[..i + 1]] + Complete(s[i + 1..])
  }

  /** What follows the last newline. */
  function Rest(s: Bytes): Bytes
    decreases |s|
  {
    var i := IndexNL(s);
    if i < 0 then s else Rest(s[i + 1..])
  }

  /** All lines; a last partial one gets a newline. */
  function Split(s: Bytes): seq<Bytes> {
    Complete(s) + if Rest(s) == [] then [] else [Rest(s) + [NL]]
  }

  predicate IsLine(l: Bytes) {
    l != [] && l[|l| - 1] == NL && NL !in l[..|l| - 1]
  }

  function Terminated(s: Bytes): Bytes {
    if s == [] || s[|s| - 1] == NL then s else s + [NL]
  }

  // ----- What splitting means

  predicate AllLines(ls: seq<Bytes>) {
    forall i :: 0 <= i < |ls| ==> IsLine(ls[i])
  }

  lemma FlattenCons<T>(h: seq<T>, t: seq<seq<T>>)
    ensures Flatten([h] + t) == h + Flatten(t)
  {
    assert ([h] + t)[1..] == t;
  }

  lemma LineAt(s: Bytes)
    requires IndexNL(s) >= 0
    ensures var i := IndexNL(s); IsLine(s[..i + 1]) && s[..i + 1] + s[i + 1..] == s
  {
    var i := IndexNL(s);
    IndexNLFinds(s, i);
    assert s[..i + 1][..i] == s[..i];
  }

  /** The first line leaves, the others are those of what is left. */
  lemma CompleteStep(s: Bytes, i: nat)
    requires i == IndexNL(s)
    ensures Complete(s) == [s[..i + 1]] + Complete(s[i + 1..])
    ensures Rest(s) == Rest(s[i + 1..])
  {
    var l, t := s[..i + 1], s[i + 1..];
    assert Complete(s) == [l] + Complete(t);
    assert Rest(s) == Rest(t);
  }

  lemma {:induction false} CompleteLines(s: Bytes)
    ensures AllLines(Complete(s))
    decreases |s|
  {
    var i := IndexNL(s);
    if i >= 0 {
      CompleteStep(s, i);
      LineAt(s);
      CompleteLines(s[i + 1..]);
    }
  }

  lemma {:induction false} RestHasNone(s: Bytes)
    ensures NL !in Rest(s)
    decreases |s|
  {
    var i := IndexNL(s);
    IndexNLFinds(s, i);
    if i >= 0 {
      CompleteStep(s, i);
      RestHasNone(s[i + 1..]);
    }
  }

  /** Nothing is lost or reordered. */
  lemma {:induction false} Reassemble(s: Bytes)
    ensures Flatten(Complete(s)) + Rest(s) == s
    decreases |s|
  {
    var i := IndexNL(s);
    if i >= 0 {
      CompleteStep(s, i);
      Reassemble(s[i + 1..]);
      LineAt(s);
      Prepend(s[..i + 1], Complete(s[i + 1..]), Rest(s[i + 1..]), s[i + 1..]);
    } else {
      assert Flatten(Complete(s)) == [];
    }
  }

  lemma Prepend(h: Bytes, c: seq<Bytes>, r: Bytes, t: Bytes)
    requires Flatten(c) + r == t
    ensures Flatten([h] + c) + r == h + t
  {
    FlattenCons(h, c);
  }

  lemma {:induction false} LastOfFlatten(ls: seq<Bytes>)
    requires AllLines(ls)
    ensures ls != [] ==> Flatten(ls) != [] && Flatten(ls)[|Flatten(ls)| - 1] == NL
  {
    if ls != [] {
      LastOfFlatten(ls[1..]);
      assert [ls[0]] + ls[1..] == ls;
      FlattenCons(ls[0], ls[1..]);
      assert IsLine(ls[0]);
    }
  }

  lemma RestIsEmpty(s: Bytes)
    ensures Rest(s) == [] <==> s == [] || s[|s| - 1] == NL
  {
    var f, r := Flatten(Complete(s)), Rest(s);
    Reassemble(s);
    RestHasNone(s);
    CompleteLines(s);
    LastOfFlatten(Complete(s));
    EndOf(f, r);
  }

  lemma EndOf(f: Bytes, r: Bytes)
    ensures r != [] ==> f + r != [] && (f + r)[|f + r| - 1] == r[|r| - 1]
    ensures r == [] ==> f + r == f
  {
  }

  lemma FirstLine(l: Bytes, rest: Bytes)
    requires IsLine(l)
    ensures IndexNL(l + rest) == |l| - 1
    ensures (l + rest)[..|l|] == l && (l + rest)[|l|..] == rest
  {
    var s := l + rest;
    assert s[..|l| - 1] == l[..|l| - 1];
    IndexNLFinds(s, |l| - 1);
  }

  lemma {:induction false} CompleteOfLines(ls: seq<Bytes>, tail: Bytes)
    requires AllLines(ls)
    requires NL !in tail
    ensures Complete(Flatten(ls) + tail) == ls && Rest(Flatten(ls) + tail) == tail
  {
    if ls == [] {
      assert Flatten(ls) + tail == tail;
      IndexNLFinds(tail, -1);
    } else {
      var h, t := ls[0], ls[1..];
      CompleteOfLines(t, tail);
      FirstLine(h, Flatten(t) + tail);
      assert Flatten(ls) + tail == h + (Flatten(t) + tail);
      CompleteStep(h + (Flatten(t) + tail), |h| - 1);
      assert [h] + t == ls;
    }
  }

  lemma TailLine(r: Bytes)
    requires NL !in r
    ensures IsLine(r + [NL])
  {
    assert (r + [NL])[..|r|] == r;
  }

  lemma CloseLast(c: seq<Bytes>, r: Bytes)
    ensures Flatten(c + [r + [NL]]) == Flatten(c) + r + [NL]
  {
    FlattenAppend(c, [r + [NL]]);
    FlattenOne(r + [NL]);
    assert Flatten(c) + (r + [NL]) == Flatten(c) + r + [NL];
  }

  /** The pieces of a split are lines and make up the input, ended by a newline. */
  lemma SplitCovers(s: Bytes)
    ensures AllLines(Split(s)) && Flatten(Split(s)) == Terminated(s)
  {
    var c, r := Complete(s), Rest(s);
    Reassemble(s);
    CompleteLines(s);
    RestHasNone(s);
    RestIsEmpty(s);
    TailLine(r);
    CloseLast(c, r);
    if r == [] {
      assert Flatten(c) + r == Flatten(c);
      assert Split(s) == c;
    } else {
      assert Split(s) == c + [r + [NL]];
    }
  }

  lemma LinesAgree(a: seq<Bytes>, b: seq<Bytes>)
    requires AllLines(a) && AllLines(b) && Flatten(a) == Flatten(b)
    ensures a == b
  {
    CompleteOfLines(a, []);
    CompleteOfLines(b, []);
  }

  /** Splitting is the one way to cut the input, ended by a newline, into pieces that each end in
      their only newline. */
  lemma SplitExactly(s: Bytes, ls: seq<Bytes>)
    ensures ls == Split(s) <==> AllLines(ls) && Flatten(ls) == Terminated(s)
  {
    SplitCovers(s);
    if AllLines(ls) && Flatten(ls) == Terminated(s) {
      LinesAgree(ls, Split(s));
    }
  }

  /** "a\nb" in bytes. */
  lemma SplitExample()
    ensures Split([97, 10, 98]) == [[97, 10], [98, 10]]
  {
    SplitExactly([97, 10, 98], [[97, 10], [98, 10]]);
    assert [[97, 10], [98, 10]][1..] == [[98, 10]] && [[98, 10]][1..] == [];
    assert Flatten([[98, 10]]) == [98, 10];
  }

  /** Splitting can be resumed from the tail that was kept. */
  lemma SplitResumes(a: Bytes, b: Bytes)
    ensures Complete(a + b) == Complete(a) + Complete(Rest(a) + b)
    ensures Rest(a + b) == Rest(Rest(a) + b)
  {
    var rb := Rest(a) + b;
    Resumed(Complete(a), Complete(rb), Rest(a), b, Rest(rb)) by {
      Reassemble(a);
      CompleteLines(a);
      Reassemble(rb);
      CompleteLines(rb);
      RestHasNone(rb);
    }
    Reassemble(a);
  }

  lemma Resumed(c: seq<Bytes>, d: seq<Bytes>, r: Bytes, b: Bytes, tail: Bytes)
    requires AllLines(c) && AllLines(d) && NL !in tail
    requires Flatten(d) + tail == r + b
    ensures Complete(Flatten(c) + r + b) == c + d && Rest(Flatten(c) + r + b) == tail
  {
    FlattenAppend(c, d);
    assert Flatten(c) + r + b == Flatten(c) + (Flatten(d) + tail) == Flatten(c + d) + tail;
    CompleteOfLines(c + d, tail);
  }

  // ----- The copy loops

  lemma FlattenUpTo(chunks: seq<Bytes>, i: nat)
    requires i < |chunks|
    ensures Flatten(chunks[..i + 1]) == Flatten(chunks[..i]) + chunks[i]
  {
    assert chunks[..i + 1] == chunks[..i] + [chunks[i]];
    FlattenAppend(chunks[..i], [chunks[i]]);
    FlattenOne(chunks[i]);
  }

  lemma DrainStep(lines: seq<Bytes>, buf: Bytes, all: seq<Bytes>)
    requires IndexNL(buf) >= 0
    requires lines + Complete(buf) == all
    ensures var i := IndexNL(buf);
            lines + [buf[..i + 1]] + Complete(buf[i + 1..]) == all && Rest(buf) == Rest(buf[i + 1..])
  {
    CompleteStep(buf, IndexNL(buf));
  }

  /** The inner loop of copyStreamRaw: the complete lines leave the buffer, one by one. */
  method DrainLines(buf: Bytes) returns (lines: seq<Bytes>, lineBuf: Bytes)
    ensures lines == Complete(buf) && lineBuf == Rest(buf)
  {
    lines, lineBuf := [], buf;
    var idx := IndexNL(lineBuf);
    while idx >= 0
      invariant idx == IndexNL(lineBuf)
      invariant lines + Complete(lineBuf) == Complete(buf)
      invariant Rest(lineBuf) == Rest(buf)
      decreases |lineBuf|
    {
      DrainStep(lines, lineBuf, Complete(buf));
      lines := lines + [lineBuf[..idx + 1]];
      lineBuf := lineBuf[idx + 1..];
      idx := IndexNL(lineBuf);
    }
  }

  lemma SentGrows(sent: seq<Bytes>, chunk: Bytes)
    requires chunk != [] && forall c <- sent :: c != []
    ensures Flatten(sent + [chunk]) == Flatten(sent) + chunk && forall c <- sent + [chunk] :: c != []
  {
    FlattenAppend(sent, [chunk]);
    FlattenOne(chunk);
  }

  /** `chunks` are the results of the Read calls; the last one came with the error that ends the
      loop. `sent` goes to the attach clients chunk by chunk, `logged` to the log driver. */
  method CopyStreamRaw(chunks: seq<Bytes>) returns (logged: seq<Bytes>, sent: seq<Bytes>)
    requires chunks != []
    ensures logged == Split(Flatten(chunks))
    ensures Flatten(sent) == Flatten(chunks)
    ensures forall c <- sent :: c != []
  {
    logged, sent := [], [];
    var lineBuf: Bytes := [];
    var i := 0;
    while i < |chunks|
      invariant 0 <= i <= |chunks|
      invariant logged == Complete(Flatten(chunks[..i])) && lineBuf == Rest(Flatten(chunks[..i]))
      invariant Flatten(sent) == Flatten(chunks[..i])
      invariant forall c <- sent :: c != []
    {
      var chunk := chunks[i];
      ghost var seen := Flatten(chunks[..i]);
      FlattenUpTo(chunks, i);
      SplitResumes(seen, chunk);
      if |chunk| > 0 {
        SentGrows(sent, chunk);
        sent := sent + [chunk];
        lineBuf := lineBuf + chunk;
        var lines;
        lines, lineBuf := DrainLines(lineBuf);
        logged := logged + lines;
      } else {
        assert seen + chunk == seen;
      }
      i := i + 1;
    }
    assert chunks[..i] == chunks;
    if |lineBuf| > 0 {
      logged := logged + [lineBuf + [NL]];
    }
  }

  lemma FirstInPrefix(a: Bytes, b: Bytes)
    requires IndexNL(a) >= 0
    ensures var i := IndexNL(a);
            IndexNL(a + b) == i && (a + b)[..i + 1] == a[..i + 1] && (a + b)[i + 1..] == a[i + 1..] + b
  {
    var i := IndexNL(a);
    IndexNLFinds(a, i);
    IndexNLFinds(a + b, i);
    assert (a + b)[..i] == a[..i];
  }

  /** bufio.Reader over the pipe: `buffered` has been read, `chunks` are the Read results to come. */
  class Reader {
    var buffered: Bytes
    var chunks: seq<Bytes>

    constructor (chunks: seq<Bytes>)
      ensures this.chunks == chunks && Remaining() == Flatten(chunks)
    {
      this.chunks := chunks;
      buffered := [];
    }

    ghost function Remaining(): Bytes
      reads this
    {
      buffered + Flatten(chunks)
    }

    /** Up to and including the first newline, however the Reads were cut; or all there is, with
        the error. */
    method ReadBytes() returns (line: Bytes, err: bool)
      modifies this
      ensures var i := IndexNL(old(Remaining()));
              err == (i < 0) && line == (if err then old(Remaining()) else old(Remaining())[..i + 1])
      ensures old(Remaining()) == line + Remaining()
    {
      ghost var all := Remaining();
      var i := IndexNL(buffered);
      while i < 0 && chunks != []
        invariant i == IndexNL(buffered) && Remaining() == all
        decreases |chunks|
      {
        assert buffered + (chunks[0] + Flatten(chunks[1..])) == buffered + chunks[0] + Flatten(chunks[1..]);
        buffered, chunks := buffered + chunks[0], chunks[1..];
        i := IndexNL(buffered);
      }
      if i < 0 {
        assert Flatten(chunks) == [] && buffered + [] == buffered;
        line, err := buffered, true;
        buffered := [];
      } else {
        line, err := buffered[..i + 1], false;
        FirstInPrefix(buffered, Flatten(chunks));
        buffered := buffered[i + 1..];
      }
    }
  }

  lemma SplitFirst(s: Bytes, i: nat)
    requires i == IndexNL(s)
    ensures Split(s) == [s[..i + 1]] + Split(s[i + 1..])
  {
    CompleteStep(s, i);
  }

  /** What one ReadBytes result says about the lines to come. */
  lemma NextLine(before: Bytes, line: Bytes, after: Bytes, err: bool)
    requires before == line + after && err == (IndexNL(before) < 0)
    requires |line| == if err then |before| else IndexNL(before) + 1
    ensures err ==> Split(before) == if line == [] then [] else [line + [NL]]
    ensures err && line != [] ==> line[|line| - 1] != NL
    ensures !err ==> line != [] && line[|line| - 1] == NL && Split(before) == [line] + Split(after)
  {
    IndexNLFinds(before, IndexNL(before));
    if err {
      assert line == before;
    } else {
      SplitFirst(before, IndexNL(before));
      assert after == before[IndexNL(before) + 1..];
    }
  }

  /** copyStream: each line goes to the log driver and then to the attach clients. */
  method CopyStream(chunks: seq<Bytes>) returns (logged: seq<Bytes>, sent: seq<Bytes>)
    ensures logged == Split(Flatten(chunks))
    ensures sent == logged
  {
    var br := new Reader(chunks);
    logged, sent := [], [];
    var err := false;
    while !err
      invariant fresh(br)
      invariant logged + (if err then [] else Split(br.Remaining())) == Split(Flatten(chunks))
      invariant sent == logged
      decreases !err, |br.Remaining()|
    {
      ghost var before := br.Remaining();
      var line;
      line, err := br.ReadBytes();
      NextLine(before, line, br.Remaining(), err);
      if |line| > 0 {
        if line[|line| - 1] != NL {
          line := line + [NL];
        }
        logged := logged + [line];
        sent := sent + [line];
      }
    }
  }

  // ----- The progress writer

  /** The status messages for complete lines: trimmed, blank ones dropped. */
  function Messages(ls: seq<Bytes>, trim: Bytes -> Bytes): seq<Bytes> {
    if ls == [] then []
    else
      var line := trim(if ls[0] == [] then [] else ls[0][..|ls[0]| - 1]);
      (if line == [] then [] else [line]) + Messages(ls[1..], trim)
  }

  lemma {:induction false} MessagesAppend(a: seq<Bytes>, b: seq<Bytes>, trim: Bytes -> Bytes)
    ensures Messages(a + b, trim) == Messages(a, trim) + Messages(b, trim)
  {
    if a == [] {
      assert a + b == b;
    } else {
      assert (a + b)[1..] == a[1..] + b;
      MessagesAppend(a[1..], b, trim);
    }
  }

  /** One line gives one message, the trimmed text before its newline, or none when that is blank. */
  lemma MessageOfLine(text: Bytes, trim: Bytes -> Bytes)
    ensures Messages([text + [NL]], trim) == if trim(text) == [] then [] else [trim(text)]
  {
    var l := text + [NL];
    assert l[..|l| - 1] == text;
    MessagesAppend([l], [], trim);
    assert Messages([], trim) == [];
  }

  lemma MessagesStep(buf: Bytes, trim: Bytes -> Bytes)
    requires IndexNL(buf) >= 0
    ensures var i := IndexNL(buf);
            var line := trim(buf[..i]);
            Messages(Complete(buf), trim) ==
            (if line == [] then [] else [line]) + Messages(Complete(buf[i + 1..]), trim)
  {
    var i := IndexNL(buf);
    CompleteStep(buf, i);
    var h, t := buf[..i + 1], Complete(buf[i + 1..]);
    assert h[..|h| - 1] == buf[..i];
    assert ([h] + t)[1..] == t;
  }

  lemma TakeStep(encoded: seq<Bytes>, buf: Bytes, trim: Bytes -> Bytes, all: seq<Bytes>)
    requires IndexNL(buf) >= 0
    requires encoded + Messages(Complete(buf), trim) == all
    ensures var i := IndexNL(buf);
            var line := trim(buf[..i]);
            && (if line == [] then encoded else encoded + [line]) + Messages(Complete(buf[i + 1..]), trim) == all
            && Rest(buf) == Rest(buf[i + 1..])
  {
    MessagesStep(buf, trim);
    CompleteStep(buf, IndexNL(buf));
  }

  /** The loop of Write: messages for the complete lines, and the bytes that stay buffered. */
  method TakeMessages(text: Bytes, trim: Bytes -> Bytes) returns (encoded: seq<Bytes>, buf: Bytes)
    ensures encoded == Messages(Complete(text), trim) && buf == Rest(text)
  {
    encoded, buf := [], text;
    var idx := IndexNL(buf);
    while idx >= 0
      invariant idx == IndexNL(buf)
      invariant encoded + Messages(Complete(buf), trim) == Messages(Complete(text), trim)
      invariant Rest(buf) == Rest(text)
      decreases |buf|
    {
      TakeStep(encoded, buf, trim, Messages(Complete(text), trim));
      var line := trim(buf[..idx]);
      buf := buf[idx + 1..];
      idx := IndexNL(buf);
      if line != [] {
        encoded := encoded + [line];
      }
    }
  }

  /** `trim` stands for strings.TrimSpace; `encoded` is what went to the NDJSON stream. */
  class ProgressWriter {
    const trim: Bytes -> Bytes
    var buf: Bytes
    var encoded: seq<Bytes>
    ghost var written: Bytes

    /** However the text was cut into writes, the messages are those of its complete lines and the
        buffer is what follows the last newline. */
    ghost predicate Valid()
      reads this
    {
      buf == Rest(written) && encoded == Messages(Complete(written), trim)
    }

    constructor (trim: Bytes -> Bytes)
      ensures Valid() && written == [] && this.trim == trim
    {
      this.trim := trim;
      buf, encoded, written := [], [], [];
    }

    method Write(p: Bytes) returns (n: nat)
      requires Valid()
      modifies this
      ensures Valid() && written == old(written) + p && n == |p|
    {
      SplitResumes(written, p);
      MessagesAppend(Complete(written), Complete(buf + p), trim);
      var messages;
      messages, buf := TakeMessages(buf + p, trim);
      encoded := encoded + messages;
      written := written + p;
      n := |p|;
    }
  }
}
