/** strings.Split, SplitN and Join of the Go standard library, for one separator character. */
module Strings {
  function Split(s: string, c: char): (parts: seq<string>)
    ensures |parts| >= 1
  {
    if s == "" then [""]
    else
      var rest := Split(s[1..], c);
      if s[0] == c then [""] + rest else [[s[0]] + rest[0]] + rest[1..]
  }

  function SplitN(s: string, c: char, n: nat): (parts: seq<string>)
    requires n >= 1
    ensures 1 <= |parts| <= n
    decreases |s|
  {
    if n == 1 || s == "" then [s]
    else if s[0] == c then [""] + SplitN(s[1..], c, n - 1)
    else
      var rest := SplitN(s[1..], c, n);
      [[s[0]] + rest[0]] + rest[1..]
  }

  function Join(parts: seq<string>, c: char): string
    requires parts != []
  {
    if |parts| == 1 then parts[0] else parts[0] + [c] + Join(parts[1..], c)
  }

  lemma JoinCons(head: string, rest: seq<string>, c: char)
    requires rest != []
    ensures Join([head] + rest, c) == head + [c] + Join(rest, c)
  {
    assert ([head] + rest)[1..] == rest;
  }

  /** One more character in the first part is one more at the front of the whole. */
  lemma JoinGrows(x: char, parts: seq<string>, c: char)
    requires parts != []
    ensures Join([[x] + parts[0]] + parts[1..], c) == [x] + Join(parts, c)
  {
    var grown := [[x] + parts[0]] + parts[1..];
    assert grown[1..] == parts[1..];
    if |parts| > 1 {
      assert [x] + parts[0] + [c] + Join(parts[1..], c) == [x] + (parts[0] + [c] + Join(parts[1..], c));
    }
  }

  lemma {:induction false} JoinSplit(s: string, c: char)
    ensures Join(Split(s, c), c) == s
    ensures forall p <- Split(s, c) :: c !in p
  {
    SplitFree(s, c);
    if s != "" {
      JoinSplit(s[1..], c);
      var rest := Split(s[1..], c);
      assert s == [s[0]] + s[1..];
      if s[0] == c {
        JoinCons("", rest, c);
      } else {
        JoinGrows(s[0], rest, c);
      }
    }
  }

  lemma {:induction false} SplitFree(s: string, c: char)
    ensures forall p <- Split(s, c) :: c !in p
  {
    if s != "" {
      SplitFree(s[1..], c);
      var rest := Split(s[1..], c);
      assert rest[0] in rest;
      forall p | p in Split(s, c) ensures c !in p {
        assert p == "" || p == [s[0]] + rest[0] || p in rest;
      }
    }
  }

  lemma {:induction false} SplitOne(a: string, c: char)
    requires c !in a
    ensures Split(a, c) == [a]
  {
    if a != "" {
      SplitOne(a[1..], c);
      assert [a[0]] + a[1..] == a;
    }
  }

  lemma {:induction false} SplitCons(a: string, rest: string, c: char)
    requires c !in a
    ensures Split(a + [c] + rest, c) == [a] + Split(rest, c)
  {
    var s := a + [c] + rest;
    if a == "" {
      assert s[1..] == rest;
    } else {
      SplitCons(a[1..], rest, c);
      assert s[1..] == a[1..] + [c] + rest;
      assert s[0] == a[0] && [a[0]] + a[1..] == a;
    }
  }

  lemma {:induction false} SplitJoin(parts: seq<string>, c: char)
    requires parts != [] && forall p <- parts :: c !in p
    ensures Split(Join(parts, c), c) == parts
  {
    assert parts[0] in parts;
    if |parts| == 1 {
      SplitOne(parts[0], c);
    } else {
      SplitJoin(parts[1..], c);
      SplitCons(parts[0], Join(parts[1..], c), c);
    }
  }

  lemma {:induction false} JoinSplitN(s: string, c: char, n: nat)
    requires n >= 1
    ensures Join(SplitN(s, c, n), c) == s
    decreases |s|
  {
    if n > 1 && s != "" {
      assert s == [s[0]] + s[1..];
      if s[0] == c {
        JoinSplitN(s[1..], c, n - 1);
        JoinCons("", SplitN(s[1..], c, n - 1), c);
      } else {
        JoinSplitN(s[1..], c, n);
        JoinGrows(s[0], SplitN(s[1..], c, n), c);
      }
    }
  }

  /** Only the last of n parts may hold the separator. */
  lemma {:induction false} SplitNParts(s: string, c: char, n: nat, i: nat)
    requires n >= 1 && i < |SplitN(s, c, n)| && i < n - 1
    ensures c !in SplitN(s, c, n)[i]
    decreases |s|
  {
    if s != "" {
      var parts := SplitN(s, c, n);
      if s[0] == c {
        assert parts[1..] == SplitN(s[1..], c, n - 1);
        if i > 0 {
          SplitNParts(s[1..], c, n - 1, i - 1);
        }
      } else {
        SplitNParts(s[1..], c, n, i);
      }
    }
  }

  lemma {:induction false} SplitNOne(a: string, c: char, n: nat)
    requires c !in a && n >= 1
    ensures SplitN(a, c, n) == [a]
  {
    if a != "" && n > 1 {
      SplitNOne(a[1..], c, n);
      assert [a[0]] + a[1..] == a;
    }
  }

  lemma {:induction false} SplitNCons(a: string, rest: string, c: char, n: nat)
    requires c !in a && n >= 2
    ensures SplitN(a + [c] + rest, c, n) == [a] + SplitN(rest, c, n - 1)
  {
    var s := a + [c] + rest;
    if a == "" {
      assert s[1..] == rest;
    } else {
      SplitNCons(a[1..], rest, c, n);
      assert s[1..] == a[1..] + [c] + rest;
      assert s[0] == a[0] && [a[0]] + a[1..] == a;
    }
  }
}
