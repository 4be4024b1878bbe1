/** Buckets ordered by key, the resolution of a full ID, a name or an ID prefix with a cursor, and
    the name index kept beside the records (internal/store/container.go, internal/store/network.go). */
module Lookup {
  import opened Wrappers

  // ----- Byte order

  /** The order of a bucket's keys. */
  predicate Less(a: string, b: string) {
    if b == [] then false
    else if a == [] then true
    else a[0] < b[0] || (a[0] == b[0] && Less(a[1..], b[1..]))
  }

  lemma {:induction false} LessTransitive(a: string, b: string, c: string)
    requires Less(a, b) && Less(b, c)
    ensures Less(a, c)
  {
    if a != [] && a[0] == b[0] && b[0] == c[0] {
      LessTransitive(a[1..], b[1..], c[1..]);
    }
  }

  lemma {:induction false} LessTotal(a: string, b: string)
    ensures Less(a, b) || a == b || Less(b, a)
    ensures !(Less(a, b) && Less(b, a)) && (a == b ==> !Less(a, b))
  {
    if a != [] && b != [] && a[0] == b[0] {
      LessTotal(a[1..], b[1..]);
      assert a == [a[0]] + a[1..] && b == [b[0]] + b[1..];
    }
  }

  /** A key that starts with p is not below p. */
  lemma {:induction false} PrefixNotBelow(p: string, k: string)
    requires p <= k
    ensures !Less(k, p)
  {
    if p != [] {
      PrefixNotBelow(p[1..], k[1..]);
    }
  }

  /** Keys that start with p are contiguous: past the first later key that does not, there is none. */
  lemma {:induction false} PrefixBlockEnds(p: string, k: string, later: string)
    requires !Less(k, p) && !(p <= k) && Less(k, later)
    ensures !(p <= later)
  {
    if p <= later && k != [] && k[0] == p[0] {
      assert !(p[1..] <= k[1..]) by {
        assert p == [p[0]] + p[1..] && k == [k[0]] + k[1..];
      }
      assert p[1..] <= later[1..];
      PrefixBlockEnds(p[1..], k[1..], later[1..]);
    }
  }

  // ----- Buckets

  datatype Entry<V> = Entry(key: string, value: V)

  predicate Sorted<V>(b: seq<Entry<V>>) {
    forall i, j :: 0 <= i < j < |b| ==> Less(b[i].key, b[j].key)
  }

  type Bucket<V> = b: seq<Entry<V>> | Sorted(b)

  /** What the bucket holds, order left aside. */
  function Contents<V>(b: seq<Entry<V>>): map<string, V> {
    if b == [] then map[] else Contents(b[..|b| - 1])[b[|b| - 1].key := b[|b| - 1].value]
  }

  /** The contents list the entries: a bucket has one value per key. */
  lemma {:induction false} ContentsEntries<V>(b: Bucket<V>)
    ensures forall e :: e in b ==> e.key in Contents(b) && Contents(b)[e.key] == e.value
    ensures forall k :: k in Contents(b) ==> Entry(k, Contents(b)[k]) in b
  {
    if b != [] {
      var init, last := b[..|b| - 1], b[|b| - 1];
      assert b == init + [last];
      ContentsEntries(init);
      forall e | e in init
        ensures e.key != last.key
      {
        LessTotal(e.key, last.key);
      }
    }
  }

  /** A map with the bucket's entries is its contents. */
  lemma ContentsUnique<V>(b: Bucket<V>, m: map<string, V>)
    requires forall e :: e in b ==> e.key in m && m[e.key] == e.value
    requires forall k :: k in m ==> Entry(k, m[k]) in b
    ensures Contents(b) == m
  {
    ContentsEntries(b);
    forall k
      ensures k in m <==> k in Contents(b)
      ensures k in m ==> m[k] == Contents(b)[k]
    {
      if k in m {
        assert Entry(k, m[k]) in b;
      }
      if k in Contents(b) {
        assert Entry(k, Contents(b)[k]) in b;
      }
    }
  }

  /** The cursor's Seek: the first position whose key is not below `key`. */
  function Seek<V>(b: Bucket<V>, key: string, from: nat): (i: nat)
    requires from <= |b|
    requires forall j :: 0 <= j < from ==> Less(b[j].key, key)
    ensures from <= i <= |b|
    ensures forall j :: 0 <= j < i ==> Less(b[j].key, key)
    ensures i < |b| ==> !Less(b[i].key, key)
    decreases |b| - from
  {
    if from == |b| || !Less(b[from].key, key) then from else Seek(b, key, from + 1)
  }

  ghost predicate HasValue<V>(m: map<string, V>, v: V) {
    exists k :: k in m && m[k] == v
  }

  ghost predicate HasValueUnder<V>(m: map<string, V>, prefix: string, v: V) {
    exists k :: k in m && prefix <= k && m[k] == v
  }

  ghost predicate ValueAt<V>(b: seq<Entry<V>>, j: int, v: V) {
    0 <= j < |b| && b[j].value == v
  }

  lemma ValueHasPosition<V>(b: Bucket<V>, v: V)
    ensures HasValue(Contents(b), v) <==> exists j :: ValueAt(b, j, v)
  {
    ContentsEntries(b);
    if k :| k in Contents(b) && Contents(b)[k] == v {
      assert Entry(k, v) in b;
      var j :| 0 <= j < |b| && b[j] == Entry(k, v);
      assert ValueAt(b, j, v);
    }
    if j :| ValueAt(b, j, v) {
      assert b[j] in b;
      assert b[j].key in Contents(b) && Contents(b)[b[j].key] == v;
    }
  }

  /** Seek splits the bucket: smaller keys, at most one equal key, larger keys. */
  lemma SeekSplits<V>(b: Bucket<V>, key: string)
    ensures var i := Seek(b, key, 0);
            && (forall j :: 0 <= j < i ==> Less(b[j].key, key) && b[j].key != key)
            && (forall j :: i <= j < |b| && b[j].key != key ==> Less(key, b[j].key))
            && (forall j :: i < j < |b| ==> Less(key, b[j].key))
  {
    var i := Seek(b, key, 0);
    forall j | 0 <= j < i
      ensures b[j].key != key
    {
      LessTotal(b[j].key, key);
    }
    forall j | i <= j < |b|
      ensures b[j].key != key ==> Less(key, b[j].key)
      ensures i < j ==> Less(key, b[j].key)
    {
      LessTotal(b[j].key, key);
      if i < j {
        LessTotal(b[i].key, key);
        if b[i].key != key {
          LessTransitive(key, b[i].key, b[j].key);
        }
      }
    }
  }

  /** Exact lookup. */
  function Get<V>(b: Bucket<V>, key: string): (r: Option<V>)
    ensures r == if key in Contents(b) then Some(Contents(b)[key]) else None
  {
    var i := Seek(b, key, 0);
    SeekSplits(b, key);
    ContentsEntries(b);
    if i < |b| && b[i].key == key then
      assert b[i] in b;
      Some(b[i].value)
    else
      assert forall e :: e in b ==> e.key != key;
      None
  }

  /** From where the keys are above the given one. */
  lemma AboveFrom<V>(b: Bucket<V>, key: string, at: nat)
    requires at <= |b|
    requires forall j :: 0 <= j < at ==> !Less(key, b[j].key)
    requires forall j :: at <= j < |b| ==> Less(key, b[j].key)
    ensures forall j :: 0 <= j < |b[at..]| ==> Less(key, b[at..][j].key)
    ensures Sorted(b[at..])
    ensures forall e <- b[at..] :: e in b
    ensures forall e <- b :: Less(key, e.key) ==> e in b[at..]
  {
    forall e | e in b && Less(key, e.key)
      ensures e in b[at..]
    {
      var j :| 0 <= j < |b| && b[j] == e;
      assert e == b[at..][j - at];
    }
  }

  /** Entries above the key, an entry with that very key left out. */
  function Above<V>(b: Bucket<V>, key: string): (r: seq<Entry<V>>)
    ensures forall j :: 0 <= j < |r| ==> Less(key, r[j].key)
    ensures Sorted(r)
    ensures forall e :: e in r ==> e in b
    ensures forall e :: e in b && Less(key, e.key) ==> e in r
  {
    var i := Seek(b, key, 0);
    var at := if i < |b| && b[i].key == key then i + 1 else i;
    SeekSplits(b, key);
    assert forall j :: 0 <= j < at ==> !Less(key, b[j].key) by {
      forall j | 0 <= j < at
        ensures !Less(key, b[j].key)
      {
        LessTotal(b[j].key, key);
      }
    }
    AboveFrom(b, key, at);
    b[at..]
  }

  function Below<V>(b: Bucket<V>, key: string): (r: seq<Entry<V>>)
    ensures forall j :: 0 <= j < |r| ==> Less(r[j].key, key)
    ensures Sorted(r)
    ensures forall e :: e in r ==> e in b && Less(e.key, key)
    ensures forall e :: e in b && Less(e.key, key) ==> e in r
  {
    var i := Seek(b, key, 0);
    SeekSplits(b, key);
    assert b == b[..i] + b[i..];
    assert forall e :: e in b[i..] ==> !Less(e.key, key) by {
      forall e | e in b[i..]
        ensures !Less(e.key, key)
      {
        LessTotal(e.key, key);
      }
    }
    b[..i]
  }

  /** The database refuses to put anything under an empty key. */
  predicate ValidKeys(id: string, name: string) {
    id != "" && name != ""
  }

  function Put<V>(b: Bucket<V>, key: string, value: V): Bucket<V> {
    var r := Below(b, key) + [Entry(key, value)] + Above(b, key);
    JoinSorted(Below(b, key), Entry(key, value), Above(b, key));
    r
  }

  function Delete<V>(b: Bucket<V>, key: string): Bucket<V> {
    var r := Below(b, key) + Above(b, key);
    assert Sorted(r) by {
      forall m, n | 0 <= m < |Below(b, key)| && |Below(b, key)| <= n < |r|
        ensures Less(r[m].key, r[n].key)
      {
        LessTransitive(r[m].key, key, r[n].key);
      }
    }
    r
  }

  lemma JoinSorted<V>(low: seq<Entry<V>>, e: Entry<V>, high: seq<Entry<V>>)
    requires Sorted(low) && Sorted(high)
    requires forall j :: 0 <= j < |low| ==> Less(low[j].key, e.key)
    requires forall j :: 0 <= j < |high| ==> Less(e.key, high[j].key)
    ensures Sorted(low + [e] + high)
  {
    var r := low + [e] + high;
    forall m, n | 0 <= m < |low| && |low| < n < |r|
      ensures Less(r[m].key, r[n].key)
    {
      LessTransitive(r[m].key, e.key, r[n].key);
    }
  }

  lemma PutContents<V>(b: Bucket<V>, key: string, value: V)
    ensures Contents(Put(b, key, value)) == Contents(b)[key := value]
  {
    var r, m := Put(b, key, value), Contents(b)[key := value];
    ContentsEntries(b);
    forall e | e in r
      ensures e.key in m && m[e.key] == e.value
    {
      if e in Below(b, key) || e in Above(b, key) {
        LessTotal(e.key, key);
      }
    }
    forall k | k in m
      ensures Entry(k, m[k]) in r
    {
      if k != key {
        LessTotal(k, key);
      }
    }
    ContentsUnique(r, m);
  }

  lemma DeleteContents<V>(b: Bucket<V>, key: string)
    ensures Contents(Delete(b, key)) == Contents(b) - {key}
  {
    var r, m := Delete(b, key), Contents(b) - {key};
    ContentsEntries(b);
    forall e | e in r
      ensures e.key in m && m[e.key] == e.value
    {
      LessTotal(e.key, key);
    }
    forall k | k in m
      ensures Entry(k, m[k]) in r
    {
      LessTotal(k, key);
    }
    ContentsUnique(r, m);
  }

  // ----- Prefix scans

  /** All entries whose key starts with the prefix, in key order. */
  method ListPrefix<V>(b: Bucket<V>, prefix: string) returns (found: seq<Entry<V>>)
    ensures Sorted(found)
    ensures forall e :: e in found <==> e in b && prefix <= e.key
  {
    var start := Seek(b, prefix, 0);
    var i := start;
    found := [];
    while i < |b| && prefix <= b[i].key
      invariant start <= i <= |b| && found == b[start..i]
      invariant forall j :: start <= j < i ==> prefix <= b[j].key
    {
      found := found + [b[i]];
      i := i + 1;
    }
    PrefixBlock(b, prefix, i);
  }

  /** The scan may stop at the first key without the prefix: outside the block nothing matches. */
  lemma OutsidePrefixBlock<V>(b: Bucket<V>, prefix: string, end: nat, j: nat)
    requires Seek(b, prefix, 0) <= end <= |b| && j < |b|
    requires end < |b| ==> !(prefix <= b[end].key)
    requires j < Seek(b, prefix, 0) || end <= j
    ensures !(prefix <= b[j].key)
  {
    if j < Seek(b, prefix, 0) {
      if prefix <= b[j].key {
        PrefixNotBelow(prefix, b[j].key);
      }
    } else if end < j {
      SeekSplits(b, prefix);
      LessTotal(b[end].key, prefix);
      PrefixBlockEnds(prefix, b[end].key, b[j].key);
    }
  }

  lemma PrefixBlock<V>(b: Bucket<V>, prefix: string, end: nat)
    requires Seek(b, prefix, 0) <= end <= |b|
    requires forall j :: Seek(b, prefix, 0) <= j < end ==> prefix <= b[j].key
    requires end < |b| ==> !(prefix <= b[end].key)
    ensures Sorted(b[Seek(b, prefix, 0)..end])
    ensures forall e :: e in b[Seek(b, prefix, 0)..end] <==> e in b && prefix <= e.key
  {
    var start := Seek(b, prefix, 0);
    forall e
      ensures e in b[start..end] <==> e in b && prefix <= e.key
    {
      if e in b && prefix <= e.key {
        var j :| 0 <= j < |b| && b[j] == e;
        if j < start || end <= j {
          OutsidePrefixBlock(b, prefix, end, j);
        } else {
          assert b[start..end][j - start] == e;
        }
      }
    }
  }

  datatype LookupError = NotFound | Ambiguous

  /** The first name variant that the index sends to an existing record. */
  function FirstNamed<V>(m: map<string, V>, names: map<string, string>, variants: seq<string>): (r: Option<string>)
    ensures r.Some? ==> r.value in m
  {
    if variants == [] then None
    else if variants[0] in names && names[variants[0]] in m then Some(names[variants[0]])
    else FirstNamed(m, names, variants[1..])
  }

  ghost function Matches<V>(m: map<string, V>, prefix: string): set<string> {
    set id | id in m && prefix <= id
  }

  /** What a query names: a full ID, else a name, else the only ID with that prefix. */
  ghost function Resolve<V>(m: map<string, V>, names: map<string, string>, variants: seq<string>, query: string)
    : Result<V, LookupError>
  {
    if query in m then Ok(m[query])
    else
      var named := FirstNamed(m, names, variants);
      if named.Some? then Ok(m[named.value])
      else if Matches(m, query) == {} then Err(NotFound)
      else if exists id :: id in m && Matches(m, query) == {id} then
        var id :| id in m && Matches(m, query) == {id};
        Ok(m[id])
      else Err(Ambiguous)
  }

  /** The matching IDs are the keys of the block. */
  lemma MatchInBlock<V>(b: Bucket<V>, prefix: string, end: nat, id: string)
    requires Seek(b, prefix, 0) <= end <= |b|
    requires forall j :: Seek(b, prefix, 0) <= j < end ==> prefix <= b[j].key
    requires end < |b| ==> !(prefix <= b[end].key)
    requires id in Matches(Contents(b), prefix)
    ensures Entry(id, Contents(b)[id]) in b[Seek(b, prefix, 0)..end]
  {
    ContentsEntries(b);
    PrefixBlock(b, prefix, end);
  }

  lemma TwoMatches<V>(b: Bucket<V>, prefix: string, j: nat)
    requires j + 1 < |b| && prefix <= b[j].key && prefix <= b[j + 1].key
    ensures Matches(Contents(b), prefix) != {}
    ensures !exists id :: id in Contents(b) && Matches(Contents(b), prefix) == {id}
  {
    ContentsEntries(b);
    assert b[j] in b && b[j + 1] in b;
    LessTotal(b[j].key, b[j + 1].key);
    assert b[j].key in Matches(Contents(b), prefix) && b[j + 1].key in Matches(Contents(b), prefix);
  }

  /** The i-th variant is the first name that leads to a record. */
  predicate FirstLeading<V>(m: map<string, V>, names: map<string, string>, variants: seq<string>, i: nat) {
    && i < |variants| && variants[i] in names && names[variants[i]] in m
    && forall j :: 0 <= j < i ==> !(variants[j] in names && names[variants[j]] in m)
  }

  lemma {:induction false} FirstNamedLeads<V>(m: map<string, V>, names: map<string, string>, variants: seq<string>)
    ensures forall i: nat :: FirstLeading(m, names, variants, i) ==>
              FirstNamed(m, names, variants) == Some(names[variants[i]])
    ensures (forall v <- variants :: !(v in names && names[v] in m)) ==> FirstNamed(m, names, variants) == None
  {
    if variants != [] {
      FirstNamedLeads(m, names, variants[1..]);
      forall i: nat | FirstLeading(m, names, variants, i)
        ensures FirstNamed(m, names, variants) == Some(names[variants[i]])
      {
        assert i > 0 ==> FirstLeading(m, names, variants[1..], i - 1);
      }
      assert forall v <- variants[1..] :: v in variants;
    }
  }

  /** What the last stage promises: the only ID with the prefix, not found when there is none, ambiguity
      when there are two or more. */
  ghost predicate OnlyPrefixed<V>(m: map<string, V>, query: string, r: Result<V, LookupError>) {
    match r
    case Ok(v) => exists id <- m :: m[id] == v && query <= id && forall other <- m :: query <= other ==> other == id
    case Err(NotFound) => forall id <- m :: !(query <= id)
    case Err(Ambiguous) => exists i <- m, j <- m :: i != j && query <= i && query <= j
  }

  lemma ResolvedByPrefix<V>(m: map<string, V>, names: map<string, string>, variants: seq<string>, query: string)
    requires query !in m && forall v <- variants :: !(v in names && names[v] in m)
    ensures OnlyPrefixed(m, query, Resolve(m, names, variants, query))
  {
    FirstNamedLeads(m, names, variants);
    var matching := Matches(m, query);
    if matching == {} {
      assert forall id <- m :: id !in matching;
    } else {
      var i :| i in matching;
      if matching == {i} {
        assert forall other <- m :: query <= other ==> other in matching;
      } else {
        var others := matching - {i};
        assert matching == {i} + others;
        var j :| j in others;
      }
    }
  }

  /** The cursor lookup computes exactly that: an ID first, then the first name that leads to a record, then
      the only ID with the prefix. */
  method GetRecord<V>(b: Bucket<V>, names: map<string, string>, variants: seq<string>, query: string)
    returns (r: Result<V, LookupError>)
    ensures r == Resolve(Contents(b), names, variants, query)
    ensures query in Contents(b) ==> r == Ok(Contents(b)[query])
    ensures query !in Contents(b) ==>
              forall i: nat :: FirstLeading(Contents(b), names, variants, i) ==>
                r == Ok(Contents(b)[names[variants[i]]])
    ensures query !in Contents(b) && (forall v <- variants :: !(v in names && names[v] in Contents(b))) ==>
              OnlyPrefixed(Contents(b), query, r)
  {
    FirstNamedLeads(Contents(b), names, variants);
    if query !in Contents(b) && forall v <- variants :: !(v in names && names[v] in Contents(b)) {
      ResolvedByPrefix(Contents(b), names, variants, query);
    }
    r := SearchStages(b, names, variants, query);
  }

  method SearchStages<V>(b: Bucket<V>, names: map<string, string>, variants: seq<string>, query: string)
    returns (r: Result<V, LookupError>)
    ensures r == Resolve(Contents(b), names, variants, query)
  {
    var exact := Get(b, query);
    if exact.Some? {
      return Ok(exact.value);
    }
    var n := 0;
    while n < |variants|
      invariant 0 <= n <= |variants|
      invariant FirstNamed(Contents(b), names, variants) == FirstNamed(Contents(b), names, variants[n..])
    {
      if variants[n] in names {
        var named := Get(b, names[variants[n]]);
        if named.Some? {
          return Ok(named.value);
        }
      }
      n := n + 1;
    }
    r := OnlyMatch(b, query);
  }

  method OnlyMatch<V>(b: Bucket<V>, query: string) returns (r: Result<V, LookupError>)
    ensures var m := Contents(b);
            match r
            case Ok(v) => exists id :: id in m && Matches(m, query) == {id} && v == m[id]
            case Err(NotFound) => Matches(m, query) == {}
            case Err(Ambiguous) => Matches(m, query) != {} && !exists id :: id in m && Matches(m, query) == {id}
  {
    var start := Seek(b, query, 0);
    var i := start;
    var found: Option<V> := None;
    while i < |b| && query <= b[i].key
      invariant start <= i <= |b| && i <= start + 1
      invariant i == start ==> found == None
      invariant i == start + 1 ==> query <= b[start].key && found == Some(b[start].value)
    {
      if found.Some? {
        TwoMatches(b, query, start);
        return Err(Ambiguous);
      }
      found := Some(b[i].value);
      i := i + 1;
    }
    forall id | id in Matches(Contents(b), query)
      ensures i == start + 1 && id == b[start].key
    {
      MatchInBlock(b, query, i, id);
      assert Entry(id, Contents(b)[id]) in b[start..i];
    }
    if found.None? {
      return Err(NotFound);
    }
    ContentsEntries(b);
    assert b[start] in b;
    assert Matches(Contents(b), query) == {b[start].key};
    return Ok(found.value);
  }

  // ----- The name index

  /** Every record is found under its name, and every name leads to its record. */
  ghost predicate Indexed(nameOf: map<string, string>, names: map<string, string>) {
    && (forall id :: id in nameOf ==> nameOf[id] in names && names[nameOf[id]] == id)
    && (forall n :: n in names ==> names[n] in nameOf && nameOf[names[n]] == n)
  }
}
