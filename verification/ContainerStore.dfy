/** The container records of internal/store/container.go and the name index beside them. */
module ContainerStore {
  import opened Wrappers
  import opened Lookup

  datatype Container = Container(id: string, name: string, status: string)

  datatype StoreError = NameInUse | MissingContainer | UpdateFailed

  /** The three buckets. */
  datatype Records = Records(containers: map<string, Container>, names: map<string, string>,
                             bundles: map<string, string>)

  /** `ok` says whether the database commits. */
  datatype Op =
    | Create(c: Container, ok: bool)
    | Update(c: Container, ok: bool)
    | Delete(id: string, name: string, ok: bool)

  function Apply(s: Records, op: Op): (Records, Option<StoreError>) {
    match op
    case Create(c, ok) =>
      if c.name in s.names then (s, Some(NameInUse))
      else if !ok || !ValidKeys(c.id, c.name) then (s, Some(UpdateFailed))
      else (s.(containers := s.containers[c.id := c], names := s.names[c.name := c.id]), None)
    case Update(c, ok) =>
      if c.id !in s.containers then (s, Some(MissingContainer))
      else if !ok then (s, Some(UpdateFailed))
      else (s.(containers := s.containers[c.id := c]), None)
    case Delete(id, name, ok) =>
      if !ok then (s, Some(UpdateFailed))
      else (Records(s.containers - {id}, if name != "" then s.names - {name} else s.names, s.bundles - {id}), None)
  }

  /** What a query names: the ID, the name with or without its leading slash, or an ID prefix. */
  ghost function Find(s: Records, idOrName: string): Result<Container, LookupError> {
    Resolve(s.containers, s.names, [idOrName, "/" + idOrName], idOrName)
  }

  // ----- The store

  class Store {
    var containers: Bucket<Container>
    var names: map<string, string>
    var bundles: map<string, string>

    ghost function View(): Records
      reads this
    {
      Records(Contents(containers), names, bundles)
    }

    constructor ()
      ensures View() == Records(map[], map[], map[])
    {
      containers, names, bundles := [], map[], map[];
    }

    method CreateContainer(c: Container, ok: bool) returns (err: Option<StoreError>)
      modifies this
      ensures (View(), err) == Apply(old(View()), Create(c, ok))
    {
      if c.name in names {
        return Some(NameInUse);
      }
      if !ok || !ValidKeys(c.id, c.name) {
        return Some(UpdateFailed);
      }
      PutContents(containers, c.id, c);
      containers := Put(containers, c.id, c);
      names := names[c.name := c.id];
      return None;
    }

    method GetContainer(idOrName: string) returns (r: Result<Container, LookupError>)
      ensures r == Find(View(), idOrName)
    {
      r := GetRecord(containers, names, [idOrName, "/" + idOrName], idOrName);
    }

    method UpdateContainer(c: Container, ok: bool) returns (err: Option<StoreError>)
      modifies this
      ensures (View(), err) == Apply(old(View()), Update(c, ok))
    {
      var existing := Get(containers, c.id);
      if existing.None? {
        return Some(MissingContainer);
      }
      if !ok {
        return Some(UpdateFailed);
      }
      PutContents(containers, c.id, c);
      containers := Put(containers, c.id, c);
      return None;
    }

    method DeleteContainer(id: string, name: string, ok: bool) returns (err: Option<StoreError>)
      modifies this
      ensures (View(), err) == Apply(old(View()), Delete(id, name, ok))
    {
      if !ok {
        return Some(UpdateFailed);
      }
      DeleteContents(containers, id);
      containers := Lookup.Delete(containers, id);
      if name != "" {
        names := names - {name};
      }
      bundles := bundles - {id};
      return None;
    }
  }

  // ----- The index over runs

  function NameOf(containers: map<string, Container>): map<string, string> {
    map id <- containers :: containers[id].name
  }

  /** Records are filed under their own ID, and names and records lead to each other. */
  ghost predicate Consistent(s: Records) {
    && (forall id <- s.containers :: s.containers[id].id == id)
    && Indexed(NameOf(s.containers), s.names)
  }

  /** What the caller of an operation has to see to: the ID of a new record is new, an update does not
      rename, a delete gives the record's own name. */
  predicate Faithful(s: Records, op: Op) {
    match op
    case Create(c, _) => c.name in s.names || !ValidKeys(c.id, c.name) || c.id !in s.containers
    case Update(c, _) => c.id in s.containers ==> c.name == s.containers[c.id].name
    case Delete(id, name, _) =>
      if id in s.containers then name != "" && name == s.containers[id].name
      else name == "" || name !in s.names
  }

  lemma CreateKeepsExactly(s: Records, c: Container)
    requires Consistent(s)
    ensures Consistent(Apply(s, Create(c, true)).0) <==> Faithful(s, Create(c, true))
  {
    var n := Apply(s, Create(c, true)).0;
    if c.name !in s.names && ValidKeys(c.id, c.name) {
      assert forall id :: id in NameOf(n.containers) <==> id == c.id || id in NameOf(s.containers);
      if c.id in s.containers {
        var was := s.containers[c.id].name;
        assert NameOf(s.containers)[c.id] == was && n.names[was] == c.id && NameOf(n.containers)[c.id] == c.name;
      }
    }
  }

  lemma UpdateKeepsExactly(s: Records, c: Container)
    requires Consistent(s)
    ensures Consistent(Apply(s, Update(c, true)).0) <==> Faithful(s, Update(c, true))
  {
    var n := Apply(s, Update(c, true)).0;
    if c.id in s.containers {
      var was := s.containers[c.id].name;
      assert NameOf(s.containers)[c.id] == was;
      assert NameOf(n.containers)[c.id] == c.name;
      if c.name == was {
        assert NameOf(n.containers) == NameOf(s.containers);
      }
    }
  }

  lemma DeleteKeepsExactly(s: Records, id: string, name: string)
    requires Consistent(s)
    ensures Consistent(Apply(s, Delete(id, name, true)).0) <==> Faithful(s, Delete(id, name, true))
  {
    var n := Apply(s, Delete(id, name, true)).0;
    assert forall i :: i in NameOf(n.containers) <==> i != id && i in NameOf(s.containers);
    if id in s.containers {
      var own := s.containers[id].name;
      assert NameOf(s.containers)[id] == own && s.names[own] == id;
      if name != "" && name == own {
        forall k | k in n.names ensures n.names[k] in NameOf(n.containers) && NameOf(n.containers)[n.names[k]] == k {
          assert NameOf(s.containers)[s.names[k]] == k;
        }
      } else {
        assert own in n.names && n.names[own] !in NameOf(n.containers);
      }
    } else if name != "" && name in s.names {
      var other := s.names[name];
      assert other in NameOf(s.containers) && NameOf(s.containers)[other] == name;
      assert other in n.containers && NameOf(n.containers)[other] == name;
    }
  }

  function Committing(op: Op, ok: bool): Op {
    op.(ok := ok)
  }

  /** Whether or not the database commits, an operation keeps the name index a bijection with the
      records: exactly when it is faithful. */
  lemma KeepsIndexExactly(s: Records, op: Op)
    requires Consistent(s)
    ensures (forall ok: bool :: Consistent(Apply(s, Committing(op, ok)).0)) <==> Faithful(s, op)
  {
    assert Apply(s, Committing(op, false)).0 == s;
    assert Faithful(s, op) <==> Faithful(s, Committing(op, true));
    match op
    case Create(c, _) => CreateKeepsExactly(s, c);
    case Update(c, _) => UpdateKeepsExactly(s, c);
    case Delete(id, name, _) => DeleteKeepsExactly(s, id, name);
  }

  function Run(ops: seq<Op>): Records {
    if ops == [] then Records(map[], map[], map[]) else Apply(Run(ops[..|ops| - 1]), ops[|ops| - 1]).0
  }

  lemma {:induction false} RunKeepsIndex(ops: seq<Op>)
    requires forall i :: 0 <= i < |ops| ==> Faithful(Run(ops[..i]), ops[i])
    ensures Consistent(Run(ops))
  {
    if ops != [] {
      var init := ops[..|ops| - 1];
      assert forall i :: 0 <= i < |init| ==> init[..i] == ops[..i];
      RunKeepsIndex(init);
      KeepsIndexExactly(Run(init), ops[|ops| - 1]);
      assert Committing(ops[|ops| - 1], ops[|ops| - 1].ok) == ops[|ops| - 1];
    }
  }

  /** What is written is what is read: after a create or an update that succeeds the ID finds the record
      just written, all of it, and every other ID what it found before. */
  lemma WrittenIsRead(s: Records, op: Op, c: Container)
    requires op == Create(c, true) || op == Update(c, true)
    requires Apply(s, op).1 == None
    ensures var t := Apply(s, op).0;
            && Find(t, c.id) == Ok(c)
            && (forall other <- s.containers :: other != c.id ==>
                Find(t, other) == Find(s, other) == Ok(s.containers[other]))
            && (op.Create? && c.name !in t.containers ==> Find(t, c.name) == Ok(c))
            && t.bundles == s.bundles
  {
    var t := Apply(s, op).0;
    if op.Create? {
      assert FirstNamed(t.containers, t.names, [c.name, "/" + c.name]) == Some(c.id);
    }
  }

  /** An operation that fails changes nothing, and it fails whenever the database does not commit. */
  lemma FailureChangesNothing(s: Records, op: Op)
    ensures Apply(s, op).1.Some? ==> Apply(s, op).0 == s
    ensures !op.ok ==> Apply(s, op).1.Some?
  {
  }

  /** With the index intact, and the database committing: a create is refused for its name exactly when a
      record has it, an update exactly when there is no record to replace, a delete never. */
  lemma RefusedExactly(s: Records, c: Container, id: string, name: string)
    requires Consistent(s)
    ensures Apply(s, Create(c, true)).1 == Some(NameInUse)
            <==> exists i <- s.containers :: s.containers[i].name == c.name
    ensures c.id != "" && c.name != "" ==> Apply(s, Create(c, true)).1 in {None, Some(NameInUse)}
    ensures Apply(s, Update(c, true)).1 == Some(MissingContainer) <==> c.id !in s.containers
    ensures Apply(s, Delete(id, name, true)).1 == None
    ensures var t := Apply(s, Delete(id, name, true)).0;
            id !in t.containers && id !in t.bundles && forall other <- s.containers :: other != id ==>
              other in t.containers && t.containers[other] == s.containers[other]
  {
    assert forall i <- s.containers :: NameOf(s.containers)[i] == s.containers[i].name;
  }

  /** With the index intact a container is found by its name, and by its name without the leading
      slash, unless what was asked for is another one's ID or name. */
  lemma FoundByName(s: Records, id: string, short: string)
    requires Consistent(s) && id in s.containers
    ensures s.containers[id].name !in s.containers ==> Find(s, s.containers[id].name) == Ok(s.containers[id])
    ensures s.containers[id].name == "/" + short && short !in s.containers && short !in s.names ==>
            Find(s, short) == Ok(s.containers[id])
  {
    var name := s.containers[id].name;
    assert NameOf(s.containers)[id] == name && s.names[name] == id;
    if name == "/" + short && short !in s.containers && short !in s.names {
      var variants := [short, "/" + short];
      assert variants[1..] == [name];
      assert FirstNamed(s.containers, s.names, variants) == FirstNamed(s.containers, s.names, [name]) == Some(id);
    }
  }
}
