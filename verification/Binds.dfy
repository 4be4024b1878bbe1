/** Bind strings of internal/runtime/mounts.go: parsing them, and forcing them read-only for
    VolumesFrom. */
module Binds {
  import opened Wrappers
  import opened Strings

  // ----- The parts of a bind string

  /** "a:b:rest" has the three parts it was put together from, whatever the third holds. */
  lemma ThreeParts(a: string, b: string, rest: string)
    requires ':' !in a && ':' !in b
    ensures SplitN(a + ":" + b + ":" + rest, ':', 3) == [a, b, rest]
  {
    assert a + ":" + b + ":" + rest == a + [':'] + (b + [':'] + rest);
    SplitNCons(a, b + [':'] + rest, ':', 3);
    SplitNCons(b, rest, ':', 2);
  }

  lemma BindParts(s: string)
    ensures var parts := SplitN(s, ':', 3);
            && (|parts| >= 2 ==> ':' !in parts[0] && ':' !in parts[1])
            && (|parts| == 2 ==> s == parts[0] + ":" + parts[1])
            && (|parts| == 3 ==> s == parts[0] + ":" + parts[1] + ":" + parts[2])
  {
    JoinSplitN(s, ':', 3);
    var parts := SplitN(s, ':', 3);
    if |parts| >= 2 {
      SplitNParts(s, ':', 3, 0);
      SplitNParts(s, ':', 3, 1);
    }
    if |parts| == 2 {
      assert Join(parts[1..], ':') == parts[1];
    } else if |parts| == 3 {
      assert Join(parts[1..], ':') == parts[1] + [':'] + Join(parts[1..][1..], ':') == parts[1] + [':'] + parts[2];
      assert s == parts[0] + ":" + (parts[1] + ":" + parts[2]);
    }
  }

  // ----- parseBind

  datatype Volume = Volume(name: string, mountpoint: string)

  datatype BindError = InvalidBind(bind: string) | NoVolumeResolver(source: string) | VolumeFailed(source: string)

  datatype Kind = HostPath | NamedVolume(name: string)

  /** The OCI mount and the inspect entry of one bind; the inspect entry of a named volume leaves out the
      propagation. */
  datatype Mount = Mount(kind: Kind, source: string, destination: string, options: seq<string>, rw: bool,
                         propagation: string)

  /** filepath.Clean, and the volume store (none when the daemon has none). */
  datatype Env = Env(clean: string -> string, resolver: Option<string -> Option<Volume>>)

  predicate IsPropagation(opt: string) {
    opt == "rprivate" || opt == "private" || opt == "rshared" || opt == "shared" || opt == "rslave" || opt == "slave"
  }

  /** The last of "ro" and "rw" decides. */
  function Writable(opts: seq<string>): bool {
    if opts == [] then true
    else if opts[|opts| - 1] == "ro" then false
    else if opts[|opts| - 1] == "rw" then true
    else Writable(opts[..|opts| - 1])
  }

  function Propagation(opts: seq<string>): string {
    if opts == [] then "rprivate"
    else if IsPropagation(opts[|opts| - 1]) then opts[|opts| - 1]
    else Propagation(opts[..|opts| - 1])
  }

  function Options(bind: string): (opts: seq<string>)
    ensures opts != []
  {
    var parts := SplitN(bind, ':', 3);
    Split(if |parts| == 3 then parts[2] else "", ',')
  }

  function Locate(source: string, env: Env): Result<(Kind, string), BindError> {
    if source != "" && (source[0] == '/' || source[0] == '.') then Ok((HostPath, source))
    else if env.resolver.None? then Err(NoVolumeResolver(source))
    else
      match env.resolver.value(source)
      case None => Err(VolumeFailed(source))
      case Some(v) => Ok((NamedVolume(v.name), v.mountpoint))
  }

  function Parse(bind: string, env: Env): Result<Mount, BindError> {
    var parts := SplitN(bind, ':', 3);
    if |parts| < 2 then Err(InvalidBind(bind))
    else
      match Locate(parts[0], env)
      case Err(e) => Err(e)
      case Ok((kind, source)) =>
        var rw, propagation := Writable(Options(bind)), Propagation(Options(bind));
        Ok(Mount(kind, source, env.clean(parts[1]), ["rbind", propagation, if rw then "rw" else "ro"], rw, propagation))
  }

  method ParseBind(bind: string, env: Env) returns (r: Result<Mount, BindError>)
    ensures r == Parse(bind, env)
  {
    var parts := SplitN(bind, ':', 3);
    if |parts| < 2 {
      return Err(InvalidBind(bind));
    }
    var optsStr := "";
    if |parts| == 3 {
      optsStr := parts[2];
    }
    var rw, propagation := true, "rprivate";
    var opts := Split(optsStr, ',');
    for i := 0 to |opts|
      invariant rw == Writable(opts[..i]) && propagation == Propagation(opts[..i])
    {
      assert opts[..i + 1][..i] == opts[..i];
      if opts[i] == "ro" {
        rw := false;
      } else if opts[i] == "rw" {
        rw := true;
      } else if IsPropagation(opts[i]) {
        propagation := opts[i];
      }
    }
    assert opts[..|opts|] == opts;
    var ociOpts := ["rbind", propagation];
    if rw {
      ociOpts := ociOpts + ["rw"];
    } else {
      ociOpts := ociOpts + ["ro"];
    }
    assert ociOpts == ["rbind", propagation, if rw then "rw" else "ro"];
    var located := Locate(parts[0], env);
    if located.Err? {
      return Err(located.error);
    }
    return Ok(Mount(located.value.0, located.value.1, env.clean(parts[1]), ociOpts, rw, propagation));
  }

  // ----- What the parser makes of a bind

  /** Writable exactly when each "ro" is followed by a "rw". */
  lemma {:induction false} WritableExactly(opts: seq<string>)
    ensures Writable(opts)
            <==> forall i :: 0 <= i < |opts| && opts[i] == "ro" ==> exists j :: i < j < |opts| && opts[j] == "rw"
  {
    if opts != [] {
      var last := |opts| - 1;
      var init := opts[..last];
      WritableExactly(init);
      if opts[last] != "ro" && opts[last] != "rw" && !Writable(opts) {
        var i :| 0 <= i < |init| && init[i] == "ro" && forall j :: i < j < |init| ==> init[j] != "rw";
        assert opts[i] == "ro" && forall j :: i < j < |opts| ==> opts[j] != "rw";
      }
    }
  }

  lemma PropagationModes(opt: string)
    ensures IsPropagation(opt) <==> opt in {"rprivate", "private", "rshared", "shared", "rslave", "slave"}
  {
  }

  /** The i-th option is the last one that names a propagation mode. */
  predicate LastMode(opts: seq<string>, i: nat) {
    i < |opts| && IsPropagation(opts[i]) && forall j :: i < j < |opts| ==> !IsPropagation(opts[j])
  }

  /** The last propagation mode among the options counts; without one it is "rprivate". */
  lemma {:induction false} PropagationExactly(opts: seq<string>)
    ensures (forall o <- opts :: !IsPropagation(o)) ==> Propagation(opts) == "rprivate"
    ensures forall i: nat :: LastMode(opts, i) ==> Propagation(opts) == opts[i]
    ensures (exists i: nat :: LastMode(opts, i)) || forall o <- opts :: !IsPropagation(o)
  {
    if opts != [] {
      var last := |opts| - 1;
      var init := opts[..last];
      PropagationExactly(init);
      assert opts == init + [opts[last]];
      if IsPropagation(opts[last]) {
        assert LastMode(opts, last);
      } else {
        forall i: nat ensures LastMode(opts, i) <==> LastMode(init, i) {}
      }
    }
  }

  /** A host path is its own source, anything else is a volume's name. */
  predicate LocatedRight(source: string, env: Env, r: Result<Mount, BindError>) {
    if source != "" && source[0] in {'/', '.'} then r.Ok? && r.value.kind == HostPath && r.value.source == source
    else if env.resolver.None? then r == Err(NoVolumeResolver(source))
    else if env.resolver.value(source).None? then r == Err(VolumeFailed(source))
    else
      var v := env.resolver.value(source).value;
      r.Ok? && r.value.kind == NamedVolume(v.name) && r.value.source == v.mountpoint
  }

  /** "source:destination:options" gives the destination cleaned, and read-only and propagation as its
      comma-separated options say. */
  lemma ParsedFields(source: string, destination: string, opts: seq<string>, env: Env)
    requires ':' !in source && ':' !in destination && opts != [] && forall o <- opts :: ',' !in o
    ensures var r := Parse(source + ":" + destination + ":" + Join(opts, ','), env);
            && LocatedRight(source, env, r)
            && (r.Ok? ==>
                  && r.value.destination == env.clean(destination)
                  && r.value.rw == Writable(opts) && r.value.propagation == Propagation(opts)
                  && r.value.options == ["rbind", Propagation(opts), if Writable(opts) then "rw" else "ro"])
  {
    ThreeParts(source, destination, Join(opts, ','));
    SplitJoin(opts, ',');
  }

  /** Without options a bind is writable and private; without a colon it is refused. */
  lemma ParsedDefaults(source: string, destination: string, env: Env)
    requires ':' !in source && ':' !in destination
    ensures var r := Parse(source + ":" + destination, env);
            && LocatedRight(source, env, r)
            && (r.Ok? ==>
                  && r.value.destination == env.clean(destination)
                  && r.value.rw && r.value.propagation == "rprivate" && r.value.options == ["rbind", "rprivate", "rw"])
    ensures Parse(source, env) == Err(InvalidBind(source))
  {
    TwoParts(source, destination);
    SplitNOne(source, ':', 3);
    SplitOne("", ',');
    assert [""][..0] == [];
  }

  lemma TwoParts(a: string, b: string)
    requires ':' !in a && ':' !in b
    ensures SplitN(a + ":" + b, ':', 3) == [a, b]
  {
    SplitNCons(a, b, ':', 3);
    SplitNOne(b, ':', 2);
    assert a + ":" + b == a + [':'] + b;
  }

  // ----- forceReadOnly

  function Replaced(opts: seq<string>): (r: seq<string>)
    ensures |r| == |opts|
  {
    seq(|opts|, i requires 0 <= i < |opts| => if opts[i] == "rw" then "ro" else opts[i])
  }

  function ReadOnlyOptions(opts: seq<string>): (r: seq<string>)
    requires opts != []
    ensures r != []
  {
    if "rw" in opts || "ro" in opts then Replaced(opts) else opts + ["ro"]
  }

  function Forced(bind: string): string {
    var parts := SplitN(bind, ':', 3);
    if |parts| < 2 then bind
    else if |parts| == 2 then bind + ":ro"
    else
      var opts := ReadOnlyOptions(Split(parts[2], ','));
      parts[0] + ":" + parts[1] + ":" + Join(opts, ',')
  }

  /** The loop of forceReadOnly. */
  method ReplaceWritable(options: seq<string>) returns (opts: seq<string>, hasRO: bool)
    ensures opts == Replaced(options) && hasRO == ("rw" in options || "ro" in options)
  {
    opts, hasRO := options, false;
    for i := 0 to |options|
      invariant |opts| == |options|
      invariant forall k :: 0 <= k < |opts| ==> opts[k] == if k < i && options[k] == "rw" then "ro" else options[k]
      invariant hasRO == exists k :: 0 <= k < i && (options[k] == "rw" || options[k] == "ro")
    {
      if opts[i] == "rw" {
        opts := opts[i := "ro"];
        hasRO := true;
      } else if opts[i] == "ro" {
        hasRO := true;
      }
    }
  }

  method ForceReadOnly(bind: string) returns (r: string)
    ensures r == Forced(bind)
  {
    var parts := SplitN(bind, ':', 3);
    if |parts| < 2 {
      return bind;
    }
    if |parts| == 2 {
      return bind + ":ro";
    }
    var before := Split(parts[2], ',');
    var opts, hasRO := ReplaceWritable(before);
    if !hasRO {
      assert opts == before;
      opts := opts + ["ro"];
    }
    return parts[0] + ":" + parts[1] + ":" + Join(opts, ',');
  }

  // ----- What forcing means to the parser

  lemma {:induction false} ReadOnlyWins(opts: seq<string>)
    requires "ro" in opts && "rw" !in opts
    ensures !Writable(opts)
  {
    var last := |opts| - 1;
    assert opts == opts[..last] + [opts[last]];
    if opts[last] != "ro" {
      ReadOnlyWins(opts[..last]);
    }
  }

  lemma {:induction false} ReplacedPropagation(opts: seq<string>)
    ensures Propagation(Replaced(opts)) == Propagation(opts)
  {
    if opts != [] {
      var last := |opts| - 1;
      ReplacedPropagation(opts[..last]);
      assert Replaced(opts)[..last] == Replaced(opts[..last]);
    }
  }

  lemma ReadOnlyOptionsFacts(opts: seq<string>)
    requires opts != []
    ensures var r := ReadOnlyOptions(opts);
            && "ro" in r && "rw" !in r
            && Propagation(r) == Propagation(opts)
            && !Writable(r)
    ensures (forall p <- opts :: ',' !in p) ==> forall p <- ReadOnlyOptions(opts) :: ',' !in p
  {
    var r := ReadOnlyOptions(opts);
    if "rw" in opts || "ro" in opts {
      var i :| 0 <= i < |opts| && (opts[i] == "rw" || opts[i] == "ro");
      assert r[i] == "ro";
      ReplacedPropagation(opts);
    } else {
      assert r[|opts|] == "ro";
      assert r[..|r| - 1] == opts;
    }
    ReadOnlyWins(r);
  }

  /** Forcing changes no option but "rw", and adds "ro" at the end when there was neither. */
  lemma ForcedKeepsOptions(bind: string)
    requires |SplitN(bind, ':', 3)| == 3
    ensures var opts, forced := Options(bind), Options(Forced(bind));
            && |forced| >= |opts|
            && (forall i :: 0 <= i < |opts| ==> forced[i] == if opts[i] == "rw" then "ro" else opts[i])
            && forced[|opts|..] == if "rw" in opts || "ro" in opts then [] else ["ro"]
  {
    ForcedParts(bind);
  }

  lemma ForcedParts(bind: string)
    requires |SplitN(bind, ':', 3)| >= 2
    ensures var parts, forced := SplitN(bind, ':', 3), SplitN(Forced(bind), ':', 3);
            && |forced| == 3 && forced[0] == parts[0] && forced[1] == parts[1]
            && Options(Forced(bind)) == if |parts| == 2 then ["ro"] else ReadOnlyOptions(Options(bind))
  {
    BindParts(bind);
    var parts := SplitN(bind, ':', 3);
    if |parts| == 2 {
      ThreeParts(parts[0], parts[1], "ro");
      assert bind + ":ro" == parts[0] + ":" + parts[1] + ":" + "ro";
      SplitOne("ro", ',');
    } else {
      var opts := ReadOnlyOptions(Options(bind));
      JoinSplit(parts[2], ',');
      ReadOnlyOptionsFacts(Options(bind));
      ThreeParts(parts[0], parts[1], Join(opts, ','));
      SplitJoin(opts, ',');
    }
  }

  function AsReadOnly(r: Result<Mount, BindError>): Result<Mount, BindError> {
    match r
    case Err(e) => Err(e)
    case Ok(m) => Ok(m.(rw := false, options := ["rbind", m.propagation, "ro"]))
  }

  /** For every bind string: the forced one parses to the same mount, read-only, or to the same
      error. */
  lemma ForcedParsesReadOnly(bind: string, env: Env)
    ensures Parse(Forced(bind), env) == AsReadOnly(Parse(bind, env))
  {
    if |SplitN(bind, ':', 3)| >= 2 {
      ForcedParts(bind);
      ReadOnlyOptionsFacts(Options(bind));
      if |SplitN(bind, ':', 3)| == 2 {
        SplitOne("", ',');
        assert Options(bind) == [""];
        assert ["ro"][..0] == [] && [""][..0] == [];
        assert Propagation(["ro"]) == Propagation([""]) == "rprivate";
      }
    }
  }

  lemma ReplacedStays(opts: seq<string>)
    requires "ro" in opts && "rw" !in opts
    ensures ReadOnlyOptions(opts) == opts
  {
    assert forall i :: 0 <= i < |opts| ==> opts[i] in opts;
  }

  lemma ForcedIdempotent(bind: string)
    ensures Forced(Forced(bind)) == Forced(bind)
  {
    var parts := SplitN(bind, ':', 3);
    if |parts| >= 2 {
      ForcedParts(bind);
      BindParts(Forced(bind));
      var forced := SplitN(Forced(bind), ':', 3);
      var opts := Options(Forced(bind));
      ReadOnlyOptionsFacts(Options(bind));
      ReplacedStays(opts);
      JoinSplit(forced[2], ',');
    }
  }

  // ----- resolveVolumesFrom

  /** strings.Cut at the first ':'. */
  function CutMode(s: string): (string, string) {
    var parts := SplitN(s, ':', 2);
    (parts[0], if |parts| == 2 then parts[1] else "")
  }

  /** What is before the first colon is the name, what is after it the mode. */
  lemma CutModeExactly(name: string, mode: string)
    requires ':' !in name
    ensures CutMode(name + ":" + mode) == (name, mode)
    ensures CutMode(name) == (name, "")
  {
    SplitNCons(name, mode, ':', 2);
    assert name + ":" + mode == name + [':'] + mode;
    SplitNOne(name, ':', 2);
  }

  function Inherited(binds: seq<string>, mode: string): (r: seq<string>)
    ensures |r| == |binds|
  {
    seq(|binds|, i requires 0 <= i < |binds| => if mode == "ro" then Forced(binds[i]) else binds[i])
  }

  /** The binds of each container named, in order; None when one cannot be found. */
  function Resolved(volumesFrom: seq<string>, containers: map<string, seq<string>>): Option<seq<string>> {
    if volumesFrom == [] then Some([])
    else
      var last := |volumesFrom| - 1;
      var (name, mode) := CutMode(volumesFrom[last]);
      match Resolved(volumesFrom[..last], containers)
      case None => None
      case Some(binds) =>
        if name !in containers then None else Some(binds + Inherited(containers[name], mode))
  }

  method InheritBinds(binds: seq<string>, modeStr: string) returns (r: seq<string>)
    ensures r == Inherited(binds, modeStr)
  {
    r := [];
    for j := 0 to |binds|
      invariant |r| == j
      invariant forall k :: 0 <= k < j ==> r[k] == Inherited(binds, modeStr)[k]
    {
      var bind := binds[j];
      if modeStr == "ro" {
        bind := ForceReadOnly(bind);
      }
      r := r + [bind];
    }
  }

  /** `containers` maps what GetContainer accepts to the binds found there. */
  method ResolveVolumesFrom(volumesFrom: seq<string>, containers: map<string, seq<string>>)
    returns (r: Option<seq<string>>)
    ensures r == Resolved(volumesFrom, containers)
  {
    var extraBinds: seq<string> := [];
    for i := 0 to |volumesFrom|
      invariant Resolved(volumesFrom[..i], containers) == Some(extraBinds)
    {
      assert volumesFrom[..i + 1][..i] == volumesFrom[..i];
      var (name, modeStr) := CutMode(volumesFrom[i]);
      if name !in containers {
        MissingFails(volumesFrom, containers, i);
        return None;
      }
      var inherited := InheritBinds(containers[name], modeStr);
      extraBinds := extraBinds + inherited;
    }
    assert volumesFrom[..|volumesFrom|] == volumesFrom;
    return Some(extraBinds);
  }

  lemma {:induction false} MissingFails(volumesFrom: seq<string>, containers: map<string, seq<string>>, i: nat)
    requires i < |volumesFrom| && CutMode(volumesFrom[i]).0 !in containers
    ensures Resolved(volumesFrom, containers) == None
  {
    if i < |volumesFrom| - 1 {
      MissingFails(volumesFrom[..|volumesFrom| - 1], containers, i);
    }
  }

  lemma {:induction false} ResolvesExactly(volumesFrom: seq<string>, containers: map<string, seq<string>>)
    ensures Resolved(volumesFrom, containers).Some? <==> forall vf <- volumesFrom :: CutMode(vf).0 in containers
  {
    if volumesFrom != [] {
      var last := |volumesFrom| - 1;
      ResolvesExactly(volumesFrom[..last], containers);
      assert forall vf :: vf in volumesFrom <==> vf in volumesFrom[..last] || vf == volumesFrom[last];
      assert Resolved(volumesFrom, containers).Some?
             <==> Resolved(volumesFrom[..last], containers).Some? && CutMode(volumesFrom[last]).0 in containers;
    }
  }

  /** Every bind inherited with mode "ro" parses as read-only, at the place and with the
      propagation it had. */
  lemma InheritedReadOnly(binds: seq<string>, i: nat, env: Env)
    requires i < |binds|
    ensures Parse(Inherited(binds, "ro")[i], env) == AsReadOnly(Parse(binds[i], env))
    ensures Parse(Inherited(binds, "ro")[i], env).Ok? ==> !Parse(Inherited(binds, "ro")[i], env).value.rw
  {
    ForcedParsesReadOnly(binds[i], env);
  }

  /** A container to take the binds of, and the mode it is written with, if any. */
  datatype From = From(name: string, mode: Option<string>)

  function WrittenAs(f: From): string {
    if f.mode.None? then f.name else f.name + ":" + f.mode.value
  }

  function Entries(froms: seq<From>): (r: seq<string>)
    ensures |r| == |froms|
  {
    seq(|froms|, i requires 0 <= i < |froms| => WrittenAs(froms[i]))
  }

  /** All binds of these containers in order, each with the mode it is taken with. */
  function Taken(froms: seq<From>, containers: map<string, seq<string>>): seq<(string, Option<string>)>
    requires forall f <- froms :: f.name in containers
  {
    if froms == [] then []
    else
      var f := froms[|froms| - 1];
      var binds := containers[f.name];
      Taken(froms[..|froms| - 1], containers) + seq(|binds|, i requires 0 <= i < |binds| => (binds[i], f.mode))
  }

  /** A bind is taken as it is, except that one taken with mode "ro" parses read-only. */
  predicate TakenRight(bind: string, mode: Option<string>, r: string, env: Env) {
    if mode == Some("ro") then Parse(r, env) == AsReadOnly(Parse(bind, env)) else r == bind
  }

  predicate AllTaken(taken: seq<(string, Option<string>)>, r: seq<string>, env: Env) {
    |r| == |taken| && forall i :: 0 <= i < |taken| ==> TakenRight(taken[i].0, taken[i].1, r[i], env)
  }

  lemma TakenFromOne(f: From, binds: seq<string>, env: Env)
    requires ':' !in f.name
    ensures AllTaken(seq(|binds|, i requires 0 <= i < |binds| => (binds[i], f.mode)),
                     Inherited(binds, CutMode(WrittenAs(f)).1), env)
  {
    CutModeExactly(f.name, if f.mode.Some? then f.mode.value else "");
    forall i | 0 <= i < |binds|
      ensures TakenRight(binds[i], f.mode, Inherited(binds, CutMode(WrittenAs(f)).1)[i], env)
    {
      ForcedParsesReadOnly(binds[i], env);
    }
  }

  /** The containers named, each alone or with a mode after a colon, give their binds in order: read-only
      for those written with ":ro", unchanged for all others. */
  lemma {:induction false} InheritsExactly(froms: seq<From>, containers: map<string, seq<string>>, env: Env)
    requires forall f <- froms :: ':' !in f.name && f.name in containers
    ensures var r := Resolved(Entries(froms), containers);
            r.Some? && AllTaken(Taken(froms, containers), r.value, env)
  {
    if froms != [] {
      var last := |froms| - 1;
      var f, init := froms[last], froms[..last];
      assert f in froms;
      InheritsExactly(init, containers, env);
      assert Entries(froms)[..last] == Entries(init) && Entries(froms)[last] == WrittenAs(f);
      CutModeExactly(f.name, if f.mode.Some? then f.mode.value else "");
      TakenFromOne(f, containers[f.name], env);
    }
  }
}
