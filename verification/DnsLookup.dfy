/** Answering A and PTR questions from the DNS records (internal/network/dns.go). */
module DnsLookup {
  import opened Wrappers
  import opened Strings
  import opened Addresses
  import opened NetworkSpec
  import opened NetworkInvariant

  const ARPA := ".in-addr.arpa"

  // ----- Dotted decimal

  function Digit(d: nat): char
    requires d < 10
  {
    ('0' as int + d) as char
  }

  function ShowDigits(a: nat, b: nat, c: nat): string
    requires a < 10 && b < 10 && c < 10
  {
    if a > 0 then [Digit(a), Digit(b), Digit(c)] else if b > 0 then [Digit(b), Digit(c)] else [Digit(c)]
  }

  /** Decimal, without leading zeros. */
  function ShowOctet(x: Octet): string {
    ShowDigits(x / 100, x / 10 % 10, x % 10)
  }

  function DigitValue(c: char): Option<nat> {
    if '0' <= c <= '9' then Some(c as int - '0' as int) else None
  }

  function Decimal(ds: seq<Option<nat>>): Option<nat>
    decreases |ds|
  {
    if ds == [] then Some(0)
    else if ds[|ds| - 1].None? then None
    else
      match Decimal(ds[..|ds| - 1])
      case None => None
      case Some(n) => Some(10 * n + ds[|ds| - 1].value)
  }

  /** One field of netip.ParseAddr: one to three digits, no leading zero, at most 255. */
  function ParseOctet(s: string): Option<Octet> {
    if s == "" || |s| > 3 || (|s| > 1 && s[0] == '0') then None
    else
      match Decimal(seq(|s|, i requires 0 <= i < |s| => DigitValue(s[i])))
      case None => None
      case Some(n) => if n < 256 then Some(n) else None
  }

  lemma DigitRoundTrip(d: nat)
    requires d < 10
    ensures DigitValue(Digit(d)) == Some(d) && Digit(d) != '.' && (Digit(d) == '0' ==> d == 0)
  {
  }

  lemma DigitOf(c: char)
    ensures DigitValue(c).Some? ==> DigitValue(c).value < 10 && Digit(DigitValue(c).value) == c
    ensures DigitValue(c) == Some(0) ==> c == '0'
  {
  }

  lemma DecimalOne(a: Option<nat>)
    ensures Decimal([a]) == a
  {
    assert Decimal([a][..0]) == Some(0);
  }

  function Two(a: Option<nat>, b: Option<nat>): Option<nat> {
    if a.Some? && b.Some? then Some(10 * a.value + b.value) else None
  }

  function AnOctet(n: Option<nat>): Option<Octet> {
    if n.Some? && n.value < 256 then Some(n.value) else None
  }

  lemma DecimalTwo(a: Option<nat>, b: Option<nat>)
    ensures Decimal([a, b]) == Two(a, b)
  {
    DecimalOne(a);
    assert [a, b][..1] == [a];
  }

  lemma DecimalThree(a: Option<nat>, b: Option<nat>, c: Option<nat>)
    ensures Decimal([a, b, c]) == Two(Two(a, b), c)
  {
    DecimalTwo(a, b);
    assert [a, b, c][..2] == [a, b];
  }

  /** What a field of one, two or three characters parses to. */
  lemma OctetForms(s: string)
    ensures |s| == 1 ==> ParseOctet(s) == AnOctet(DigitValue(s[0]))
    ensures |s| == 2 && s[0] != '0' ==> ParseOctet(s) == AnOctet(Two(DigitValue(s[0]), DigitValue(s[1])))
    ensures |s| == 3 && s[0] != '0' ==>
              ParseOctet(s) == AnOctet(Two(Two(DigitValue(s[0]), DigitValue(s[1])), DigitValue(s[2])))
  {
    var ds := seq(|s|, i requires 0 <= i < |s| => DigitValue(s[i]));
    if |s| == 1 {
      DecimalOne(ds[0]);
      assert ds == [ds[0]];
    } else if |s| == 2 {
      DecimalTwo(ds[0], ds[1]);
      assert ds == [ds[0], ds[1]];
    } else if |s| == 3 {
      DecimalThree(ds[0], ds[1], ds[2]);
      assert ds == [ds[0], ds[1], ds[2]];
    }
  }

  lemma DigitsParse(a: nat, b: nat, c: nat)
    requires a < 10 && b < 10 && c < 10
    ensures ParseOctet(ShowDigits(a, b, c)) == AnOctet(Some(100 * a + 10 * b + c)) && '.' !in ShowDigits(a, b, c)
  {
    DigitRoundTrip(a);
    DigitRoundTrip(b);
    DigitRoundTrip(c);
    OctetForms(ShowDigits(a, b, c));
  }

  lemma ShowParses(x: Octet)
    ensures ParseOctet(ShowOctet(x)) == Some(x) && '.' !in ShowOctet(x)
  {
    DigitsParse(x / 100, x / 10 % 10, x % 10);
    assert x / 10 == 10 * (x / 100) + x / 10 % 10;
  }

  /** A field parses to x only when it is how x is written. */
  lemma ParseShows(s: string)
    ensures ParseOctet(s).Some? ==> s == ShowOctet(ParseOctet(s).value)
  {
    if ParseOctet(s).Some? {
      OctetForms(s);
      DigitOf(s[0]);
      var x, d := ParseOctet(s).value, DigitValue(s[0]).value;
      if |s| == 1 {
        DigitsOf(x, 0, 0, d);
        assert s == [s[0]];
      } else if |s| == 2 {
        DigitOf(s[1]);
        DigitsOf(x, 0, d, DigitValue(s[1]).value);
        assert s == [s[0], s[1]];
      } else {
        DigitOf(s[1]);
        DigitOf(s[2]);
        DigitsOf(x, d, DigitValue(s[1]).value, DigitValue(s[2]).value);
        assert s == [s[0], s[1], s[2]];
      }
    }
  }

  lemma DigitsOf(x: nat, a: nat, b: nat, c: nat)
    requires a < 10 && b < 10 && c < 10 && x == 100 * a + 10 * b + c
    ensures x / 100 == a && x / 10 % 10 == b && x % 10 == c
  {
    assert x / 10 == 10 * a + b;
  }

  // ----- PTR names

  function TrimSuffix(s: string, suffix: string): string {
    if |s| >= |suffix| && s[|s| - |suffix|..] == suffix then s[..|s| - |suffix|] else s
  }

  predicate HasSuffix(s: string, suffix: string) {
    |s| >= |suffix| && s[|s| - |suffix|..] == suffix
  }

  /** ptrToIP. */
  function PtrToIP(name: string): Option<Addr> {
    var ptr := TrimSuffix(name, ".");
    if !HasSuffix(ptr, ARPA) then None
    else
      var parts := Split(TrimSuffix(ptr, ARPA), '.');
      if |parts| != 4 then None
      else
        match (ParseOctet(parts[3]), ParseOctet(parts[2]), ParseOctet(parts[1]), ParseOctet(parts[0]))
        case (Some(a), Some(b), Some(c), Some(d)) => Some(Addr(a, b, c, d))
        case _ => None
  }

  /** The reverse name of an address (section 3.5 of RFC 1035), without the final dot. */
  function ReverseName(ip: Addr): string {
    Join([ShowOctet(ip.b3), ShowOctet(ip.b2), ShowOctet(ip.b1), ShowOctet(ip.b0)], '.') + ARPA
  }

  lemma JoinFour(a: string, b: string, c: string, d: string)
    ensures Join([a, b, c, d], '.') == a + "." + b + "." + c + "." + d
  {
    var cd := c + "." + d;
    var bcd := b + "." + cd;
    assert Join([c, d], '.') == cd by { assert [c, d][1..] == [d]; }
    assert Join([b, c, d], '.') == bcd by { assert [b, c, d][1..] == [c, d]; }
    assert Join([a, b, c, d], '.') == a + "." + bcd by { assert [a, b, c, d][1..] == [b, c, d]; }
    assert a + "." + bcd == a + "." + b + "." + cd;
  }

  lemma Shown()
    ensures ShowOctet(192) == "192" && ShowOctet(168) == "168" && ShowOctet(0) == "0" && ShowOctet(10) == "10"
  {
  }

  /** For example. */
  lemma ReverseNameExample()
    ensures ReverseName(Addr(192, 168, 0, 10)) == "10" + "." + "0" + "." + "168" + "." + "192" + ".in-addr.arpa"
  {
    JoinFour(ShowOctet(10), ShowOctet(0), ShowOctet(168), ShowOctet(192));
    Shown();
  }

  lemma TrimAppended(s: string, suffix: string)
    ensures TrimSuffix(s + suffix, suffix) == s && HasSuffix(s + suffix, suffix)
  {
    assert (s + suffix)[|s|..] == suffix;
    assert (s + suffix)[..|s|] == s;
  }

  lemma TrimmedIs(s: string, suffix: string)
    ensures HasSuffix(s, suffix) ==> s == TrimSuffix(s, suffix) + suffix
  {
  }

  /** A name is read as an address exactly when it is the reverse name of that address, with or
      without the final dot. */
  lemma PtrExactly(name: string, ip: Addr)
    ensures PtrToIP(name) == Some(ip) <==> name == ReverseName(ip) || name == ReverseName(ip) + "."
  {
    var octets := [ShowOctet(ip.b3), ShowOctet(ip.b2), ShowOctet(ip.b1), ShowOctet(ip.b0)];
    ShowParses(ip.b0);
    ShowParses(ip.b1);
    ShowParses(ip.b2);
    ShowParses(ip.b3);
    SplitJoin(octets, '.');
    TrimAppended(Join(octets, '.'), ARPA);
    TrimAppended(ReverseName(ip), ".");
    NoFinalDot(Join(octets, '.'));
    if PtrToIP(name) == Some(ip) {
      var ptr := TrimSuffix(name, ".");
      var parts := Split(TrimSuffix(ptr, ARPA), '.');
      ParseShows(parts[0]);
      ParseShows(parts[1]);
      ParseShows(parts[2]);
      ParseShows(parts[3]);
      assert parts == octets;
      JoinSplit(TrimSuffix(ptr, ARPA), '.');
      TrimmedIs(ptr, ARPA);
      TrimmedIs(name, ".");
    }
  }

  lemma NoFinalDot(s: string)
    ensures TrimSuffix(s + ARPA, ".") == s + ARPA
  {
    var t := s + ARPA;
    assert t[|t| - 1] == ARPA[|ARPA| - 1] == 'a';
    assert t[|t| - 1..] == ['a'];
  }

  // ----- The lookups

  /** Any network that has the name answers: the map is walked in no particular order. */
  method LookupA(records: DnsRecords, qname: string) returns (ip: Option<Addr>)
    ensures var name := TrimSuffix(qname, ".");
            match ip
            case Some(a) => exists nid :: Recorded(records, nid, name) && records[nid][name] == a
            case None => forall nid :: !Recorded(records, nid, name)
  {
    var name := TrimSuffix(qname, ".");
    var rest := records.Keys;
    while rest != {}
      invariant rest <= records.Keys
      invariant forall nid :: Recorded(records, nid, name) ==> nid in rest
      decreases |rest|
    {
      var nid :| nid in rest;
      if name in records[nid] {
        assert Recorded(records, nid, name);
        return Some(records[nid][name]);
      }
      rest := rest - {nid};
    }
    return None;
  }

  /** Any record with the address answers. */
  method LookupPTR(records: DnsRecords, qname: string) returns (found: Option<string>)
    ensures match (found, PtrToIP(qname))
            case (Some(name), Some(ip)) => exists nid :: Recorded(records, nid, name) && records[nid][name] == ip
            case (Some(_), None) => false
            case (None, Some(ip)) => forall nid, name :: Recorded(records, nid, name) ==> records[nid][name] != ip
            case (None, None) => true
  {
    var ip := PtrToIP(qname);
    if ip.None? {
      return None;
    }
    var rest := records.Keys;
    while rest != {}
      invariant rest <= records.Keys
      invariant forall nid, name :: Recorded(records, nid, name) && records[nid][name] == ip.value ==> nid in rest
      decreases |rest|
    {
      var nid :| nid in rest;
      var names := records[nid].Keys;
      while names != {}
        invariant names <= records[nid].Keys
        invariant forall name :: name in records[nid] && records[nid][name] == ip.value ==> name in names
        decreases |names|
      {
        var name :| name in names;
        if records[nid][name] == ip.value {
          assert Recorded(records, nid, name);
          return Some(name);
        }
        names := names - {name};
      }
      rest := rest - {nid};
    }
    return None;
  }

  /** In a coherent state the reverse answer is a name of the one endpoint that has the address. */
  lemma ReverseNamesOwner(s: NetState, nid: string, name: string, ip: Addr)
    requires Coherent(s) && Recorded(s.records, nid, name) && s.records[nid][name] == ip
    ensures exists k :: Carries(s, k, nid, name) && s.endpoints[k].ip == ip
                        && forall j :: j in s.endpoints && s.endpoints[j].ip == ip ==> j == k
  {
    var k :| Carries(s, k, nid, name);
    assert s.endpoints[k].ip == ip;
  }

  /** And the address of an endpoint on a user-defined network always has an answer. */
  lemma ReverseFindsEndpoint(s: NetState, k: string)
    requires Coherent(s) && k in s.endpoints && UserDefined(s, s.endpoints[k].networkID)
             && s.endpoints[k].dnsNames != []
    ensures exists nid, name :: Recorded(s.records, nid, name) && s.records[nid][name] == s.endpoints[k].ip
  {
    var ep := s.endpoints[k];
    assert Carries(s, k, ep.networkID, ep.dnsNames[0]);
  }
}
