/** The record cache behind a browse: services by escaped instance name, filled from resource
    records one at a time and swept of what has expired. Times are nanoseconds. */
module BrowseCache {
  import opened Wrappers
  import opened InstanceName

  type IP = seq<int>

  const SECOND: int := 1_000_000_000

  datatype Service = Service(
    name: string, typ: string, domain: string, host: string,
    text: map<string, string>, ttl: int, expiration: int, port: int,
    ips: seq<IP>, ifaceIPs: map<string, seq<IP>>)
  {
    function Identity(): Parsed {
      Parsed(name, typ, domain)
    }

    function EscapedName(): string {
      Print(name, typ, domain)
    }

    function PlainName(): string {
      PrintPlain(name, typ, domain)
    }

    function ServiceName(): string {
      ServiceOf(typ, domain)
    }

    function Hostname(): string {
      host + "." + domain + "."
    }
  }

  type Services = map<string, Service>

  datatype Record =
    | PTR(target: string, ttl: nat)
    | SRV(name: string, target: string, port: nat, ttl: nat)
    | A(name: string, ip: IP)
    | AAAA(name: string, ip: IP)
    | TXT(name: string, txt: seq<string>, ttl: nat)
    | OtherRecord

  // ----- one entry

  function NewService(instance: string): Service {
    var p := Parse(instance);
    Service(p.name, p.typ, p.domain, "", map[], 0, 0, 0, [], map[])
  }

  function FirstLabel(s: string): (l: string)
    ensures l <= s
  {
    if s == "" || s[0] == '.' then "" else [s[0]] + FirstLabel(s[1..])
  }

  function SecondLabel(s: string): string {
    if s == "" then "" else if s[0] == '.' then FirstLabel(s[1..]) else SecondLabel(s[1..])
  }

  /** The host name, kept only when its domain is the service's. */
  function WithHostname(s: Service, hostname: string): Service {
    if SecondLabel(hostname) == s.domain then s.(host := FirstLabel(hostname)) else s
  }

  function WithIP(s: Service, ip: IP, iface: Option<string>): Service {
    var t := s.(ips := s.ips + [ip]);
    if iface.None? then t
    else
      var known := if iface.value in s.ifaceIPs then s.ifaceIPs[iface.value] else [];
      t.(ifaceIPs := s.ifaceIPs[iface.value := known + [ip]])
  }

  function Refreshed(s: Service, ttl: nat, now: int): Service {
    s.(ttl := ttl * SECOND, expiration := now + ttl * SECOND)
  }

  function IndexOfEquals(s: string): Option<nat> {
    if s == "" then None
    else if s[0] == '=' then Some(0)
    else match IndexOfEquals(s[1..]) case None => None case Some(i) => Some(i + 1)
  }

  /** The key and value pairs of a TXT record; of two with one key the later stands. */
  function TextOf(txt: seq<string>): map<string, string> {
    if txt == [] then map[]
    else
      var front, last := TextOf(txt[..|txt| - 1]), txt[|txt| - 1];
      match IndexOfEquals(last)
      case None => front
      case Some(i) => if i < |last| then front[last[..i] := last[i + 1..]] else front
  }

  // ----- one record

  /** The entry a PTR or SRV record is about: looked up by the spelling in the record, but
      stored under the printer's. A goodbye for something unknown is ignored. */
  function EntryFor(services: Services, spelling: string, ttl: nat): Option<(string, Service)> {
    if spelling in services then Some((spelling, services[spelling]))
    else if ttl == 0 then None
    else Some((NewService(spelling).EscapedName(), NewService(spelling)))
  }

  function WithAddress(services: Services, hostname: string, ip: IP, iface: Option<string>): Services {
    map k | k in services ::
      if services[k].Hostname() == hostname then WithIP(services[k], ip, iface) else services[k]
  }

  function Put(services: Services, r: Record, iface: Option<string>, now: int): Services {
    match r
    case PTR(target, ttl) =>
      (match EntryFor(services, target, ttl)
       case None => services
       case Some((key, s)) => services[key := Refreshed(s, ttl, now)])
    case SRV(name, target, port, ttl) =>
      (match EntryFor(services, name, ttl)
       case None => services
       case Some((key, s)) => services[key := Refreshed(WithHostname(s, target), ttl, now).(port := port)])
    case A(name, ip) => WithAddress(services, name, ip, iface)
    case AAAA(name, ip) => WithAddress(services, name, ip, iface)
    case TXT(name, txt, ttl) =>
      if name in services then services[name := Refreshed(services[name].(text := TextOf(txt)), ttl, now)]
      else services
    case OtherRecord => services
  }

  // ----- one message

  /** A message as the cache works through it: its records in the order they are taken, the
      interface it was heard on, the clock as read at each record, and the clock as read
      when each key is checked for expiry afterwards. */
  datatype Message = Message(records: seq<Record>, iface: Option<string>, now: nat -> int, sweep: string -> int)

  function PutAll(services: Services, m: Message, count: nat): Services
    requires count <= |m.records|
  {
    if count == 0 then services
    else Put(PutAll(services, m, count - 1), m.records[count - 1], m.iface, m.now(count - 1))
  }

  lemma PutNone(services: Services, m: Message)
    ensures PutAll(services, m, 0) == services
  {
  }

  lemma PutOneMore(services: Services, m: Message, n: nat)
    requires n < |m.records|
    ensures PutAll(services, m, n + 1) == Put(PutAll(services, m, n), m.records[n], m.iface, m.now(n))
  {
    hide Put;
  }

  function Swept(services: Services, at: string -> int): Services {
    map k | k in services && at(k) <= services[k].expiration :: services[k]
  }

  function Updated(services: Services, m: Message): Services {
    Swept(PutAll(services, m, |m.records|), m.sweep)
  }

  class Cache {
    var services: Services

    constructor ()
      ensures services == map[]
    {
      services := map[];
    }

    /** An address goes to every entry with that host name, whatever order they come in. */
    method AddAddress(hostname: string, ip: IP, iface: Option<string>)
      modifies this
      ensures services == WithAddress(old(services), hostname, ip, iface)
    {
      var todo := services.Keys;
      while todo != {}
        invariant todo <= services.Keys == old(services).Keys
        invariant forall k :: k in services ==>
          services[k] == if k in todo then old(services)[k] else WithAddress(old(services), hostname, ip, iface)[k]
      {
        var key :| key in todo;
        if services[key].Hostname() == hostname {
          services := services[key := WithIP(services[key], ip, iface)];
        }
        todo := todo - {key};
      }
    }

    method PutRecord(r: Record, iface: Option<string>, now: int)
      modifies this
      ensures services == Put(old(services), r, iface, now)
    {
      match r {
        case PTR(target, ttl) =>
          var entry := EntryFor(services, target, ttl);
          if entry.Some? {
            services := services[entry.value.0 := Refreshed(entry.value.1, ttl, now)];
          }
        case SRV(name, target, port, ttl) =>
          var entry := EntryFor(services, name, ttl);
          if entry.Some? {
            var s := WithHostname(entry.value.1, target);
            services := services[entry.value.0 := Refreshed(s, ttl, now).(port := port)];
          }
        case A(name, ip) => AddAddress(name, ip, iface);
        case AAAA(name, ip) => AddAddress(name, ip, iface);
        case TXT(name, txt, ttl) =>
          if name in services {
            services := services[name := Refreshed(services[name].(text := TextOf(txt)), ttl, now)];
          }
        case OtherRecord =>
      }
    }

    method RemoveExpired(at: string -> int)
      modifies this
      ensures services == Swept(old(services), at)
      ensures forall k :: k in services <==> k in old(services) && !(at(k) > old(services)[k].expiration)
      ensures forall k :: k in services ==> services[k] == old(services)[k]
    {
      var todo := services.Keys;
      while todo != {}
        invariant todo <= services.Keys <= old(services).Keys
        invariant forall k :: k in services ==> services[k] == old(services)[k]
        invariant forall k :: k in old(services) && k !in todo ==>
          (k in services <==> at(k) <= old(services)[k].expiration)
      {
        var key :| key in todo;
        if at(key) > services[key].expiration {
          services := services - {key};
        }
        todo := todo - {key};
      }
    }

    method UpdateFrom(m: Message)
      modifies this
      ensures services == Updated(old(services), m)
    {
      for i := 0 to |m.records|
        invariant services == PutAll(old(services), m, i)
      {
        PutRecord(m.records[i], m.iface, m.now(i));
      }
      RemoveExpired(m.sweep);
    }
  }

  // ----- what a record says, exactly

  /** The string gives the key that value: the key, the first equals sign, the value. */
  predicate Gives(s: string, key: string, value: string) {
    s == key + "=" + value && '=' !in key
  }

  /** The string at i is the last to give the key a value, and gives it this one. */
  ghost predicate LastToGive(txt: seq<string>, i: nat, key: string, value: string) {
    && i < |txt| && Gives(txt[i], key, value)
    && forall j, other :: i < j < |txt| ==> !Gives(txt[j], key, other)
  }

  lemma {:induction false} FirstEquals(s: string)
    ensures match IndexOfEquals(s)
            case None => '=' !in s
            case Some(i) => i < |s| && s[i] == '=' && '=' !in s[..i]
  {
    if s != "" && s[0] != '=' {
      FirstEquals(s[1..]);
      assert s == [s[0]] + s[1..];
      match IndexOfEquals(s[1..])
      case None =>
      case Some(i) => assert s[..i + 1] == [s[0]] + s[1..][..i];
    }
  }

  lemma NotInFront(s: string, c: char, n: nat)
    requires n <= |s| && c !in s[..n]
    ensures forall i :: 0 <= i < n ==> s[i] != c
  {
    forall i | 0 <= i < n
      ensures s[i] != c
    {
      assert s[i] == s[..n][i];
    }
  }

  /** One string is cut in one way or in none. */
  lemma GivesWhereItIsCut(s: string, key: string, value: string)
    ensures Gives(s, key, value) <==>
              match IndexOfEquals(s)
              case None => false
              case Some(i) => i < |s| && key == s[..i] && value == s[i + 1..]
  {
    if Gives(s, key, value) {
      assert s[|key|] == '=' && s[..|key|] == key && s[|key| + 1..] == value;
      EqualsIsAt(s, |key|);
    }
    FirstEquals(s);
    match IndexOfEquals(s)
    case None =>
    case Some(i) => assert s == s[..i] + "=" + s[i + 1..];
  }

  lemma EqualsIsAt(s: string, i: nat)
    requires i < |s| && s[i] == '=' && '=' !in s[..i]
    ensures IndexOfEquals(s) == Some(i)
  {
    FirstEquals(s);
    NotInFront(s, '=', i);
    hide IndexOfEquals;
    NotInFront(s, '=', IndexOfEquals(s).value);
  }

  ghost predicate MapsTo(m: map<string, string>, key: string, value: string) {
    key in m && m[key] == value
  }

  ghost predicate GivenLast(txt: seq<string>, key: string, value: string) {
    exists i: nat :: LastToGive(txt, i, key, value)
  }

  lemma {:induction false} TextIs(txt: seq<string>, key: string, value: string)
    ensures MapsTo(TextOf(txt), key, value) <==> GivenLast(txt, key, value)
  {
    if txt != [] {
      var n := |txt| - 1;
      var front, last := txt[..n], txt[n];
      TextIs(front, key, value);
      TextOneMore(txt, key, value);
      forall other
        ensures Gives(last, key, other) <==> match IndexOfEquals(last)
                                             case None => false
                                             case Some(i) => i < |last| && key == last[..i] && other == last[i + 1..]
      {
        GivesWhereItIsCut(last, key, other);
      }
      hide IndexOfEquals, Gives, GivenLast;
      if IndexOfEquals(last).Some? && IndexOfEquals(last).value < |last| && key == last[..IndexOfEquals(last).value] {
        assert Gives(last, key, last[IndexOfEquals(last).value + 1..]);
      }
    }
  }

  lemma TextOneMore(txt: seq<string>, key: string, value: string)
    requires txt != []
    ensures var front, last := txt[..|txt| - 1], txt[|txt| - 1];
            GivenLast(txt, key, value) <==>
              || Gives(last, key, value)
              || ((forall other :: !Gives(last, key, other)) && GivenLast(front, key, value))
  {
    hide Gives;
    var n := |txt| - 1;
    var front := txt[..n];
    if Gives(txt[n], key, value) {
      assert LastToGive(txt, n, key, value);
    }
    if GivenLast(front, key, value) && forall other :: !Gives(txt[n], key, other) {
      var i: nat :| LastToGive(front, i, key, value);
      forall j, other | i < j < |txt|
        ensures !Gives(txt[j], key, other)
      {
        if j < n {
          assert front[j] == txt[j];
        }
      }
      assert LastToGive(txt, i, key, value);
    }
    if GivenLast(txt, key, value) {
      var i: nat :| LastToGive(txt, i, key, value);
      if i < n {
        assert LastToGive(front, i, key, value);
      }
    }
  }

  /** After a TXT record for a cached name its entry's text has exactly the keys the record's
      strings give, each with the value of the last string that gives it; nothing else of the
      entry changes but its time to live. For any other name nothing changes. */
  lemma TxtExactly(services: Services, name: string, txt: seq<string>, ttl: nat, iface: Option<string>, now: int)
    ensures var after := Put(services, TXT(name, txt, ttl), iface, now);
            if name !in services then after == services
            else
              && after == services[name := services[name].(text := after[name].text, ttl := ttl * SECOND,
                                                           expiration := now + ttl * SECOND)]
              && forall key, value :: MapsTo(after[name].text, key, value) <==> GivenLast(txt, key, value)
  {
    forall key, value
      ensures MapsTo(TextOf(txt), key, value) <==> GivenLast(txt, key, value)
    {
      TextIs(txt, key, value);
    }
    hide MapsTo, GivenLast, TextOf;
  }

  /** The first two labels of a host name as it is written, the second empty if there is none. */
  predicate Labels(hostname: string, first: string, second: string) {
    && DotFree(first) && DotFree(second)
    && if hostname == first then second == ""
       else first + "." + second <= hostname
            && (hostname == first + "." + second || hostname[|first| + 1 + |second|] == '.')
  }

  lemma {:induction false} FirstLabelIs(s: string)
    ensures var l := FirstLabel(s);
            DotFree(l) && l <= s && (s == l || s[|l|] == '.')
  {
    if s != "" && s[0] != '.' {
      FirstLabelIs(s[1..]);
      assert s == [s[0]] + s[1..];
    }
  }

  lemma {:induction false} SecondLabelIs(s: string)
    ensures var l := FirstLabel(s);
            SecondLabel(s) == if s == l then "" else FirstLabel(s[|l| + 1..])
  {
    FirstLabelIs(s);
    if s != "" && s[0] != '.' {
      SecondLabelIs(s[1..]);
      var l := FirstLabel(s[1..]);
      FirstLabelIs(s[1..]);
      assert s == [s[0]] + s[1..];
      if s[1..] != l {
        assert s[|l| + 2..] == s[1..][|l| + 1..];
      }
    }
  }

  lemma HasItsLabels(hostname: string)
    ensures Labels(hostname, FirstLabel(hostname), SecondLabel(hostname))
  {
    var l, m := FirstLabel(hostname), SecondLabel(hostname);
    FirstLabelIs(hostname);
    SecondLabelIs(hostname);
    hide FirstLabel, SecondLabel;
    if hostname != l {
      var rest := hostname[|l| + 1..];
      FirstLabelIs(rest);
      assert hostname == l + "." + rest;
      assert rest == m + rest[|m|..];
    }
  }

  lemma OnlyLabels(hostname: string, l: string, m: string, first: string, second: string)
    requires Labels(hostname, l, m) && Labels(hostname, first, second)
    ensures first == l && second == m
  {
    LabelIsFirst(hostname, first, l);
    if hostname != l {
      var rest := hostname[|l| + 1..];
      RestStarts(hostname, l, m);
      RestStarts(hostname, l, second);
      LabelIsFirst(rest, second, m);
    }
  }

  lemma RestStarts(hostname: string, l: string, m: string)
    requires Labels(hostname, l, m) && hostname != l
    ensures var rest := hostname[|l| + 1..]; m <= rest && (rest == m || rest[|m|] == '.')
  {
    var rest := hostname[|l| + 1..];
    assert hostname == l + "." + rest;
  }

  lemma LabelIsFirst(s: string, l: string, m: string)
    requires DotFree(l) && l <= s && (s == l || s[|l|] == '.')
    requires DotFree(m) && m <= s && (s == m || s[|m|] == '.')
    ensures l == m
  {
    assert forall i :: 0 <= i < |l| ==> s[i] == l[i] && l[i] != '.';
    assert forall i :: 0 <= i < |m| ==> s[i] == m[i] && m[i] != '.';
  }

  /** After an SRV record for a known name its entry has the record's port, and for its host
      the target's first label if the second is the service's domain; nothing else changes
      but the time to live. */
  lemma SrvExactly(services: Services, name: string, target: string, port: nat, ttl: nat, iface: Option<string>, now: int,
                   first: string, second: string)
    requires Labels(target, first, second)
    ensures var after := Put(services, SRV(name, target, port, ttl), iface, now);
            if name in services then
              after == services[name := services[name].(
                host := if second == services[name].domain then first else services[name].host,
                port := port, ttl := ttl * SECOND, expiration := now + ttl * SECOND)]
            else if ttl == 0 then after == services
            else
              var p := Parse(name);
              var key := Print(p.name, p.typ, p.domain);
              after == services[key := Service(p.name, p.typ, p.domain, if second == p.domain then first else "",
                                               map[], ttl * SECOND, now + ttl * SECOND, port, [], map[])]
  {
    if name in services {
      HostExactly(services[name], target, first, second);
    }
    HostExactly(NewService(name), target, first, second);
    hide Parse, Print, WithHostname, Labels;
  }

  lemma HostExactly(s: Service, target: string, first: string, second: string)
    requires Labels(target, first, second)
    ensures WithHostname(s, target) == s.(host := if second == s.domain then first else s.host)
  {
    HasItsLabels(target);
    OnlyLabels(target, FirstLabel(target), SecondLabel(target), first, second);
  }

  /** A PTR record refreshes a known name, or stores a new entry with nothing in it. */
  lemma PtrExactly(services: Services, target: string, ttl: nat, iface: Option<string>, now: int)
    ensures var after := Put(services, PTR(target, ttl), iface, now);
            if target in services then
              after == services[target := services[target].(ttl := ttl * SECOND, expiration := now + ttl * SECOND)]
            else if ttl == 0 then after == services
            else
              var p := Parse(target);
              after == services[Print(p.name, p.typ, p.domain) :=
                Service(p.name, p.typ, p.domain, "", map[], ttl * SECOND, now + ttl * SECOND, 0, [], map[])]
  {
    hide Parse, Print;
  }

  /** An address record appends its address to every entry of the host and to no other: to
      all its addresses, and to those on the interface, if the message came in on one. */
  lemma AddressExactly(services: Services, hostname: string, ip: IP, iface: Option<string>, now: int, k: string)
    requires k in services
    ensures forall r :: r == A(hostname, ip) || r == AAAA(hostname, ip) ==>
              var after := Put(services, r, iface, now);
              && after.Keys == services.Keys
              && if services[k].host + "." + services[k].domain + "." != hostname then after[k] == services[k]
                 else
                   && after[k] == services[k].(ips := services[k].ips + [ip], ifaceIPs := after[k].ifaceIPs)
                   && (iface == None ==> after[k].ifaceIPs == services[k].ifaceIPs)
                   && (iface.Some? ==>
                         after[k].ifaceIPs == services[k].ifaceIPs[iface.value :=
                           (if iface.value in services[k].ifaceIPs then services[k].ifaceIPs[iface.value] else []) + [ip]])
  {
  }

  // ----- keys and their entries

  /** Every key is the printer's spelling of its entry, whose name the parser gave. */
  ghost predicate KeysMatch(services: Services) {
    forall k :: k in services ==> k == services[k].EscapedName() && FromParser(services[k].Identity())
  }

  lemma StoringKeepsKeys(services: Services, k: string, s: Service)
    requires KeysMatch(services) && k == s.EscapedName() && FromParser(s.Identity())
    ensures KeysMatch(services[k := s])
  {
    hide Print, FromParser;
  }

  lemma AddressKeepsKeys(services: Services, hostname: string, ip: IP, iface: Option<string>)
    requires KeysMatch(services)
    ensures KeysMatch(WithAddress(services, hostname, ip, iface))
  {
    hide Print, FromParser;
    var after := WithAddress(services, hostname, ip, iface);
    forall k | k in after
      ensures after[k].Identity() == services[k].Identity()
    {
      assert WithIP(services[k], ip, iface).Identity() == services[k].Identity();
    }
  }

  /** The entry a record is about, and any change of it but of its name, is stored under the
      key it has. */
  lemma EntryForKeepsKeys(services: Services, spelling: string, ttl: nat, s: Service)
    requires KeysMatch(services) && EntryFor(services, spelling, ttl).Some?
    requires s.Identity() == EntryFor(services, spelling, ttl).value.1.Identity()
    ensures KeysMatch(services[EntryFor(services, spelling, ttl).value.0 := s])
  {
    hide Print, Parse, FromParser;
    ParseIsFromParser(spelling);
    StoringKeepsKeys(services, EntryFor(services, spelling, ttl).value.0, s);
  }

  lemma PutKeepsKeys(services: Services, r: Record, iface: Option<string>, now: int)
    requires KeysMatch(services)
    ensures KeysMatch(Put(services, r, iface, now))
  {
    hide KeysMatch, EntryFor;
    match r
    case PTR(spelling, ttl) =>
      if EntryFor(services, spelling, ttl).Some? {
        EntryForKeepsKeys(services, spelling, ttl, Refreshed(EntryFor(services, spelling, ttl).value.1, ttl, now));
      }
    case SRV(spelling, target, port, ttl) =>
      if EntryFor(services, spelling, ttl).Some? {
        var s := WithHostname(EntryFor(services, spelling, ttl).value.1, target);
        EntryForKeepsKeys(services, spelling, ttl, Refreshed(s, ttl, now).(port := port));
      }
    case A(name, ip) => AddressKeepsKeys(services, name, ip, iface);
    case AAAA(name, ip) => AddressKeepsKeys(services, name, ip, iface);
    case TXT(name, txt, ttl) => TextKeepsKeys(services, name, txt, ttl, iface, now);
    case OtherRecord =>
  }

  lemma TextKeepsKeys(services: Services, name: string, txt: seq<string>, ttl: nat, iface: Option<string>, now: int)
    requires KeysMatch(services)
    ensures KeysMatch(Put(services, TXT(name, txt, ttl), iface, now))
  {
    hide Print, FromParser;
  }

  lemma {:induction false} PutAllKeepsKeys(services: Services, m: Message, count: nat)
    requires KeysMatch(services) && count <= |m.records|
    ensures KeysMatch(PutAll(services, m, count))
  {
    hide Put, PutAll, KeysMatch;
    if count == 0 {
      PutNone(services, m);
    } else {
      PutAllKeepsKeys(services, m, count - 1);
      PutOneMore(services, m, count - 1);
      PutKeepsKeys(PutAll(services, m, count - 1), m.records[count - 1], m.iface, m.now(count - 1));
    }
  }

  /** Whatever spellings a message uses, every key stays the printer's spelling of its entry. */
  lemma UpdatedKeepsKeys(services: Services, m: Message)
    requires KeysMatch(services)
    ensures KeysMatch(Updated(services, m))
  {
    PutAllKeepsKeys(services, m, |m.records|);
  }

  /** So one key stands for one instance before and after. */
  lemma SameKeySameIdentity(before: Services, after: Services, k: string)
    requires KeysMatch(before) && KeysMatch(after) && k in before && k in after
    ensures before[k].Identity() == after[k].Identity()
  {
    PrintInjective(before[k].Identity(), after[k].Identity());
  }

  // ----- how an entry loses an interface

  /** A record that stores a fresh entry over a known one: its spelling is no key, but the
      printer's spelling of the same name is. */
  predicate Replaces(services: Services, r: Record, k: string) {
    match r
    case PTR(spelling, ttl) =>
      ttl > 0 && spelling !in services && k in services && k == NewService(spelling).EscapedName()
    case SRV(spelling, _, _, ttl) =>
      ttl > 0 && spelling !in services && k in services && k == NewService(spelling).EscapedName()
    case _ => false
  }

  /** A record that gives a known entry an address on the interface it was heard on. */
  predicate GivesAddress(services: Services, r: Record, from: Option<string>, k: string, iface: string) {
    match r
    case A(host, _) => k in services && services[k].Hostname() == host && from == Some(iface)
    case AAAA(host, _) => k in services && services[k].Hostname() == host && from == Some(iface)
    case _ => false
  }

  /** The record at j replaces the entry, and no later one gives it the interface back. */
  predicate LostAt(services: Services, m: Message, count: nat, k: string, iface: string, j: nat)
    requires count <= |m.records|
  {
    && j < count && Replaces(PutAll(services, m, j), m.records[j], k)
    && forall a :: j < a < count ==> !GivesAddress(PutAll(services, m, a), m.records[a], m.iface, k, iface)
  }

  lemma PutInterfaces(services: Services, r: Record, from: Option<string>, now: int, k: string, iface: string)
    requires k in services
    ensures var after := Put(services, r, from, now);
            && k in after
            && (iface in after[k].ifaceIPs <==>
                  || GivesAddress(services, r, from, k, iface)
                  || (iface in services[k].ifaceIPs && !Replaces(services, r, k)))
  {
    hide Parse, Print;
  }

  /** The same, record by record. */
  predicate LostBy(services: Services, m: Message, count: nat, k: string, iface: string)
    requires count <= |m.records|
  {
    count > 0 &&
    var before, r := PutAll(services, m, count - 1), m.records[count - 1];
    && !GivesAddress(before, r, m.iface, k, iface)
    && (Replaces(before, r, k) || LostBy(services, m, count - 1, k, iface))
  }

  lemma {:induction false} PutAllLoses(services: Services, m: Message, count: nat, k: string, iface: string)
    requires k in services && iface in services[k].ifaceIPs && count <= |m.records|
    ensures k in PutAll(services, m, count)
    ensures iface !in PutAll(services, m, count)[k].ifaceIPs <==> LostBy(services, m, count, k, iface)
  {
    if count > 0 {
      var n := count - 1;
      PutOneMore(services, m, n);
      hide Put, PutAll, Replaces, GivesAddress;
      PutAllLoses(services, m, n, k, iface);
      PutInterfaces(PutAll(services, m, n), m.records[n], m.iface, m.now(n), k, iface);
    }
  }

  lemma LostAtOneMore(services: Services, m: Message, n: nat, k: string, iface: string, j: nat)
    requires n < |m.records|
    ensures var before, r := PutAll(services, m, n), m.records[n];
            LostAt(services, m, n + 1, k, iface, j) <==>
              || (j == n && Replaces(before, r, k))
              || (LostAt(services, m, n, k, iface, j) && !GivesAddress(before, r, m.iface, k, iface))
  {
    hide PutAll, Replaces, GivesAddress;
    if j < n && LostAt(services, m, n + 1, k, iface, j) {
      assert !GivesAddress(PutAll(services, m, n), m.records[n], m.iface, k, iface);
    }
  }

  ghost predicate LostSomewhere(services: Services, m: Message, count: nat, k: string, iface: string)
    requires count <= |m.records|
  {
    exists j: nat :: LostAt(services, m, count, k, iface, j)
  }

  lemma LostSomewhereOneMore(services: Services, m: Message, n: nat, k: string, iface: string)
    requires n < |m.records|
    ensures var before, r := PutAll(services, m, n), m.records[n];
            LostSomewhere(services, m, n + 1, k, iface) <==>
              || Replaces(before, r, k)
              || (LostSomewhere(services, m, n, k, iface) && !GivesAddress(before, r, m.iface, k, iface))
  {
    hide PutAll, Replaces, GivesAddress, LostAt;
    LostAtOneMore(services, m, n, k, iface, n);
    if LostSomewhere(services, m, n + 1, k, iface) {
      var j: nat :| LostAt(services, m, n + 1, k, iface, j);
      LostAtOneMore(services, m, n, k, iface, j);
    }
    if LostSomewhere(services, m, n, k, iface) {
      var j: nat :| LostAt(services, m, n, k, iface, j);
      LostAtOneMore(services, m, n, k, iface, j);
    }
  }

  lemma {:induction false} LostSomewhereIff(services: Services, m: Message, count: nat, k: string, iface: string)
    requires count <= |m.records|
    ensures LostBy(services, m, count, k, iface) <==> LostSomewhere(services, m, count, k, iface)
  {
    if count > 0 {
      hide PutAll, Replaces, GivesAddress, LostSomewhere;
      LostSomewhereIff(services, m, count - 1, k, iface);
      LostSomewhereOneMore(services, m, count - 1, k, iface);
      if Replaces(PutAll(services, m, count - 1), m.records[count - 1], k) {
        ReplacingGivesNothing(PutAll(services, m, count - 1), m.records[count - 1], m.iface, k, iface);
      }
    }
  }

  lemma ReplacingGivesNothing(services: Services, r: Record, from: Option<string>, k: string, iface: string)
    requires Replaces(services, r, k)
    ensures !GivesAddress(services, r, from, k, iface)
  {
  }

  /** Some record of the message replaces the entry, and no later one gives the interface back. */
  ghost predicate Loses(services: Services, m: Message, k: string, iface: string) {
    LostSomewhere(services, m, |m.records|, k, iface)
  }

  /** An entry that survives a message has lost an interface exactly when a record under
      another spelling replaced it and no later address record gave it back. */
  lemma LosesExactly(services: Services, m: Message, k: string, iface: string)
    requires k in services && iface in services[k].ifaceIPs && k in Updated(services, m)
    ensures iface !in Updated(services, m)[k].ifaceIPs <==> Loses(services, m, k, iface)
  {
    hide PutAll, LostSomewhere, LostBy;
    PutAllLoses(services, m, |m.records|, k, iface);
    LostSomewhereIff(services, m, |m.records|, k, iface);
  }

  // ----- spellings

  predicate RecordCanonical(r: Record) {
    match r
    case PTR(target, _) => Canonical(target)
    case SRV(name, _, _, _) => Canonical(name)
    case _ => true
  }

  ghost predicate MessageCanonical(m: Message) {
    forall i :: 0 <= i < |m.records| ==> RecordCanonical(m.records[i])
  }

  /** A record in the printer's spelling replaces nothing, so a message of such records loses
      nothing. */
  lemma CanonicalLosesNothing(services: Services, m: Message, k: string, iface: string)
    requires MessageCanonical(m)
    ensures !Loses(services, m, k, iface)
  {
    hide PutAll;
    forall j: nat | j < |m.records|
      ensures !Replaces(PutAll(services, m, j), m.records[j], k)
    {
      CanonicalReplacesNothing(PutAll(services, m, j), m.records[j], k);
    }
  }

  lemma CanonicalReplacesNothing(services: Services, r: Record, k: string)
    requires RecordCanonical(r)
    ensures !Replaces(services, r, k)
  {
  }

  /** Any other spelling of a known name replaces the entry, addresses and all, although
      something is known under the very name it is stored by. */
  lemma OtherSpellingReplaces(services: Services, spelling: string, ttl: nat, iface: Option<string>, now: int)
    requires spelling !in services && ttl > 0
    ensures var key := NewService(spelling).EscapedName();
            var after := Put(services, PTR(spelling, ttl), iface, now);
            key in after && after[key].ifaceIPs == map[] && after[key].ips == []
    ensures NewService(spelling).EscapedName() in services ==> !Canonical(spelling)
  {
  }

  // ----- time to live (section 10.1 of RFC 6762)

  /** A record with a time to live of zero that comes last for a name takes it out of the
      cache by the end of the message, once the clock has moved on; one with time left keeps
      it until then. */
  lemma GoodbyeRemoves(services: Services, m: Message, k: string, ttl: nat)
    requires m.records != [] && m.records[|m.records| - 1] == PTR(k, ttl) && Canonical(k)
    ensures var last := m.now(|m.records| - 1);
            && (ttl == 0 && m.sweep(k) > last ==> k !in Updated(services, m))
            && (ttl > 0 ==> (k in Updated(services, m) <==> m.sweep(k) <= last + ttl * SECOND))
  {
    var n := |m.records| - 1;
    var before := PutAll(services, m, n);
    assert PutAll(services, m, n + 1) == Put(before, PTR(k, ttl), m.iface, m.now(n));
    assert NewService(k).EscapedName() == k;
  }
}
