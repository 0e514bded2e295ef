/** The browse loop: a list of entries kept in step with the cache through add and remove
    callbacks, one pair of callbacks per instance and interface. */
module BrowseLoop {
  import opened InstanceName
  import opened BrowseCache

  datatype BrowseEntry = BrowseEntry(
    ips: seq<IP>, host: string, port: int, ifaceName: string,
    name: string, typ: string, domain: string, text: map<string, string>)
  {
    function Identity(): Parsed {
      Parsed(name, typ, domain)
    }

    function PlainName(): string {
      PrintPlain(name, typ, domain)
    }

    function Pair(): (string, string) {
      (name, ifaceName)
    }
  }

  datatype Callback = Add(entry: BrowseEntry) | Rmv(entry: BrowseEntry)

  function EntryOf(s: Service, iface: string): BrowseEntry
    requires iface in s.ifaceIPs
  {
    BrowseEntry(s.ifaceIPs[iface], s.host, s.port, iface, s.name, s.typ, s.domain, s.text)
  }

  // ----- what the list is to be

  /** An instance of the browsed service with an address on an interface. */
  predicate Offered(services: Services, service: string, k: string, iface: string) {
    k in services && services[k].ServiceName() == service && iface in services[k].ifaceIPs
  }

  ghost predicate IsOffered(services: Services, service: string, pair: (string, string)) {
    exists k :: Offered(services, service, k, pair.1) && services[k].name == pair.0
  }

  ghost predicate HasPair(es: seq<BrowseEntry>, pair: (string, string)) {
    exists i :: 0 <= i < |es| && es[i].Pair() == pair
  }

  ghost predicate PairsDistinct(es: seq<BrowseEntry>) {
    forall i, j :: 0 <= i < j < |es| ==> es[i].Pair() != es[j].Pair()
  }

  /** The list is exactly the set of pairs the cache offers, each once. */
  ghost predicate InStep(es: seq<BrowseEntry>, services: Services, service: string) {
    && PairsDistinct(es)
    && forall pair :: HasPair(es, pair) <==> IsOffered(services, service, pair)
  }

  // ----- what the callbacks say

  /** The entries somebody who only saw the callbacks would have left. */
  ghost function Fold(log: seq<Callback>): set<BrowseEntry> {
    if log == [] then {}
    else
      var before := Fold(log[..|log| - 1]);
      match log[|log| - 1]
      case Add(e) => before + {e}
      case Rmv(e) => before - {e}
  }

  /** Per pair the callbacks alternate: an add only when no entry stands for the pair, a
      remove only of the very entry that was added. */
  ghost predicate Alternates(log: seq<Callback>) {
    log == [] ||
    (var front := log[..|log| - 1];
     Alternates(front) &&
     match log[|log| - 1]
     case Add(e) => forall f :: f in Fold(front) ==> f.Pair() != e.Pair()
     case Rmv(e) => e in Fold(front))
  }

  ghost function Entries(es: seq<BrowseEntry>): set<BrowseEntry> {
    set e | e in es
  }

  /** The callbacks so far alternate, and what they leave is the list, each pair once. */
  ghost predicate Consistent(es: seq<BrowseEntry>, log: seq<Callback>) {
    Alternates(log) && Fold(log) == Entries(es) && PairsDistinct(es)
  }

  lemma AddCallback(log: seq<Callback>, es: seq<BrowseEntry>, e: BrowseEntry)
    requires Consistent(es, log) && !HasPair(es, e.Pair())
    ensures Consistent(es + [e], log + [Add(e)])
    ensures forall pair :: HasPair(es + [e], pair) <==> HasPair(es, pair) || pair == e.Pair()
  {
    assert (log + [Add(e)])[..|log|] == log;
    assert forall f :: f in es ==> HasPair(es, f.Pair());
    forall pair
      ensures HasPair(es + [e], pair) <==> HasPair(es, pair) || pair == e.Pair()
    {
      if HasPair(es, pair) {
        var i :| 0 <= i < |es| && es[i].Pair() == pair;
        assert (es + [e])[i].Pair() == pair;
      }
      assert (es + [e])[|es|].Pair() == e.Pair();
    }
    forall i, j | 0 <= i < j < |es + [e]|
      ensures (es + [e])[i].Pair() != (es + [e])[j].Pair()
    {
      if j == |es| {
        assert HasPair(es, es[i].Pair());
      }
    }
  }

  lemma RmvCallback(log: seq<Callback>, kept: seq<BrowseEntry>, e: BrowseEntry, rest: seq<BrowseEntry>)
    requires Consistent(kept + [e] + rest, log)
    ensures Consistent(kept + rest, log + [Rmv(e)])
  {
    var all := kept + [e] + rest;
    assert (log + [Rmv(e)])[..|log|] == log;
    assert all[|kept|] == e;
    forall f
      ensures f in all && f != e <==> f in kept + rest
    {
      if f in kept + rest {
        var i :| 0 <= i < |kept + rest| && (kept + rest)[i] == f;
        var j := if i < |kept| then i else i + 1;
        assert all[j] == f && j != |kept|;
        assert all[j].Pair() != all[|kept|].Pair();
      }
      if f in all && f != e {
        var j :| 0 <= j < |all| && all[j] == f;
        assert (kept + rest)[if j < |kept| then j else j - 1] == f;
      }
    }
    forall i, j | 0 <= i < j < |kept + rest|
      ensures (kept + rest)[i].Pair() != (kept + rest)[j].Pair()
    {
      var i', j' := if i < |kept| then i else i + 1, if j < |kept| then j else j + 1;
      assert all[i'] == (kept + rest)[i] && all[j'] == (kept + rest)[j];
    }
  }

  // ----- the list against one cache

  /** Entries come from names that were parsed, for the browsed service. */
  ghost predicate EntriesParsed(es: seq<BrowseEntry>, service: string) {
    forall i :: 0 <= i < |es| ==> WellShaped(es[i].Identity()) && ServiceOf(es[i].typ, es[i].domain) == service
  }

  /** Whether an entry is one to keep: some cached service has its unescaped name. */
  predicate StillThere(services: Services, e: BrowseEntry) {
    exists k :: k in services && services[k].PlainName() == e.PlainName()
  }

  /** An entry is kept exactly when the cache still has the key the printer gives its name. */
  lemma StillThereIffKey(services: Services, e: BrowseEntry)
    requires KeysMatch(services) && WellShaped(e.Identity())
    ensures StillThere(services, e) <==> Print(e.name, e.typ, e.domain) in services
                                         && services[Print(e.name, e.typ, e.domain)].Identity() == e.Identity()
  {
    if StillThere(services, e) {
      var k :| k in services && services[k].PlainName() == e.PlainName();
      PrintPlainInjective(services[k].Identity(), e.Identity());
    }
  }

  /** A service and an entry of one service name and one name are one cache entry. */
  lemma OneKey(services: Services, service: string, k: string, e: BrowseEntry)
    requires KeysMatch(services) && k in services && services[k].ServiceName() == service
    requires WellShaped(e.Identity()) && ServiceOf(e.typ, e.domain) == service && services[k].name == e.name
    ensures services[k].Identity() == e.Identity() && k == Print(e.name, e.typ, e.domain)
    ensures StillThere(services, e)
  {
    ServiceOfInjective(services[k].Identity(), e.Identity());
  }

  // ----- the loop

  /** An entry as the cache has it now. */
  ghost predicate FromCache(services: Services, service: string, e: BrowseEntry) {
    exists k :: k in services && services[k].typ + "." + services[k].domain + "." == service
                && e.ifaceName in services[k].ifaceIPs
                && e == BrowseEntry(services[k].ifaceIPs[e.ifaceName], services[k].host, services[k].port, e.ifaceName,
                                    services[k].name, services[k].typ, services[k].domain, services[k].text)
  }

  method FindPair(es: seq<BrowseEntry>, name: string, iface: string) returns (found: bool)
    ensures found <==> HasPair(es, (name, iface))
  {
    for i := 0 to |es|
      invariant forall j :: 0 <= j < i ==> es[j].Pair() != (name, iface)
    {
      if es[i].name == name && es[i].ifaceName == iface {
        assert es[i].Pair() == (name, iface);
        return true;
      }
    }
    return false;
  }

  lemma NewEntryParsed(services: Services, service: string, k: string, iface: string, es: seq<BrowseEntry>)
    requires KeysMatch(services) && Offered(services, service, k, iface) && EntriesParsed(es, service)
    ensures EntriesParsed(es + [EntryOf(services[k], iface)], service)
  {
  }

  /** One pair: an entry is appended and announced if there is none. */
  method AddIfMissing(services: Services, service: string, k: string, iface: string,
                      es0: seq<BrowseEntry>, log0: seq<Callback>)
    returns (es: seq<BrowseEntry>, log: seq<Callback>)
    requires Offered(services, service, k, iface) && Consistent(es0, log0)
    ensures Consistent(es, log)
    ensures KeysMatch(services) && EntriesParsed(es0, service) ==> EntriesParsed(es, service)
    ensures if HasPair(es0, (services[k].name, iface)) then es == es0 && log == log0
            else es == es0 + [EntryOf(services[k], iface)] && log == log0 + [Add(EntryOf(services[k], iface))]
    ensures forall pair :: HasPair(es, pair) <==> HasPair(es0, pair) || pair == (services[k].name, iface)
  {
    hide Consistent, EntriesParsed, KeysMatch;
    var s := services[k];
    var found := FindPair(es0, s.name, iface);
    es, log := es0, log0;
    if !found {
      var e := EntryOf(s, iface);
      if KeysMatch(services) && EntriesParsed(es, service) {
        NewEntryParsed(services, service, k, iface, es);
      }
      AddCallback(log, es, e);
      es := es + [e];
      log := log + [Add(e)];
    }
  }

  lemma OfferedNow(services: Services, service: string, k: string, iface: string)
    requires Offered(services, service, k, iface)
    ensures IsOffered(services, service, (services[k].name, iface))
    ensures FromCache(services, service, EntryOf(services[k], iface))
  {
  }

  lemma AllOffered(services: Services, service: string, es: seq<BrowseEntry>)
    requires forall k, iface :: Offered(services, service, k, iface) ==> HasPair(es, (services[k].name, iface))
    ensures forall pair :: IsOffered(services, service, pair) ==> HasPair(es, pair)
  {
    forall pair | IsOffered(services, service, pair)
      ensures HasPair(es, pair)
    {
      var k :| Offered(services, service, k, pair.1) && services[k].name == pair.0;
      assert (services[k].name, pair.1) == pair;
    }
  }

  /** Adds, in whatever order the cache gives its services and their interfaces, an entry for
      every pair that has none. */
  method AddMissing(services: Services, service: string, es0: seq<BrowseEntry>, log0: seq<Callback>)
    returns (es: seq<BrowseEntry>, log: seq<Callback>)
    requires Consistent(es0, log0)
    ensures Consistent(es, log) && es0 <= es && log0 <= log
    ensures KeysMatch(services) && EntriesParsed(es0, service) ==> EntriesParsed(es, service)
    ensures forall pair :: HasPair(es, pair) <==> HasPair(es0, pair) || IsOffered(services, service, pair)
    ensures forall i :: |es0| <= i < |es| ==> FromCache(services, service, es[i])
    ensures forall i :: |log0| <= i < |log| ==> log[i].Add? && FromCache(services, service, log[i].entry)
  {
    hide Consistent, EntriesParsed, KeysMatch, HasPair, IsOffered, FromCache;
    es, log := es0, log0;
    var todo := set k, iface | k in services && iface in services[k].ifaceIPs && services[k].ServiceName() == service
                  :: (k, iface);
    while todo != {}
      invariant forall t :: t in todo ==> Offered(services, service, t.0, t.1)
      invariant Consistent(es, log) && es0 <= es && log0 <= log
      invariant KeysMatch(services) && EntriesParsed(es0, service) ==> EntriesParsed(es, service)
      invariant forall pair :: HasPair(es0, pair) ==> HasPair(es, pair)
      invariant forall pair :: HasPair(es, pair) ==> HasPair(es0, pair) || IsOffered(services, service, pair)
      invariant forall k, iface :: Offered(services, service, k, iface) && (k, iface) !in todo
                  ==> HasPair(es, (services[k].name, iface))
      invariant forall i :: |es0| <= i < |es| ==> FromCache(services, service, es[i])
      invariant forall i :: |log0| <= i < |log| ==> log[i].Add? && FromCache(services, service, log[i].entry)
    {
      var next :| next in todo;
      var (k, iface) := next;
      OfferedNow(services, service, k, iface);
      es, log := AddIfMissing(services, service, k, iface, es, log);
      todo := todo - {next};
    }
    AllOffered(services, service, es);
  }

  /** The entries some cached service is named like, in their order. */
  function Staying(services: Services, es: seq<BrowseEntry>): seq<BrowseEntry> {
    if es == [] then []
    else
      var n := |es| - 1;
      Staying(services, es[..n]) + if StillThere(services, es[n]) then [es[n]] else []
  }

  lemma {:induction false} StayingExactly(services: Services, es: seq<BrowseEntry>, e: BrowseEntry)
    ensures e in Staying(services, es) <==> e in es && StillThere(services, e)
  {
    if es != [] {
      hide StillThere;
      var n := |es| - 1;
      StayingExactly(services, es[..n], e);
      assert es == es[..n] + [es[n]];
    }
  }

  lemma OneFurther(es: seq<BrowseEntry>, es0: seq<BrowseEntry>, i: nat)
    requires i < |es0|
    ensures es + es0[i..] == es + [es0[i]] + es0[i + 1..]
    ensures es0[..i + 1][..i] == es0[..i]
  {
  }

  /** Drops every entry no cached service is named like any more, keeping the order of the rest. */
  method DropGone(services: Services, es0: seq<BrowseEntry>, log0: seq<Callback>)
    returns (es: seq<BrowseEntry>, log: seq<Callback>)
    requires Consistent(es0, log0)
    ensures Consistent(es, log) && log0 <= log
    ensures forall i :: |log0| <= i < |log| ==> log[i].Rmv?
    ensures es == Staying(services, es0)
  {
    hide Consistent, StillThere;
    es, log := [], log0;
    assert [] + es0[0..] == es0;
    for i := 0 to |es0|
      invariant Consistent(es + es0[i..], log) && log0 <= log
      invariant forall j :: |log0| <= j < |log| ==> log[j].Rmv?
      invariant es == Staying(services, es0[..i])
    {
      var e := es0[i];
      OneFurther(es, es0, i);
      if StillThere(services, e) {
        es := es + [e];
      } else {
        RmvCallback(log, es, e, es0[i + 1..]);
        log := log + [Rmv(e)];
      }
    }
    assert es + es0[|es0|..] == es;
    assert es0[..|es0|] == es0;
  }

  ghost function CacheAfter(messages: seq<Message>): Services {
    if messages == [] then map[]
    else Updated(CacheAfter(messages[..|messages| - 1]), messages[|messages| - 1])
  }

  lemma {:induction false} CacheKeysMatch(messages: seq<Message>)
    ensures KeysMatch(CacheAfter(messages))
  {
    if messages != [] {
      CacheKeysMatch(messages[..|messages| - 1]);
      UpdatedKeepsKeys(CacheAfter(messages[..|messages| - 1]), messages[|messages| - 1]);
    }
  }

  // ----- what the list is, exactly

  /** The key has been in the cache, as an instance of the service, ever since a message after
      which it had an address on the interface. */
  ghost predicate OfferedSince(messages: seq<Message>, service: string, k: string, iface: string) {
    messages != [] &&
    var after := CacheAfter(messages);
    && k in after && after[k].ServiceName() == service
    && (iface in after[k].ifaceIPs || OfferedSince(messages[..|messages| - 1], service, k, iface))
  }

  ghost predicate IsOfferedSince(messages: seq<Message>, service: string, pair: (string, string)) {
    exists k :: OfferedSince(messages, service, k, pair.1) && CacheAfter(messages)[k].name == pair.0
  }

  /** Whatever is announced is, field by field, what the cache held after one of the messages. */
  ghost predicate AnnouncesTheCache(log: seq<Callback>, messages: seq<Message>, count: nat, service: string)
    requires count <= |messages|
  {
    forall j :: 0 <= j < |log| && log[j].Add? ==> WasCached(messages, count, service, log[j].entry)
  }

  ghost predicate WasCached(messages: seq<Message>, count: nat, service: string, e: BrowseEntry)
    requires count <= |messages|
  {
    exists n: nat :: n <= count && FromCache(CacheAfter(messages[..n]), service, e)
  }

  lemma AnnouncesOneMore(before: seq<Callback>, added: seq<Callback>, log: seq<Callback>, messages: seq<Message>,
                         i: nat, service: string)
    requires i < |messages| && AnnouncesTheCache(before, messages, i, service) && before <= added <= log
    requires forall j :: |before| <= j < |added| ==>
                           log[j].Add? && FromCache(CacheAfter(messages[..i + 1]), service, added[j].entry)
    requires forall j :: |added| <= j < |log| ==> log[j].Rmv?
    ensures AnnouncesTheCache(log, messages, i + 1, service)
  {
    hide FromCache, CacheAfter;
    forall j | 0 <= j < |log| && log[j].Add?
      ensures WasCached(messages, i + 1, service, log[j].entry)
    {
      if j < |before| {
        assert log[j] == before[j];
        assert WasCached(messages, i, service, before[j].entry);
      } else {
        assert log[j] == added[j];
      }
    }
  }

  /** The list holds exactly the pairs offered since the instance was last unknown, each once. */
  ghost predicate ListsOfferedSince(es: seq<BrowseEntry>, messages: seq<Message>, service: string) {
    && PairsDistinct(es)
    && forall pair :: HasPair(es, pair) <==> IsOfferedSince(messages, service, pair)
  }

  /** The loop over any run of messages. When it stops - after any message it may - the
      callbacks have alternated per pair, and folding them gives the list, each pair once; and
      what was announced is what the cache held. The list is exactly the pairs offered since their instance was last unknown; and it is the
      pairs the cache offers exactly when no instance has been left without an interface. */
  method LookupType(service: string, messages: seq<Message>)
    returns (es: seq<BrowseEntry>, log: seq<Callback>)
    ensures Alternates(log) && Fold(log) == Entries(es)
    ensures AnnouncesTheCache(log, messages, |messages|, service)
    ensures ListsOfferedSince(es, messages, service)
    ensures InStep(es, CacheAfter(messages), service) <==> NothingLost(messages, service)
  {
    hide InStep, EntriesParsed, KeysMatch, Alternates, Fold, PairsDistinct, HasPair, OfferedSince, IsOffered,
      IsOfferedSince, NothingLost, ListsOfferedSince, WasCached, FromCache;
    var cache := new Cache();
    es, log := [], [];
    NothingListed(service);
    assert messages[..0] == [];
    for i := 0 to |messages|
      invariant cache.services == CacheAfter(messages[..i])
      invariant ListsOfferedSince(es, messages[..i], service) && EntriesParsed(es, service)
      invariant Consistent(es, log) && AnnouncesTheCache(log, messages, i, service)
    {
      assert messages[..i + 1][..i] == messages[..i];
      CacheKeysMatch(messages[..i]);
      CacheKeysMatch(messages[..i + 1]);
      cache.UpdateFrom(messages[i]);
      ghost var before, said := es, log;
      var all, log1 := AddMissing(cache.services, service, es, log);
      es, log := DropGone(cache.services, all, log1);
      assert cache.services == CacheAfter(messages[..i + 1]);
      assert PairsDistinct(es);
      StaysListed(messages[..i + 1], service, before, all, es);
      AnnouncesOneMore(said, log1, log, messages, i, service);
    }
    assert messages[..|messages|] == messages;
    CacheKeysMatch(messages);
    InStepIffNothingLost(es, messages, service);
  }

  lemma NothingListed(service: string)
    ensures ListsOfferedSince([], [], service) && EntriesParsed([], service) && Consistent([], [])
  {
  }

  lemma StayingParsed(services: Services, service: string, all: seq<BrowseEntry>, es: seq<BrowseEntry>)
    requires EntriesParsed(all, service) && es == Staying(services, all)
    ensures EntriesParsed(es, service)
  {
    forall i | 0 <= i < |es|
      ensures WellShaped(es[i].Identity()) && ServiceOf(es[i].typ, es[i].domain) == service
    {
      StayingExactly(services, all, es[i]);
    }
  }

  /** One turn of the loop. */
  lemma StaysListed(messages: seq<Message>, service: string, es0: seq<BrowseEntry>, all: seq<BrowseEntry>,
                    es: seq<BrowseEntry>)
    requires messages != [] && KeysMatch(CacheAfter(messages)) && KeysMatch(CacheAfter(messages[..|messages| - 1]))
    requires ListsOfferedSince(es0, messages[..|messages| - 1], service) && EntriesParsed(all, service)
    requires forall pair :: HasPair(all, pair) <==> HasPair(es0, pair) || IsOffered(CacheAfter(messages), service, pair)
    requires es == Staying(CacheAfter(messages), all) && PairsDistinct(es)
    ensures ListsOfferedSince(es, messages, service) && EntriesParsed(es, service)
  {
    hide KeysMatch, EntriesParsed, PairsDistinct, HasPair, IsOffered, IsOfferedSince, Staying;
    StayingParsed(CacheAfter(messages), service, all, es);
    forall pair
      ensures HasPair(es, pair) <==> IsOfferedSince(messages, service, pair)
    {
      if HasPair(es, pair) {
        ListedWasOffered(messages, service, es0, all, es, pair);
      }
      if IsOfferedSince(messages, service, pair) {
        OfferedIsListed(messages, service, es0, all, es, pair);
      }
    }
  }

  lemma ListedWasOffered(messages: seq<Message>, service: string, es0: seq<BrowseEntry>, all: seq<BrowseEntry>,
                         es: seq<BrowseEntry>, pair: (string, string))
    requires messages != [] && KeysMatch(CacheAfter(messages)) && KeysMatch(CacheAfter(messages[..|messages| - 1]))
    requires ListsOfferedSince(es0, messages[..|messages| - 1], service) && EntriesParsed(all, service)
    requires HasPair(all, pair) <==> HasPair(es0, pair) || IsOffered(CacheAfter(messages), service, pair)
    requires es == Staying(CacheAfter(messages), all) && HasPair(es, pair)
    ensures IsOfferedSince(messages, service, pair)
  {
    var front, after := messages[..|messages| - 1], CacheAfter(messages);
    var i :| 0 <= i < |es| && es[i].Pair() == pair;
    var e := es[i];
    StayingExactly(after, all, e);
    var a :| 0 <= a < |all| && all[a] == e;
    StillThereIffKey(after, e);
    hide KeysMatch, EntriesParsed, Staying, StillThere, CacheAfter, WellShaped;
    if IsOffered(after, service, pair) {
      var k :| Offered(after, service, k, pair.1) && after[k].name == pair.0;
      assert OfferedSince(messages, service, k, pair.1);
    } else {
      var k :| OfferedSince(front, service, k, pair.1) && CacheAfter(front)[k].name == pair.0;
      OneKey(CacheAfter(front), service, k, e);
      assert OfferedSince(messages, service, k, pair.1);
    }
  }

  lemma OfferedIsListed(messages: seq<Message>, service: string, es0: seq<BrowseEntry>, all: seq<BrowseEntry>,
                        es: seq<BrowseEntry>, pair: (string, string))
    requires messages != [] && KeysMatch(CacheAfter(messages)) && KeysMatch(CacheAfter(messages[..|messages| - 1]))
    requires ListsOfferedSince(es0, messages[..|messages| - 1], service) && EntriesParsed(all, service)
    requires HasPair(all, pair) <==> HasPair(es0, pair) || IsOffered(CacheAfter(messages), service, pair)
    requires es == Staying(CacheAfter(messages), all) && IsOfferedSince(messages, service, pair)
    ensures HasPair(es, pair)
  {
    hide KeysMatch, EntriesParsed, Staying, CacheAfter, HasPair, PairsDistinct, IsOffered;
    var k :| OfferedSince(messages, service, k, pair.1) && CacheAfter(messages)[k].name == pair.0;
    OfferedNowOrBefore(messages, service, k, pair);
    StayingHas(CacheAfter(messages), service, all, k, pair);
  }

  /** What has been offered since is offered now, or had been offered since before. */
  lemma OfferedNowOrBefore(messages: seq<Message>, service: string, k: string, pair: (string, string))
    requires OfferedSince(messages, service, k, pair.1) && CacheAfter(messages)[k].name == pair.0
    requires KeysMatch(CacheAfter(messages)) && KeysMatch(CacheAfter(messages[..|messages| - 1]))
    ensures || IsOffered(CacheAfter(messages), service, pair)
            || IsOfferedSince(messages[..|messages| - 1], service, pair)
    ensures k in CacheAfter(messages) && CacheAfter(messages)[k].ServiceName() == service
  {
    hide KeysMatch, CacheAfter;
    var front, after := messages[..|messages| - 1], CacheAfter(messages);
    if pair.1 in after[k].ifaceIPs {
      assert Offered(after, service, k, pair.1);
    } else {
      SameKeySameIdentity(CacheAfter(front), after, k);
      assert OfferedSince(front, service, k, pair.1) && CacheAfter(front)[k].name == pair.0;
    }
  }

  lemma StayingHas(services: Services, service: string, all: seq<BrowseEntry>, k: string, pair: (string, string))
    requires KeysMatch(services) && EntriesParsed(all, service) && HasPair(all, pair)
    requires k in services && services[k].ServiceName() == service && services[k].name == pair.0
    ensures HasPair(Staying(services, all), pair)
  {
    hide KeysMatch, Staying, StillThere, EntriesParsed;
    var a: nat :| a < |all| && all[a].Pair() == pair;
    ParsedAt(all, service, a);
    OneKey(services, service, k, all[a]);
    StayingExactly(services, all, all[a]);
    var es := Staying(services, all);
    var i :| 0 <= i < |es| && es[i] == all[a];
  }

  lemma ParsedAt(es: seq<BrowseEntry>, service: string, i: nat)
    requires EntriesParsed(es, service) && i < |es|
    ensures WellShaped(es[i].Identity()) && ServiceOf(es[i].typ, es[i].domain) == service
  {
  }

  // ----- when the list is in step with the cache

  /** No instance that stayed known has been left without an interface it had an address on. */
  ghost predicate NothingLost(messages: seq<Message>, service: string) {
    forall k, iface :: OfferedSince(messages, service, k, iface) ==> iface in CacheAfter(messages)[k].ifaceIPs
  }

  lemma InStepIffNothingLost(es: seq<BrowseEntry>, messages: seq<Message>, service: string)
    requires ListsOfferedSince(es, messages, service) && KeysMatch(CacheAfter(messages))
    ensures InStep(es, CacheAfter(messages), service) <==> NothingLost(messages, service)
  {
    hide CacheAfter, HasPair, PairsDistinct;
    var after := CacheAfter(messages);
    assert KeysMatch(after);
    if NothingLost(messages, service) {
      forall pair
        ensures IsOfferedSince(messages, service, pair) <==> IsOffered(after, service, pair)
      {
        OfferedSinceIff(messages, service, pair);
      }
    }
    if InStep(es, after, service) {
      forall k, iface | OfferedSince(messages, service, k, iface)
        ensures iface in after[k].ifaceIPs
      {
        var pair := (after[k].name, iface);
        assert IsOfferedSince(messages, service, pair);
        assert HasPair(es, pair);
        var k' :| Offered(after, service, k', iface) && after[k'].name == after[k].name;
        OneServiceOneKey(after, k, k');
      }
    }
  }

  lemma OfferedSinceIff(messages: seq<Message>, service: string, pair: (string, string))
    requires NothingLost(messages, service)
    ensures IsOfferedSince(messages, service, pair) <==> IsOffered(CacheAfter(messages), service, pair)
  {
    if IsOfferedSince(messages, service, pair) {
      var k :| OfferedSince(messages, service, k, pair.1) && CacheAfter(messages)[k].name == pair.0;
      assert Offered(CacheAfter(messages), service, k, pair.1);
    }
    if IsOffered(CacheAfter(messages), service, pair) {
      var k :| Offered(CacheAfter(messages), service, k, pair.1) && CacheAfter(messages)[k].name == pair.0;
      assert OfferedSince(messages, service, k, pair.1);
    }
  }

  lemma OneServiceOneKey(services: Services, k: string, k': string)
    requires KeysMatch(services) && k in services && k' in services
    requires services[k].name == services[k'].name && services[k].ServiceName() == services[k'].ServiceName()
    ensures k == k'
  {
    ServiceOfInjective(services[k].Identity(), services[k'].Identity());
  }

  /** The i-th message takes an interface from an instance that was offered there and stays. */
  ghost predicate LosesSome(messages: seq<Message>, service: string, i: nat)
    requires i < |messages|
  {
    var before := CacheAfter(messages[..i]);
    exists k, iface :: Offered(before, service, k, iface) && k in Updated(before, messages[i])
                       && Loses(before, messages[i], k, iface)
  }

  /** A list that has lost nothing so far is in step after one more message exactly if that
      message loses nothing. */
  lemma OneMoreMessage(messages: seq<Message>, service: string, i: nat)
    requires i < |messages| && NothingLost(messages[..i], service)
    ensures NothingLost(messages[..i + 1], service) <==> !LosesSome(messages, service, i)
  {
    hide Loses, Updated;
    var before, after := CacheAfter(messages[..i]), CacheAfter(messages[..i + 1]);
    assert messages[..i + 1][..i] == messages[..i];
    assert after == Updated(before, messages[i]);
    CacheKeysMatch(messages[..i]);
    CacheKeysMatch(messages[..i + 1]);
    if NothingLost(messages[..i + 1], service) {
      forall k, iface | Offered(before, service, k, iface) && k in after
        ensures !Loses(before, messages[i], k, iface)
      {
        OfferedStays(messages, service, i, k, iface);
        LosesExactly(before, messages[i], k, iface);
      }
    }
    if !LosesSome(messages, service, i) {
      forall k, iface | OfferedSince(messages[..i + 1], service, k, iface)
        ensures iface in after[k].ifaceIPs
      {
        if iface !in after[k].ifaceIPs {
          assert OfferedSince(messages[..i], service, k, iface);
          assert Offered(before, service, k, iface);
          LosesExactly(before, messages[i], k, iface);
        }
      }
    }
  }

  lemma OfferedStays(messages: seq<Message>, service: string, i: nat, k: string, iface: string)
    requires i < |messages| && Offered(CacheAfter(messages[..i]), service, k, iface) && k in CacheAfter(messages[..i + 1])
    ensures OfferedSince(messages[..i + 1], service, k, iface)
  {
    hide CacheAfter;
    assert messages[..i + 1][..i] == messages[..i];
    CacheKeysMatch(messages[..i]);
    CacheKeysMatch(messages[..i + 1]);
    SameKeySameIdentity(CacheAfter(messages[..i]), CacheAfter(messages[..i + 1]), k);
    assert i > 0 by {
      NothingCached();
    }
    assert OfferedSince(messages[..i], service, k, iface);
  }

  lemma NothingCached()
    ensures CacheAfter([]) == map[]
  {
  }

  lemma {:induction false} InStepSoFar(messages: seq<Message>, service: string, n: nat)
    requires n <= |messages| && forall i: nat :: i < n ==> !LosesSome(messages, service, i)
    ensures NothingLost(messages[..n], service)
  {
    if n == 0 {
      assert messages[..0] == [];
    } else {
      hide NothingLost, LosesSome;
      InStepSoFar(messages, service, n - 1);
      OneMoreMessage(messages, service, n - 1);
    }
  }

  /** The list is in step after every message exactly when no message replaces the entry of an
      offered instance under another spelling without giving it its addresses back. */
  lemma InStepThroughoutIff(messages: seq<Message>, service: string)
    ensures (forall n: nat :: n <= |messages| ==> NothingLost(messages[..n], service))
              <==> forall i: nat :: i < |messages| ==> !LosesSome(messages, service, i)
  {
    hide NothingLost, LosesSome;
    if forall n: nat :: n <= |messages| ==> NothingLost(messages[..n], service) {
      forall i: nat | i < |messages|
        ensures !LosesSome(messages, service, i)
      {
        OneMoreMessage(messages, service, i);
      }
    }
    if forall i: nat :: i < |messages| ==> !LosesSome(messages, service, i) {
      forall n: nat | n <= |messages|
        ensures NothingLost(messages[..n], service)
      {
        InStepSoFar(messages, service, n);
      }
    }
  }

  ghost predicate AllCanonical(messages: seq<Message>) {
    forall i :: 0 <= i < |messages| ==> MessageCanonical(messages[i])
  }

  /** With every name in the printer's spelling the list is in step after every message. */
  lemma CanonicalStaysInStep(messages: seq<Message>, service: string)
    requires AllCanonical(messages)
    ensures NothingLost(messages, service)
  {
    hide MessageCanonical, Loses, NothingLost;
    forall i: nat | i < |messages|
      ensures !LosesSome(messages, service, i)
    {
      forall k, iface
        ensures !Loses(CacheAfter(messages[..i]), messages[i], k, iface)
      {
        CanonicalLosesNothing(CacheAfter(messages[..i]), messages[i], k, iface);
      }
    }
    InStepSoFar(messages, service, |messages|);
    assert messages[..|messages|] == messages;
  }
}
