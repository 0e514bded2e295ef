/** The browser behind a joining screen: it browses while somebody is looking, lists what it
    hears, and ends for good when the instance seals. The functions are its critical sections,
    the class performs them in place, and the machine interleaves them with the callbacks of
    browses that may have been stopped long ago. */
module Browser {
  import opened Wrappers
  import opened RenameSuffix
  import opened LocalAddresses
  import opened Arrange

  type Chan = nat
  type Context = nat

  /** The fields under the mutex, with what happened to the channels and contexts: those
      cancelled, those closed and how often, those holding a signal, and whether a channel
      was closed or signalled after it was closed, which panics. */
  datatype Books = Books(
    subscribers: set<Chan>,
    cancel: Option<Context>,
    entries: map<string, Entry>,
    next: nat,
    closed: bool,
    cancelled: set<Context>,
    ended: multiset<Chan>,
    signalled: set<Chan>,
    panicked: bool)

  const NEW := Books({}, None, map[], 0, false, {}, multiset{}, {}, false)

  // ----- what a callback brings

  datatype Found = Found(name: string, iface: string, text: map<string, string>, ips: seq<IP>, port: int)

  function TextOf(found: Found, key: string): string {
    if key in found.text then found.text[key] else ""
  }

  const VERSION := "2"

  predicate IsHeardOn(interfaces: seq<Iface>, i: nat, name: string) {
    i < |interfaces| && interfaces[i].name == name && forall j :: 0 <= j < i ==> interfaces[j].name != name
  }

  /** An announcement that may be listed, where it was heard, and what a join would dial. */
  ghost predicate Admits(found: Found, interfaces: Option<seq<Iface>>, heardOn: Iface, address: Dial) {
    && TextOf(found, "v") == VERSION && interfaces.Some?
    && (exists i: nat :: IsHeardOn(interfaces.value, i, found.iface) && interfaces.value[i] == heardOn)
    && Eligible(heardOn) && IsPick(found.ips, found.port, heardOn, Some(address))
  }

  /** An announcement is admitted exactly if it speaks version 2, was heard on an eligible
      interface the machine has, the first of that name, and has a port and a local address
      that is zoned or in a subnet there; and what is dialled is such an address. */
  lemma AdmitsExactly(found: Found, interfaces: Option<seq<Iface>>, heardOn: Iface)
    ensures (exists address :: Admits(found, interfaces, heardOn, address)) <==>
              && "v" in found.text && found.text["v"] == "2"
              && interfaces.Some?
              && (exists i: nat :: IsHeardOn(interfaces.value, i, found.iface) && interfaces.value[i] == heardOn)
              && Eligible(heardOn) && 0 < found.port <= 65535
              && exists ip :: ip in found.ips && IsDialled(ip, heardOn)
    ensures forall address :: Admits(found, interfaces, heardOn, address) ==>
              && address.ip in found.ips && IsDialled(address.ip, heardOn) && address.port == found.port
              && address.zone == if ZonedLinkLocal(address.ip) then Some(found.iface) else None
  {
    hide Eligible, LinkLocalOrPrivate, ZonedLinkLocal;
    forall address | Admits(found, interfaces, heardOn, address)
      ensures address.ip in found.ips && IsDialled(address.ip, heardOn)
    {
      PickIsUsable(found.ips, found.port, heardOn, address);
    }
    if 0 < found.port <= 65535 && exists ip :: ip in found.ips && IsDialled(ip, heardOn) {
      var ip :| ip in found.ips && IsDialled(ip, heardOn);
      var address := SomePick(found.ips, found.port, heardOn, ip);
      if TextOf(found, "v") == VERSION && interfaces.Some? && Eligible(heardOn)
         && exists i: nat :: IsHeardOn(interfaces.value, i, found.iface) && interfaces.value[i] == heardOn {
        assert Admits(found, interfaces, heardOn, address);
      }
    }
  }

  predicate IsDialled(ip: IP, heardOn: Iface) {
    LinkLocalOrPrivate(ip) && (ZonedLinkLocal(ip) || exists k :: 0 <= k < |heardOn.nets| && heardOn.nets[k].Contains(ip))
  }

  lemma PickIsUsable(ips: seq<IP>, port: int, heardOn: Iface, address: Dial)
    requires IsPick(ips, port, heardOn, Some(address))
    ensures address.ip in ips && IsDialled(address.ip, heardOn)
  {
    hide LinkLocalOrPrivate, ZonedLinkLocal;
  }

  lemma SomePick(ips: seq<IP>, port: int, heardOn: Iface, ip: IP) returns (address: Dial)
    requires 0 < port <= 65535 && ip in ips && IsDialled(ip, heardOn)
    ensures IsPick(ips, port, heardOn, Some(address))
  {
    hide LinkLocalOrPrivate, ZonedLinkLocal;
    var i: nat :| i < |ips| && ips[i] == ip;
    assert Usable(ips[i], heardOn);
    hide Usable;
    if j: nat :| j < |ips| && ips[j].V4? && Usable(ips[j], heardOn) {
      var k := EarliestUsable(ips, heardOn, true, j);
      address := Dial(ips[k], if ZonedLinkLocal(ips[k]) then Some(heardOn.name) else None, port);
      assert FirstUsable(ips, k, heardOn);
    } else {
      var k := EarliestUsable(ips, heardOn, false, i);
      address := Dial(ips[k], if ZonedLinkLocal(ips[k]) then Some(heardOn.name) else None, port);
      assert FirstUsable(ips, k, heardOn);
    }
  }

  lemma {:induction false} EarliestUsable(ips: seq<IP>, heardOn: Iface, v4: bool, i: nat) returns (k: nat)
    requires i < |ips| && ips[i].V4? == v4 && Usable(ips[i], heardOn)
    ensures k < |ips| && ips[k].V4? == v4 && Usable(ips[k], heardOn)
    ensures forall j :: 0 <= j < k && ips[j].V4? == v4 ==> !Usable(ips[j], heardOn)
    decreases i
  {
    hide Usable;
    if j: nat :| j < i && ips[j].V4? == v4 && Usable(ips[j], heardOn) {
      k := EarliestUsable(ips, heardOn, v4, j);
    } else {
      k := i;
    }
  }

  /** What the screening of an announcement gives. */
  ghost predicate IsScreened(found: Found, interfaces: Option<seq<Iface>>, r: Option<(Iface, Dial)>) {
    match r
    case Some((heardOn, address)) => Admits(found, interfaces, heardOn, address)
    case None => forall heardOn, address :: !Admits(found, interfaces, heardOn, address)
  }

  method Screen(found: Found, interfaces: Option<seq<Iface>>) returns (r: Option<(Iface, Dial)>)
    ensures IsScreened(found, interfaces, r)
  {
    hide Eligible, IsPick;
    if TextOf(found, "v") != VERSION {
      return None;
    }
    if interfaces == None {
      return None;
    }
    var all := interfaces.value;
    var index := 0;
    while index < |all| && all[index].name != found.iface
      invariant index <= |all| && forall j :: 0 <= j < index ==> all[j].name != found.iface
    {
      index := index + 1;
    }
    if index == |all| {
      return None;
    }
    assert IsHeardOn(all, index, found.iface);
    var heardOn := all[index];
    if !Eligible(heardOn) {
      return None;
    }
    var address := PickAddress(found.ips, found.port, heardOn);
    if address == None {
      forall other
        ensures !IsPick(found.ips, found.port, heardOn, Some(other))
      {
        OnlyOneAnswer([], [], None, None, found.ips, found.port, heardOn, None, Some(other));
      }
      return None;
    }
    return Some((heardOn, address.value));
  }

  // ----- names of entries

  function Key(name: string, iface: string): string {
    name + "\0" + iface
  }

  function IdOf(order: nat): string {
    "m" + Decimal(order)
  }

  lemma IdsDiffer(m: nat, n: nat)
    requires m != n
    ensures IdOf(m) != IdOf(n)
  {
    if IdOf(m) == IdOf(n) {
      assert Decimal(m) == IdOf(m)[1..] && Decimal(n) == IdOf(n)[1..];
      DecimalInjective(m, n);
    }
  }

  /** Two announcements share an entry exactly when they share name and interface - for
      interface names without a NUL, whatever the announced names hold. */
  lemma KeyTellsApart(name: string, iface: string, name': string, iface': string)
    requires '\0' !in iface && '\0' !in iface'
    ensures Key(name, iface) == Key(name', iface') <==> name == name' && iface == iface'
  {
    if Key(name, iface) == Key(name', iface') {
      var k := Key(name, iface);
      assert k[|name|] == '\0' && k[|name'|] == '\0';
      assert forall j :: |name| < j < |k| ==> k[j] == iface[j - |name| - 1];
      assert forall j :: |name'| < j < |k| ==> k[j] == iface'[j - |name'| - 1];
      assert name == k[..|name|] && name' == k[..|name'|];
      assert iface == k[|name| + 1..] && iface' == k[|name'| + 1..];
    }
  }

  // ----- the critical sections

  function Stopped(b: Books): Books {
    b.(cancel := None, entries := map[],
       cancelled := if b.cancel.Some? then b.cancelled + {b.cancel.value} else b.cancelled)
  }

  /** A subscription, refused once closed; `context` is the browse it starts if there is none. */
  function Subscribed(b: Books, updates: Chan, context: Context): (Books, bool) {
    if b.closed then (b, false)
    else (b.(subscribers := b.subscribers + {updates},
             cancel := if b.cancel.None? then Some(context) else b.cancel),
          true)
  }

  function Unsubscribed(b: Books, updates: Chan): Books {
    if updates !in b.subscribers then b
    else
      var left := b.(subscribers := b.subscribers - {updates});
      if left.subscribers == {} then Stopped(left) else left
  }

  function Notified(b: Books): Books {
    b.(signalled := b.signalled + b.subscribers,
       panicked := b.panicked || exists c :: c in b.subscribers && c in b.ended)
  }

  function Closed(b: Books): Books {
    if b.closed then b
    else
      var last := Stopped(b.(closed := true));
      last.(subscribers := {}, ended := b.ended + multiset(b.subscribers),
            panicked := b.panicked || exists c :: c in b.subscribers && c in b.ended)
  }

  function EntryFor(b: Books, found: Found, address: Dial): Entry {
    Entry(IdOf(b.next + 1), found.name, found.iface, address, false, TextOf(found, "tag"), b.next + 1)
  }

  function Listed(b: Books, context: Context, found: Found, address: Dial): Books {
    if context in b.cancelled then b
    else Notified(b.(next := b.next + 1,
                     entries := b.entries[Key(found.name, found.iface) := EntryFor(b, found, address)]))
  }

  /** The callback for a find, once screened. */
  function AddedTo(b: Books, context: Context, found: Found, admitted: Option<(Iface, Dial)>): Books {
    match admitted
    case None => b
    case Some((_, address)) => Listed(b, context, found, address)
  }

  function Unlisted(b: Books, context: Context, name: string, iface: string): Books {
    if context in b.cancelled || Key(name, iface) !in b.entries then b
    else Notified(b.(entries := b.entries - {Key(name, iface)}))
  }

  /** The same sections as the browser performs them. */
  class PairingBrowser {
    var subscribers: set<Chan>
    var cancel: Option<Context>
    var entries: map<string, Entry>
    var next: nat
    var closed: bool
    var cancelled: set<Context>
    var ended: multiset<Chan>
    var signalled: set<Chan>
    var panicked: bool

    function View(): Books
      reads this
    {
      Books(subscribers, cancel, entries, next, closed, cancelled, ended, signalled, panicked)
    }

    constructor ()
      ensures View() == NEW
    {
      subscribers, cancel, entries, next, closed := {}, None, map[], 0, false;
      cancelled, ended, signalled, panicked := {}, multiset{}, {}, false;
    }

    method Subscribe(updates: Chan, context: Context) returns (ok: bool)
      modifies this
      ensures (View(), ok) == Subscribed(old(View()), updates, context)
    {
      if closed {
        return false;
      }
      subscribers := subscribers + {updates};
      if cancel.None? {
        cancel := Some(context);
      }
      return true;
    }

    method Unsubscribe(updates: Chan)
      modifies this
      ensures View() == Unsubscribed(old(View()), updates)
    {
      if updates !in subscribers {
        return;
      }
      subscribers := subscribers - {updates};
      if |subscribers| == 0 {
        StopLocked();
      }
    }

    method StopLocked()
      modifies this
      ensures View() == Stopped(old(View()))
    {
      if cancel.Some? {
        cancelled := cancelled + {cancel.value};
        cancel := None;
      }
      entries := map[];
    }

    method Close()
      modifies this
      ensures View() == Closed(old(View()))
    {
      if closed {
        return;
      }
      closed := true;
      StopLocked();
      ended, panicked := CloseEach(subscribers, ended, panicked);
      subscribers := {};
    }

    method NotifyLocked()
      modifies this
      ensures View() == Notified(old(View()))
    {
      signalled, panicked := SignalEach(subscribers, ended, signalled, panicked);
    }

    /** The callback for a find: screened outside the mutex, then listed under it. */
    method Added(context: Context, found: Found, interfaces: Option<seq<Iface>>) returns (admitted: Option<(Iface, Dial)>)
      modifies this
      ensures IsScreened(found, interfaces, admitted)
      ensures View() == AddedTo(old(View()), context, found, admitted)
    {
      admitted := Screen(found, interfaces);
      if admitted == None {
        return;
      }
      if context in cancelled {
        return;
      }
      next := next + 1;
      entries := entries[Key(found.name, found.iface) :=
        Entry(IdOf(next), found.name, found.iface, admitted.value.1, false, TextOf(found, "tag"), next)];
      NotifyLocked();
    }

    method Removed(context: Context, name: string, iface: string)
      modifies this
      ensures View() == Unlisted(old(View()), context, name, iface)
    {
      if context in cancelled {
        return;
      }
      if Key(name, iface) !in entries {
        return;
      }
      entries := entries - {Key(name, iface)};
      NotifyLocked();
    }

    /** What is listed now, from the entries in whatever order the map gives them. */
    method List() returns (rows: seq<Entry>)
      ensures ShowsEntries(rows, entries)
    {
      var heard: seq<Entry> := [];
      var keys := entries.Keys;
      ghost var order: seq<string> := [];
      while keys != {}
        invariant keys <= entries.Keys
        invariant forall k :: k in order <==> k in entries.Keys - keys
        invariant forall i, j :: 0 <= i < j < |order| ==> order[i] != order[j]
        invariant heard == InOrder(order, entries)
        decreases |keys|
      {
        var k :| k in keys;
        assert forall i :: 0 <= i < |order| ==> order[i] in order;
        heard := heard + [entries[k]];
        order := order + [k];
        keys := keys - {k};
      }
      rows := ArrangeEntries(heard);
      assert Enumerates(order, entries);
    }

    /** Finds the row with an id, if one is shown. */
    method Resolve(id: string) returns (found: Option<Entry>)
      ensures exists rows :: ShowsEntries(rows, entries) &&
                match found
                case Some(e) => e in rows && e.id == id
                case None => forall e: Entry :: e in rows ==> e.id != id
    {
      var rows := List();
      for i := 0 to |rows|
        invariant forall j :: 0 <= j < i ==> rows[j].id != id
      {
        if rows[i].id == id {
          return Some(rows[i]);
        }
      }
      return None;
    }
  }

  /** Rows arranged from the entries, in some order. */
  ghost predicate ShowsEntries(rows: seq<Entry>, entries: map<string, Entry>) {
    exists order :: Enumerates(order, entries) && IsArrangement(InOrder(order, entries), rows)
  }

  /** The keys, each once, in some order. */
  ghost predicate Enumerates(order: seq<string>, entries: map<string, Entry>) {
    && (forall k :: k in order <==> k in entries)
    && forall i, j :: 0 <= i < j < |order| ==> order[i] != order[j]
  }

  ghost function InOrder(order: seq<string>, entries: map<string, Entry>): seq<Entry>
    requires forall k :: k in order ==> k in entries
  {
    seq(|order|, i requires 0 <= i < |order| => entries[order[i]])
  }

  /** Closes the channels one by one; closing a closed one panics. */
  method CloseEach(channels: set<Chan>, ended: multiset<Chan>, panicked: bool)
      returns (after: multiset<Chan>, panics: bool)
    ensures after == ended + multiset(channels)
    ensures panics <==> panicked || exists c :: c in channels && c in ended
  {
    var rest := channels;
    after, panics := ended, panicked;
    while rest != {}
      invariant rest <= channels
      invariant forall c: Chan :: after[c] == ended[c] + if c in channels && c !in rest then 1 else 0
      invariant panics <==> panicked || exists c :: c in channels && c !in rest && c in ended
      decreases |rest|
    {
      var updates :| updates in rest;
      panics := panics || updates in after;
      after := after + multiset{updates};
      rest := rest - {updates};
    }
  }

  /** Offers each channel a signal, which it takes if it holds none; a closed one panics. */
  method SignalEach(channels: set<Chan>, ended: multiset<Chan>, signalled: set<Chan>, panicked: bool)
      returns (after: set<Chan>, panics: bool)
    ensures after == signalled + channels
    ensures panics <==> panicked || exists c :: c in channels && c in ended
  {
    var rest := channels;
    after, panics := signalled, panicked;
    while rest != {}
      invariant rest <= channels
      invariant forall c: Chan :: c in after <==> c in signalled || (c in channels && c !in rest)
      invariant panics <==> panicked || exists c :: c in channels && c !in rest && c in ended
      decreases |rest|
    {
      var updates :| updates in rest;
      panics := panics || updates in ended;
      after := after + {updates};
      rest := rest - {updates};
    }
  }

  // ----- every interleaving

  /** What was listed once: the entry, the browse it came from and the interface. */
  datatype Issue = Issue(entry: Entry, context: Context, heardOn: Iface)

  /** `channels` and `contexts` count those made so far. */
  datatype World = World(books: Books, channels: nat, contexts: nat, issued: seq<Issue>)

  datatype Step =
    | Subscribe
    | Release(updates: Chan)
    | CloseForGood
    | Receive(updates: Chan)
    | AddedBy(context: Context, found: Found, interfaces: Option<seq<Iface>>, heardOn: Iface, address: Dial)
    | RemovedBy(context: Context, name: string, iface: string)

  const START := World(NEW, 0, 0, [])

  /** A release may come at any time and more than once, a callback from any browse that was
      ever started, stopped or not. */
  ghost predicate Enabled(w: World, step: Step) {
    match step
    case Release(c) => c < w.channels
    case Receive(c) => c in w.books.signalled
    case AddedBy(context, found, interfaces, heardOn, address) =>
      context < w.contexts && Admits(found, interfaces, heardOn, address)
    case RemovedBy(context, _, _) => context < w.contexts
    case _ => true
  }

  function Apply(w: World, step: Step): World {
    match step
    case Subscribe =>
      var (books, ok) := Subscribed(w.books, w.channels, w.contexts);
      if !ok then w
      else w.(books := books, channels := w.channels + 1,
              contexts := if w.books.cancel.None? then w.contexts + 1 else w.contexts)
    case Release(c) => w.(books := Unsubscribed(w.books, c))
    case CloseForGood => w.(books := Closed(w.books))
    case Receive(c) => w.(books := w.books.(signalled := w.books.signalled - {c}))
    case AddedBy(context, found, interfaces, heardOn, address) =>
      w.(books := Listed(w.books, context, found, address),
         issued := if context in w.books.cancelled then w.issued
                   else w.issued + [Issue(EntryFor(w.books, found, address), context, heardOn)])
    case RemovedBy(context, name, iface) => w.(books := Unlisted(w.books, context, name, iface))
  }

  ghost predicate Possible(w: World, steps: seq<Step>)
    decreases |steps|
  {
    steps == [] || (Enabled(w, steps[0]) && Possible(Apply(w, steps[0]), steps[1..]))
  }

  ghost function Run(w: World, steps: seq<Step>): World
    requires Possible(w, steps)
    decreases |steps|
  {
    if steps == [] then w else Run(Apply(w, steps[0]), steps[1..])
  }

  // ----- what every step keeps

  /** A browse is live exactly while there is a subscriber, and every other is cancelled. */
  ghost predicate OneLiveBrowse(w: World) {
    && (w.books.cancel.Some? <==> w.books.subscribers != {})
    && (w.books.cancel.Some? ==> w.books.cancel.value < w.contexts)
    && forall c: Context :: c in w.books.cancelled <==> c < w.contexts && w.books.cancel != Some(c)
  }

  /** Only channels no longer subscribed were closed, each once, and only by closing. */
  ghost predicate ChannelsSound(w: World) {
    && !w.books.panicked
    && (forall c: Chan :: w.books.ended[c] <= 1)
    && (forall c: Chan :: c in w.books.ended ==> w.books.closed && c < w.channels && c !in w.books.subscribers)
    && (forall c: Chan :: c in w.books.subscribers ==> c < w.channels)
    && (w.books.closed ==> w.books.subscribers == {})
  }

  /** The i-th entry ever listed has the i-th number, and passed the screening. */
  ghost predicate IssuedSoundly(issued: seq<Issue>, i: nat)
    requires i < |issued|
  {
    var e := issued[i].entry;
    && e.order == i + 1 && e.id == IdOf(i + 1) && !e.duplicate
    && issued[i].heardOn.name == e.iface && Eligible(issued[i].heardOn)
    && Usable(e.address.ip, issued[i].heardOn) && 0 < e.address.port <= 65535
  }

  /** A listed entry is the last one heard under its key, from the browse that is live. */
  ghost predicate ListedSoundly(w: World, key: string)
    requires key in w.books.entries
  {
    var e := w.books.entries[key];
    && key == Key(e.name, e.iface)
    && 0 < e.order <= |w.issued| && w.issued[e.order - 1].entry == e
    && w.books.cancel == Some(w.issued[e.order - 1].context)
  }

  ghost predicate Inv(w: World) {
    && OneLiveBrowse(w) && ChannelsSound(w)
    && w.books.next == |w.issued|
    && (forall i: nat :: i < |w.issued| ==> IssuedSoundly(w.issued, i))
    && (forall key :: key in w.books.entries ==> ListedSoundly(w, key))
  }

  lemma StepKeepsBrowse(w: World, step: Step)
    requires OneLiveBrowse(w) && ChannelsSound(w) && Enabled(w, step)
    ensures OneLiveBrowse(Apply(w, step))
  {
    hide Admits, Key, IdOf;
    if step == Subscribe && !w.books.closed {
      assert w.channels in Apply(w, step).books.subscribers;
    }
  }

  lemma StepKeepsChannels(w: World, step: Step)
    requires ChannelsSound(w) && Enabled(w, step)
    ensures ChannelsSound(Apply(w, step))
  {
    hide Admits, Key, IdOf;
    if step == CloseForGood {
      ClosingKeepsChannels(w);
    }
  }

  lemma ClosingKeepsChannels(w: World)
    requires ChannelsSound(w)
    ensures ChannelsSound(Apply(w, CloseForGood))
  {
  }

  lemma AddedIssues(w: World, context: Context, found: Found, interfaces: Option<seq<Iface>>, heardOn: Iface, address: Dial)
    requires Inv(w) && Admits(found, interfaces, heardOn, address) && context < w.contexts
    ensures var v := Apply(w, AddedBy(context, found, interfaces, heardOn, address));
            && v.books.next == |v.issued|
            && (forall i: nat :: i < |v.issued| ==> IssuedSoundly(v.issued, i))
            && (forall key :: key in v.books.entries ==> ListedSoundly(v, key))
  {
    hide Eligible, Usable, Key, IdOf;
    var v := Apply(w, AddedBy(context, found, interfaces, heardOn, address));
    if context !in w.books.cancelled {
      var n := |w.issued|;
      forall i: nat | i <= n
        ensures IssuedSoundly(v.issued, i)
      {
        if i < n {
          assert IssuedSoundly(w.issued, i);
        }
      }
      forall key | key in v.books.entries
        ensures ListedSoundly(v, key)
      {
        if key != Key(found.name, found.iface) {
          assert ListedSoundly(w, key);
        }
      }
    }
  }

  lemma StepKeepsEntries(w: World, step: Step)
    requires Inv(w) && Enabled(w, step)
    ensures var v := Apply(w, step);
            && v.books.next == |v.issued|
            && (forall i: nat :: i < |v.issued| ==> IssuedSoundly(v.issued, i))
            && (forall key :: key in v.books.entries ==> ListedSoundly(v, key))
  {
    if w.books.cancel == None {
      NothingListedWhenIdle(w);
    }
    hide IssuedSoundly, Admits, Key, ListedSoundly;
    match step
    case AddedBy(context, found, interfaces, heardOn, address) =>
      AddedIssues(w, context, found, interfaces, heardOn, address);
    case _ => EntriesCarryOver(w, Apply(w, step));
  }

  lemma EntriesCarryOver(w: World, v: World)
    requires Inv(w) && v.issued == w.issued && v.books.next == w.books.next
    requires forall key :: key in v.books.entries ==>
               key in w.books.entries && v.books.entries[key] == w.books.entries[key] && v.books.cancel == w.books.cancel
    ensures v.books.next == |v.issued|
    ensures forall i: nat :: i < |v.issued| ==> IssuedSoundly(v.issued, i)
    ensures forall key :: key in v.books.entries ==> ListedSoundly(v, key)
  {
    hide IssuedSoundly;
    forall key | key in v.books.entries
      ensures ListedSoundly(v, key)
    {
      assert ListedSoundly(w, key);
    }
  }

  lemma StepKeepsInv(w: World, step: Step)
    requires Inv(w) && Enabled(w, step)
    ensures Inv(Apply(w, step))
  {
    hide OneLiveBrowse, ChannelsSound, IssuedSoundly, ListedSoundly, Apply;
    StepKeepsBrowse(w, step);
    StepKeepsChannels(w, step);
    StepKeepsEntries(w, step);
  }

  lemma {:induction false} RunKeepsInv(w: World, steps: seq<Step>)
    requires Inv(w) && Possible(w, steps)
    ensures Inv(Run(w, steps))
    decreases |steps|
  {
    if steps == [] {
    } else {
      hide Inv, Apply, Enabled;
      StepKeepsInv(w, steps[0]);
      RunKeepsInv(Apply(w, steps[0]), steps[1..]);
    }
  }

  // ----- what every run promises

  /** In every run a browse is live exactly while there is a subscriber, and it is the only
      one not cancelled. */
  lemma LiveExactlyWhileSubscribed(steps: seq<Step>)
    requires Possible(START, steps)
    ensures var w := Run(START, steps);
            && (w.books.cancel.Some? <==> w.books.subscribers != {})
            && (forall c: Context :: c < w.contexts && c !in w.books.cancelled ==> w.books.cancel == Some(c))
  {
    RunKeepsInv(START, steps);
  }

  /** Whatever is listed came from the browse that is live, was heard on an interface that
      was eligible, and is dialled at an address usable there. */
  lemma ListedCameFromTheLiveBrowse(steps: seq<Step>, key: string)
    requires Possible(START, steps) && key in Run(START, steps).books.entries
    ensures var w := Run(START, steps);
            var e := w.books.entries[key];
            && key == Key(e.name, e.iface)
            && exists issue :: issue in w.issued && issue.entry == e && w.books.cancel == Some(issue.context)
                               && issue.heardOn.name == e.iface && Eligible(issue.heardOn)
                               && Usable(e.address.ip, issue.heardOn) && 0 < e.address.port <= 65535
  {
    hide Eligible, Usable;
    RunKeepsInv(START, steps);
    var w := Run(START, steps);
    assert ListedSoundly(w, key);
    var i := w.books.entries[key].order - 1;
    assert IssuedSoundly(w.issued, i);
    assert w.issued[i] in w.issued;
  }

  /** Closing is for good: from then on nobody subscribes, nothing is browsed for or listed,
      and nothing more is issued. */
  lemma {:induction false} ClosingIsForGood(w: World, steps: seq<Step>)
    requires Inv(w) && w.books.closed && Possible(w, steps)
    ensures var v := Run(w, steps);
            && v.books.closed && v.books.subscribers == {} && v.books.cancel == None && v.books.entries == map[]
            && v.issued == w.issued && v.channels == w.channels
    decreases |steps|
  {
    NothingListedWhenIdle(w);
    if steps == [] {
    } else {
      StepKeepsInv(w, steps[0]);
      ClosedStays(w, steps[0]);
      ClosingIsForGood(Apply(w, steps[0]), steps[1..]);
    }
  }

  lemma ClosedStays(w: World, step: Step)
    requires Inv(w) && w.books.closed && Enabled(w, step)
    ensures var v := Apply(w, step); v.books.closed && v.issued == w.issued && v.channels == w.channels
  {
  }

  lemma NothingListedWhenIdle(w: World)
    requires Inv(w) && w.books.cancel == None
    ensures w.books.entries == map[]
  {
    if key :| key in w.books.entries {
      assert false;
    }
  }

  /** What the steps bring about. Subscribing gives a new channel and a live browse, unless the
      browser is closed. A release takes that one channel off, and the last one ends the browse
      and the list. Closing closes every subscriber's channel. A find of the live browse is
      listed and an entry that goes is not, and either way every subscriber holds a signal. */
  lemma StepsTakeEffect(steps: seq<Step>, step: Step)
    requires Possible(START, steps) && Enabled(Run(START, steps), step)
    ensures var w := Run(START, steps);
            var b, c := w.books, Apply(w, step).books;
            match step
            case Subscribe =>
              if b.closed then c == b
              else c == b.(subscribers := b.subscribers + {w.channels}, cancel := c.cancel)
                   && c.cancel == if b.subscribers == {} then Some(w.contexts) else b.cancel
            case Release(u) =>
              && c.subscribers == b.subscribers - {u} && c.ended == b.ended && c.closed == b.closed && c.next == b.next
              && (u in b.subscribers && c.subscribers == {} ==>
                    c.entries == map[] && c.cancel == None && b.cancel.Some? && b.cancel.value in c.cancelled)
              && (c.subscribers != {} ==> c.entries == b.entries && c.cancel == b.cancel)
            case CloseForGood =>
              c.closed && c.subscribers == {} && c.entries == map[] && c.cancel == None
              && forall u: Chan :: c.ended[u] == b.ended[u] + if u in b.subscribers then 1 else 0
            case Receive(u) => c == b.(signalled := b.signalled - {u})
            case AddedBy(context, found, interfaces, heardOn, address) =>
              if b.cancel != Some(context) then c == b
              else
                && c.next == b.next + 1 && c.subscribers == b.subscribers
                && c.entries == b.entries[found.name + "\0" + found.iface :=
                     Entry("m" + Decimal(b.next + 1), found.name, found.iface, address, false,
                           if "tag" in found.text then found.text["tag"] else "", b.next + 1)]
                && c.signalled == b.signalled + b.subscribers
            case RemovedBy(context, name, iface) =>
              if b.cancel != Some(context) || name + "\0" + iface !in b.entries then c == b
              else c.entries == b.entries - {name + "\0" + iface} && c.signalled == b.signalled + b.subscribers
                   && c.next == b.next && c.subscribers == b.subscribers
  {
    RunKeepsInv(START, steps);
    var w := Run(START, steps);
    if w.books.cancel == None {
      NothingListedWhenIdle(w);
    }
    assert OneLiveBrowse(w);
    hide Admits, IssuedSoundly, ListedSoundly, Decimal;
  }

  /** In every run no channel is closed twice and none is signalled after it was closed. */
  lemma NoChannelMisused(steps: seq<Step>)
    requires Possible(START, steps)
    ensures var w := Run(START, steps);
            !w.books.panicked && forall c: Chan :: w.books.ended[c] <= 1
  {
    RunKeepsInv(START, steps);
  }

  /** In every run the ids of everything ever listed are pairwise different. */
  lemma IdsAreNeverReused(steps: seq<Step>, i: nat, j: nat)
    requires Possible(START, steps) && i < j < |Run(START, steps).issued|
    ensures Run(START, steps).issued[i].entry.id != Run(START, steps).issued[j].entry.id
  {
    RunKeepsInv(START, steps);
    var issued := Run(START, steps).issued;
    assert IssuedSoundly(issued, i) && IssuedSoundly(issued, j);
    IdsDiffer(i + 1, j + 1);
  }

  /** In every run there is one list of rows to show, whatever order the map hands its
      entries out in. */
  lemma RowsDependOnlyOnEntries(steps: seq<Step>, rows: seq<Entry>, rows': seq<Entry>)
    requires Possible(START, steps)
    requires ShowsEntries(rows, Run(START, steps).books.entries) && ShowsEntries(rows', Run(START, steps).books.entries)
    ensures rows == rows'
  {
    hide IsArrangement;
    RunKeepsInv(START, steps);
    var w := Run(START, steps);
    var order :| Enumerates(order, w.books.entries) && IsArrangement(InOrder(order, w.books.entries), rows);
    var order' :| Enumerates(order', w.books.entries) && IsArrangement(InOrder(order', w.books.entries), rows');
    EntriesHaveDistinctOrders(w, order);
    EntriesHaveDistinctOrders(w, order');
    MembersAreValues(order, w.books.entries);
    MembersAreValues(order', w.books.entries);
    SameForEveryPermutation(InOrder(order, w.books.entries), InOrder(order', w.books.entries), rows, rows');
  }

  lemma MembersAreValues(order: seq<string>, entries: map<string, Entry>)
    requires Enumerates(order, entries)
    ensures forall e :: e in InOrder(order, entries) <==> e in entries.Values
  {
    var all := InOrder(order, entries);
    forall e | e in entries.Values
      ensures e in all
    {
      var k :| k in entries && entries[k] == e;
      var i :| 0 <= i < |order| && order[i] == k;
      assert all[i] == e;
    }
  }

  lemma EntriesHaveDistinctOrders(w: World, order: seq<string>)
    requires Inv(w) && Enumerates(order, w.books.entries)
    ensures DistinctOrders(InOrder(order, w.books.entries))
  {
    var all := InOrder(order, w.books.entries);
    forall i, j | 0 <= i < j < |all|
      ensures all[i].order != all[j].order
    {
      assert order[i] in order && order[j] in order;
      assert ListedSoundly(w, order[i]) && ListedSoundly(w, order[j]);
    }
  }
}
