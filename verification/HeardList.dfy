/** The browse loop feeding the browser: one live browse, each of its callbacks screened and
    then listed or taken off the list. */
module HeardList {
  import opened Wrappers
  import opened BrowseLoop
  import LocalAddresses
  import BrowseCache
  import Arrange
  import Browser

  /** How an address record's bytes are read as an address. */
  type Reading = BrowseCache.IP -> LocalAddresses.IP

  /** The result of each screening, by the callback's place in the run. */
  type Screening = nat -> Option<(LocalAddresses.Iface, LocalAddresses.Dial)>

  function FoundIn(e: BrowseEntry, read: Reading): Browser.Found {
    Browser.Found(e.name, e.ifaceName, e.text, seq(|e.ips|, i requires 0 <= i < |e.ips| => read(e.ips[i])), e.port)
  }

  /** The browser is told what the entry says, address by address. */
  lemma FoundSaysTheEntry(e: BrowseEntry, read: Reading)
    ensures var found := FoundIn(e, read);
            && found.name == e.name && found.iface == e.ifaceName && found.text == e.text && found.port == e.port
            && |found.ips| == |e.ips| && forall i :: 0 <= i < |e.ips| ==> found.ips[i] == read(e.ips[i])
  {
  }

  function KeyOf(e: BrowseEntry): string {
    Browser.Key(e.name, e.ifaceName)
  }

  /** The browser after the callbacks of one browse. */
  function Fed(b: Browser.Books, context: Browser.Context, log: seq<Callback>, screening: Screening, read: Reading)
    : Browser.Books
  {
    if log == [] then b
    else
      var n := |log| - 1;
      AfterOne(Fed(b, context, log[..n], screening, read), context, n, log[n], screening, read)
  }

  /** Every add was screened against the interfaces as they were then. */
  ghost predicate AllScreened(log: seq<Callback>, interfaces: nat -> Option<seq<LocalAddresses.Iface>>,
                              screening: Screening, read: Reading) {
    forall i: nat :: i < |log| && log[i].Add? ==>
                       Browser.IsScreened(FoundIn(log[i].entry, read), interfaces(i), screening(i))
  }

  /** Interface names hold no NUL. */
  predicate NamesUsable(log: seq<Callback>) {
    forall i :: 0 <= i < |log| ==> '\0' !in log[i].entry.ifaceName
  }

  /** The add at i stands: nothing about its pair has come since. */
  predicate StandsAt(log: seq<Callback>, i: nat)
    ensures StandsAt(log, i) ==> i < |log| && log[i].Add?
  {
    && i < |log| && log[i].Add?
    && forall j :: i < j < |log| ==> log[j].entry.Pair() != log[i].entry.Pair()
  }

  lemma StandsAfterOneMore(log: seq<Callback>, c: Callback, i: nat)
    ensures StandsAt(log + [c], i) <==>
              || (i == |log| && c.Add?)
              || (StandsAt(log, i) && c.entry.Pair() != log[i].entry.Pair())
  {
    var more := log + [c];
    assert more[|log|] == c;
    assert forall j :: 0 <= j < |log| ==> more[j] == log[j];
  }

  /** Where callbacks alternate, the entries they leave are those whose add stands. */
  lemma {:induction false} FoldIsStanding(log: seq<Callback>, e: BrowseEntry)
    requires Alternates(log)
    ensures e in Fold(log) <==> exists i: nat :: StandsAt(log, i) && log[i].entry == e
  {
    if log != [] {
      var n := |log| - 1;
      var front, c := log[..n], log[n];
      assert log == front + [c];
      FoldIsStanding(front, e);
      FoldIsStanding(front, c.entry);
      hide Alternates;
      forall i: nat
        ensures StandsAt(log, i) <==>
                  (i == n && c.Add?) || (StandsAt(front, i) && c.entry.Pair() != front[i].entry.Pair())
      {
        StandsAfterOneMore(front, c, i);
      }
      if e in Fold(front) && e.Pair() == c.entry.Pair() {
        OnePairInFold(front, c, e);
      }
      if e in Fold(log) && e != c.entry {
        var i: nat :| StandsAt(front, i) && front[i].entry == e;
        assert StandsAt(log, i);
      }
      if c.Add? {
        assert StandsAt(log, n);
      }
    }
  }

  /** A callback about a pair is about the one entry of that pair there is, or there is none. */
  lemma OnePairInFold(front: seq<Callback>, c: Callback, e: BrowseEntry)
    requires Alternates(front + [c]) && e in Fold(front) && e.Pair() == c.entry.Pair()
    ensures c == Rmv(e)
  {
    var log := front + [c];
    assert log[..|log| - 1] == front;
    if c.Rmv? {
      FoldHasOneEach(front, e, c.entry);
    }
  }

  lemma {:induction false} FoldHasOneEach(log: seq<Callback>, e: BrowseEntry, f: BrowseEntry)
    requires Alternates(log) && e in Fold(log) && f in Fold(log) && e.Pair() == f.Pair()
    ensures e == f
  {
    if log != [] {
      var front := log[..|log| - 1];
      if e in Fold(front) && f in Fold(front) {
        FoldHasOneEach(front, e, f);
      }
    }
  }

  // ----- what is listed

  /** The entry as the browser lists an announcement it dials at that address. */
  ghost predicate IsEntryOf(entry: Arrange.Entry, e: BrowseEntry, address: LocalAddresses.Dial) {
    && entry.name == e.name && entry.iface == e.ifaceName && entry.address == address
    && entry.tag == (if "tag" in e.text then e.text["tag"] else "")
  }

  /** The add at i stands, was let through, and is listed under the key. */
  predicate ListedFrom(log: seq<Callback>, screening: Screening, key: string, i: nat)
    ensures ListedFrom(log, screening, key, i) ==> i < |log| && screening(i).Some?
  {
    StandsAt(log, i) && screening(i).Some? && key == KeyOf(log[i].entry)
  }

  /** Under every key exactly what stands and was let through, and that as it was announced. */
  ghost predicate ListsWhatStands(b: Browser.Books, log: seq<Callback>, screening: Screening, key: string) {
    && (key in b.entries <==> exists i: nat :: ListedFrom(log, screening, key, i))
    && forall i: nat :: ListedFrom(log, screening, key, i) && key in b.entries ==>
                          IsEntryOf(b.entries[key], log[i].entry, screening(i).value.1)
  }

  lemma ListedFromOneMore(front: seq<Callback>, c: Callback, screening: Screening, key: string, i: nat)
    requires NamesUsable(front + [c])
    ensures ListedFrom(front + [c], screening, key, i) <==>
              || (i == |front| && c.Add? && screening(i).Some? && key == KeyOf(c.entry))
              || (ListedFrom(front, screening, key, i) && key != KeyOf(c.entry))
    ensures i < |front| ==> (front + [c])[i] == front[i]
  {
    StandsAfterOneMore(front, c, i);
    if i < |front| {
      assert (front + [c])[i] == front[i] && (front + [c])[|front|] == c;
      Browser.KeyTellsApart(c.entry.name, c.entry.ifaceName, front[i].entry.name, front[i].entry.ifaceName);
    }
  }

  /** Where an add comes nothing is listed under its key. */
  lemma NothingListedForAdd(front: seq<Callback>, c: Callback, screening: Screening, i: nat)
    requires Alternates(front + [c]) && NamesUsable(front + [c]) && c.Add?
    ensures !ListedFrom(front, screening, KeyOf(c.entry), i)
  {
    if ListedFrom(front, screening, KeyOf(c.entry), i) {
      var e := front[i].entry;
      assert (front + [c])[i] == front[i] && (front + [c])[|front|] == c;
      Browser.KeyTellsApart(c.entry.name, c.entry.ifaceName, e.name, e.ifaceName);
      AlternatesInFront(front, c);
      FoldIsStanding(front, e);
      OnePairInFold(front, c, e);
    }
  }

  lemma AlternatesInFront(front: seq<Callback>, c: Callback)
    requires Alternates(front + [c])
    ensures Alternates(front)
  {
    assert (front + [c])[..|front|] == front;
  }

  function AfterOne(b: Browser.Books, context: Browser.Context, n: nat, c: Callback, screening: Screening,
                    read: Reading): Browser.Books {
    match c
    case Add(e) => Browser.AddedTo(b, context, FoundIn(e, read), screening(n))
    case Rmv(e) => Browser.Unlisted(b, context, e.name, e.ifaceName)
  }

  /** A callback concerns its own key only: it lists what is let through and takes off what goes. */
  lemma AfterOneAt(b: Browser.Books, context: Browser.Context, n: nat, c: Callback, screening: Screening,
                   read: Reading, key: string)
    requires context !in b.cancelled
    ensures var after := AfterOne(b, context, n, c, screening, read);
            && after.cancelled == b.cancelled
            && (key != KeyOf(c.entry) || (c.Add? && screening(n).None?) ==>
                  && (key in after.entries <==> key in b.entries)
                  && (key in b.entries ==> after.entries[key] == b.entries[key]))
            && (key == KeyOf(c.entry) && c.Rmv? ==> key !in after.entries)
            && (key == KeyOf(c.entry) && c.Add? && screening(n).Some? ==>
                  key in after.entries && IsEntryOf(after.entries[key], c.entry, screening(n).value.1))
  {
    hide Browser.Key, Browser.IdOf;
  }

  lemma OneCallback(b: Browser.Books, context: Browser.Context, front: seq<Callback>, c: Callback,
                    screening: Screening, read: Reading, key: string)
    requires context !in b.cancelled && Alternates(front + [c]) && NamesUsable(front + [c])
    requires ListsWhatStands(b, front, screening, key)
    ensures var after := AfterOne(b, context, |front|, c, screening, read);
            ListsWhatStands(after, front + [c], screening, key) && after.cancelled == b.cancelled
  {
    hide Alternates, NamesUsable, ListedFrom, KeyOf, IsEntryOf, AfterOne;
    AfterOneAt(b, context, |front|, c, screening, read, key);
    if key == KeyOf(c.entry) {
      OwnKey(front, c, screening);
    } else {
      OtherKey(front, c, screening, key);
    }
  }

  lemma OwnKey(front: seq<Callback>, c: Callback, screening: Screening)
    requires Alternates(front + [c]) && NamesUsable(front + [c])
    ensures (front + [c])[|front|] == c
    ensures forall i: nat :: ListedFrom(front + [c], screening, KeyOf(c.entry), i) <==>
              i == |front| && c.Add? && screening(i).Some?
    ensures c.Add? ==> forall i: nat :: !ListedFrom(front, screening, KeyOf(c.entry), i)
  {
    hide Alternates, NamesUsable, ListedFrom;
    forall i: nat
      ensures ListedFrom(front + [c], screening, KeyOf(c.entry), i) <==>
                i == |front| && c.Add? && screening(i).Some?
      ensures c.Add? ==> !ListedFrom(front, screening, KeyOf(c.entry), i)
    {
      ListedFromOneMore(front, c, screening, KeyOf(c.entry), i);
      if c.Add? {
        NothingListedForAdd(front, c, screening, i);
      }
    }
  }

  lemma OtherKey(front: seq<Callback>, c: Callback, screening: Screening, key: string)
    requires NamesUsable(front + [c]) && key != KeyOf(c.entry)
    ensures forall i: nat :: ListedFrom(front + [c], screening, key, i) <==> ListedFrom(front, screening, key, i)
    ensures forall i: nat :: ListedFrom(front, screening, key, i) ==> (front + [c])[i] == front[i]
  {
    hide NamesUsable, ListedFrom;
    forall i: nat
      ensures ListedFrom(front + [c], screening, key, i) <==> ListedFrom(front, screening, key, i)
      ensures ListedFrom(front, screening, key, i) ==> (front + [c])[i] == front[i]
    {
      ListedFromOneMore(front, c, screening, key, i);
    }
  }

  lemma {:induction false} FedListsWhatStands(b: Browser.Books, context: Browser.Context, log: seq<Callback>,
                                              screening: Screening, read: Reading, key: string)
    requires context !in b.cancelled && b.entries == map[] && Alternates(log) && NamesUsable(log)
    ensures var after := Fed(b, context, log, screening, read);
            ListsWhatStands(after, log, screening, key) && after.cancelled == b.cancelled
  {
    if log != [] {
      var n := |log| - 1;
      var front := log[..n];
      assert log == front + [log[n]];
      AlternatesInFront(front, log[n]);
      FedListsWhatStands(b, context, front, screening, read, key);
      OneCallback(Fed(b, context, front, screening, read), context, front, log[n], screening, read, key);
    }
  }

  /** What a live browse leaves listed, for any run of the browse loop and any changes of the
      interfaces meanwhile: exactly the entries of the loop's list whose announcement was
      admitted when it was added, each under its own key and dialled where it was admitted. */
  lemma ListsAdmittedEntries(b: Browser.Books, context: Browser.Context, es: seq<BrowseEntry>, log: seq<Callback>,
                             interfaces: nat -> Option<seq<LocalAddresses.Iface>>, screening: Screening, read: Reading)
    requires context !in b.cancelled && b.entries == map[]
    requires Alternates(log) && Fold(log) == Entries(es) && NamesUsable(log)
    requires AllScreened(log, interfaces, screening, read)
    ensures var listed := Fed(b, context, log, screening, read).entries;
            && (forall key :: key in listed <==>
                  exists e :: e in es && key == KeyOf(e) && WasAdmitted(log, interfaces, read, e))
            && forall e :: e in es && KeyOf(e) in listed ==>
                  exists i: nat, heardOn, address ::
                    && StandsAt(log, i) && log[i].entry == e
                    && Browser.Admits(FoundIn(e, read), interfaces(i), heardOn, address)
                    && IsEntryOf(listed[KeyOf(e)], e, address)
  {
    hide Alternates, Fold, Fed, Browser.Admits, StandsAt, NamesUsable, IsEntryOf, FoundIn;
    var listed := Fed(b, context, log, screening, read).entries;
    forall key
      ensures key in listed <==> exists e :: e in es && key == KeyOf(e) && WasAdmitted(log, interfaces, read, e)
    {
      FedListsWhatStands(b, context, log, screening, read, key);
      if key in listed {
        var i: nat :| ListedFrom(log, screening, key, i);
        StandingIsInList(es, log, i);
        ScreenedIffAdmitted(log, interfaces, screening, read, i);
        assert WasAdmitted(log, interfaces, read, log[i].entry);
      }
      if e :| e in es && key == KeyOf(e) && WasAdmitted(log, interfaces, read, e) {
        var i: nat, heardOn, address :|
          StandsAt(log, i) && log[i].entry == e && Browser.Admits(FoundIn(e, read), interfaces(i), heardOn, address);
        StandingIsInList(es, log, i);
        ScreenedIffAdmitted(log, interfaces, screening, read, i);
        assert ListedFrom(log, screening, key, i);
      }
    }
    forall e | e in es && KeyOf(e) in listed
      ensures exists i: nat, heardOn, address ::
                && StandsAt(log, i) && log[i].entry == e
                && Browser.Admits(FoundIn(e, read), interfaces(i), heardOn, address)
                && IsEntryOf(listed[KeyOf(e)], e, address)
    {
      FedListsWhatStands(b, context, log, screening, read, KeyOf(e));
      var i: nat :| ListedFrom(log, screening, KeyOf(e), i);
      StandingIsInList(es, log, i);
      FoldIsStanding(log, e);
      var j: nat :| StandsAt(log, j) && log[j].entry == e;
      OneStandingPerKey(log, i, j);
      ScreenedIffAdmitted(log, interfaces, screening, read, i);
    }
  }

  /** The add of the entry that stands was admitted, as the interfaces were then. */
  ghost predicate WasAdmitted(log: seq<Callback>, interfaces: nat -> Option<seq<LocalAddresses.Iface>>,
                              read: Reading, e: BrowseEntry) {
    exists i: nat, heardOn, address ::
      StandsAt(log, i) && log[i].entry == e && Browser.Admits(FoundIn(e, read), interfaces(i), heardOn, address)
  }

  lemma StandingIsInList(es: seq<BrowseEntry>, log: seq<Callback>, i: nat)
    requires Alternates(log) && Fold(log) == Entries(es) && StandsAt(log, i)
    ensures i < |log| && log[i].Add? && log[i].entry in es
  {
    FoldIsStanding(log, log[i].entry);
  }

  lemma ScreenedIffAdmitted(log: seq<Callback>, interfaces: nat -> Option<seq<LocalAddresses.Iface>>,
                            screening: Screening, read: Reading, i: nat)
    requires AllScreened(log, interfaces, screening, read) && i < |log| && log[i].Add?
    ensures screening(i).Some? <==>
              exists heardOn, address :: Browser.Admits(FoundIn(log[i].entry, read), interfaces(i), heardOn, address)
    ensures screening(i).Some? ==>
              Browser.Admits(FoundIn(log[i].entry, read), interfaces(i), screening(i).value.0, screening(i).value.1)
  {
    hide Browser.Admits, FoundIn;
    assert Browser.IsScreened(FoundIn(log[i].entry, read), interfaces(i), screening(i));
  }

  lemma OneStandingPerKey(log: seq<Callback>, i: nat, j: nat)
    requires NamesUsable(log) && StandsAt(log, i) && StandsAt(log, j) && KeyOf(log[i].entry) == KeyOf(log[j].entry)
    ensures i == j
  {
    var e, f := log[i].entry, log[j].entry;
    Browser.KeyTellsApart(e.name, e.ifaceName, f.name, f.ifaceName);
  }

  // ----- one browse, run

  lemma {:induction false} FedAgrees(b: Browser.Books, context: Browser.Context, log: seq<Callback>,
                                     screening: Screening, other: Screening, read: Reading)
    requires forall i: nat :: i < |log| ==> screening(i) == other(i)
    ensures Fed(b, context, log, screening, read) == Fed(b, context, log, other, read)
  {
    if log != [] {
      FedAgrees(b, context, log[..|log| - 1], screening, other, read);
    }
  }

  function OutcomeAt(outcomes: seq<Option<(LocalAddresses.Iface, LocalAddresses.Dial)>>): Screening {
    (n: nat) => if n < |outcomes| then outcomes[n] else None
  }

  /** Runs the browse loop and hands its callbacks on, in their order. The browse is live and
      nothing is listed yet. In the end the browser lists exactly the entries of the loop's
      list whose announcement was admitted, and the list is what the loop says it is. */
  method Browse(browser: Browser.PairingBrowser, context: Browser.Context, service: string,
                messages: seq<BrowseCache.Message>, interfaces: nat -> Option<seq<LocalAddresses.Iface>>, read: Reading)
    returns (es: seq<BrowseEntry>, log: seq<Callback>)
    requires context !in browser.cancelled && browser.entries == map[]
    modifies browser
    ensures ListsOfferedSince(es, messages, service) && AnnouncesTheCache(log, messages, |messages|, service)
    ensures Alternates(log) && Fold(log) == Entries(es)
    ensures exists screening: Screening ::
              && AllScreened(log, interfaces, screening, read)
              && browser.View() == Fed(old(browser.View()), context, log, screening, read)
    ensures NamesUsable(log) ==>
              forall key :: key in browser.entries <==>
                exists e :: e in es && key == KeyOf(e) && WasAdmitted(log, interfaces, read, e)
  {
    hide AllScreened, Fed, ListsOfferedSince, AnnouncesTheCache, Alternates, Fold, WasAdmitted, NamesUsable,
      Browser.IsScreened, FoundIn;
    ghost var before := browser.View();
    es, log := LookupType(service, messages);
    ghost var outcomes := [];
    NothingFed(before, context, interfaces, read);
    assert log[..0] == [];
    for i := 0 to |log|
      invariant |outcomes| == i
      invariant browser.View() == Fed(before, context, log[..i], OutcomeAt(outcomes), read)
      invariant AllScreened(log[..i], interfaces, OutcomeAt(outcomes), read)
    {
      ghost var outcome: Option<(LocalAddresses.Iface, LocalAddresses.Dial)> := None;
      match log[i] {
        case Add(e) =>
          var admitted := browser.Added(context, FoundIn(e, read), interfaces(i));
          outcome := admitted;
        case Rmv(e) =>
          browser.Removed(context, e.name, e.ifaceName);
      }
      FedOneMore(before, context, log, i, outcomes, outcome, read);
      ScreenedOneMore(log, i, interfaces, outcomes, outcome, read);
      outcomes := outcomes + [outcome];
    }
    assert log[..|log|] == log;
    if NamesUsable(log) {
      ListsAdmittedEntries(before, context, es, log, interfaces, OutcomeAt(outcomes), read);
    }
  }

  lemma NothingFed(b: Browser.Books, context: Browser.Context, interfaces: nat -> Option<seq<LocalAddresses.Iface>>,
                   read: Reading)
    ensures Fed(b, context, [], OutcomeAt([]), read) == b && AllScreened([], interfaces, OutcomeAt([]), read)
  {
  }

  lemma FedOneMore(b: Browser.Books, context: Browser.Context, log: seq<Callback>, i: nat,
                   outcomes: seq<Option<(LocalAddresses.Iface, LocalAddresses.Dial)>>,
                   outcome: Option<(LocalAddresses.Iface, LocalAddresses.Dial)>, read: Reading)
    requires i < |log| && |outcomes| == i
    ensures Fed(b, context, log[..i + 1], OutcomeAt(outcomes + [outcome]), read)
         == match log[i]
            case Add(e) =>
              Browser.AddedTo(Fed(b, context, log[..i], OutcomeAt(outcomes), read), context, FoundIn(e, read), outcome)
            case Rmv(e) =>
              Browser.Unlisted(Fed(b, context, log[..i], OutcomeAt(outcomes), read), context, e.name, e.ifaceName)
  {
    hide FoundIn, Browser.AddedTo, Browser.Unlisted;
    var more := log[..i + 1];
    assert more[..i] == log[..i] && more[i] == log[i];
    FedAgrees(b, context, log[..i], OutcomeAt(outcomes), OutcomeAt(outcomes + [outcome]), read);
  }

  lemma ScreenedOneMore(log: seq<Callback>, i: nat, interfaces: nat -> Option<seq<LocalAddresses.Iface>>,
                        outcomes: seq<Option<(LocalAddresses.Iface, LocalAddresses.Dial)>>,
                        outcome: Option<(LocalAddresses.Iface, LocalAddresses.Dial)>, read: Reading)
    requires i < |log| && |outcomes| == i && AllScreened(log[..i], interfaces, OutcomeAt(outcomes), read)
    requires log[i].Add? ==> Browser.IsScreened(FoundIn(log[i].entry, read), interfaces(i), outcome)
    ensures AllScreened(log[..i + 1], interfaces, OutcomeAt(outcomes + [outcome]), read)
  {
    hide FoundIn, Browser.IsScreened;
    forall j: nat | j < i + 1 && log[..i + 1][j].Add?
      ensures Browser.IsScreened(FoundIn(log[..i + 1][j].entry, read), interfaces(j), OutcomeAt(outcomes + [outcome])(j))
    {
      if j < i {
        assert log[..i + 1][j] == log[..i][j];
      }
    }
  }
}
