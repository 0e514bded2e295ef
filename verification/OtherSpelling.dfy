/** One run that puts the browse list out of step with the cache: an instance is announced with
    an address, and then again with its blank unescaped. */
module OtherSpelling {
  import opened Wrappers
  import opened InstanceName
  import opened BrowseCache
  import opened BrowseLoop

  const NAME := "a b"
  const TYPE := "_x._tcp"
  const DOMAIN := "local"
  const SERVICE := "_x._tcp.local."
  const KEY := "a\\ b._x._tcp.local."
  const SPELLING := "a b._x._tcp.local."
  const HOST := "h.local."

  const FIRST := Message(
    [PTR(KEY, 120), SRV(KEY, HOST, 80, 120), A(HOST, [10, 0, 0, 5])], Some("eth0"), _ => 0, _ => 0)
  const SECOND_MESSAGE := Message([PTR(SPELLING, 120)], Some("eth0"), _ => 0, _ => 0)

  lemma EscapedName()
    ensures Escape(NAME) == "a\\ b"
  {
    assert "b"[1..] == "" && " b"[1..] == "b" && NAME[1..] == " b";
    assert Escape("b") == "b";
    assert Escape(" b") == "\\ b";
  }

  lemma Spellings()
    ensures Print(NAME, TYPE, DOMAIN) == KEY && PrintPlain(NAME, TYPE, DOMAIN) == SPELLING && SPELLING != KEY
    ensures ServiceOf(TYPE, DOMAIN) == SERVICE && TYPE == "_x" + "." + "_tcp"
  {
    EscapedName();
    hide Escape;
    assert SPELLING[1] != KEY[1];
  }

  lemma BothParse()
    ensures Parse(KEY) == Parsed(NAME, TYPE, DOMAIN) && Parse(SPELLING) == Parsed(NAME, TYPE, DOMAIN)
  {
    Spellings();
    UnescapeIdentity(NAME);
    hide Parse, Print, PrintPlain, Unescape;
    ParsePrinted(NAME, "_x", "_tcp", DOMAIN);
    ParseFront(NAME, "_x", "_tcp", DOMAIN);
  }

  lemma HostLabels()
    ensures FirstLabel(HOST) == "h" && SecondLabel(HOST) == DOMAIN
  {
    assert HOST[1..] == ".local.";
    assert FirstLabel(".local.") == "";
    assert ".local."[1..] == "local.";
    assert FirstLabel("local.") == DOMAIN by {
      assert "local."[1..] == "ocal." && "ocal."[1..] == "cal." && "cal."[1..] == "al.";
      assert "al."[1..] == "l." && "l."[1..] == ".";
      assert FirstLabel(".") == "" && FirstLabel("l.") == "l" && FirstLabel("al.") == "al";
      assert FirstLabel("cal.") == "cal" && FirstLabel("ocal.") == "ocal";
    }
  }

  lemma NewFor(spelling: string)
    requires spelling == KEY || spelling == SPELLING
    ensures NewService(spelling).EscapedName() == KEY && NewService(spelling).Identity() == Parsed(NAME, TYPE, DOMAIN)
    ensures NewService(spelling).ifaceIPs == map[]
  {
    Spellings();
    BothParse();
    hide Parse, Print;
  }

  lemma FirstPtr()
    ensures var c := Put(map[], PTR(KEY, 120), Some("eth0"), 0);
            c.Keys == {KEY} && c[KEY].Identity() == Parsed(NAME, TYPE, DOMAIN)
  {
    NewFor(KEY);
    hide NewService;
  }

  lemma FirstSrv(c: Services)
    requires c.Keys == {KEY} && c[KEY].Identity() == Parsed(NAME, TYPE, DOMAIN)
    ensures var d := Put(c, SRV(KEY, HOST, 80, 120), Some("eth0"), 0);
            && d.Keys == {KEY} && d[KEY].Identity() == Parsed(NAME, TYPE, DOMAIN)
            && d[KEY].host == "h" && d[KEY].expiration == 120 * SECOND && d[KEY].ifaceIPs == c[KEY].ifaceIPs
  {
    HostLabels();
    hide FirstLabel, SecondLabel;
  }

  lemma FirstA(c: Services)
    requires c.Keys == {KEY} && c[KEY].Identity() == Parsed(NAME, TYPE, DOMAIN) && c[KEY].host == "h"
    ensures var d := Put(c, A(HOST, [10, 0, 0, 5]), Some("eth0"), 0);
            && d.Keys == {KEY} && d[KEY].Identity() == Parsed(NAME, TYPE, DOMAIN)
            && d[KEY].expiration == c[KEY].expiration && d[KEY].ifaceIPs.Keys == c[KEY].ifaceIPs.Keys + {"eth0"}
  {
    assert c[KEY].Hostname() == HOST;
  }

  /** After the first message the instance is cached with its address. */
  lemma AfterFirst()
    ensures var c := Updated(map[], FIRST);
            c.Keys == {KEY} && c[KEY].Identity() == Parsed(NAME, TYPE, DOMAIN) && "eth0" in c[KEY].ifaceIPs
  {
    hide Put, PutAll;
    var c1, c2 := PutAll(map[], FIRST, 1), PutAll(map[], FIRST, 2);
    PutNone(map[], FIRST);
    PutOneMore(map[], FIRST, 0);
    PutOneMore(map[], FIRST, 1);
    PutOneMore(map[], FIRST, 2);
    FirstPtr();
    FirstSrv(c1);
    FirstA(c2);
  }

  /** After the second it is cached without one. */
  lemma AfterSecond(c: Services)
    requires c == Updated(map[], FIRST)
    ensures var d := Updated(c, SECOND_MESSAGE);
            d.Keys == {KEY} && d[KEY].Identity() == Parsed(NAME, TYPE, DOMAIN) && d[KEY].ifaceIPs == map[]
    ensures Replaces(c, PTR(SPELLING, 120), KEY)
  {
    AfterFirst();
    Spellings();
    NewFor(SPELLING);
    hide NewService, Parse, Print;
    PutNone(c, SECOND_MESSAGE);
    PutOneMore(c, SECOND_MESSAGE, 0);
  }

  lemma TwoCaches()
    ensures var c := Updated(map[], FIRST);
            && CacheAfter([]) == map[] && CacheAfter([FIRST]) == c
            && CacheAfter([FIRST, SECOND_MESSAGE]) == Updated(c, SECOND_MESSAGE)
  {
    hide Updated;
    assert [FIRST, SECOND_MESSAGE][..1] == [FIRST] && [FIRST][..0] == [];
    assert CacheAfter([FIRST]) == Updated(CacheAfter([]), FIRST);
  }

  /** The list then goes on holding a pair for which the cache offers nothing. */
  lemma OtherSpellingBreaksStep()
    ensures NothingLost([FIRST], SERVICE) && !NothingLost([FIRST, SECOND_MESSAGE], SERVICE)
    ensures IsOfferedSince([FIRST, SECOND_MESSAGE], SERVICE, (NAME, "eth0"))
    ensures forall pair :: !IsOffered(CacheAfter([FIRST, SECOND_MESSAGE]), SERVICE, pair)
  {
    Spellings();
    AfterFirst();
    TwoCaches();
    AfterSecond(Updated(map[], FIRST));
    hide Updated, CacheAfter;
    assert [FIRST, SECOND_MESSAGE][..1] == [FIRST] && [FIRST][..0] == [];
    assert CacheAfter([FIRST])[KEY].ServiceName() == SERVICE;
    assert OfferedSince([FIRST], SERVICE, KEY, "eth0");
    assert OfferedSince([FIRST, SECOND_MESSAGE], SERVICE, KEY, "eth0");
    forall k, iface | OfferedSince([FIRST], SERVICE, k, iface)
      ensures iface in CacheAfter([FIRST])[k].ifaceIPs
    {
      assert !OfferedSince([], SERVICE, k, iface);
    }
  }
}
