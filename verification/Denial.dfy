/** Who gives way when two hosts probe one host name (section 8.2 of RFC 6762): each drops from
    the other's address records those it has itself and compares the rest with its own, sorted
    by their textual form, pair by pair. */
module Denial {
  import opened InstanceName
  import opened RenameSuffix

  type byte = b: int | 0 <= b < 256

  type Address = seq<byte>

  datatype AddressRecord = AddressRecord(name: string, address: Address)

  // ----- comparing

  /** Byte by byte, then by length: -1, 0 or 1. */
  function CompareIP(theirs: Address, ours: Address): int {
    if theirs == [] || ours == [] then
      if |theirs| < |ours| then -1 else if |theirs| > |ours| then 1 else 0
    else if theirs[0] < ours[0] then -1
    else if theirs[0] > ours[0] then 1
    else CompareIP(theirs[1..], ours[1..])
  }

  function Lower(c: char): char {
    if 'A' <= c <= 'Z' then c - 'A' + 'a' else c
  }

  predicate EqualFold(a: string, b: string) {
    |a| == |b| && forall i :: 0 <= i < |a| ==> Lower(a[i]) == Lower(b[i])
  }

  /** 0.0.0.0 or ::, and nothing of any other length. */
  predicate IsUnspecified(address: Address) {
    (|address| == 4 || |address| == 16) && forall i :: 0 <= i < |address| ==> address[i] == 0
  }

  /** Whether one record denies another: same host, and either not a valid address or the
      lexicographically later one. */
  predicate IsDenying(theirs: AddressRecord, ours: AddressRecord) {
    EqualFold(theirs.name, ours.name) && (IsUnspecified(theirs.address) || CompareIP(theirs.address, ours.address) == 1)
  }

  // ----- sorting by textual form

  /** Lexicographic order on strings. */
  predicate Before(a: string, b: string) {
    if b == "" then false
    else if a == "" then true
    else a[0] < b[0] || (a[0] == b[0] && Before(a[1..], b[1..]))
  }

  type Text = Address -> string

  function Insert(text: Text, r: AddressRecord, s: seq<AddressRecord>): seq<AddressRecord> {
    if s == [] then [r]
    else if Before(text(s[0].address), text(r.address)) then [s[0]] + Insert(text, r, s[1..])
    else [r] + s
  }

  function Sorted(text: Text, s: seq<AddressRecord>): seq<AddressRecord> {
    if s == [] then [] else Insert(text, s[0], Sorted(text, s[1..]))
  }

  /** The pairwise loop: any denying pair decides, and so does a difference in number. */
  method AreDenying(text: Text, theirs: seq<AddressRecord>, ours: seq<AddressRecord>) returns (denying: bool)
    ensures denying <==> Denies(text, theirs, ours)
  {
    if |theirs| != |ours| {
      return true;
    }
    SortedKeepsMultiset(text, theirs);
    SortedKeepsMultiset(text, ours);
    var first := Sorted(text, theirs);
    var second := Sorted(text, ours);
    for i := 0 to |first|
      invariant forall j :: 0 <= j < i ==> !IsDenying(first[j], second[j])
    {
      if IsDenying(first[i], second[i]) {
        return true;
      }
    }
    return false;
  }

  predicate Denies(text: Text, theirs: seq<AddressRecord>, ours: seq<AddressRecord>) {
    |theirs| != |ours| ||
    exists i :: 0 <= i < |Sorted(text, theirs)| && i < |Sorted(text, ours)|
                && IsDenying(Sorted(text, theirs)[i], Sorted(text, ours)[i])
  }

  // ----- the order is total

  lemma {:induction false} BeforeIsTotal(a: string, b: string)
    ensures Before(a, b) || Before(b, a) || a == b
    ensures !(Before(a, b) && Before(b, a)) && !Before(a, a)
  {
    if a == "" || b == "" {
      if a != "" { BeforeIsTotal(a[1..], a[1..]); }
    } else {
      BeforeIsTotal(a[1..], b[1..]);
      BeforeIsTotal(a[1..], a[1..]);
      if a[0] == b[0] && a[1..] == b[1..] {
        assert a == [a[0]] + a[1..] && b == [b[0]] + b[1..];
      }
    }
  }

  lemma {:induction false} BeforeIsTransitive(a: string, b: string, c: string)
    ensures !Before(b, a) && !Before(c, b) ==> !Before(c, a)
  {
    if a == "" || b == "" || c == "" {
    } else {
      BeforeIsTransitive(a[1..], b[1..], c[1..]);
    }
  }

  lemma {:induction false} CompareIsAntisymmetric(a: Address, b: Address)
    ensures CompareIP(a, b) == -CompareIP(b, a)
    ensures CompareIP(a, b) == 0 <==> a == b
    ensures -1 <= CompareIP(a, b) <= 1
  {
    if a == [] || b == [] {
    } else {
      CompareIsAntisymmetric(a[1..], b[1..]);
      assert a == [a[0]] + a[1..] && b == [b[0]] + b[1..];
    }
  }

  // ----- what comes first, byte by byte

  /** The first difference is at i, and there a is the greater. */
  predicate LaterAt(a: Address, b: Address, i: nat) {
    i < |a| && i < |b| && a[..i] == b[..i] && a[i] > b[i]
  }

  predicate IsLater(a: Address, b: Address) {
    (exists i: nat :: i < |a| && LaterAt(a, b, i)) || b < a
  }

  /** The comparison is decided by the first byte that differs, and if there is none by which
      address goes on. */
  lemma {:induction false} CompareExactly(a: Address, b: Address)
    ensures CompareIP(a, b) == 1 <==> IsLater(a, b)
    ensures CompareIP(a, b) == -1 <==> IsLater(b, a)
  {
    if a != [] && b != [] {
      CompareExactly(a[1..], b[1..]);
      LaterByHead(a, b);
      LaterByHead(b, a);
      hide IsLater;
    }
  }

  lemma LaterByHead(a: Address, b: Address)
    requires a != [] && b != []
    ensures IsLater(a, b) <==> a[0] > b[0] || (a[0] == b[0] && IsLater(a[1..], b[1..]))
  {
    assert a == [a[0]] + a[1..] && b == [b[0]] + b[1..];
    if a[0] > b[0] {
      assert LaterAt(a, b, 0);
    }
    if a[0] == b[0] {
      if i: nat :| i < |a[1..]| && LaterAt(a[1..], b[1..], i) {
        assert a[..i + 1] == [a[0]] + a[1..][..i] && b[..i + 1] == [b[0]] + b[1..][..i];
        assert LaterAt(a, b, i + 1);
      }
    }
    if i: nat :| i < |a| && LaterAt(a, b, i) {
      if i > 0 {
        assert a[..i][0] == a[0] && b[..i][0] == b[0];
        assert a[1..][..i - 1] == a[..i][1..] && b[1..][..i - 1] == b[..i][1..];
        assert LaterAt(a[1..], b[1..], i - 1);
      }
    }
  }

  predicate EarlierAt(a: string, b: string, i: nat) {
    i < |a| && i < |b| && a[..i] == b[..i] && a[i] < b[i]
  }

  predicate IsEarlier(a: string, b: string) {
    (exists i: nat :: i < |a| && EarlierAt(a, b, i)) || a < b
  }

  /** And so is the order the records are sorted in. */
  lemma {:induction false} BeforeExactly(a: string, b: string)
    ensures Before(a, b) <==> IsEarlier(a, b)
  {
    if a != "" && b != "" {
      BeforeExactly(a[1..], b[1..]);
      EarlierByHead(a, b);
      hide IsEarlier;
    }
  }

  lemma EarlierByHead(a: string, b: string)
    requires a != "" && b != ""
    ensures IsEarlier(a, b) <==> a[0] < b[0] || (a[0] == b[0] && IsEarlier(a[1..], b[1..]))
  {
    assert a == [a[0]] + a[1..] && b == [b[0]] + b[1..];
    if a[0] < b[0] {
      assert EarlierAt(a, b, 0);
    }
    if a[0] == b[0] {
      if i: nat :| i < |a[1..]| && EarlierAt(a[1..], b[1..], i) {
        assert a[..i + 1] == [a[0]] + a[1..][..i] && b[..i + 1] == [b[0]] + b[1..][..i];
        assert EarlierAt(a, b, i + 1);
      }
    }
    if i: nat :| i < |a| && EarlierAt(a, b, i) {
      if i > 0 {
        assert a[..i][0] == a[0] && b[..i][0] == b[0];
        assert a[1..][..i - 1] == a[..i][1..] && b[1..][..i - 1] == b[..i][1..];
        assert EarlierAt(a[1..], b[1..], i - 1);
      }
    }
  }

  /** One record denies another of the same name exactly if its address is 0.0.0.0 or ::, or
      the later one; and none of another name, letter case aside. */
  lemma IsDenyingExactly(theirs: AddressRecord, ours: AddressRecord)
    ensures theirs.name == ours.name ==>
              (IsDenying(theirs, ours) <==>
                 || theirs.address == [0, 0, 0, 0] || theirs.address == seq(16, _ => 0)
                 || IsLater(theirs.address, ours.address))
    ensures IsDenying(theirs, ours) ==> |theirs.name| == |ours.name|
    ensures IsDenying(theirs, ours) ==>
              forall i :: 0 <= i < |theirs.name| ==> SameLetter(theirs.name[i], ours.name[i])
  {
    CompareExactly(theirs.address, ours.address);
    hide CompareIP, IsLater;
    FoldsToItself(theirs.name);
    var a := theirs.address;
    if |a| == 4 {
      assert a == [a[0], a[1], a[2], a[3]];
    }
  }

  predicate SameLetter(c: char, d: char) {
    || c == d
    || ('A' <= c <= 'Z' && d as int == c as int + 32)
    || ('A' <= d <= 'Z' && c as int == d as int + 32)
  }

  // ----- sorting is a function of the multiset

  ghost predicate InOrder(text: Text, s: seq<AddressRecord>) {
    forall i, j :: 0 <= i < j < |s| ==> !Before(text(s[j].address), text(s[i].address))
  }

  lemma {:induction false} InsertCounts(text: Text, r: AddressRecord, s: seq<AddressRecord>)
    ensures multiset(Insert(text, r, s)) == multiset(s) + multiset{r}
  {
    if s == [] {
    } else {
      InsertCounts(text, r, s[1..]);
      assert s == [s[0]] + s[1..];
    }
  }

  lemma {:induction false} InsertKeepsOrder(text: Text, r: AddressRecord, s: seq<AddressRecord>)
    requires InOrder(text, s)
    ensures InOrder(text, Insert(text, r, s))
  {
    if s == [] {
    } else if Before(text(s[0].address), text(r.address)) {
      InsertKeepsOrder(text, r, s[1..]);
      InsertCounts(text, r, s[1..]);
      var rest := Insert(text, r, s[1..]);
      forall j | 0 <= j < |rest|
        ensures !Before(text(rest[j].address), text(s[0].address))
      {
        assert rest[j] in multiset(rest);
        BeforeIsTotal(text(s[0].address), text(r.address));
        assert rest[j] == r || rest[j] in s[1..];
      }
    } else {
      forall j | 0 <= j < |s|
        ensures !Before(text(s[j].address), text(r.address))
      {
        BeforeIsTransitive(text(r.address), text(s[0].address), text(s[j].address));
        BeforeIsTotal(text(s[0].address), text(s[0].address));
      }
    }
  }

  lemma {:induction false} SortedInOrder(text: Text, s: seq<AddressRecord>)
    ensures InOrder(text, Sorted(text, s)) && multiset(Sorted(text, s)) == multiset(s)
  {
    if s == [] {
    } else {
      SortedInOrder(text, s[1..]);
      InsertKeepsOrder(text, s[0], Sorted(text, s[1..]));
      InsertCounts(text, s[0], Sorted(text, s[1..]));
      assert s == [s[0]] + s[1..];
    }
  }

  lemma SortedKeepsMultiset(text: Text, s: seq<AddressRecord>)
    ensures |Sorted(text, s)| == |s|
  {
    SortedInOrder(text, s);
    assert |multiset(Sorted(text, s))| == |multiset(s)|;
  }

  /** All records are for one host, and the textual form tells addresses apart. */
  ghost predicate OneHost(s: seq<AddressRecord>, host: string) {
    forall r :: r in s ==> r.name == host
  }

  ghost predicate TellsApart(text: Text) {
    forall a, b :: text(a) == text(b) ==> a == b
  }

  lemma HeadsAgree(text: Text, host: string, s: seq<AddressRecord>, t: seq<AddressRecord>)
    requires TellsApart(text) && OneHost(s, host)
    requires InOrder(text, s) && InOrder(text, t) && multiset(s) == multiset(t) && s != [] && t != []
    ensures s[0] == t[0]
  {
    assert s[0] in multiset(t) && t[0] in multiset(s);
    var i :| 0 <= i < |t| && t[i] == s[0];
    var j :| 0 <= j < |s| && s[j] == t[0];
    BeforeIsTotal(text(s[0].address), text(t[0].address));
  }

  lemma TailCounts(s: seq<AddressRecord>)
    requires s != []
    ensures multiset(s[1..]) == multiset(s) - multiset{s[0]}
  {
    assert s == [s[0]] + s[1..];
  }

  lemma {:induction false} OrderedListsAreUnique(text: Text, host: string, s: seq<AddressRecord>, t: seq<AddressRecord>)
    requires TellsApart(text) && OneHost(s, host)
    requires InOrder(text, s) && InOrder(text, t) && multiset(s) == multiset(t)
    ensures s == t
  {
    if s == [] || t == [] {
      assert |multiset(s)| == |s| && |multiset(t)| == |t|;
    } else {
      HeadsAgree(text, host, s, t);
      TailCounts(s);
      TailCounts(t);
      OrderedListsAreUnique(text, host, s[1..], t[1..]);
      assert s == [s[0]] + s[1..] && t == [t[0]] + t[1..];
    }
  }

  lemma SortedAlikeIffSameMultiset(text: Text, host: string, x: seq<AddressRecord>, y: seq<AddressRecord>)
    requires TellsApart(text) && OneHost(x, host)
    ensures Sorted(text, x) == Sorted(text, y) <==> multiset(x) == multiset(y)
  {
    SortedInOrder(text, x);
    SortedInOrder(text, y);
    if multiset(x) == multiset(y) {
      assert forall r :: r in Sorted(text, x) ==> r in multiset(x);
      OrderedListsAreUnique(text, host, Sorted(text, x), Sorted(text, y));
    }
  }

  // ----- who sees a denial

  lemma FoldsToItself(s: string)
    ensures EqualFold(s, s)
  {
  }

  lemma PairDenies(host: string, r: AddressRecord, q: AddressRecord)
    requires r.name == host && q.name == host
    ensures IsDenying(r, q) || IsDenying(q, r)
       <==> r != q || IsUnspecified(r.address) || IsUnspecified(q.address)
  {
    CompareIsAntisymmetric(r.address, q.address);
  }

  predicate HasUnspecified(s: seq<AddressRecord>) {
    exists i :: 0 <= i < |s| && IsUnspecified(s[i].address)
  }

  /** The comparison by itself: of any two lists of records for one host name one denies the
      other exactly when they differ as multisets or hold an unspecified address. */
  lemma SomeoneIsDeniedIff(text: Text, host: string, x: seq<AddressRecord>, y: seq<AddressRecord>)
    requires TellsApart(text) && OneHost(x, host) && OneHost(y, host)
    ensures Denies(text, x, y) || Denies(text, y, x)
       <==> multiset(x) != multiset(y) || HasUnspecified(x) || HasUnspecified(y)
  {
    var sx, sy := Sorted(text, x), Sorted(text, y);
    SortedInOrder(text, x);
    SortedInOrder(text, y);
    SortedKeepsMultiset(text, x);
    SortedKeepsMultiset(text, y);
    SortedAlikeIffSameMultiset(text, host, x, y);
    UnspecifiedKept(text, x);
    UnspecifiedKept(text, y);
    if |x| != |y| {
      assert |multiset(x)| != |multiset(y)|;
    } else {
      forall i | 0 <= i < |sx|
        ensures IsDenying(sx[i], sy[i]) || IsDenying(sy[i], sx[i])
           <==> sx[i] != sy[i] || IsUnspecified(sx[i].address) || IsUnspecified(sy[i].address)
      {
        assert sx[i] in multiset(x) && sy[i] in multiset(y);
        PairDenies(host, sx[i], sy[i]);
      }
    }
  }

  lemma UnspecifiedKept(text: Text, s: seq<AddressRecord>)
    ensures HasUnspecified(Sorted(text, s)) <==> HasUnspecified(s)
  {
    SortedInOrder(text, s);
    if HasUnspecified(s) {
      var i :| 0 <= i < |s| && IsUnspecified(s[i].address);
      assert s[i] in multiset(Sorted(text, s));
    }
    if HasUnspecified(Sorted(text, s)) {
      var i :| 0 <= i < |Sorted(text, s)| && IsUnspecified(Sorted(text, s)[i].address);
      assert Sorted(text, s)[i] in multiset(s);
    }
  }

  /** Both lists deny one another exactly when each has the later address in some pair, or an
      unspecified one, or the numbers differ: the loop does not stop at the first pair that
      differs. */
  lemma BothAreDeniedIff(text: Text, host: string, x: seq<AddressRecord>, y: seq<AddressRecord>)
    requires OneHost(x, host) && OneHost(y, host)
    ensures var sx, sy := Sorted(text, x), Sorted(text, y);
            Denies(text, x, y) && Denies(text, y, x) <==>
              || |x| != |y|
              || (exists i, j :: 0 <= i < |sx| && 0 <= j < |sx| && i < |sy| && j < |sy|
                    && (IsUnspecified(sx[i].address) || IsLater(sx[i].address, sy[i].address))
                    && (IsUnspecified(sy[j].address) || IsLater(sy[j].address, sx[j].address)))
  {
    var sx, sy := Sorted(text, x), Sorted(text, y);
    SortedInOrder(text, x);
    SortedInOrder(text, y);
    SortedKeepsMultiset(text, x);
    SortedKeepsMultiset(text, y);
    if |x| == |y| {
      forall i | 0 <= i < |sx|
        ensures IsDenying(sx[i], sy[i]) <==>
                  IsUnspecified(sx[i].address) || IsLater(sx[i].address, sy[i].address)
        ensures IsDenying(sy[i], sx[i]) <==>
                  IsUnspecified(sy[i].address) || IsLater(sy[i].address, sx[i].address)
      {
        assert sx[i] in multiset(x) && sy[i] in multiset(y);
        CompareIsAntisymmetric(sx[i].address, sy[i].address);
        CompareExactly(sx[i].address, sy[i].address);
        FoldsToItself(host);
      }
    }
  }

  /** With one valid record each and different addresses, exactly one side is denied: the one
      whose address is earlier. */
  lemma OneRecordEachDeniesOne(text: Text, x: AddressRecord, y: AddressRecord)
    requires x.name == y.name && x.address != y.address
    requires !IsUnspecified(x.address) && !IsUnspecified(y.address)
    ensures Denies(text, [x], [y]) <==> !Denies(text, [y], [x])
    ensures Denies(text, [x], [y]) <==> IsLater(x.address, y.address)
  {
    CompareIsAntisymmetric(x.address, y.address);
    CompareExactly(x.address, y.address);
    assert Sorted(text, [x]) == [x] && Sorted(text, [y]) == [y] by {
      assert [x][1..] == [] && [y][1..] == [];
    }
    FoldsToItself(x.name);
    assert [x][0] == x && [y][0] == y;
  }

  // ----- what a probing side hears

  /** The records that are not dropped: for the host, with an address the side has neither on
      the interface nor elsewhere. */
  function Kept(theirs: seq<AddressRecord>, host: string, own: set<Address>): seq<AddressRecord> {
    if theirs == [] then []
    else
      var n := |theirs| - 1;
      Kept(theirs[..n], host, own)
      + if theirs[n].name == host && theirs[n].address !in own then [theirs[n]] else []
  }

  function AddressesOf(s: seq<AddressRecord>): set<Address> {
    set r <- s :: r.address
  }

  /** What a side with its own records on the interface and addresses elsewhere keeps. */
  function Left(theirs: seq<AddressRecord>, host: string, ours: seq<AddressRecord>, elsewhere: set<Address>)
    : seq<AddressRecord>
  {
    Kept(theirs, host, AddressesOf(ours) + elsewhere)
  }

  /** Whether the side sees a denial: there is something to compare on either side, and what
      is left of the other's records denies its own. */
  predicate IsDenied(text: Text, host: string, theirs: seq<AddressRecord>, ours: seq<AddressRecord>,
                     elsewhere: set<Address>) {
    var left := Left(theirs, host, ours, elsewhere);
    left != [] && ours != [] && Denies(text, left, ours)
  }

  method FilterRecords(theirs: seq<AddressRecord>, host: string, own: set<Address>) returns (kept: seq<AddressRecord>)
    ensures kept == Kept(theirs, host, own)
  {
    kept := [];
    for i := 0 to |theirs|
      invariant kept == Kept(theirs[..i], host, own)
    {
      assert theirs[..i + 1][..i] == theirs[..i];
      if theirs[i].name != host {
        continue;
      }
      if theirs[i].address in own {
        continue;
      }
      kept := kept + [theirs[i]];
    }
    assert theirs[..|theirs|] == theirs;
  }

  /** Whether a service published on these interfaces, or on all if there are none, is on one. */
  predicate IsVisibleAt(ifaces: seq<string>, iface: string) {
    ifaces == [] || iface in ifaces
  }

  /** One response as the probe takes it; one from an interface the service is not published
      on is ignored. */
  method HearsDenial(text: Text, host: string, ifaces: seq<string>, iface: string, theirs: seq<AddressRecord>,
                     ours: seq<AddressRecord>, elsewhere: set<Address>) returns (denied: bool)
    ensures denied <==> IsVisibleAt(ifaces, iface) && IsDenied(text, host, theirs, ours, elsewhere)
  {
    if !IsVisibleAt(ifaces, iface) {
      return false;
    }
    var left := FilterRecords(theirs, host, AddressesOf(ours) + elsewhere);
    if |left| == 0 || |ours| == 0 {
      return false;
    }
    denied := AreDenying(text, left, ours);
  }

  lemma {:induction false} KeptExactly(theirs: seq<AddressRecord>, host: string, own: set<Address>, r: AddressRecord)
    ensures r in Kept(theirs, host, own) <==> r in theirs && r.name == host && r.address !in own
  {
    if theirs != [] {
      var n := |theirs| - 1;
      KeptExactly(theirs[..n], host, own, r);
      assert theirs == theirs[..n] + [theirs[n]];
    }
  }

  lemma {:induction false} KeptLength(theirs: seq<AddressRecord>, host: string, own: set<Address>)
    ensures |Kept(theirs, host, own)| <= |theirs|
    ensures |Kept(theirs, host, own)| == |theirs| ==> Kept(theirs, host, own) == theirs
  {
    if theirs != [] {
      var n := |theirs| - 1;
      var front, last := theirs[..n], theirs[n];
      var before, after := Kept(front, host, own), Kept(theirs, host, own);
      assert theirs == front + [last];
      assert after == before + if last.name == host && last.address !in own then [last] else [];
      hide Kept;
      KeptLength(front, host, own);
      if last.name == host && last.address !in own {
        assert |before| == n ==> after == front + [last];
      } else {
        assert after == before;
      }
    }
  }

  /** As many records as the other list, and in sorted order each valid and earlier. */
  predicate Yields(text: Text, left: seq<AddressRecord>, ours: seq<AddressRecord>) {
    && |left| == |ours|
    && forall i :: 0 <= i < |Sorted(text, left)| && i < |Sorted(text, ours)| ==>
                     !IsUnspecified(Sorted(text, left)[i].address)
                     && IsLater(Sorted(text, ours)[i].address, Sorted(text, left)[i].address)
  }

  /** What is left denies a side's records exactly unless it yields to them. */
  lemma LeftDeniesUnlessItYields(text: Text, host: string, theirs: seq<AddressRecord>, ours: seq<AddressRecord>,
                                 elsewhere: set<Address>)
    requires OneHost(ours, host)
    ensures var left := Left(theirs, host, ours, elsewhere);
            Denies(text, left, ours) <==> !Yields(text, left, ours)
  {
    var left := Left(theirs, host, ours, elsewhere);
    var sl, so := Sorted(text, left), Sorted(text, ours);
    SortedInOrder(text, left);
    SortedInOrder(text, ours);
    SortedKeepsMultiset(text, left);
    SortedKeepsMultiset(text, ours);
    if |left| == |ours| {
      forall i | 0 <= i < |sl|
        ensures IsDenying(sl[i], so[i]) <==>
                  !(!IsUnspecified(sl[i].address) && IsLater(so[i].address, sl[i].address))
      {
        assert sl[i] in multiset(left) && so[i] in multiset(ours);
        KeptExactly(theirs, host, AddressesOf(ours) + elsewhere, sl[i]);
        CompareIsAntisymmetric(sl[i].address, so[i].address);
        CompareExactly(sl[i].address, so[i].address);
        assert so[i].address in AddressesOf(ours);
        FoldsToItself(host);
      }
    }
  }

  /** Two sides that each have something left cannot both be spared: then nothing was dropped,
      and each would be the earlier one. */
  lemma NotBothYield(text: Text, x: seq<AddressRecord>, y: seq<AddressRecord>)
    requires x != []
    ensures !(Yields(text, y, x) && Yields(text, x, y))
  {
    SortedKeepsMultiset(text, x);
    SortedKeepsMultiset(text, y);
    if Yields(text, y, x) && Yields(text, x, y) {
      CompareIsAntisymmetric(Sorted(text, x)[0].address, Sorted(text, y)[0].address);
      CompareExactly(Sorted(text, x)[0].address, Sorted(text, y)[0].address);
    }
  }

  /** Two hosts probe one name: nobody sees a denial exactly when a list is empty, or neither
      has an address the other lacks, or only one has and what it has beyond the other's is as
      many records as its own and yields to them. Otherwise somebody does. */
  lemma NobodyIsDeniedIff(text: Text, host: string, x: seq<AddressRecord>, y: seq<AddressRecord>,
                          elsewhereX: set<Address>, elsewhereY: set<Address>)
    requires OneHost(x, host) && OneHost(y, host)
    ensures var leftX, leftY := Left(y, host, x, elsewhereX), Left(x, host, y, elsewhereY);
            !IsDenied(text, host, y, x, elsewhereX) && !IsDenied(text, host, x, y, elsewhereY) <==>
              || x == [] || y == []
              || (leftX == [] && leftY == [])
              || (leftX == [] && Yields(text, leftY, y))
              || (leftY == [] && Yields(text, leftX, x))
  {
    hide Yields, Denies, Left, OneHost;
    var leftX, leftY := Left(y, host, x, elsewhereX), Left(x, host, y, elsewhereY);
    LeftDeniesUnlessItYields(text, host, y, x, elsewhereX);
    LeftDeniesUnlessItYields(text, host, x, y, elsewhereY);
    NothingLeftIff(host, x, y, elsewhereY);
    NothingLeftIff(host, y, x, elsewhereX);
    if x != [] && y != [] && Yields(text, leftX, x) && Yields(text, leftY, y) {
      LeftIsAll(text, host, x, y, elsewhereX, elsewhereY);
      NotBothYield(text, x, y);
    }
  }

  /** With one valid record each, different and neither known elsewhere, exactly one side sees
      a denial: the one whose address is earlier. */
  lemma OneRecordEachHeard(text: Text, x: AddressRecord, y: AddressRecord, elsewhereX: set<Address>, elsewhereY: set<Address>)
    requires x.name == y.name && x.address != y.address
    requires !IsUnspecified(x.address) && !IsUnspecified(y.address)
    requires y.address !in elsewhereX && x.address !in elsewhereY
    ensures IsDenied(text, x.name, [y], [x], elsewhereX) <==> IsLater(y.address, x.address)
    ensures IsDenied(text, x.name, [x], [y], elsewhereY) <==> IsLater(x.address, y.address)
  {
    hide CompareIP, Denies, IsUnspecified, IsLater;
    OneRecordEachDeniesOne(text, x, y);
    OneRecordEachDeniesOne(text, y, x);
    CompareIsAntisymmetric(x.address, y.address);
    KeptOfOne(y, AddressesOf([x]) + elsewhereX);
    KeptOfOne(x, AddressesOf([y]) + elsewhereY);
    assert [x][0] == x && [y][0] == y;
  }

  lemma KeptOfOne(r: AddressRecord, own: set<Address>)
    ensures Kept([r], r.name, own) == if r.address !in own then [r] else []
  {
    assert [r][..0] == [];
    assert Kept([r], r.name, own) == [] + if r.address !in own then [r] else [];
  }

  lemma LeftIsAll(text: Text, host: string, x: seq<AddressRecord>, y: seq<AddressRecord>,
                  elsewhereX: set<Address>, elsewhereY: set<Address>)
    requires Yields(text, Left(y, host, x, elsewhereX), x) && Yields(text, Left(x, host, y, elsewhereY), y)
    ensures Left(y, host, x, elsewhereX) == y && Left(x, host, y, elsewhereY) == x
  {
    KeptLength(y, host, AddressesOf(x) + elsewhereX);
    KeptLength(x, host, AddressesOf(y) + elsewhereY);
  }

  /** Nothing is left of a host's list exactly when the other side has every address in it. */
  lemma NothingLeftIff(host: string, theirs: seq<AddressRecord>, ours: seq<AddressRecord>, elsewhere: set<Address>)
    requires OneHost(theirs, host)
    ensures Left(theirs, host, ours, elsewhere) == [] <==>
              forall r :: r in theirs ==> r.address in elsewhere || r.address in AddressesOf(ours)
  {
    var left := Left(theirs, host, ours, elsewhere);
    forall r
      ensures r in left <==> r in theirs && r.address !in AddressesOf(ours) + elsewhere
    {
      KeptExactly(theirs, host, AddressesOf(ours) + elsewhere, r);
    }
    if left != [] {
      assert left[0] in left;
    }
  }

  /** 10.0.0.n */
  function Ten(host: string, n: byte): AddressRecord {
    AddressRecord(host, [10, 0, 0, n])
  }

  lemma CompareTen(host: string, m: byte, n: byte)
    ensures CompareIP(Ten(host, m).address, Ten(host, n).address) == if m < n then -1 else if m > n then 1 else 0
    ensures !IsUnspecified(Ten(host, m).address)
  {
    SameHead(10, [0, 0, m], [0, 0, n]);
    SameHead(0, [0, m], [0, n]);
    SameHead(0, [m], [n]);
    assert Ten(host, m).address == [10] + [0, 0, m] && Ten(host, n).address == [10] + [0, 0, n];
    assert [0, 0, m] == [0] + [0, m] && [0, 0, n] == [0] + [0, n];
    assert [0, m] == [0] + [m] && [0, n] == [0] + [n];
    assert [m][1..] == [] && [n][1..] == [];
    assert Ten(host, m).address[0] == 10;
  }

  lemma TenIsLater(host: string, m: byte, n: byte)
    ensures IsLater(Ten(host, m).address, Ten(host, n).address) <==> m > n
    ensures !IsUnspecified(Ten(host, n).address)
  {
    CompareTen(host, m, n);
    CompareTen(host, n, m);
    CompareExactly(Ten(host, m).address, Ten(host, n).address);
    hide IsLater, CompareIP, IsUnspecified;
  }

  lemma SameHead(b: byte, s: Address, t: Address)
    ensures CompareIP([b] + s, [b] + t) == CompareIP(s, t)
  {
    assert ([b] + s)[1..] == s && ([b] + t)[1..] == t;
  }

  lemma KeptOfTwo(r: AddressRecord, q: AddressRecord, own: set<Address>)
    requires r.name == q.name
    ensures Kept([r, q], r.name, own)
         == (if r.address !in own then [r] else []) + (if q.address !in own then [q] else [])
  {
    assert [r, q][..1] == [r];
    KeptOfOne(r, own);
  }

  lemma LeftOfFiveAndThree(host: string)
    ensures Left([Ten(host, 5), Ten(host, 3)], host, [Ten(host, 5)], {}) == [Ten(host, 3)]
    ensures Left([Ten(host, 5)], host, [Ten(host, 5), Ten(host, 3)], {}) == []
  {
    var x, y := [Ten(host, 5)], [Ten(host, 5), Ten(host, 3)];
    assert x[0].address in AddressesOf(x) && y[0].address in AddressesOf(y);
    assert Ten(host, 5).address[3] != Ten(host, 3).address[3];
    KeptOfTwo(Ten(host, 5), Ten(host, 3), AddressesOf(x) + {});
    NothingLeftIff(host, x, y, {});
  }

  lemma SortedOne(text: Text, r: AddressRecord)
    ensures Sorted(text, [r]) == [r]
  {
    assert [r][1..] == [];
  }

  /** Lists that differ and deny nobody: 10.0.0.5 against 10.0.0.5 and 10.0.0.3. */
  lemma DifferentYetNobodyDenied(text: Text, host: string)
    ensures var x, y := [Ten(host, 5)], [Ten(host, 5), Ten(host, 3)];
            && multiset(x) != multiset(y) && Denies(text, y, x)
            && !IsDenied(text, host, y, x, {}) && !IsDenied(text, host, x, y, {})
  {
    hide Yields, Ten, Sorted, Left, IsDenied, IsDenying;
    var x, y := [Ten(host, 5)], [Ten(host, 5), Ten(host, 3)];
    assert |multiset(x)| == 1 && |multiset(y)| == 2;
    assert Denies(text, y, x);
    hide Denies;
    LeftOfFiveAndThree(host);
    ThreeYieldsToFive(text, host);
    OneHostEach(host);
    NobodyIsDeniedIff(text, host, x, y, {}, {});
  }

  lemma ThreeYieldsToFive(text: Text, host: string)
    ensures Yields(text, [Ten(host, 3)], [Ten(host, 5)])
  {
    hide Ten, IsLater, IsUnspecified, Sorted;
    SortedOne(text, Ten(host, 3));
    SortedOne(text, Ten(host, 5));
    TenIsLater(host, 5, 3);
  }

  lemma OneHostEach(host: string)
    ensures OneHost([Ten(host, 5)], host) && OneHost([Ten(host, 5), Ten(host, 3)], host)
  {
  }

  /** Lists that deny one another however they are sorted: 10.0.0.1 and 10.0.0.4 against
      10.0.0.2 and 10.0.0.3. */
  lemma BothAreDenied(text: Text, host: string)
    ensures var x, y := [Ten(host, 1), Ten(host, 4)], [Ten(host, 2), Ten(host, 3)];
            && Denies(text, x, y) && Denies(text, y, x)
            && IsDenied(text, host, y, x, {}) && IsDenied(text, host, x, y, {})
  {
    var x, y := [Ten(host, 1), Ten(host, 4)], [Ten(host, 2), Ten(host, 3)];
    DeniesByMiddle(text, host, x, y);
    NothingDropped(host, x, y);
    NothingDropped(host, y, x);
  }

  lemma DeniesByMiddle(text: Text, host: string, x: seq<AddressRecord>, y: seq<AddressRecord>)
    requires x == [Ten(host, 1), Ten(host, 4)] && y == [Ten(host, 2), Ten(host, 3)]
    ensures Denies(text, x, y) && Denies(text, y, x)
  {
    hide CompareIP, IsUnspecified, Sorted, EqualFold;
    var sx, sy := Sorted(text, x), Sorted(text, y);
    SortedInOrder(text, x);
    SortedInOrder(text, y);
    SortedKeepsMultiset(text, x);
    SortedKeepsMultiset(text, y);
    FoldsToItself(host);
    assert x[0] in multiset(sx) && x[1] in multiset(sx);
    var i :| 0 <= i < 2 && sx[i] == x[0];
    var j :| 0 <= j < 2 && sx[j] == x[1];
    assert sy[i] in multiset(y) && sy[j] in multiset(y);
    CompareTen(host, 2, 1);
    CompareTen(host, 3, 1);
    CompareTen(host, 4, 2);
    CompareTen(host, 4, 3);
    assert IsDenying(sy[i], sx[i]) && IsDenying(sx[j], sy[j]);
  }

  lemma NothingDropped(host: string, theirs: seq<AddressRecord>, ours: seq<AddressRecord>)
    requires |theirs| == 2 && |ours| == 2 && OneHost(theirs, host)
    requires forall r, q :: r in theirs && q in ours ==> r.address != q.address
    ensures Left(theirs, host, ours, {}) == theirs
  {
    assert theirs[0] in theirs && theirs[1] in theirs;
    KeptOfTwo(theirs[0], theirs[1], AddressesOf(ours) + {});
    assert theirs == [theirs[0], theirs[1]];
  }

  // ----- the textual form of an IPv4 address

  function Dotted(a: Address): string {
    if |a| != 4 then "?" + Escaped(a)
    else Decimal(a[0]) + "." + Decimal(a[1]) + "." + Decimal(a[2]) + "." + Decimal(a[3])
  }

  /** Anything that is not four bytes long is written with a mark in front. */
  function Escaped(a: Address): string {
    if a == [] then "" else [(a[0] as char)] + Escaped(a[1..])
  }

  lemma DecimalHasNoDot(n: nat)
    ensures DotFree(Decimal(n)) && Decimal(n) != "" && Decimal(n)[0] != '?'
  {
    DecimalIsDigits(n);
  }

  lemma {:induction false} EscapedInjective(a: Address, b: Address)
    requires Escaped(a) == Escaped(b)
    ensures a == b
  {
    if a == [] || b == [] {
    } else {
      assert Escaped(a)[0] == a[0] as char && Escaped(b)[0] == b[0] as char;
      assert Escaped(a)[1..] == Escaped(a[1..]) && Escaped(b)[1..] == Escaped(b[1..]);
      EscapedInjective(a[1..], b[1..]);
      assert a == [a[0]] + a[1..] && b == [b[0]] + b[1..];
    }
  }

  lemma DottedStart(a: Address)
    ensures Dotted(a) != "" && (Dotted(a)[0] == '?' <==> |a| != 4)
  {
    if |a| == 4 {
      DecimalHasNoDot(a[0]);
    }
  }

  lemma DottedInjective(a: Address, b: Address)
    requires Dotted(a) == Dotted(b)
    ensures a == b
  {
    DottedStart(a);
    DottedStart(b);
    if |a| == 4 {
      FourNumbers(a, b);
    } else {
      assert Dotted(a)[1..] == Escaped(a) && Dotted(b)[1..] == Escaped(b);
      EscapedInjective(a, b);
    }
  }

  lemma FourNumbers(a: Address, b: Address)
    requires |a| == |b| == 4 && Dotted(a) == Dotted(b)
    ensures a == b
  {
    DecimalHasNoDot(a[1]); DecimalHasNoDot(a[2]); DecimalHasNoDot(a[3]);
    DecimalHasNoDot(b[1]); DecimalHasNoDot(b[2]); DecimalHasNoDot(b[3]);
    var a2, b2 := Decimal(a[0]) + "." + Decimal(a[1]), Decimal(b[0]) + "." + Decimal(b[1]);
    LastDotSplits(a2 + "." + Decimal(a[2]), Decimal(a[3]), b2 + "." + Decimal(b[2]), Decimal(b[3]));
    LastDotSplits(a2, Decimal(a[2]), b2, Decimal(b[2]));
    LastDotSplits(Decimal(a[0]), Decimal(a[1]), Decimal(b[0]), Decimal(b[1]));
    DecimalInjective(a[0], b[0]);
    DecimalInjective(a[1], b[1]);
    DecimalInjective(a[2], b[2]);
    DecimalInjective(a[3], b[3]);
    assert a == [a[0], a[1], a[2], a[3]] && b == [b[0], b[1], b[2], b[3]];
  }

  /** The comparison of two lists of A records, sorted by their dotted form. */
  lemma SomeoneIsDeniedOverA(host: string, x: seq<AddressRecord>, y: seq<AddressRecord>)
    requires OneHost(x, host) && OneHost(y, host)
    ensures Denies(Dotted, x, y) || Denies(Dotted, y, x)
       <==> multiset(x) != multiset(y) || HasUnspecified(x) || HasUnspecified(y)
  {
    forall a, b | Dotted(a) == Dotted(b)
      ensures a == b
    {
      DottedInjective(a, b);
    }
    SomeoneIsDeniedIff(Dotted, host, x, y);
  }
}
