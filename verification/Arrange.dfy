/** The rows a joining screen shows: the entries heard, merged, ordered and marked. */
module Arrange {
  import opened Wrappers
  import opened RenameSuffix
  import LocalAddresses

  /** One machine heard. `order` counts the entries as they are heard. */
  datatype Entry = Entry(id: string, name: string, iface: string, address: LocalAddresses.Dial, duplicate: bool,
                         tag: string, order: nat)

  /** What a window is known by, whichever interface it was heard on. */
  datatype Window = Window(name: string, tag: string)

  function WindowOf(e: Entry): Window {
    Window(e.name, e.tag)
  }

  // ----- the base of a name

  /** The name without one suffix of a blank and a bracketed number. */
  function BaseName(name: string): string {
    var open := LastIndex(name, '(');
    if open < 1 || name[|name| - 1] != ')' || name[open - 1] != ' ' then name
    else if open + 1 == |name| - 1 || !AllDigits(name[open + 1..|name| - 1]) then name
    else name[..open - 1]
  }

  predicate Numbered(name: string, base: string, digits: string) {
    digits != "" && AllDigits(digits) && name == base + " (" + digits + ")"
  }

  lemma NumberedBase(name: string, base: string, digits: string)
    requires Numbered(name, base, digits)
    ensures BaseName(name) == base
  {
    var open := |base| + 1;
    assert name[open] == '(' && name[open - 1] == ' ' && name[|name| - 1] == ')';
    assert forall j :: open < j <= open + |digits| ==> name[j] == digits[j - open - 1];
    LastIndexIs(name, '(', open);
    assert name[open + 1..|name| - 1] == digits;
    assert name[..open - 1] == base;
  }

  /** It is the base of a numbered name, and any other name as it stands. */
  lemma BaseNameIsExact(name: string)
    ensures BaseName(name) != name <==> exists digits :: Numbered(name, BaseName(name), digits)
    ensures forall base, digits :: Numbered(name, base, digits) ==> base == BaseName(name)
  {
    var base := BaseName(name);
    if base != name {
      var digits := name[|base| + 2..|name| - 1];
      assert name == base + " (" + digits + ")";
      assert Numbered(name, base, digits);
    }
    forall base, digits | Numbered(name, base, digits)
      ensures base == BaseName(name)
    {
      NumberedBase(name, base, digits);
    }
  }

  /** The name a responder takes on a conflict has the base its trim left, blanks and all. */
  lemma BaseOfRename(name: string, count: nat)
    ensures TrimServiceName(name).Some? <==> IncrementServiceName(name, count).Some?
    ensures TrimServiceName(name).Some? ==>
              BaseName(IncrementServiceName(name, count).value) == TrimServiceName(name).value
  {
    DecimalIsDigits(count);
    if TrimServiceName(name).Some? {
      var base := TrimServiceName(name).value;
      NumberedBase(Suffixed(base, count), base, Decimal(count));
    }
  }

  /** Conflict after conflict the base stays the same from the first rename on - unless it
      ends in blanks, which only the second rename takes off, or is nothing but blanks and
      keeps its first number. */
  lemma BaseAfterRenames(name: string, base: string, k: nat)
    requires TrimServiceName(name) == Some(base) && k > 0
    ensures BaseName(NameAfter(base, k))
         == if k == 1 then base else if AllBlank(base) then Suffixed(base, 2) else TrimRightBlanks(base)
  {
    hide TrimServiceName, AllBlank;
    var kept := if k == 1 then base else if AllBlank(base) then Suffixed(base, 2) else TrimRightBlanks(base);
    DecimalIsDigits(k + 1);
    NumberedBase(Suffixed(kept, k + 1), kept, Decimal(k + 1));
  }

  ghost predicate HasTakenSuffix(name: string) {
    exists base, blanks, digits, last :: TakenForSuffix(name, base, blanks, digits, last)
  }

  /** When the trim and the base agree: on a numbered name, if the number stands one blank
      behind something; on any other, if the trim neither fails nor takes a suffix off. */
  lemma BaseAndTrimAgreeExactly(name: string)
    ensures TrimServiceName(name) == Some(BaseName(name)) <==>
            if BaseName(name) != name then BaseName(name) != "" && BaseName(name)[|BaseName(name)| - 1] != ' '
            else TrimServiceName(name).Some? && !HasTakenSuffix(name)
  {
    hide TrimServiceName, BaseName, TrimRightBlanks;
    var base := BaseName(name);
    BaseNameIsExact(name);
    if base != name {
      var digits :| Numbered(name, base, digits);
      if base == "" || base[|base| - 1] == ' ' {
        TrimOfBlankBase(name, base, digits);
      } else {
        assert digits == digits[..|digits| - 1] + [digits[|digits| - 1]];
        assert name == base + " (" + digits[..|digits| - 1] + [digits[|digits| - 1]] + ")";
        UncheckedByte(base, digits[..|digits| - 1], digits[|digits| - 1]);
      }
    } else if TrimServiceName(name).Some? {
      if base, blanks, digits, last :| TakenForSuffix(name, base, blanks, digits, last) {
        SuffixIsTrimmed(name, base, blanks, digits, last);
        assert |base| < |name|;
      }
      TrimIsExact(name);
    }
  }

  lemma TrimOfBlankBase(name: string, base: string, digits: string)
    requires Numbered(name, base, digits) && (base == "" || base[|base| - 1] == ' ')
    ensures TrimServiceName(name) != Some(base)
  {
    if TrimServiceName(name) == Some(base) {
      TrimIsExact(name);
    }
  }

  // ----- the rows

  /** With distinct orders each is a permutation of the other. */
  predicate SameMembers(all: seq<Entry>, other: seq<Entry>) {
    (forall e <- all :: e in other) && (forall e <- other :: e in all)
  }

  function Insert(e: Entry, s: seq<Entry>): seq<Entry> {
    if s == [] || e.order <= s[0].order then [e] + s else [s[0]] + Insert(e, s[1..])
  }

  function Sorted(s: seq<Entry>): seq<Entry> {
    if s == [] then [] else Insert(s[0], Sorted(s[1..]))
  }

  lemma {:induction false} InsertKeeps(e: Entry, s: seq<Entry>, x: Entry)
    ensures x in Insert(e, s) <==> x == e || x in s
  {
    if s == [] || e.order <= s[0].order {
    } else {
      InsertKeeps(e, s[1..], x);
      assert x in s <==> x == s[0] || x in s[1..];
    }
  }

  lemma {:induction false} SortedKeeps(s: seq<Entry>, x: Entry)
    ensures x in Sorted(s) <==> x in s
  {
    if s != [] {
      SortedKeeps(s[1..], x);
      InsertKeeps(s[0], Sorted(s[1..]), x);
      assert x in s <==> x == s[0] || x in s[1..];
    }
  }

  predicate Ascending(s: seq<Entry>) {
    forall i, j :: 0 <= i < j < |s| ==> s[i].order <= s[j].order
  }

  lemma {:induction false} InsertAscends(e: Entry, s: seq<Entry>)
    requires Ascending(s)
    ensures Ascending(Insert(e, s))
  {
    if s == [] || e.order <= s[0].order {
    } else {
      InsertAscends(e, s[1..]);
      var r := Insert(e, s[1..]);
      forall i | 0 <= i < |r|
        ensures s[0].order <= r[i].order
      {
        InsertKeeps(e, s[1..], r[i]);
      }
    }
  }

  lemma {:induction false} SortedAscends(s: seq<Entry>)
    ensures Ascending(Sorted(s))
  {
    if s != [] {
      SortedAscends(s[1..]);
      InsertAscends(s[0], Sorted(s[1..]));
    }
  }

  /** How many rows claim a base name. */
  function Claims(rows: seq<Entry>, base: string): nat {
    if rows == [] then 0
    else Claims(rows[..|rows| - 1], base) + if BaseName(rows[|rows| - 1].name) == base then 1 else 0
  }

  predicate ClaimsAt(rows: seq<Entry>, i: nat, base: string) {
    i < |rows| && BaseName(rows[i].name) == base
  }

  ghost predicate ClaimedOnce(rows: seq<Entry>, base: string) {
    exists i: nat :: ClaimsAt(rows, i, base)
  }

  ghost predicate ClaimedTwice(rows: seq<Entry>, base: string) {
    exists i: nat, j: nat :: i < j && ClaimsAt(rows, i, base) && ClaimsAt(rows, j, base)
  }

  lemma ClaimsOfOneMore(front: seq<Entry>, e: Entry, base: string)
    ensures Claims(front + [e], base) == Claims(front, base) + if BaseName(e.name) == base then 1 else 0
    ensures ClaimedOnce(front + [e], base) <==> ClaimedOnce(front, base) || BaseName(e.name) == base
    ensures ClaimedTwice(front + [e], base) <==>
              ClaimedTwice(front, base) || (ClaimedOnce(front, base) && BaseName(e.name) == base)
  {
    hide BaseName;
    var rows := front + [e];
    assert rows[..|front|] == front;
    assert forall i: nat :: i < |front| ==> (ClaimsAt(rows, i, base) <==> ClaimsAt(front, i, base));
    assert ClaimsAt(rows, |front|, base) <==> BaseName(e.name) == base;
  }

  lemma {:induction false} ClaimsCounts(rows: seq<Entry>, base: string)
    ensures Claims(rows, base) >= 1 <==> ClaimedOnce(rows, base)
    ensures Claims(rows, base) >= 2 <==> ClaimedTwice(rows, base)
  {
    if rows != [] {
      hide BaseName, ClaimedOnce, ClaimedTwice, Claims;
      var front := rows[..|rows| - 1];
      ClaimsCounts(front, base);
      ClaimsOfOneMore(front, rows[|rows| - 1], base);
      assert rows == front + [rows[|rows| - 1]];
    }
  }

  predicate OneRowEach(rows: seq<Entry>) {
    forall i, j :: 0 <= i < j < |rows| ==> WindowOf(rows[i]) != WindowOf(rows[j])
  }

  /** Some row stands for the entry, and was heard no later. */
  predicate StoodFor(rows: seq<Entry>, e: Entry) {
    exists i :: 0 <= i < |rows| && WindowOf(rows[i]) == WindowOf(e) && rows[i].order <= e.order
  }

  /** The row is one of the entries, but for its mark. */
  predicate ComesFrom(row: Entry, all: seq<Entry>) {
    exists i :: 0 <= i < |all| && row == all[i].(duplicate := row.duplicate)
  }

  predicate AnotherClaims(rows: seq<Entry>, i: nat)
    requires i < |rows|
  {
    exists j :: 0 <= j < |rows| && j != i && BaseName(rows[j].name) == BaseName(rows[i].name)
  }

  predicate Merged(all: seq<Entry>, rows: seq<Entry>) {
    && Ascending(rows) && OneRowEach(rows)
    && (forall e <- all :: StoodFor(rows, e))
    && (forall row <- rows :: ComesFrom(row, all))
  }

  /** The rows for what was heard: oldest first, one for each window, which is the earliest
      entry of it, and marked exactly when another row claims the same base name. */
  predicate IsArrangement(all: seq<Entry>, rows: seq<Entry>) {
    && Merged(all, rows)
    && forall i: nat :: i < |rows| ==> (rows[i].duplicate <==> AnotherClaims(rows, i))
  }

  lemma MergeOne(s: seq<Entry>, k: nat, rows: seq<Entry>)
    requires k < |s| && Ascending(s) && Merged(s[..k], rows)
    ensures (exists i :: 0 <= i < |rows| && WindowOf(rows[i]) == WindowOf(s[k])) ==> Merged(s[..k + 1], rows)
    ensures (forall i :: 0 <= i < |rows| ==> WindowOf(rows[i]) != WindowOf(s[k])) ==>
              Merged(s[..k + 1], rows + [s[k]])
  {
    hide BaseName;
    var e := s[k];
    assert s[..k + 1] == s[..k] + [e];
    forall row | row in rows
      ensures ComesFrom(row, s[..k + 1]) && row.order <= e.order
    {
      assert ComesFrom(row, s[..k]);
      var i :| 0 <= i < k && row == s[..k][i].(duplicate := row.duplicate);
      assert row == s[..k + 1][i].(duplicate := row.duplicate);
      assert s[i].order <= s[k].order;
    }
    if i :| 0 <= i < |rows| && WindowOf(rows[i]) == WindowOf(e) {
      assert rows[i] in rows;
      assert StoodFor(rows, e);
    } else {
      var more := rows + [e];
      forall a | a in s[..k + 1]
        ensures StoodFor(more, a)
      {
        if a in s[..k] {
          var i :| 0 <= i < |rows| && WindowOf(rows[i]) == WindowOf(a) && rows[i].order <= a.order;
          assert more[i] == rows[i];
        } else {
          assert more[|rows|] == a;
        }
      }
      assert s[..k + 1][k] == e && e == e.(duplicate := e.duplicate);
      assert ComesFrom(e, s[..k + 1]);
      forall i, j | 0 <= i < j < |more|
        ensures more[i].order <= more[j].order
      {
        assert more[i] in rows;
      }
    }
  }

  lemma MergedIgnoresOrder(s: seq<Entry>, t: seq<Entry>, rows: seq<Entry>)
    requires Merged(s, rows) && SameMembers(s, t)
    ensures Merged(t, rows)
  {
    forall e | e in t
      ensures StoodFor(rows, e)
    {
      assert e in s;
    }
    forall row | row in rows
      ensures ComesFrom(row, t)
    {
      assert ComesFrom(row, s);
      var i :| 0 <= i < |s| && row == s[i].(duplicate := row.duplicate);
      assert s[i] in t;
      var j :| 0 <= j < |t| && t[j] == s[i];
    }
  }

  lemma MarksKeepMerged(all: seq<Entry>, first: seq<Entry>, rows: seq<Entry>)
    requires Merged(all, first) && |rows| == |first|
    requires forall i :: 0 <= i < |rows| ==> rows[i] == first[i].(duplicate := rows[i].duplicate)
    ensures Merged(all, rows)
  {
    forall e | e in all
      ensures StoodFor(rows, e)
    {
      var i :| 0 <= i < |first| && WindowOf(first[i]) == WindowOf(e) && first[i].order <= e.order;
      assert WindowOf(rows[i]) == WindowOf(first[i]);
    }
    forall row | row in rows
      ensures ComesFrom(row, all)
    {
      var i :| 0 <= i < |rows| && row == rows[i];
      assert ComesFrom(first[i], all);
    }
    forall i, j | 0 <= i < j < |rows|
      ensures WindowOf(rows[i]) != WindowOf(rows[j]) && rows[i].order <= rows[j].order
    {
      assert WindowOf(first[i]) != WindowOf(first[j]);
    }
  }

  lemma MarksAreClaims(first: seq<Entry>, rows: seq<Entry>, i: nat)
    requires i < |rows| == |first|
    requires forall j :: 0 <= j < |rows| ==> rows[j].name == first[j].name
    ensures Claims(first, BaseName(rows[i].name)) >= 1
    ensures Claims(first, BaseName(rows[i].name)) > 1 <==> AnotherClaims(rows, i)
  {
    hide BaseName;
    var base := BaseName(rows[i].name);
    ClaimsCounts(first, base);
    assert forall j: nat :: j < |rows| ==> (ClaimsAt(first, j, base) <==> BaseName(rows[j].name) == base);
    assert ClaimsAt(first, i, base);
    if j :| 0 <= j < |rows| && j != i && BaseName(rows[j].name) == base {
      assert ClaimsAt(first, j, base);
    }
  }

  lemma NothingMerged(s: seq<Entry>)
    ensures Merged(s[..0], [])
  {
  }

  method ArrangeEntries(all: seq<Entry>) returns (out: seq<Entry>)
    ensures IsArrangement(all, out)
  {
    hide BaseName, Sorted, Merged, Ascending;
    var s := Sorted(all);
    SortedAscends(all);
    NothingMerged(s);
    var seen: set<Window> := {};
    var rows: map<string, nat> := map[];
    out := [];
    for k := 0 to |s|
      invariant Merged(s[..k], out)
      invariant forall w :: w in seen <==> exists i :: 0 <= i < |out| && WindowOf(out[i]) == w
      invariant forall base :: Claims(out, base) == if base in rows then rows[base] else 0
    {
      MergeOne(s, k, out);
      var entry := s[k];
      var w := WindowOf(entry);
      if w !in seen {
        seen := seen + {w};
        var base := BaseName(entry.name);
        rows := rows[base := (if base in rows then rows[base] else 0) + 1];
        assert (out + [entry])[..|out|] == out;
        assert forall i :: 0 <= i < |out| ==> (out + [entry])[i] == out[i];
        out := out + [entry];
        assert WindowOf(out[|out| - 1]) == w;
      }
    }
    assert s[..|s|] == s;
    forall e
      ensures e in s <==> e in all
    {
      SortedKeeps(all, e);
    }
    MergedIgnoresOrder(s, all, out);
    ghost var first := out;
    for i := 0 to |out|
      invariant |out| == |first|
      invariant forall j :: 0 <= j < |out| ==> out[j] == first[j].(duplicate := out[j].duplicate)
      invariant forall j :: 0 <= j < i ==> (out[j].duplicate <==> Claims(first, BaseName(out[j].name)) > 1)
    {
      var base := BaseName(out[i].name);
      MarksAreClaims(first, out, i);
      out := out[i := out[i].(duplicate := rows[base] > 1)];
    }
    MarksKeepMerged(all, first, out);
    forall i: nat | i < |out|
      ensures out[i].duplicate <==> AnotherClaims(out, i)
    {
      MarksAreClaims(first, out, i);
    }
  }

  // ----- what the rows do not depend on

  predicate DistinctOrders(all: seq<Entry>) {
    forall i, j :: 0 <= i < j < |all| ==> all[i].order != all[j].order
  }

  /** Two entries with one order are the same entry. */
  lemma OneEntryPerOrder(all: seq<Entry>, a: Entry, b: Entry)
    requires DistinctOrders(all) && a in all && b in all && a.order == b.order
    ensures a == b
  {
  }

  /** A row for a window is the earliest entry of that window. */
  lemma RowIsEarliest(all: seq<Entry>, rows: seq<Entry>, i: nat, e: Entry)
    requires Merged(all, rows) && i < |rows| && e in all && WindowOf(e) == WindowOf(rows[i])
    ensures rows[i].order <= e.order
  {
    assert StoodFor(rows, e);
    var j :| 0 <= j < |rows| && WindowOf(rows[j]) == WindowOf(e) && rows[j].order <= e.order;
  }

  /** Rows of the same entries, in whatever order they came: one list's row is in the other. */
  lemma RowIsInBoth(all: seq<Entry>, other: seq<Entry>, left: seq<Entry>, right: seq<Entry>, i: nat) returns (j: nat)
    requires SameMembers(all, other) && DistinctOrders(all)
    requires Merged(all, left) && Merged(other, right) && i < |left|
    ensures j < |right| && right[j] == left[i].(duplicate := right[j].duplicate)
  {
    assert left[i] in left;
    assert ComesFrom(left[i], all);
    var a :| 0 <= a < |all| && left[i] == all[a].(duplicate := left[i].duplicate);
    assert all[a] in other;
    assert StoodFor(right, all[a]);
    j :| 0 <= j < |right| && WindowOf(right[j]) == WindowOf(all[a]) && right[j].order <= all[a].order;
    assert right[j] in right;
    assert ComesFrom(right[j], other);
    var b :| 0 <= b < |other| && right[j] == other[b].(duplicate := right[j].duplicate);
    assert other[b] in all;
    RowIsEarliest(all, left, i, other[b]);
    OneEntryPerOrder(all, all[a], other[b]);
  }

  lemma StrictlyAscends(all: seq<Entry>, rows: seq<Entry>, i: nat, j: nat)
    requires Merged(all, rows) && DistinctOrders(all) && i < j < |rows|
    ensures rows[i].order < rows[j].order
  {
    assert ComesFrom(rows[i], all) && ComesFrom(rows[j], all);
    var a :| 0 <= a < |all| && rows[i] == all[a].(duplicate := rows[i].duplicate);
    var b :| 0 <= b < |all| && rows[j] == all[b].(duplicate := rows[j].duplicate);
    assert WindowOf(rows[i]) != WindowOf(rows[j]);
  }

  /** Row by row they are the same, marks aside. */
  lemma {:induction false} SameRowAt(all: seq<Entry>, other: seq<Entry>, left: seq<Entry>, right: seq<Entry>, i: nat)
    requires SameMembers(all, other) && DistinctOrders(all) && DistinctOrders(other)
    requires Merged(all, left) && Merged(other, right) && i < |left|
    ensures i < |right| && right[i] == left[i].(duplicate := right[i].duplicate)
  {
    var j := RowIsInBoth(all, other, left, right, i);
    if i > 0 {
      SameRowAt(all, other, left, right, i - 1);
      StrictlyAscends(all, left, i - 1, i);
    }
    // nothing of the right list stands between its row before and the one for row i
    if i < j {
      var k := RowIsInBoth(other, all, right, left, i);
      StrictlyAscends(other, right, i, j);
      if i > 0 {
        StrictlyAscends(other, right, i - 1, i);
      }
    }
  }

  lemma {:induction false} SamePermutedRows(all: seq<Entry>, other: seq<Entry>, left: seq<Entry>, right: seq<Entry>)
    requires SameMembers(all, other) && DistinctOrders(all) && DistinctOrders(other)
    requires Merged(all, left) && Merged(other, right)
    ensures |left| == |right| && forall i :: 0 <= i < |left| ==> right[i] == left[i].(duplicate := right[i].duplicate)
  {
    forall i: nat | i < |left|
      ensures i < |right| && right[i] == left[i].(duplicate := right[i].duplicate)
    {
      SameRowAt(all, other, left, right, i);
    }
    if |left| > |right| {
      SameRowAt(all, other, left, right, |right|);
    } else if |right| > |left| {
      SameRowAt(other, all, right, left, |left|);
    }
  }

  /** The rows are a function of what was heard, not of the order a map hands it out in. */
  lemma SameForEveryPermutation(all: seq<Entry>, other: seq<Entry>, left: seq<Entry>, right: seq<Entry>)
    requires SameMembers(all, other) && DistinctOrders(all) && DistinctOrders(other)
    requires IsArrangement(all, left) && IsArrangement(other, right)
    ensures left == right
  {
    hide BaseName, Merged;
    SamePermutedRows(all, other, left, right);
    forall i: nat | i < |left|
      ensures left[i].duplicate == right[i].duplicate
    {
      SameClaims(left, right, i);
      SameClaims(right, left, i);
    }
  }

  lemma SameClaims(left: seq<Entry>, right: seq<Entry>, i: nat)
    requires |left| == |right| && i < |left|
    requires forall j :: 0 <= j < |left| ==> left[j].name == right[j].name
    ensures AnotherClaims(left, i) ==> AnotherClaims(right, i)
  {
    hide BaseName;
    if AnotherClaims(left, i) {
      var j :| 0 <= j < |left| && j != i && BaseName(left[j].name) == BaseName(left[i].name);
      assert left[j].name == right[j].name && left[i].name == right[i].name;
    }
  }

  // ----- the rows of a name and of its renames

  predicate EndsInBlank(s: string) {
    s == "" || s[|s| - 1] == ' '
  }

  /** A name whose base is what the trim leaves of it has the same base after its k-th rename
      exactly if that is the first, or the base does not end in a blank. */
  lemma RenameKeepsBaseIff(name: string, base: string, k: nat)
    requires TrimServiceName(name) == Some(base) && BaseName(name) == base && k > 0
    ensures BaseName(NameAfter(base, k)) == BaseName(name) <==> k == 1 || !EndsInBlank(base)
  {
    BaseAfterRenames(name, base, k);
    TrimRightBlanksSplits(base);
    hide TrimServiceName, BaseName, NameAfter;
    if AllBlank(base) {
      assert |Suffixed(base, 2)| > |base|;
    }
  }

  predicate EitherWindow(e: Entry, one: Entry, other: Entry) {
    WindowOf(e) == WindowOf(one) || WindowOf(e) == WindowOf(other)
  }

  /** Two windows, of which one has the name and the other what k conflicts made of it, are
      both listed; both are marked if that is the first rename or the base does not end in a
      blank; and if they are all that is heard, the marks are set exactly then. */
  lemma RenameIsMarked(all: seq<Entry>, rows: seq<Entry>, one: Entry, other: Entry, base: string, k: nat)
    requires IsArrangement(all, rows) && one in all && other in all && WindowOf(one) != WindowOf(other)
    requires TrimServiceName(one.name) == Some(base) && BaseName(one.name) == base
    requires k > 0 && other.name == NameAfter(base, k)
    ensures (exists row :: row in rows && WindowOf(row) == WindowOf(one))
            && (exists row :: row in rows && WindowOf(row) == WindowOf(other))
    ensures k == 1 || !EndsInBlank(base) ==>
              forall row :: row in rows && EitherWindow(row, one, other) ==> row.duplicate
    ensures (forall e :: e in all ==> EitherWindow(e, one, other)) ==>
              forall row :: row in rows ==> (row.duplicate <==> k == 1 || !EndsInBlank(base))
  {
    RenameKeepsBaseIff(one.name, base, k);
    TwoRows(all, rows, one, other);
    hide IsArrangement, TrimServiceName, BaseName, NameAfter;
  }

  lemma RowFor(rows: seq<Entry>, e: Entry) returns (i: nat)
    requires StoodFor(rows, e)
    ensures i < |rows| && WindowOf(rows[i]) == WindowOf(e)
  {
    i :| i < |rows| && WindowOf(rows[i]) == WindowOf(e);
  }

  lemma RowOfTwo(all: seq<Entry>, rows: seq<Entry>, one: Entry, other: Entry, k: nat)
    requires Merged(all, rows) && k < |rows|
    requires forall e :: e in all ==> WindowOf(e) == WindowOf(one) || WindowOf(e) == WindowOf(other)
    ensures WindowOf(rows[k]) == WindowOf(one) || WindowOf(rows[k]) == WindowOf(other)
  {
    assert rows[k] in rows;
    assert ComesFrom(rows[k], all);
    var a :| 0 <= a < |all| && rows[k] == all[a].(duplicate := rows[k].duplicate);
    assert WindowOf(rows[k]) == WindowOf(all[a]) && all[a] in all;
  }

  lemma MarkedBesideTheOther(all: seq<Entry>, rows: seq<Entry>, one: Entry, other: Entry, k: nat)
    requires IsArrangement(all, rows) && other in all && WindowOf(one) != WindowOf(other) && k < |rows|
    requires WindowOf(rows[k]) == WindowOf(one) && BaseName(one.name) == BaseName(other.name)
    ensures rows[k].duplicate
  {
    hide BaseName;
    assert StoodFor(rows, other);
    var j := RowFor(rows, other);
    assert j != k && BaseName(rows[j].name) == BaseName(rows[k].name);
    assert AnotherClaims(rows, k);
  }

  lemma UnmarkedBesideTheOther(all: seq<Entry>, rows: seq<Entry>, one: Entry, other: Entry, k: nat)
    requires IsArrangement(all, rows) && WindowOf(one) != WindowOf(other) && k < |rows|
    requires WindowOf(rows[k]) == WindowOf(one) && BaseName(one.name) != BaseName(other.name)
    requires forall e :: e in all ==> WindowOf(e) == WindowOf(one) || WindowOf(e) == WindowOf(other)
    ensures !rows[k].duplicate
  {
    hide BaseName;
    if AnotherClaims(rows, k) {
      var j: nat :| j < |rows| && j != k && BaseName(rows[j].name) == BaseName(rows[k].name);
      RowOfTwo(all, rows, one, other, j);
    }
  }

  /** Of two windows heard, each has its row, marked if the bases agree; with nothing else
      heard, only then. */
  lemma TwoRows(all: seq<Entry>, rows: seq<Entry>, one: Entry, other: Entry)
    requires IsArrangement(all, rows) && one in all && other in all && WindowOf(one) != WindowOf(other)
    ensures (exists row :: row in rows && WindowOf(row) == WindowOf(one))
            && (exists row :: row in rows && WindowOf(row) == WindowOf(other))
    ensures BaseName(one.name) == BaseName(other.name) ==>
              forall row :: row in rows && EitherWindow(row, one, other) ==> row.duplicate
    ensures (forall e :: e in all ==> EitherWindow(e, one, other)) ==>
              forall row :: row in rows ==> (row.duplicate <==> BaseName(one.name) == BaseName(other.name))
  {
    assert StoodFor(rows, one) && StoodFor(rows, other);
    var i := RowFor(rows, one);
    var j := RowFor(rows, other);
    assert rows[i] in rows && rows[j] in rows;
    hide IsArrangement, BaseName;
    var agree := BaseName(one.name) == BaseName(other.name);
    forall row | row in rows && EitherWindow(row, one, other)
      ensures agree ==> row.duplicate
      ensures !agree && (forall e :: e in all ==> EitherWindow(e, one, other)) ==> !row.duplicate
    {
      var k: nat :| k < |rows| && rows[k] == row;
      var own, that := if WindowOf(row) == WindowOf(one) then one else other, if WindowOf(row) == WindowOf(one) then other else one;
      if agree {
        MarkedBesideTheOther(all, rows, own, that, k);
      } else if forall e :: e in all ==> EitherWindow(e, one, other) {
        UnmarkedBesideTheOther(all, rows, own, that, k);
      }
    }
    if forall e :: e in all ==> EitherWindow(e, one, other) {
      forall row | row in rows
        ensures EitherWindow(row, one, other)
      {
        var k: nat :| k < |rows| && rows[k] == row;
        ArrangementIsMerged(all, rows);
        RowOfTwo(all, rows, one, other, k);
      }
    }
  }

  lemma ArrangementIsMerged(all: seq<Entry>, rows: seq<Entry>)
    requires IsArrangement(all, rows)
    ensures Merged(all, rows)
  {
  }

  /** A name with a blank at its end, whose second rename is shown unmarked beside it. */
  lemma BlankEndEscapesTheMark()
    ensures TrimServiceName("desk ") == Some("desk ") && BaseName("desk ") == "desk "
    ensures NameAfter("desk ", 2) == "desk (3)" && EndsInBlank("desk ")
  {
    assert TrimRightBlanks("desk ") == "desk" by {
      assert "desk "[..4] == "desk";
    }
  }
}
