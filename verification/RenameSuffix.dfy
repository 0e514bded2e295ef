/** The numbers a responder puts behind a name that conflicted, and how they come off again.
    A char stands for one byte of the name. A slice out of bounds is None. */
module RenameSuffix {
  import opened Wrappers

  predicate IsDigit(c: char) {
    '0' <= c <= '9'
  }

  predicate AllDigits(s: string) {
    forall i :: 0 <= i < |s| ==> IsDigit(s[i])
  }

  /** The last index of c, or -1. */
  function LastIndex(s: string, c: char): (i: int)
    ensures -1 <= i < |s|
    ensures i >= 0 ==> s[i] == c
    ensures forall j :: i < j < |s| ==> s[j] != c
  {
    if s == "" then -1
    else if s[|s| - 1] == c then |s| - 1
    else LastIndex(s[..|s| - 1], c)
  }

  function TrimRightBlanks(s: string): string {
    if s != "" && s[|s| - 1] == ' ' then TrimRightBlanks(s[..|s| - 1]) else s
  }

  function Digit(d: nat): char
    requires d < 10
  {
    ['0', '1', '2', '3', '4', '5', '6', '7', '8', '9'][d]
  }

  function Decimal(n: nat): string {
    if n < 10 then [Digit(n)] else Decimal(n / 10) + [Digit(n % 10)]
  }

  // ----- service names: "desk (2)"

  /** Takes the suffix off: what stands between the last brackets is checked for digits but
      for its last byte, and a slice of nothing at all is out of bounds. */
  function TrimServiceName(name: string): Option<string> {
    var open, close := LastIndex(name, '('), LastIndex(name, ')');
    if open == -1 || close == -1 || open >= close || open == 0 || close != |name| - 1 then Some(name)
    else if open + 1 > close - 1 then None
    else if !AllDigits(name[open + 1..close - 1]) then Some(name)
    else if name[open - 1] != ' ' then Some(name)
    else
      var trimmed := TrimRightBlanks(name[..open]);
      Some(if trimmed == "" then name else trimmed)
  }

  function Suffixed(base: string, count: nat): string {
    base + " (" + Decimal(count) + ")"
  }

  function IncrementServiceName(name: string, count: nat): Option<string> {
    match TrimServiceName(name)
    case None => None
    case Some(base) => Some(Suffixed(base, count))
  }

  // ----- host names: "desk-2"

  function TrimHostName(name: string): string {
    var minus := LastIndex(name, '-');
    if minus == -1 || minus == |name| - 1 then name
    else if !AllDigits(name[minus + 1..]) then name
    else if name[..minus] == "" then name
    else name[..minus]
  }

  function IncrementHostname(name: string, count: nat): string {
    TrimHostName(name) + "-" + Decimal(count)
  }

  // ----- digits

  lemma {:induction false} DecimalIsDigits(n: nat)
    ensures Decimal(n) != "" && AllDigits(Decimal(n))
  {
    if n < 10 {
    } else {
      DecimalIsDigits(n / 10);
    }
  }

  /** A number read off its digits, the first the most significant. */
  function ValueOf(s: string): int {
    if s == "" then 0 else 10 * ValueOf(s[..|s| - 1]) + (s[|s| - 1] as int - '0' as int)
  }

  /** What is written is the number, without a zero in front. */
  lemma {:induction false} DecimalIsTheNumber(n: nat)
    ensures ValueOf(Decimal(n)) == n && (n > 0 ==> Decimal(n)[0] != '0')
  {
    var s := Decimal(n);
    assert s[|s| - 1] == Digit(n % 10);
    assert Digit(n % 10) as int - '0' as int == n % 10;
    if n < 10 {
      assert s[..0] == "";
    } else {
      DecimalIsTheNumber(n / 10);
      DecimalIsDigits(n / 10);
      hide Digit, AllDigits;
      assert s[..|s| - 1] == Decimal(n / 10);
    }
  }

  lemma DigitsDiffer(d: nat, e: nat)
    requires d < 10 && e < 10 && Digit(d) == Digit(e)
    ensures d == e
  {
  }

  lemma {:induction false} DecimalInjective(m: nat, n: nat)
    requires Decimal(m) == Decimal(n)
    ensures m == n
  {
    hide Digit, AllDigits;
    DecimalIsDigits(m / 10);
    DecimalIsDigits(n / 10);
    var s := Decimal(m);
    assert s[|s| - 1] == Digit(m % 10) && s[|s| - 1] == Digit(n % 10);
    DigitsDiffer(m % 10, n % 10);
    if m >= 10 && n >= 10 {
      assert s[..|s| - 1] == Decimal(m / 10) && s[..|s| - 1] == Decimal(n / 10);
      DecimalInjective(m / 10, n / 10);
    }
  }

  lemma LastIndexIs(s: string, c: char, i: int)
    requires -1 <= i < |s| && (i >= 0 ==> s[i] == c) && forall j :: i < j < |s| ==> s[j] != c
    ensures LastIndex(s, c) == i
  {
  }

  // ----- what the trim does, exactly

  /** The trim fails exactly on a name that ends in an empty pair of brackets and has
      something in front of it. */
  lemma TrimFailsExactly(name: string)
    ensures TrimServiceName(name).None? <==> |name| > 2 && name[|name| - 2..] == "()"
  {
    if |name| > 2 && name[|name| - 2..] == "()" {
      assert name[|name| - 2] == name[|name| - 2..][0] && name[|name| - 1] == name[|name| - 2..][1];
      LastIndexIs(name, '(', |name| - 2);
      LastIndexIs(name, ')', |name| - 1);
    }
    if TrimServiceName(name).None? {
      assert name[|name| - 2..] == [name[|name| - 2], name[|name| - 1]];
    }
  }

  /** A suffix the trim takes for its own: blanks, an opening bracket, digits, one more byte
      of any kind but an opening bracket, and a closing bracket. */
  ghost predicate TakenForSuffix(name: string, base: string, blanks: nat, digits: string, last: char) {
    && base != "" && base[|base| - 1] != ' ' && blanks > 0
    && AllDigits(digits) && last != '('
    && name == base + seq(blanks, _ => ' ') + "(" + digits + [last] + ")"
  }

  lemma {:induction false} TrimRightBlanksIs(base: string, blanks: nat)
    requires base == "" || base[|base| - 1] != ' '
    ensures TrimRightBlanks(base + seq(blanks, _ => ' ')) == base
    decreases blanks
  {
    var s := base + seq(blanks, _ => ' ');
    if blanks == 0 {
      assert s == base;
    } else {
      TrimRightBlanksIs(base, blanks - 1);
      assert s[|s| - 1] == ' ';
      assert s[..|s| - 1] == base + seq(blanks - 1, _ => ' ');
    }
  }

  lemma {:induction false} TrimRightBlanksSplits(s: string)
    ensures var base := TrimRightBlanks(s);
            && |base| <= |s|
            && s == base + seq(|s| - |base|, _ => ' ')
            && (base == "" || base[|base| - 1] != ' ')
  {
    if s != "" && s[|s| - 1] == ' ' {
      TrimRightBlanksSplits(s[..|s| - 1]);
    }
  }

  lemma SuffixIsTrimmed(name: string, base: string, blanks: nat, digits: string, last: char)
    requires TakenForSuffix(name, base, blanks, digits, last)
    ensures TrimServiceName(name) == Some(base)
  {
    var front := base + seq(blanks, _ => ' ');
    var open, close := |front|, |name| - 1;
    assert name == front + ("(" + digits + [last] + ")");
    assert name[open] == '(' && name[close] == ')' && name[open - 1] == ' ';
    assert forall j :: open < j <= open + |digits| ==> name[j] == digits[j - open - 1];
    assert name[open + |digits| + 1] == last;
    LastIndexIs(name, '(', open);
    LastIndexIs(name, ')', close);
    assert name[open + 1..close - 1] == digits;
    assert name[..open] == front;
    TrimRightBlanksIs(base, blanks);
  }

  /** The trim changes a name exactly when the name ends in such a suffix, and then what is
      left is the base in front of it, without trailing blanks. */
  lemma TrimIsExact(name: string)
    requires TrimServiceName(name).Some?
    ensures var base := TrimServiceName(name).value;
            base != name <==> exists blanks, digits, last :: TakenForSuffix(name, base, blanks, digits, last)
  {
    var base := TrimServiceName(name).value;
    if base != name {
      var open, close := LastIndex(name, '('), LastIndex(name, ')');
      TrimRightBlanksSplits(name[..open]);
      var digits := name[open + 1..close - 1];
      var last := name[close - 1];
      assert name == name[..open] + "(" + digits + [last] + ")";
      assert TakenForSuffix(name, base, open - |base|, digits, last);
    }
    if blanks, digits, last :| TakenForSuffix(name, base, blanks, digits, last) {
      assert |name| > |base|;
    }
  }

  /** The documented suffix " (%d)" is the case where the unchecked byte is a digit too. */
  lemma UncheckedByte(base: string, digits: string, last: char)
    requires base != "" && base[|base| - 1] != ' ' && AllDigits(digits) && last != '('
    ensures TrimServiceName(base + " (" + digits + [last] + ")") == Some(base)
    ensures AllDigits(digits + [last]) <==> IsDigit(last)
  {
    var name := base + " (" + digits + [last] + ")";
    assert seq(1, _ => ' ') == " ";
    assert name == base + " " + "(" + digits + [last] + ")";
    SuffixIsTrimmed(name, base, 1, digits, last);
    assert (digits + [last])[|digits|] == last;
  }

  // ----- a number put on comes off again

  lemma BlankInFront(base: string, number: string)
    ensures base + " (" + number + ")" == (base + " ") + "(" + number + ")"
  {
  }

  lemma LastApart(front: string, digits: string, last: char)
    ensures front + "(" + (digits + [last]) + ")" == front + "(" + digits + [last] + ")"
  {
  }

  lemma OneMoreBlank(kept: string, n: nat)
    ensures kept + seq(n, _ => ' ') + " " == kept + seq(n + 1, _ => ' ')
  {
  }

  /** A numbered name, taken apart the way the trim takes it apart. */
  lemma SuffixedShape(base: string, count: nat) returns (blanks: nat, digits: string, last: char)
    ensures blanks > 0 && AllDigits(digits) && IsDigit(last)
    ensures Suffixed(base, count) == TrimRightBlanks(base) + seq(blanks, _ => ' ') + "(" + digits + [last] + ")"
  {
    hide Decimal, TrimRightBlanks;
    var number := Decimal(count);
    DecimalIsDigits(count);
    TrimRightBlanksSplits(base);
    var kept := TrimRightBlanks(base);
    digits, last := number[..|number| - 1], number[|number| - 1];
    blanks := |base| - |kept| + 1;
    assert number == digits + [last];
    BlankInFront(base, number);
    OneMoreBlank(kept, |base| - |kept|);
    LastApart(base + " ", digits, last);
  }

  /** Trimming a numbered name gives the base up to trailing blanks; only a base of nothing
      but blanks keeps its number. */
  lemma TrimUndoesSuffix(base: string, count: nat)
    ensures TrimServiceName(Suffixed(base, count))
         == Some(if TrimRightBlanks(base) == "" then Suffixed(base, count) else TrimRightBlanks(base))
  {
    hide TrimServiceName, Suffixed, Decimal;
    var blanks, digits, last := SuffixedShape(base, count);
    TrimRightBlanksSplits(base);
    var kept := TrimRightBlanks(base);
    if kept != "" {
      SuffixIsTrimmed(Suffixed(base, count), kept, blanks, digits, last);
    } else {
      assert kept + seq(blanks, _ => ' ') == seq(blanks, _ => ' ');
      BlankBaseIsKept(Suffixed(base, count), blanks, digits, last);
    }
  }

  lemma BlankBaseIsKept(name: string, blanks: nat, digits: string, last: char)
    requires blanks > 0 && AllDigits(digits) && last != '('
    requires name == seq(blanks, _ => ' ') + "(" + digits + [last] + ")"
    ensures TrimServiceName(name) == Some(name)
  {
    var open, close := blanks, |name| - 1;
    assert name[open] == '(' && name[close] == ')';
    assert forall j :: open < j <= open + |digits| ==> name[j] == digits[j - open - 1];
    assert name[open + |digits| + 1] == last;
    LastIndexIs(name, '(', open);
    LastIndexIs(name, ')', close);
    assert name[..open] == "" + seq(blanks, _ => ' ');
    TrimRightBlanksIs("", blanks);
  }

  lemma TrimUndoesHostSuffix(base: string, count: nat)
    ensures TrimHostName(base + "-" + Decimal(count)) == if base == "" then base + "-" + Decimal(count) else base
  {
    var name, number := base + "-" + Decimal(count), Decimal(count);
    DecimalIsDigits(count);
    hide Decimal;
    assert forall j :: |base| < j < |name| ==> name[j] == number[j - |base| - 1];
    LastIndexIs(name, '-', |base|);
    hide LastIndex;
    assert name[|base| + 1..] == number && name[..|base|] == base;
  }

  predicate HostNumbered(name: string, base: string, digits: string) {
    base != "" && digits != "" && AllDigits(digits) && name == base + "-" + digits
  }

  /** The trim of a host name takes off the last hyphen and the digits behind it, if there are
      digits behind it and something in front of it, and else nothing. */
  lemma TrimHostIsExact(name: string)
    ensures TrimHostName(name) != name <==> exists digits :: HostNumbered(name, TrimHostName(name), digits)
    ensures forall base, digits :: HostNumbered(name, base, digits) ==> TrimHostName(name) == base
  {
    var base := TrimHostName(name);
    if base != name {
      var digits := name[|base| + 1..];
      assert name == base + "-" + digits;
      assert HostNumbered(name, base, digits);
    }
    forall base, digits | HostNumbered(name, base, digits)
      ensures TrimHostName(name) == base
    {
      HostNumberedIsTrimmed(name, base, digits);
    }
  }

  lemma HostNumberedIsTrimmed(name: string, base: string, digits: string)
    requires HostNumbered(name, base, digits)
    ensures TrimHostName(name) == base
  {
    assert name[|base|] == '-';
    assert forall j :: |base| < j < |name| ==> name[j] == digits[j - |base| - 1];
    LastIndexIs(name, '-', |base|);
    assert name[|base| + 1..] == digits && name[..|base|] == base;
  }

  // ----- the k-th rename

  predicate AllBlank(s: string) {
    TrimRightBlanks(s) == ""
  }

  /** The name after k conflicts, each counted once: the base trimmed once, and one number.
      Behind a base of nothing but blanks the first number stays, and a second one follows. */
  function NameAfter(base: string, k: nat): string {
    if k == 0 then base
    else if k == 1 then Suffixed(base, 2)
    else Suffixed(if AllBlank(base) then Suffixed(base, 2) else TrimRightBlanks(base), k + 1)
  }

  lemma SuffixedEnds(base: string, count: nat)
    ensures TrimRightBlanks(Suffixed(base, count)) == Suffixed(base, count) != ""
  {
  }

  /** Renaming the name after k conflicts gives the name after k + 1, so numbers replace one
      another and never pile up beyond two, nor beyond one behind a base that is not blank. */
  lemma RenamesDoNotStack(name: string, base: string, k: nat)
    requires TrimServiceName(name) == Some(base)
    ensures k == 0 ==> IncrementServiceName(name, 2) == Some(NameAfter(base, 1))
    ensures k >= 1 ==> IncrementServiceName(NameAfter(base, k), k + 2) == Some(NameAfter(base, k + 1))
  {
    hide TrimServiceName, Suffixed, Decimal;
    TrimUndoesSuffix(base, 2);
    if k >= 2 {
      var kept := if AllBlank(base) then Suffixed(base, 2) else TrimRightBlanks(base);
      SuffixedEnds(base, 2);
      TrimRightBlanksSplits(base);
      TrimUndoesSuffix(kept, k + 1);
    }
  }

  /** The host name after k conflicts, likewise. Behind an empty base the first number stays. */
  function HostAfter(base: string, k: nat): string {
    if k == 0 then base
    else if k == 1 then base + "-" + Decimal(2)
    else (if base == "" then "-" + Decimal(2) else base) + "-" + Decimal(k + 1)
  }

  lemma HostRenamesDoNotStack(host: string, base: string, k: nat)
    requires TrimHostName(host) == base
    ensures k == 0 ==> IncrementHostname(host, 2) == HostAfter(base, 1)
    ensures k >= 1 ==> IncrementHostname(HostAfter(base, k), k + 2) == HostAfter(base, k + 1)
  {
    hide TrimHostName, Decimal;
    TrimUndoesHostSuffix(base, 2);
    assert "" + "-" + Decimal(2) == "-" + Decimal(2);
    if k >= 2 {
      TrimUndoesHostSuffix(if base == "" then "-" + Decimal(2) else base, k + 1);
    }
  }

  /** Two numbers: what the second rename of a blank name and of an empty host name gives. */
  lemma NumbersPileUpOnNothing()
    ensures NameAfter(" ", 2) == "  (2) (3)" && TrimServiceName(" ") == Some(" ")
    ensures HostAfter("", 2) == "-2-3" && TrimHostName("") == ""
  {
  }
}
