/** DNS-SD service instance names (section 4.3 of RFC 6763): the printer that escapes and the
    parser that reads the name back to front. A char stands for one character of the name. */
module InstanceName {
  import opened Wrappers
  import Lists

  // ----- printing

  const SPECIAL: string := ".' @;()\"\\"

  /** A backslash in front of every special character. */
  function Escape(name: string): string {
    if name == "" then ""
    else (if name[0] in SPECIAL then ['\\', name[0]] else [name[0]]) + Escape(name[1..])
  }

  function Print(name: string, typ: string, domain: string): string {
    Escape(name) + "." + typ + "." + domain + "."
  }

  /** The same without escaping, which is what the browse loop compares. */
  function PrintPlain(name: string, typ: string, domain: string): string {
    name + "." + typ + "." + domain + "."
  }

  /** The service a name belongs to, with its trailing dot. */
  function ServiceOf(typ: string, domain: string): string {
    typ + "." + domain + "."
  }

  // ----- parsing

  function Unescape(s: string): string {
    if s == "" then ""
    else (if s[0] == '\\' then "" else [s[0]]) + Unescape(s[1..])
  }

  function Reverse(s: string): string {
    if s == "" then "" else Reverse(s[1..]) + [s[0]]
  }

  function TrimLeadingDots(s: string): string {
    if s != "" && s[0] == '.' then TrimLeadingDots(s[1..]) else s
  }

  function TrimTrailingDots(s: string): string {
    if s != "" && s[|s| - 1] == '.' then TrimTrailingDots(s[..|s| - 1]) else s
  }

  function TrimDots(s: string): string {
    TrimTrailingDots(TrimLeadingDots(s))
  }

  /** Reads up to and including the first dot, or fails when there is none. */
  function ReadToDot(s: string): Option<(string, string)> {
    if s == "" then None
    else if s[0] == '.' then Some((".", s[1..]))
    else match ReadToDot(s[1..])
      case None => None
      case Some((line, rest)) => Some(([s[0]] + line, rest))
  }

  datatype Parsed = Parsed(name: string, typ: string, domain: string)

  /** A name that runs out of dots leaves behind whatever had been read of it. */
  function Parse(str: string): Parsed {
    match ReadToDot(Reverse(TrimDots(str)))
    case None => Parsed("", "", "")
    case Some((l, afterDomain)) =>
      var domain := Reverse(TrimDots(l));
      match ReadToDot(afterDomain)
      case None => Parsed("", "", domain)
      case Some((proto, afterProto)) =>
        match ReadToDot(afterProto)
        case None => Parsed("", "", domain)
        case Some((typee, rest)) =>
          Parsed(Unescape(Reverse(rest)), TrimDots(Reverse(typee)) + "." + TrimDots(Reverse(proto)), domain)
  }

  /** The parser as it consumes its buffer. */
  method ParseServiceInstanceName(str: string) returns (name: string, service: string, domain: string)
    ensures Parsed(name, service, domain) == Parse(str)
  {
    name, service, domain := "", "", "";
    var buffer := Reverse(TrimDots(str));
    var l := ReadToDot(buffer);
    if l.None? {
      return;
    }
    buffer := l.value.1;
    domain := Reverse(TrimDots(l.value.0));
    var proto := ReadToDot(buffer);
    if proto.None? {
      return;
    }
    buffer := proto.value.1;
    var typee := ReadToDot(buffer);
    if typee.None? {
      return;
    }
    buffer := typee.value.1;
    service := TrimDots(Reverse(typee.value.0)) + "." + TrimDots(Reverse(proto.value.0));
    name := Unescape(Reverse(buffer));
  }

  // ----- reversing and reading

  lemma {:induction false} ReverseAppend(a: string, b: string)
    ensures Reverse(a + b) == Reverse(b) + Reverse(a)
  {
    if a == "" {
      assert a + b == b;
    } else {
      ReverseAppend(a[1..], b);
      assert (a + b)[1..] == a[1..] + b;
    }
  }

  lemma {:induction false} ReverseReverse(s: string)
    ensures Reverse(Reverse(s)) == s
  {
    if s == "" {
    } else {
      ReverseReverse(s[1..]);
      ReverseAppend(Reverse(s[1..]), [s[0]]);
      assert s == [s[0]] + s[1..];
    }
  }

  lemma {:induction false} ReverseMembers(s: string, c: char)
    ensures |Reverse(s)| == |s| && (c in Reverse(s) <==> c in s)
  {
    if s == "" {
    } else {
      ReverseMembers(s[1..], c);
      assert s == [s[0]] + s[1..];
    }
  }

  lemma {:induction false} ReadOneLabel(part: string, rest: string)
    requires '.' !in part
    ensures ReadToDot(part + "." + rest) == Some((part + ".", rest))
  {
    var s := part + "." + rest;
    if part == "" {
      assert s == "." + rest && s[1..] == rest;
      assert part + "." == ".";
    } else {
      ReadOneLabel(part[1..], rest);
      assert s[1..] == part[1..] + "." + rest;
      assert [s[0]] + (part[1..] + ".") == part + ".";
    }
  }

  /** What was read is a dot-free label and a dot, in front of the rest. */
  lemma {:induction false} ReadSplits(s: string)
    ensures match ReadToDot(s)
            case None => '.' !in s
            case Some((line, rest)) =>
              && s == line + rest && line != "" && line[|line| - 1] == '.' && '.' !in line[..|line| - 1]
  {
    if s == "" || s[0] == '.' {
    } else {
      ReadSplits(s[1..]);
      assert s == [s[0]] + s[1..];
      match ReadToDot(s[1..])
      case None =>
      case Some((line, rest)) =>
        assert ([s[0]] + line)[..|line|] == [s[0]] + line[..|line| - 1];
    }
  }

  lemma TrimLabel(part: string)
    requires '.' !in part
    ensures TrimDots(part + ".") == part && TrimDots("." + part) == part
  {
    if part == "" {
      assert part + "." == "." && "." + part == ".";
      assert "."[1..] == "" && TrimLeadingDots(".") == "";
    } else {
      var s := part + ".";
      assert s[..|s| - 1] == part;
      assert TrimTrailingDots(s) == TrimTrailingDots(part);
      var t := "." + part;
      assert t[0] == '.' && t[1..] == part;
      assert TrimLeadingDots(t) == TrimLeadingDots(part) == part;
    }
  }

  // ----- print, then parse

  predicate DotFree(s: string) {
    '.' !in s
  }

  lemma {:induction false} UnescapeAppend(a: string, b: string)
    ensures Unescape(a + b) == Unescape(a) + Unescape(b)
  {
    if a == "" {
      assert a + b == b;
    } else {
      UnescapeAppend(a[1..], b);
      assert (a + b)[1..] == a[1..] + b;
      var front := if a[0] == '\\' then "" else [a[0]];
      Lists.AppendAssociates(front, Unescape(a[1..]), Unescape(b));
    }
  }

  /** Escaping and unescaping deletes the backslashes the name had of its own. */
  lemma {:induction false} UnescapeEscape(name: string)
    ensures Unescape(Escape(name)) == Unescape(name)
    ensures name != "" ==> Escape(name) != "" && Escape(name)[0] != '.'
  {
    if name == "" {
    } else {
      UnescapeEscape(name[1..]);
      var front := if name[0] in SPECIAL then ['\\', name[0]] else [name[0]];
      UnescapeAppend(front, Escape(name[1..]));
      assert ['\\', name[0]][1..] == [name[0]] && [name[0]][1..] == "";
      assert Unescape([name[0]]) == if name[0] == '\\' then "" else [name[0]];
      assert Unescape(front) == Unescape([name[0]]);
    }
  }

  lemma {:induction false} UnescapeIdentity(name: string)
    ensures Unescape(name) == name <==> '\\' !in name
    ensures |Unescape(name)| <= |name| && '\\' !in Unescape(name)
  {
    if name == "" {
    } else {
      UnescapeIdentity(name[1..]);
      assert name == [name[0]] + name[1..];
    }
  }

  lemma JoinAssociates(a: string, b: string, c: string)
    ensures a + "." + (b + "." + c) == a + "." + b + "." + c
  {
    Lists.AppendAssociates(a + ".", b + ".", c);
  }

  lemma ReverseJoin(a: string, b: string)
    ensures Reverse(a + "." + b) == Reverse(b) + "." + Reverse(a)
  {
    ReverseAppend(a + ".", b);
    ReverseAppend(a, ".");
    assert "."[1..] == "" && Reverse(".") == ".";
    assert Reverse(b) + ("." + Reverse(a)) == Reverse(b) + "." + Reverse(a);
  }

  lemma TrimPrinted(front: string, domain: string)
    requires front != "" && front[0] != '.' && domain != "" && DotFree(domain)
    ensures TrimDots(front + "." + domain + ".") == front + "." + domain
  {
    var kept := front + "." + domain;
    var str := kept + ".";
    assert str[0] == front[0];
    assert str[..|str| - 1] == kept;
    assert kept[|kept| - 1] == domain[|domain| - 1];
    assert TrimTrailingDots(str) == TrimTrailingDots(kept);
  }

  /** A name and what follows it as the parser sees them: back to front, without the last dot. */
  lemma PrintedReversed(front: string, t1: string, t2: string, domain: string)
    requires front != "" && front[0] != '.' && domain != "" && DotFree(domain)
    ensures Reverse(TrimDots(PrintPlain(front, t1 + "." + t2, domain)))
         == Reverse(domain) + "." + (Reverse(t2) + "." + (Reverse(t1) + "." + Reverse(front)))
  {
    JoinAssociates(front, t1, t2);
    var all := front + "." + t1 + "." + t2;
    assert all[0] == front[0];
    TrimPrinted(all, domain);
    ReverseJoin(all, domain);
    ReverseJoin(front + "." + t1, t2);
    ReverseJoin(front, t1);
  }

  lemma ReadOneReversed(part: string, rest: string)
    requires DotFree(part)
    ensures ReadToDot(Reverse(part) + "." + rest) == Some((Reverse(part) + ".", rest))
    ensures TrimDots(Reverse(Reverse(part) + ".")) == part
    ensures Reverse(TrimDots(Reverse(part) + ".")) == part
  {
    ReverseMembers(part, '.');
    ReadOneLabel(Reverse(part), rest);
    ReverseReverse(part);
    ReverseAppend(Reverse(part), ".");
    assert "."[1..] == "" && Reverse(".") == ".";
    TrimLabel(part);
    TrimLabel(Reverse(part));
  }

  /** Anywhere in a name, a dot, a blank, a quote, an at sign, a semicolon, a bracket or a
      backslash gets a backslash in front, and nothing else does. */
  lemma {:induction false} EscapesExactly(a: string, c: char, b: string)
    ensures Escape(a + [c] + b)
         == Escape(a) + (if c in {'.', ' ', '\'', '@', ';', '(', ')', '"', '\\'} then ['\\', c] else [c]) + Escape(b)
  {
    var own := if c in SPECIAL then ['\\', c] else [c];
    if a == "" {
      assert (a + [c] + b)[1..] == b;
      assert Escape(a) + own + Escape(b) == own + Escape(b);
    } else {
      EscapesExactly(a[1..], c, b);
      assert (a + [c] + b)[1..] == a[1..] + [c] + b;
      var front := if a[0] in SPECIAL then ['\\', a[0]] else [a[0]];
      Lists.AppendAssociates(front, Escape(a[1..]) + own, Escape(b));
      Lists.AppendAssociates(front, Escape(a[1..]), own);
    }
  }

  /** Whatever stands in front of type and domain is the name, but for its backslashes. */
  lemma ParseFront(front: string, t1: string, t2: string, domain: string)
    requires front != "" && front[0] != '.' && DotFree(t1) && DotFree(t2) && domain != "" && DotFree(domain)
    ensures Parse(PrintPlain(front, t1 + "." + t2, domain)) == Parsed(Unescape(front), t1 + "." + t2, domain)
  {
    PrintedReversed(front, t1, t2, domain);
    var e := Reverse(front);
    ReadOneReversed(domain, Reverse(t2) + "." + (Reverse(t1) + "." + e));
    ReadOneReversed(t2, Reverse(t1) + "." + e);
    ReadOneReversed(t1, e);
    ReverseReverse(front);
  }

  /** Parsing the printed name of a service returns the type, the domain, and the name with
      its backslashes deleted. */
  lemma ParsePrinted(name: string, t1: string, t2: string, domain: string)
    requires name != "" && DotFree(t1) && DotFree(t2) && domain != "" && DotFree(domain)
    ensures Parse(Print(name, t1 + "." + t2, domain)) == Parsed(Unescape(name), t1 + "." + t2, domain)
  {
    UnescapeEscape(name);
    ParseFront(Escape(name), t1, t2, domain);
  }

  lemma ReadNoDot(part: string)
    requires DotFree(part)
    ensures ReadToDot(Reverse(part)) == None
  {
    ReverseMembers(part, '.');
    ReadSplits(Reverse(part));
  }

  /** A name of fewer than four labels gives its last label for a domain, if there is one in
      front of it, and nothing else. */
  lemma ShortNames(a: string, b: string, domain: string)
    requires DotFree(a) && DotFree(b) && DotFree(domain) && a != "" && b != "" && domain != ""
    ensures Parse(domain) == Parsed("", "", "")
    ensures Parse(b + "." + domain) == Parsed("", "", domain)
    ensures Parse(a + "." + b + "." + domain) == Parsed("", "", domain)
  {
    TrimNothing(domain);
    ReadNoDot(domain);
    var two := b + "." + domain;
    assert two[0] == b[0] && two[|two| - 1] == domain[|domain| - 1];
    TrimNothing(two);
    ReverseJoin(b, domain);
    ReadOneReversed(domain, Reverse(b));
    ReadNoDot(b);
    var three := a + "." + b + "." + domain;
    assert three[0] == a[0] && three[|three| - 1] == domain[|domain| - 1];
    TrimNothing(three);
    ReverseJoin(a + "." + b, domain);
    ReverseJoin(a, b);
    ReadOneReversed(domain, Reverse(b) + "." + Reverse(a));
    ReadOneReversed(b, Reverse(a));
    ReadNoDot(a);
  }

  lemma TrimNothing(s: string)
    requires s != "" && s[0] != '.' && s[|s| - 1] != '.'
    ensures TrimDots(s) == s
  {
  }

  lemma {:induction false} TrimmedEnd(s: string)
    ensures var t := TrimTrailingDots(s); t == "" || t[|t| - 1] != '.'
  {
    if s != "" && s[|s| - 1] == '.' {
      TrimmedEnd(s[..|s| - 1]);
    }
  }

  lemma {:induction false} ReverseStart(s: string)
    requires s != ""
    ensures Reverse(s) != "" && Reverse(s)[0] == s[|s| - 1]
  {
    if s[1..] != "" {
      ReverseStart(s[1..]);
    }
  }

  /** Parsing finds an empty domain only where it finds nothing at all. */
  lemma EmptyDomainMeansNothing(str: string)
    ensures Parse(str).domain == "" ==> Parse(str) == Parsed("", "", "")
  {
    var trimmed := TrimDots(str);
    var buffer := Reverse(trimmed);
    if ReadToDot(buffer).Some? {
      ReadSplits(buffer);
      var l := ReadToDot(buffer).value.0;
      var part := l[..|l| - 1];
      assert l == part + ".";
      TrimLabel(part);
      TrimmedEnd(TrimLeadingDots(str));
      if trimmed != "" {
        ReverseStart(trimmed);
        assert buffer[0] == l[0];
      }
      ReverseMembers(part, '.');
    }
  }

  /** So the round trip is the identity exactly on names without a backslash in a domain that
      is not empty, and on what the printer writes for such a name, printing what was parsed
      is the identity too. */
  lemma RoundTripIffNoBackslash(name: string, t1: string, t2: string, domain: string)
    requires name != "" && DotFree(t1) && DotFree(t2) && DotFree(domain)
    ensures var str := Print(name, t1 + "." + t2, domain);
            && (Parse(str) == Parsed(name, t1 + "." + t2, domain) <==> '\\' !in name && domain != "")
            && ('\\' !in name && domain != "" ==> Canonical(str))
  {
    if domain == "" {
      EmptyDomainMeansNothing(Print(name, t1 + "." + t2, domain));
    } else {
      ParsePrinted(name, t1, t2, domain);
      UnescapeIdentity(name);
    }
  }

  // ----- the printer's own spelling

  /** A spelling the printer would have chosen itself. */
  predicate Canonical(str: string) {
    var p := Parse(str);
    Print(p.name, p.typ, p.domain) == str
  }

  /** What parsing can give: a dot-free domain, and two dot-free labels for the type or
      nothing at all. */
  predicate WellShaped(p: Parsed) {
    && DotFree(p.domain)
    && (p.typ == "" || exists i :: 0 <= i < |p.typ| && p.typ[i] == '.' && DotFree(p.typ[..i]) && DotFree(p.typ[i + 1..]))
    && (p.typ == "" ==> p.name == "")
  }

  lemma ReadLabelIsDotFree(s: string)
    requires ReadToDot(s).Some?
    ensures var l := ReadToDot(s).value.0;
            DotFree(TrimDots(l)) && DotFree(Reverse(TrimDots(l))) && DotFree(TrimDots(Reverse(l)))
  {
    ReadSplits(s);
    var l := ReadToDot(s).value.0;
    var part := l[..|l| - 1];
    assert l == part + ".";
    TrimLabel(part);
    ReverseMembers(part, '.');
    ReverseAppend(part, ".");
    assert "."[1..] == "" && Reverse(".") == ".";
    TrimLabel(Reverse(part));
  }

  lemma ParseIsWellShaped(str: string)
    ensures WellShaped(Parse(str))
  {
    var buffer := Reverse(TrimDots(str));
    if ReadToDot(buffer).Some? {
      ReadLabelIsDotFree(buffer);
      var afterDomain := ReadToDot(buffer).value.1;
      if ReadToDot(afterDomain).Some? {
        ReadLabelIsDotFree(afterDomain);
        var afterProto := ReadToDot(afterDomain).value.1;
        if ReadToDot(afterProto).Some? {
          ReadLabelIsDotFree(afterProto);
          var t1 := TrimDots(Reverse(ReadToDot(afterProto).value.0));
          var t2 := TrimDots(Reverse(ReadToDot(afterDomain).value.0));
          var typ := t1 + "." + t2;
          assert typ[..|t1|] == t1 && typ[|t1|] == '.' && typ[|t1| + 1..] == t2;
        }
      }
    }
  }

  lemma LastDot(a: string, b: string)
    requires DotFree(b)
    ensures var s := a + "." + b;
            && s[|a|] == '.' && (forall i :: |a| < i < |s| ==> s[i] != '.')
            && s[..|a|] == a && s[|a| + 1..] == b
  {
    var s := a + "." + b;
    forall i | |a| < i < |s|
      ensures s[i] != '.'
    {
      assert s[i] == b[i - |a| - 1];
    }
  }

  /** Splitting at the last dot is unambiguous when what follows it is dot-free. */
  lemma LastDotSplits(a: string, b: string, a': string, b': string)
    requires DotFree(b) && DotFree(b') && a + "." + b == a' + "." + b'
    ensures a == a' && b == b'
  {
    LastDot(a, b);
    LastDot(a', b');
    assert |a| == |a'|;
  }

  /** A service name determines type and domain. */
  lemma ServiceOfInjective(p: Parsed, q: Parsed)
    requires DotFree(p.domain) && DotFree(q.domain) && ServiceOf(p.typ, p.domain) == ServiceOf(q.typ, q.domain)
    ensures p.typ == q.typ && p.domain == q.domain
  {
    var s, t := ServiceOf(p.typ, p.domain), ServiceOf(q.typ, q.domain);
    assert s[..|s| - 1] == p.typ + "." + p.domain && t[..|t| - 1] == q.typ + "." + q.domain;
    LastDotSplits(p.typ, p.domain, q.typ, q.domain);
  }

  /** The type's two labels, in a name read up to its domain. */
  lemma TypeLabels(p: Parsed) returns (t1: string, t2: string)
    requires WellShaped(p) && p.typ != ""
    ensures DotFree(t1) && DotFree(t2) && p.typ == t1 + "." + t2
    ensures p.name + "." + p.typ == p.name + "." + t1 + "." + t2
  {
    var i :| 0 <= i < |p.typ| && p.typ[i] == '.' && DotFree(p.typ[..i]) && DotFree(p.typ[i + 1..]);
    t1, t2 := p.typ[..i], p.typ[i + 1..];
    assert p.typ == t1 + "." + t2;
    JoinAssociates(p.name, t1, t2);
  }

  lemma PlainWithoutDomain(p: Parsed, q: Parsed)
    requires WellShaped(p) && WellShaped(q)
    requires PrintPlain(p.name, p.typ, p.domain) == PrintPlain(q.name, q.typ, q.domain)
    ensures p.domain == q.domain && p.name + "." + p.typ == q.name + "." + q.typ
  {
    var s, t := PrintPlain(p.name, p.typ, p.domain), PrintPlain(q.name, q.typ, q.domain);
    var a, b := p.name + "." + p.typ, q.name + "." + q.typ;
    assert s == (a + "." + p.domain) + "." && t == (b + "." + q.domain) + ".";
    assert s[..|s| - 1] == a + "." + p.domain && t[..|t| - 1] == b + "." + q.domain;
    LastDotSplits(a, p.domain, b, q.domain);
  }

  /** The unescaped instance name determines everything that was parsed. */
  lemma PrintPlainInjective(p: Parsed, q: Parsed)
    requires WellShaped(p) && WellShaped(q)
    requires PrintPlain(p.name, p.typ, p.domain) == PrintPlain(q.name, q.typ, q.domain)
    ensures p == q
  {
    PlainWithoutDomain(p, q);
    assert p.typ != "" ==> |p.name + "." + p.typ| > 1;
    assert q.typ != "" ==> |q.name + "." + q.typ| > 1;
    if p.typ != "" && q.typ != "" {
      var t1, t2 := TypeLabels(p);
      var u1, u2 := TypeLabels(q);
      LastDotSplits(p.name + "." + t1, t2, q.name + "." + u1, u2);
      LastDotSplits(p.name, t1, q.name, u1);
    }
  }

  /** A name the parser can have given: no backslash is left in it. */
  predicate FromParser(p: Parsed) {
    WellShaped(p) && '\\' !in p.name
  }

  lemma ParseIsFromParser(str: string)
    ensures FromParser(Parse(str))
  {
    ParseIsWellShaped(str);
    var buffer := Reverse(TrimDots(str));
    if ReadToDot(buffer).Some? {
      var afterDomain := ReadToDot(buffer).value.1;
      if ReadToDot(afterDomain).Some? {
        var afterProto := ReadToDot(afterDomain).value.1;
        if ReadToDot(afterProto).Some? {
          UnescapeIdentity(Reverse(ReadToDot(afterProto).value.1));
        }
      }
    }
  }

  /** The escaped name, too, determines everything the parser gave. */
  lemma PrintInjective(p: Parsed, q: Parsed)
    requires FromParser(p) && FromParser(q)
    requires Print(p.name, p.typ, p.domain) == Print(q.name, q.typ, q.domain)
    ensures p == q
  {
    PrintPlainInjective(p.(name := Escape(p.name)), q.(name := Escape(q.name)));
    UnescapeEscape(p.name);
    UnescapeEscape(q.name);
    UnescapeIdentity(p.name);
    UnescapeIdentity(q.name);
  }
}
