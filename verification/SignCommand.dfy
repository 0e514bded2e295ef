/** The `-Y sign` command line: reading one, and rebuilding it for a single payload. */
module SignCommand {
  import opened Wrappers
  import opened Lists

  datatype Invocation = Invocation(namespace: string, keyFile: string, useAgent: bool, files: seq<string>,
                                   options: seq<string>)

  const EMPTY := Invocation("", "", false, [], [])

  predicate IsFlag(arg: string) {
    arg != "" && arg[0] == '-'
  }

  /** An argument that is read as a payload wherever it stands. */
  predicate IsPayload(arg: string) {
    arg == "-" || !IsFlag(arg)
  }

  predicate WithValue(flag: char) {
    flag in {'Y', 'n', 'f', 'O'}
  }

  predicate Chatty(flag: char) {
    flag in {'q', 'v'}
  }

  /** The flags there are: four with a value, two that are chatter, and -U. */
  lemma FlagsExactly(flag: char, value: string)
    ensures WellFormed(Chatter(flag)) <==> flag == 'q' || flag == 'v'
    ensures WellFormed(Valued(flag, value, false)) <==> flag == 'Y' || flag == 'n' || flag == 'f' || flag == 'O'
    ensures WellFormed(Valued(flag, value, true)) <==> WellFormed(Valued(flag, value, false)) && value != ""
    ensures WellFormed(Payload(value)) <==> value == "-" || value == "" || value[0] != '-'
    ensures AsksForOther(Valued(flag, value, false)) <==> flag == 'Y' && value != "sign"
  {
  }

  // ----- what a command line is made of

  /** One piece: a flag alone, a flag with its value in the same argument or the next, a
      payload, or the payloads behind "--". */
  datatype Token = Chatter(flag: char) | Agent | Valued(flag: char, value: string, glued: bool)
                 | Payload(file: string) | Rest(files: seq<string>)

  predicate WellFormed(t: Token) {
    match t
    case Chatter(flag) => Chatty(flag)
    case Agent => true
    case Valued(flag, value, glued) => WithValue(flag) && (glued ==> value != "")
    case Payload(file) => IsPayload(file)
    case Rest(_) => true
  }

  function Spelled(t: Token): seq<string> {
    match t
    case Chatter(flag) => [['-', flag]]
    case Agent => ["-U"]
    case Valued(flag, value, glued) => if glued then [['-', flag] + value] else [['-', flag], value]
    case Payload(file) => [file]
    case Rest(files) => ["--"] + files
  }

  /** Every piece is well formed, and nothing follows a "--". */
  predicate IsLine(ts: seq<Token>) {
    forall i :: 0 <= i < |ts| ==> WellFormed(ts[i]) && (ts[i].Rest? ==> i == |ts| - 1)
  }

  function Written(ts: seq<Token>): seq<string> {
    if ts == [] then [] else Spelled(ts[0]) + Written(ts[1..])
  }

  /** The first piece of a command line, and how many arguments it takes; None is an unknown
      flag or one whose value is missing. */
  function First(args: seq<string>): (r: Option<(Token, nat)>)
    requires args != []
    ensures r.Some? ==> 0 < r.value.1 <= |args|
  {
    var arg := args[0];
    if arg == "--" then Some((Rest(args[1..]), |args|))
    else if IsPayload(arg) then Some((Payload(arg), 1))
    else if Chatty(arg[1]) && |arg| == 2 then Some((Chatter(arg[1]), 1))
    else if arg[1] == 'U' && |arg| == 2 then Some((Agent, 1))
    else if !WithValue(arg[1]) then None
    else if arg[2..] != "" then Some((Valued(arg[1], arg[2..], true), 1))
    else if |args| == 1 then None
    else Some((Valued(arg[1], args[1], false), 2))
  }

  function Tokens(args: seq<string>): Option<seq<Token>> {
    if args == [] then Some([])
    else match First(args)
      case None => None
      case Some((t, n)) =>
        match Tokens(args[n..])
        case None => None
        case Some(ts) => Some([t] + ts)
  }

  // ----- reading undoes writing, and writing reading

  lemma FirstIsSpelled(args: seq<string>)
    requires args != [] && First(args).Some?
    ensures var (t, n) := First(args).value;
            WellFormed(t) && args[..n] == Spelled(t) && (t.Rest? ==> n == |args|)
  {
    var arg := args[0];
    if arg == "--" {
      assert args == [arg] + args[1..];
    } else if !IsPayload(arg) {
      assert arg == ['-', arg[1]] + arg[2..];
      assert arg[2..] == "" ==> arg == ['-', arg[1]];
    }
  }

  lemma SpelledIsFirst(t: Token, rest: seq<string>)
    requires WellFormed(t) && (t.Rest? ==> rest == [])
    ensures First(Spelled(t) + rest) == Some((t, |Spelled(t)|))
  {
    var args := Spelled(t) + rest;
    match t
    case Valued(flag, value, glued) =>
      assert args[0][2..] == if glued then value else "";
    case Rest(files) =>
      assert args[1..] == files;
    case _ =>
  }

  lemma WrittenCons(t: Token, ts: seq<Token>)
    ensures Written([t] + ts) == Spelled(t) + Written(ts)
    ensures IsLine([t] + ts) <==> WellFormed(t) && (t.Rest? ==> ts == []) && IsLine(ts)
  {
    hide Spelled, WellFormed;
    var all := [t] + ts;
    assert all[0] == t && all[1..] == ts;
    assert forall i :: 0 <= i < |ts| ==> all[i + 1] == ts[i];
  }

  lemma {:induction false} WrittenAsRead(args: seq<string>)
    requires Tokens(args).Some?
    ensures IsLine(Tokens(args).value) && Written(Tokens(args).value) == args
    decreases |args|
  {
    if args != [] {
      hide First, WellFormed, Spelled, Written, IsLine;
      FirstIsSpelled(args);
      var (t, n) := First(args).value;
      WrittenAsRead(args[n..]);
      WrittenCons(t, Tokens(args[n..]).value);
      CutJoins(args, n);
    }
  }

  lemma NothingWritten()
    ensures Written([]) == [] && Tokens([]) == Some([])
  {
  }

  lemma TokensCons(t: Token, rest: seq<string>)
    requires WellFormed(t) && (t.Rest? ==> rest == [])
    ensures Tokens(Spelled(t) + rest) == match Tokens(rest)
                                         case None => None
                                         case Some(ts) => Some([t] + ts)
  {
    hide First, WellFormed, Spelled;
    SpelledIsFirst(t, rest);
    assert (Spelled(t) + rest)[|Spelled(t)|..] == rest;
    assert Spelled(t) + rest != [];
  }

  lemma {:induction false} ReadAsWritten(ts: seq<Token>)
    requires IsLine(ts)
    ensures Tokens(Written(ts)) == Some(ts)
  {
    if ts != [] {
      hide Tokens, WellFormed, Spelled, Written, IsLine;
      var t, rest := ts[0], ts[1..];
      assert ts == [t] + rest;
      WrittenCons(t, rest);
      ReadAsWritten(rest);
      NothingWritten();
      TokensCons(t, Written(rest));
    }
  }

  // ----- what a command line means

  /** The value of the last such flag, or nothing. */
  function Last(ts: seq<Token>, flag: char): string {
    if ts == [] then ""
    else
      var t := ts[|ts| - 1];
      if t.Valued? && t.flag == flag then t.value else Last(ts[..|ts| - 1], flag)
  }

  function Files(ts: seq<Token>): seq<string> {
    if ts == [] then []
    else
      var t := ts[|ts| - 1];
      Files(ts[..|ts| - 1])
      + match t
        case Payload(file) => [file]
        case Rest(files) => files
        case _ => []
  }

  function Options(ts: seq<Token>): seq<string> {
    if ts == [] then []
    else
      var t := ts[|ts| - 1];
      Options(ts[..|ts| - 1]) + if t.Valued? && t.flag == 'O' then [t.value] else []
  }

  function Read(ts: seq<Token>): Invocation {
    Invocation(Last(ts, 'n'), Last(ts, 'f'), Agent in ts, Files(ts), Options(ts))
  }

  predicate AsksForOther(t: Token) {
    t.Valued? && t.flag == 'Y' && t.value != "sign"
  }

  predicate Signs(ts: seq<Token>) {
    forall i :: 0 <= i < |ts| ==> !AsksForOther(ts[i])
  }

  /** The invocation a command line means, if it is one this program carries out. */
  function Parsed(args: seq<string>): Option<Invocation> {
    match Tokens(args)
    case None => None
    case Some(ts) =>
      var inv := Read(ts);
      if !Signs(ts) || inv.namespace == "" || inv.keyFile == "" || inv.options != [] then None
      else Some(inv.(files := if inv.files == [] then ["-"] else inv.files))
  }

  lemma ReadOneMore(ts: seq<Token>, t: Token)
    ensures var before, after := Read(ts), Read(ts + [t]);
            match t
            case Chatter(_) => after == before
            case Agent => after == before.(useAgent := true)
            case Payload(file) => after == before.(files := before.files + [file])
            case Rest(files) => after == before.(files := before.files + files)
            case Valued(flag, value, _) =>
              after == if flag == 'n' then before.(namespace := value)
                       else if flag == 'f' then before.(keyFile := value)
                       else if flag == 'O' then before.(options := before.options + [value])
                       else before
    ensures Signs(ts + [t]) <==> Signs(ts) && !AsksForOther(t)
  {
    var more := ts + [t];
    assert more[..|more| - 1] == ts;
    assert more[|more| - 1] == t;
    assert forall i :: 0 <= i < |ts| ==> more[i] == ts[i];
  }

  /** Everything before i has been read as `ts`. */
  ghost predicate ReadUpTo(args: seq<string>, i: nat, ts: seq<Token>) {
    && i <= |args|
    && Tokens(args) == match Tokens(args[i..])
                       case None => None
                       case Some(rest) => Some(ts + rest)
  }

  lemma ReadFurther(args: seq<string>, i: nat, ts: seq<Token>)
    requires ReadUpTo(args, i, ts) && i < |args|
    ensures First(args[i..]) == None ==> Tokens(args) == None
    ensures First(args[i..]).Some? ==>
              var (t, n) := First(args[i..]).value; ReadUpTo(args, i + n, ts + [t])
  {
    hide First;
    if First(args[i..]).Some? {
      var (t, n) := First(args[i..]).value;
      assert args[i..][n..] == args[i + n..];
      if Tokens(args[i + n..]).Some? {
        var rest := Tokens(args[i + n..]).value;
        AppendAssociates(ts, [t], rest);
      }
    }
  }

  lemma OtherOperationRefused(args: seq<string>, i: nat, ts: seq<Token>)
    requires ReadUpTo(args, i, ts) && !Signs(ts)
    ensures Parsed(args) == None
  {
    hide Tokens, Read;
    if Tokens(args).Some? {
      var rest := Tokens(args[i..]).value;
      var k :| 0 <= k < |ts| && AsksForOther(ts[k]);
      assert (ts + rest)[k] == ts[k];
    }
  }

  method ParseSign(args: seq<string>) returns (r: Option<Invocation>)
    ensures r == Parsed(args)
  {
    hide Tokens, Read, Signs;
    var inv := EMPTY;
    ghost var ts: seq<Token> := [];
    NothingRead(args);
    var i := 0;
    while i < |args|
      invariant ReadUpTo(args, i, ts) && inv == Read(ts) && Signs(ts)
    {
      var arg := args[i];
      ReadFurther(args, i, ts);
      ghost var before := ts;
      if First(args[i..]).Some? {
        ReadOneMore(ts, First(args[i..]).value.0);
        ts := ts + [First(args[i..]).value.0];
      }
      if arg == "--" {
        inv := inv.(files := inv.files + args[i + 1..]);
        i := |args|;
        break;
      }
      if arg == "-" || !IsFlag(arg) {
        inv := inv.(files := inv.files + [arg]);
        i := i + 1;
        continue;
      }
      var name := arg[1];
      if Chatty(name) && |arg| == 2 {
        i := i + 1;
        continue;
      }
      if name == 'U' && |arg| == 2 {
        inv := inv.(useAgent := true);
        i := i + 1;
        continue;
      }
      if !WithValue(name) {
        return None;
      }
      var value := arg[2..];
      if value == "" {
        i := i + 1;
        if i >= |args| {
          return None;
        }
        value := args[i];
      }
      i := i + 1;
      match name {
        case 'Y' =>
          if value != "sign" {
            OtherOperationRefused(args, i, ts);
            return None;
          }
        case 'n' => inv := inv.(namespace := value);
        case 'f' => inv := inv.(keyFile := value);
        case _ => inv := inv.(options := inv.options + [value]);
      }
    }
    EverythingRead(args, ts);
    if inv.namespace == "" {
      return None;
    }
    if inv.keyFile == "" {
      return None;
    }
    if inv.files == [] {
      inv := inv.(files := ["-"]);
    }
    if inv.options != [] {
      return None;
    }
    return Some(inv);
  }

  lemma NothingRead(args: seq<string>)
    ensures ReadUpTo(args, 0, []) && Read([]) == EMPTY && Signs([])
  {
    assert args[0..] == args;
    if Tokens(args).Some? {
      assert [] + Tokens(args).value == Tokens(args).value;
    }
  }

  lemma EverythingRead(args: seq<string>, ts: seq<Token>)
    requires ReadUpTo(args, |args|, ts)
    ensures Tokens(args) == Some(ts)
  {
    assert args[|args|..] == [];
    assert ts + [] == ts;
  }

  /** A command line is carried out exactly when it is made of well-formed pieces that ask
      for nothing but signing, name a namespace and a key, and carry no option; the last
      namespace and the last key count, and without a payload it is standard input. */
  lemma ParsedExactly(args: seq<string>, inv: Invocation)
    ensures Parsed(args) == Some(inv) <==>
              exists ts :: IsLine(ts) && Written(ts) == args && Signs(ts)
                           && inv.namespace == Last(ts, 'n') != "" && inv.keyFile == Last(ts, 'f') != ""
                           && inv.options == Options(ts) == [] && (inv.useAgent <==> Agent in ts)
                           && inv.files == if Files(ts) == [] then ["-"] else Files(ts)
  {
    hide Tokens, Written, IsLine, Last, Files, Options, Signs;
    if Parsed(args) == Some(inv) {
      WrittenAsRead(args);
    }
    if ts :| IsLine(ts) && Written(ts) == args && Signs(ts)
             && inv.namespace == Last(ts, 'n') != "" && inv.keyFile == Last(ts, 'f') != ""
             && inv.options == Options(ts) == [] && (inv.useAgent <==> Agent in ts)
             && inv.files == if Files(ts) == [] then ["-"] else Files(ts)
    {
      ReadAsWritten(ts);
    }
  }

  predicate IsFlagged(t: Token, flag: char) {
    t.Valued? && t.flag == flag
  }

  lemma {:induction false} LastOfNone(ts: seq<Token>, flag: char)
    requires forall i :: 0 <= i < |ts| ==> !IsFlagged(ts[i], flag)
    ensures Last(ts, flag) == ""
  {
    if ts != [] {
      assert !IsFlagged(ts[|ts| - 1], flag);
      LastOfNone(ts[..|ts| - 1], flag);
    }
  }

  /** The last flag of its kind decides; without one there is nothing. */
  lemma {:induction false} LastExactly(ts: seq<Token>, flag: char, i: nat)
    requires i < |ts| && IsFlagged(ts[i], flag) && forall j :: i < j < |ts| ==> !IsFlagged(ts[j], flag)
    ensures Last(ts, flag) == ts[i].value
  {
    var n := |ts| - 1;
    if i < n {
      assert !IsFlagged(ts[n], flag);
      var front := ts[..n];
      assert forall j :: i <= j < n ==> front[j] == ts[j];
      LastExactly(front, flag, i);
    }
  }

  /** The payloads of two lines after one another are the one's and then the other's; a piece
      gives itself, the payloads behind "--", or none. */
  lemma {:induction false} FilesExactly(left: seq<Token>, right: seq<Token>)
    ensures Files(left + right) == Files(left) + Files(right)
    ensures forall t :: Files([t]) == match t
                                      case Payload(file) => [file]
                                      case Rest(files) => files
                                      case _ => []
  {
    forall t: Token
      ensures Files([t]) == match t
                            case Payload(file) => [file]
                            case Rest(files) => files
                            case _ => []
    {
      assert [t][..0] == [];
    }
    if right == [] {
      assert left + right == left;
    } else {
      var n := |right| - 1;
      FilesExactly(left, right[..n]);
      assert (left + right)[..|left| + n] == left + right[..n];
      assert (left + right)[|left| + n] == right[n];
    }
  }

  /** There are no options exactly if no piece is one. */
  lemma {:induction false} OptionsExactly(ts: seq<Token>)
    ensures Options(ts) == [] <==> forall i :: 0 <= i < |ts| && ts[i].Valued? ==> ts[i].flag != 'O'
  {
    if ts != [] {
      var front := ts[..|ts| - 1];
      OptionsExactly(front);
      assert forall i :: 0 <= i < |front| ==> front[i] == ts[i];
    }
  }

  // ----- which operation

  /** Where the scan for -Y stops: at the first argument that is "--" or starts with it. */
  predicate StopsAt(args: seq<string>, i: nat) {
    && i < |args| && (args[i] == "--" || "-Y" <= args[i])
    && forall j :: 0 <= j < i ==> args[j] != "--" && !("-Y" <= args[j])
  }

  method OperationOf(args: seq<string>) returns (operation: string, found: bool)
    ensures found <==> exists i: nat :: StopsAt(args, i) && args[i] != "--"
    ensures forall i: nat :: StopsAt(args, i) && found ==>
                          operation == if |args[i]| > 2 then args[i][2..]
                                       else if i + 1 < |args| then args[i + 1] else ""
    ensures !found ==> operation == ""
  {
    for i := 0 to |args|
      invariant forall j :: 0 <= j < i ==> args[j] != "--" && !("-Y" <= args[j])
    {
      var arg := args[i];
      if arg == "--" {
        assert StopsAt(args, i);
        return "", false;
      }
      if !("-Y" <= arg) {
        continue;
      }
      assert StopsAt(args, i);
      if |arg| > 2 {
        return arg[2..], true;
      }
      if i + 1 < |args| {
        return args[i + 1], true;
      }
      return "", true;
    }
    return "", false;
  }

  // ----- the command line for one payload

  method HandOverOne(inv: Invocation, file: string) returns (args: seq<string>)
    ensures args == CommandFor(inv, file)
  {
    args := ["-Y", "sign", "-n", inv.namespace, "-f", inv.keyFile];
    if inv.useAgent {
      args := args + ["-U"];
    }
    return args + [file];
  }

  function Head(inv: Invocation): seq<Token> {
    [Valued('Y', "sign", false), Valued('n', inv.namespace, false), Valued('f', inv.keyFile, false)]
    + if inv.useAgent then [Agent] else []
  }

  function CommandFor(inv: Invocation, file: string): seq<string> {
    ["-Y", "sign", "-n", inv.namespace, "-f", inv.keyFile] + (if inv.useAgent then ["-U"] else []) + [file]
  }

  lemma HeadWritten(inv: Invocation, file: string)
    ensures Written(Head(inv)) + [file] == CommandFor(inv, file)
  {
    var y, n, f := Valued('Y', "sign", false), Valued('n', inv.namespace, false), Valued('f', inv.keyFile, false);
    var tail := if inv.useAgent then [Agent] else [];
    assert Head(inv) == [y] + ([n] + ([f] + tail));
    NothingWritten();
    if inv.useAgent {
      assert tail == [Agent] + [];
      WrittenCons(Agent, []);
    }
    hide Written, IsLine, Tokens;
    WrittenCons(f, tail);
    WrittenCons(n, [f] + tail);
    WrittenCons(y, [n] + ([f] + tail));
  }

  lemma HeadReads(inv: Invocation)
    ensures IsLine(Head(inv)) && Signs(Head(inv)) && forall i :: 0 <= i < |Head(inv)| ==> !Head(inv)[i].Rest?
    ensures Read(Head(inv)) == Invocation(inv.namespace, inv.keyFile, inv.useAgent, [], [])
  {
    hide Read, Signs;
    var y, n, f := Valued('Y', "sign", false), Valued('n', inv.namespace, false), Valued('f', inv.keyFile, false);
    NothingRead([]);
    ReadOneMore([], y);
    ReadOneMore([] + [y], n);
    ReadOneMore([] + [y] + [n], f);
    ReadOneMore([] + [y] + [n] + [f], Agent);
    assert Head(inv) == if inv.useAgent then [] + [y] + [n] + [f] + [Agent] else [] + [y] + [n] + [f];
  }

  /** Reading the head and then whatever the last argument is. */
  lemma CommandReads(inv: Invocation, file: string)
    ensures Tokens(CommandFor(inv, file)) ==
            match Tokens([file])
            case None => None
            case Some(rest) => Some(Head(inv) + rest)
  {
    hide First, Tokens, Written, Head;
    HeadReads(inv);
    HeadWritten(inv, file);
    ReadPast(Head(inv), [file]);
  }

  lemma {:induction false} ReadPast(ts: seq<Token>, rest: seq<string>)
    requires IsLine(ts) && forall i :: 0 <= i < |ts| ==> !ts[i].Rest?
    ensures Tokens(Written(ts) + rest) ==
            match Tokens(rest)
            case None => None
            case Some(more) => Some(ts + more)
  {
    if ts == [] {
      assert Written(ts) + rest == rest;
      if Tokens(rest).Some? {
        assert ts + Tokens(rest).value == Tokens(rest).value;
      }
    } else {
      hide Tokens, WellFormed, Spelled, Written, IsLine;
      var t, tail := ts[0], ts[1..];
      assert ts == [t] + tail;
      WrittenCons(t, tail);
      ReadPast(tail, rest);
      TokensCons(t, Written(tail) + rest);
      AppendAssociates(Spelled(t), Written(tail), rest);
      if Tokens(rest).Some? {
        AppendAssociates([t], tail, Tokens(rest).value);
      }
    }
  }

  /** Rebuilding a command line that was accepted and reading it again gives the same
      invocation with just that payload - exactly for a payload that is "-" or does not start
      with "-", because there is no "--" in front of it. */
  lemma RebuiltReadsBack(args: seq<string>, inv: Invocation, file: string)
    requires Parsed(args) == Some(inv)
    ensures Parsed(CommandFor(inv, file)) == Some(inv.(files := [file])) <==> IsPayload(file)
  {
    hide First, Read, Signs, Head;
    HeadReads(inv);
    CommandReads(inv, file);
    OneArgument(file);
    if Tokens([file]).Some? {
      ReadOneMore(Head(inv), Tokens([file]).value[0]);
      assert [] + [file] == [file];
    }
  }

  lemma OneArgument(file: string)
    ensures Tokens([file]) == match First([file])
                              case None => None
                              case Some((t, _)) => Some([t])
    ensures IsPayload(file) <==> First([file]) == Some((Payload(file), 1))
    ensures First([file]).Some? && !IsPayload(file) ==>
              var t := First([file]).value.0; !t.Payload? && (t.Rest? ==> t.files == []) && file != "-"
  {
    assert [file][1..] == [];
    NothingWritten();
    if First([file]).Some? {
      var (t, n) := First([file]).value;
      assert n == 1 && [t] + [] == [t];
    }
  }
}
