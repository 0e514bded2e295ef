# Verified models of Ladulås

Ladulås is an SSH agent and signing daemon whose instances pair over the local network. This
project models the parts of it in which a mistake is hardest to see, and proves what they
promise:

- the CPace exchange that turns a pairing PIN into a key (`PrimeGroup`, `Framing`, `CPace`);
- the DNS-SD code that names, finds, probes for and lists machines (`InstanceName`,
  `BrowseCache`, `BrowseLoop`, `OtherSpelling`, `RenameSuffix`, `Denial`, `Probe`, `Browser`,
  `Arrange`, `LocalAddresses`, and `HeardList`, which joins the browse loop to the browser);
- the instance's lock: its states, the peer channel that comes and goes with the store, the
  approvers that move between engines and the calls waiting for a state (`LockStates`,
  `InstanceLock`, `LockOutcomes`, `LockOverlap`, `PromptOverlap`, `ApproverSlots`, `LockWaiters`);
- the approval stream: prompts, answers and a stream that must not be written to once its
  handler has returned (`ApprovalStream`, `WatchedRequests`);
- the `-Y sign` command line and the one rebuilt from it (`SignCommand`).

`Wrappers` and `Lists` are shared helpers. `dafny verify dfyconfig.toml` checks everything.

## How it is built

Where the source updates fields or loops, so does the model: a class or a method with a loop,
whose contract ties the new state to a function of the old one. The theorems are then about
those functions. Where calls run concurrently, each critical section is one such function, and
a step machine interleaves the sections in every order, together with what happens outside the
mutex (a channel still to be closed, a handler still to be detached, a late callback). A
theorem "over every run" speaks about every sequence of steps the machine allows.

What the outside world does is a parameter: shares, scalars and hash functions for CPace;
messages and clocks for the cache; what a probe round hears; whether a passphrase is right, a
store opens, a port binds. A slice out of bounds is a `None` or a constructor of its own, never
a precondition.

## Where the code differs from what it says

The code is modelled as it stands. Each difference has a lemma that names an input, or says
exactly when the promise holds.

- `internal/cpace/cpace.go:230-232` says that a tag can never be reflected back as the
  other side's. It can, exactly when the peer's share and associated data were a side's own
  (`CPace.OwnTagAcceptedIffSameMessage`), and handing those back is not refused
  (`CPace.OwnMessageIsAccepted`).
- `internal/app/lock.go:211-232` and `:289-294` publish the core and the state in two critical
  sections. A seal that runs between an unlock's two leaves the instance unlocked without a
  core (`LockOverlap.SealInsideUnlock`), and no later operation gets it out of that, or out of
  being locked without one (`InstanceLock.UnlockedWithoutCoreIsForGood`); an unlock between a seal's two leaves it
  sealed with one (`LockOverlap.UnlockInsideSeal`). The two disagree exactly when the last
  operation to publish encloses the last one to move the core and only one of them seals
  (`LockOverlap.DisagreementIsEnclosure`).
- `internal/app/lock.go:196-198` and `:276-278` move the prompts and publish the state one after
  the other. A lift between a soft lock's two leaves the instance locked with its prompts live
  (`PromptOverlap.LiftInsideSoftLock`); `PromptOverlap.PromptDisagreementIsEnclosure` says
  exactly when overlapping operations end like that.
- `App.Close` takes the core without publishing a state
  (`InstanceLock.ClosedAgreesIffSealed`).
- `internal/dnssd/probe.go:16` says a nil error means verified unique. After a hundred
  conflicts in a row the zero service comes back without an error; that is the only such case
  (`Probe.ProbeService`), and a host name taken every time is one (`Probe.HostTakenEveryTime`).
- `internal/dnssd/probe.go:150` overwrites the name conflict on every response, so only the
  last response of a round counts, while a host conflict stays (`Probe.HeardExactly`).
- `internal/dnssd/service.go:315` slices out of bounds on a name that ends in `()`
  (`RenameSuffix.TrimFailsExactly`) and never looks at the last byte in the brackets
  (`RenameSuffix.UncheckedByte`). Behind a base of nothing but blanks, and behind an empty host
  name, a second number follows the first (`RenameSuffix.NumbersPileUpOnNothing`).
- Section 8.2 of RFC 6762 has hosts whose data differ conflict, and one of them win. Lists that
  differ need not conflict at all, because a side drops the addresses it has itself before it
  compares: 10.0.0.5 against 10.0.0.5 and 10.0.0.3 denies nobody
  (`Denial.DifferentYetNobodyDenied`), and `Denial.NobodyIsDeniedIff` says exactly when nobody
  is denied. And the pairwise loop can deny both sides: 10.0.0.1 and 10.0.0.4 against 10.0.0.2
  and 10.0.0.3 (`Denial.BothAreDenied`).
- The cache looks a record up by its spelling and stores it under the printer's
  (`internal/dnssd/cache.go:44-51`, `:62-69`), so another spelling of a known name replaces the
  entry (`BrowseCache.OtherSpellingReplaces`). The browse list then holds a pair the cache no
  longer offers: `OtherSpelling.OtherSpellingBreaksStep` is such a run, with `a b` announced
  after `a\ b`, and `BrowseLoop.InStepThroughoutIff` says exactly which messages do that.
- `internal/discovery/browse.go:319-324` says a renamed name counts as the same name. From the
  second rename on it does exactly if the base does not end in a blank
  (`Arrange.RenameKeepsBaseIff`): "desk " becomes "desk (3)", and neither is marked beside the
  other (`Arrange.BlankEndEscapesTheMark`, `Arrange.RenameIsMarked`).
- The line rebuilt for one payload has no `--` in it, so a payload that starts with `-` and is
  not `-` does not survive it (`SignCommand.RebuiltReadsBack`).

## Model

| member | source | states |
|---|---|---|
| PrimeGroup.MulCancels | internal/cpace/cpace.go:301-325 | in a group of prime order a non-zero scalar cancels: equal products mean equal elements |
| PrimeGroup.MulIsZero | internal/cpace/cpace.go:308-325 | a non-zero scalar gives the neutral element exactly for the neutral element |
| Framing.PrependLen | internal/cpace/cpace.go:329-348 | the loop writes the LEB128 length of the data and then the data |
| Framing.ConcatFramed | internal/cpace/cpace.go:354-362 | the loop writes the framed parts one after the other |
| Framing.ReadPartsUndoesLVCat | internal/cpace/cpace.go:354-362 | decoding undoes framing for any number of parts of any length, whatever bytes follow |
| Framing.LVCatInjective | internal/cpace/cpace.go:354-362 | two lists of any number of parts frame to the same bytes only if they are the same list |
| Framing.LVCatInjectiveWithTail | internal/cpace/cpace.go:354-362 | so do lists of equally many parts with bytes behind them, and then the bytes behind agree too |
| Framing.LVCatAppend | internal/cpace/cpace.go:204-209 | framed messages written after one another are one framed list |
| Framing.GeneratorStringInjective | internal/cpace/cpace.go:268-272 | the generator string determines the domain separator, PRS, CI and SID |
| Framing.ChannelIdentifierOffset | internal/cpace/cpace.go:268-272 | CI starts at offset 128 if and only if the framed DSI and PRS fit in 127 bytes |
| CPace.NewInitiator | internal/cpace/cpace.go:98-123 | refused exactly without a session id or without randomness; else a fresh initiator with its share and its scalar |
| CPace.LabelsSpelled | internal/cpace/cpace.go:204-214 | the three labels are the bytes of "CPaceRistretto255", of that and "_ISK", and of "CPaceMac" |
| CPace.Initiator.constructor | internal/cpace/cpace.go:102-123 | the share is the scalar times the generator of the inputs; nothing is spent yet |
| CPace.Initiator.Finish | internal/cpace/cpace.go:134-152 | every call spends the scalar, and every later one is refused; the first gives a session if and only if the share decodes to an element whose product with the scalar is not neutral, and then holds the hash of the framed SID, that product, both shares and both associated data; else an invalid share |
| CPace.FinishedExactly | internal/cpace/cpace.go:134-152 | the same of the step alone, with both tags written out: the own one over the own message, and what is accepted for the peer's |
| CPace.RespondExactly | internal/cpace/cpace.go:162-200 | a missing SID is refused first, then missing randomness, then such a share; else the answer is the scalar times the generator of the inputs, and the session that of B, with A's message first |
| CPace.FailsExactlyOnNeutralGenerator | internal/cpace/cpace.go:308-325 | an unaltered share is refused exactly when the generator it came from is the neutral element |
| CPace.SameKeyIffSameInputs | internal/cpace/cpace.go:134-200 | both sides compute one K exactly when they started from the same PRS, CI and SID |
| CPace.IskInputInjective | internal/cpace/cpace.go:204-209 | the hashed transcript determines SID, K, and both sides' share and associated data |
| CPace.MacInputInjective | internal/cpace/cpace.go:211-214 | the unframed MAC key input determines SID and ISK for ISKs of one length |
| CPace.MacInputNeedsFixedLength | internal/cpace/cpace.go:211-214 | without the fixed length it does not: two different pairs give the same bytes |
| CPace.SameIskIffAgree | internal/cpace/cpace.go:204-222 | both sides hold one ISK exactly when inputs and both views of the associated data agree |
| CPace.ConfirmationIffAgreement | internal/cpace/cpace.go:97-242 | with unaltered shares each side accepts the other's confirmation exactly when both used the same PRS, CI and SID and hold one view of both sides' associated data, and exactly then the ISKs are equal |
| CPace.OwnTagAcceptedIffSameMessage | internal/cpace/cpace.go:230-242 | a side accepts its own tag exactly when the message it received is the message it sent |
| CPace.OwnMessageIsAccepted | internal/cpace/cpace.go:134-152 | a side that is handed back its own message gets a session and accepts its own tag, whatever its inputs, unless the generator is the neutral element |
| CPace.AssumptionsCanBeMet | internal/cpace/cpace.go:254-263 | there is a suite that meets what the theorems assume of the group and the primitives |
| InstanceName.ParseServiceInstanceName | internal/dnssd/service.go:431-453 | the buffer reads, in their order, give the parse function's name, service and domain |
| InstanceName.EscapesExactly | internal/dnssd/service.go:412-420 | anywhere in a name each of the nine special characters gets a backslash in front, and no other |
| InstanceName.ParseFront | internal/dnssd/service.go:431-453 | whatever stands in front of type and domain is parsed as the name, but for its backslashes |
| InstanceName.ParsePrinted | internal/dnssd/service.go:341-453 | parsing a printed name gives the type, the domain and the name with its backslashes deleted |
| InstanceName.RoundTripIffNoBackslash | internal/dnssd/service.go:341-453 | parse after print is the identity exactly on names without a backslash in a domain that is not empty, and there print after parse is too |
| InstanceName.EmptyDomainMeansNothing | internal/dnssd/service.go:431-453 | parsing finds an empty domain only where it finds nothing at all, so an empty domain never survives |
| InstanceName.ShortNames | internal/dnssd/service.go:431-453 | a name of fewer than four labels gives at most its last label, as the domain |
| InstanceName.ParseIsWellShaped | internal/dnssd/service.go:431-453 | whatever is parsed, the domain is dot-free and the type is two dot-free labels or empty |
| InstanceName.ServiceOfInjective | internal/dnssd/service.go:355-357 | a service name determines type and domain |
| InstanceName.PrintPlainInjective | internal/dnssd/browse.go:52-54 | the unescaped instance name determines everything that was parsed |
| InstanceName.PrintInjective | internal/dnssd/service.go:341-343 | and so does the escaped one, for anything the parser can have given |
| BrowseCache.Cache.AddAddress | internal/dnssd/cache.go:80-91 | every entry of the host, and no other, gains the address |
| BrowseCache.Cache.PutRecord | internal/dnssd/cache.go:39-118 | one record changes the map as the record function says, whatever its type |
| BrowseCache.TxtExactly | internal/dnssd/cache.go:95-114 | after a TXT record for a cached name its text maps key to value if and only if key, equals sign and value is the last of the record's strings to give the key; only the times change besides, and nothing for another name |
| BrowseCache.SrvExactly | internal/dnssd/cache.go:61-78 | after an SRV record the port is the record's and the host the target's first label if its second is the domain; only the times change besides; an unknown name gets a new entry unless its time to live is zero |
| BrowseCache.PtrExactly | internal/dnssd/cache.go:40-59 | a PTR record changes the times of a known name, or stores an empty entry under the printed name unless its time to live is zero |
| BrowseCache.AddressExactly | internal/dnssd/cache.go:80-92 | an address record appends its address to the entries of its host, in all and per interface, and changes no other |
| BrowseCache.Cache.RemoveExpired | internal/dnssd/cache.go:127-138 | exactly the entries whose expiration has passed are deleted, and the others stay as they are |
| BrowseCache.Cache.UpdateFrom | internal/dnssd/cache.go:34-125 | the cache after a message's records, in any given order, and the sweep |
| BrowseCache.UpdatedKeepsKeys | internal/dnssd/cache.go:34-125 | whatever spellings a message uses, every key stays the escaped name of its entry, whose name, type and domain the parser gave |
| BrowseCache.SameKeySameIdentity | internal/dnssd/cache.go:44-51 | one key stands for one name, type and domain before and after |
| BrowseCache.LosesExactly | internal/dnssd/cache.go:39-100 | an entry that survives a message has lost an interface exactly when a PTR or SRV with time to live, whose spelling is no key while its printed spelling is this one, replaced it and no later address record gave the interface back |
| BrowseCache.CanonicalLosesNothing | internal/dnssd/cache.go:39-100 | a message with every name in the printer's spelling takes no interface from anything |
| BrowseCache.OtherSpellingReplaces | internal/dnssd/cache.go:44-51 | any other spelling of a known name replaces its entry, addresses and all |
| BrowseCache.GoodbyeRemoves | internal/dnssd/cache.go:39-58 | a last record with no time to live removes its entry; one with time left keeps it exactly until then |
| BrowseLoop.AddMissing | internal/dnssd/browse.go:100-128 | every offered pair that has no entry is appended and announced, as the cache has it now, and nothing else |
| BrowseLoop.DropGone | internal/dnssd/browse.go:130-147 | what is left is exactly the entries some cached service is named like, in their order, and the others are withdrawn |
| BrowseLoop.LookupType | internal/dnssd/browse.go:56-152 | after any messages, spelled in any way: the callbacks alternate per pair and fold to the list; every announced entry is, addresses, host, port and text, what the cache held after some message; the list is exactly the pairs offered since their instance was last unknown, each once; and it is the pairs the cache offers if and only if no instance has been left without an interface it had |
| BrowseLoop.StillThereIffKey | internal/dnssd/browse.go:130-147 | an entry is kept exactly when the cache has the key the printer gives its name |
| BrowseLoop.StaysListed | internal/dnssd/browse.go:97-147 | one turn of the loop keeps the list exactly what has been offered since |
| BrowseLoop.InStepIffNothingLost | internal/dnssd/browse.go:97-147 | such a list is in step with the cache exactly when nothing is lost |
| BrowseLoop.OneMoreMessage | internal/dnssd/browse.go:97-147 | from nothing lost, a message leaves nothing lost exactly if it takes no interface from an instance that was offered there and stays |
| BrowseLoop.InStepThroughoutIff | internal/dnssd/browse.go:56-152 | the list is in step after every message exactly when no message of the run does that |
| BrowseLoop.CanonicalStaysInStep | internal/dnssd/browse.go:56-152 | with every instance name in the printer's spelling the list is in step after every message |
| OtherSpelling.OtherSpellingBreaksStep | internal/dnssd/cache.go:44-51 | a run of two messages after which the list holds a pair and the cache offers nothing |
| HeardList.ListsAdmittedEntries | internal/discovery/browse.go:190-306 | for one live browse the browser lists exactly the entries of the browse loop's list whose announcement was admitted when it was added, each under its own key and dialled where it was admitted |
| HeardList.Browse | internal/discovery/browse.go:190-222 | running the browse loop and handing its callbacks to the browser ends so, with the loop's list what the loop promises |
| HeardList.FoundSaysTheEntry | internal/discovery/browse.go:212-216 | the browser is told name, interface, text, port and addresses of the entry |
| RenameSuffix.TrimFailsExactly | internal/dnssd/service.go:304-333 | the trim slices out of bounds exactly on names longer than two bytes that end in an empty pair of brackets |
| RenameSuffix.TrimIsExact | internal/dnssd/service.go:304-333 | it changes a name exactly when the name ends in blanks, a bracket, digits, one byte and a bracket, and then leaves the base without trailing blanks |
| RenameSuffix.UncheckedByte | internal/dnssd/service.go:314-320 | the last byte in the brackets may be anything but an opening bracket; only if it is a digit is the suffix the documented one |
| RenameSuffix.TrimUndoesSuffix | internal/dnssd/service.go:304-337 | trimming a numbered name gives the base up to trailing blanks, unless it is nothing but blanks |
| RenameSuffix.TrimUndoesHostSuffix | internal/dnssd/service.go:277-301 | trimming a numbered host name gives the base unless it is empty |
| RenameSuffix.TrimHostIsExact | internal/dnssd/service.go:281-301 | the trim of a host name takes off the last hyphen and the digits behind it exactly if there are digits and something in front |
| RenameSuffix.DecimalIsTheNumber | internal/dnssd/service.go:277-279 | the number put on a name is written in decimal, most significant digit first and without a leading zero |
| RenameSuffix.RenamesDoNotStack | internal/dnssd/service.go:303-337 | the name after each further conflict: the base with one number, and behind a blank base two, never more |
| RenameSuffix.HostRenamesDoNotStack | internal/dnssd/service.go:277-301 | the same for host names, with two numbers behind an empty one |
| RenameSuffix.NumbersPileUpOnNothing | internal/dnssd/service.go:277-337 | a blank name and an empty host name that end up with two numbers |
| Denial.AreDenying | internal/dnssd/probe.go:278-296 | the loop denies on different numbers of records or on any denying pair of the sorted lists |
| Denial.CompareIsAntisymmetric | internal/dnssd/probe.go:348-368 | comparing is antisymmetric and zero exactly on equal addresses |
| Denial.CompareExactly | internal/dnssd/probe.go:348-368 | an address is later than another exactly if it is the greater in the first byte that differs, or goes on where the other ends |
| Denial.BeforeExactly | internal/dnssd/probe.go:322-324 | the order the records are sorted in is decided by the first character that differs, or by which text goes on |
| Denial.IsDenyingExactly | internal/dnssd/probe.go:231-252 | a record denies one of its name exactly if its address is 0.0.0.0, :: or the later one, and none of another name |
| Denial.FilterRecords | internal/dnssd/cache.go:178-217 | the loop keeps, in order, the address records for the host that the side has on no interface |
| Denial.HearsDenial | internal/dnssd/probe.go:121-136 | a side sees a denial if the response came in where the service is published, both lists have something in them and what it keeps of the other's denies its own |
| Denial.NobodyIsDeniedIff | internal/dnssd/probe.go:121-136 | two hosts probing one name: nobody sees a denial exactly when a list is empty, or neither has an address the other lacks, or only one has, and what it has beyond the other's is as many records as its own, each valid and in sorted order earlier |
| Denial.NothingLeftIff | internal/dnssd/cache.go:190-201 | nothing is kept exactly when the side has every address of the other's |
| Denial.DifferentYetNobodyDenied | internal/dnssd/probe.go:121-136 | two lists that differ and deny nobody |
| Denial.BothAreDenied | internal/dnssd/probe.go:121-136 | two lists that deny both sides, however they are sorted |
| Denial.OneRecordEachHeard | internal/dnssd/probe.go:121-136 | with one valid record each, different and unknown to the other side, exactly one side sees a denial, the one whose address is earlier |
| Denial.SomeoneIsDeniedIff | internal/dnssd/probe.go:278-296 | the comparison alone: of any two lists of one host one denies the other exactly when they differ as multisets or hold an unspecified address, for any text form that tells addresses apart |
| Denial.SomeoneIsDeniedOverA | internal/dnssd/probe.go:278-324 | the same comparison of A records sorted by their dotted form, which does tell them apart |
| Denial.DottedInjective | internal/dnssd/probe.go:322-324 | the dotted form of an address determines it |
| Denial.BothAreDeniedIff | internal/dnssd/probe.go:278-296 | two lists deny one another exactly when the numbers differ or each has the later address in some pair, or an unspecified one |
| Denial.OneRecordEachDeniesOne | internal/dnssd/probe.go:231-252 | of one valid record each with different addresses exactly one denies the other, the later one |
| Probe.RunProbe | internal/dnssd/probe.go:104-180 | a round ends at the first timer that finds a conflict or is the fourth, or when the context ends, and reports what was heard until then |
| Probe.HeardExactly | internal/dnssd/probe.go:121-150 | the host conflict is whether any response denied; the name conflict is what the last response says |
| Probe.TimersExactly | internal/dnssd/probe.go:157-176 | the count of a round's timers is how many there were |
| Probe.ProbeService | internal/dnssd/probe.go:53-102 | at most a hundred rounds; the result is, from the rounds alone, the names of the round that heard no conflict, the error, a slice out of bounds, or after a hundred conflicts the zero service without an error |
| Probe.CountsFromRounds | internal/dnssd/probe.go:75-87 | a round renames a name if and only if it heard it contested and either probing is once or the unbroken run of such rounds ending there has even length |
| Probe.CandidateFromRounds | internal/dnssd/probe.go:75-87 | in every round both names are the first ones until a rename, and then their bases with the number of renames plus one; a run is out of bounds exactly if the name cannot be trimmed at its first rename |
| Probe.RenamesNeedTwoConflicts | internal/dnssd/probe.go:75-87 | unless probing once each rename uses up two rounds, so there are at most fifty of each name |
| Probe.RenameMeansTwoInARow | internal/dnssd/probe.go:75-87 | a rename in a round means that round and the one before heard that conflict, and nothing else changes a name |
| Probe.NamesDoNotStack | internal/dnssd/probe.go:81-85 | at every round the name is the first one or its base, trimmed once, with one number, or two behind a blank base; for every name the trim is defined on |
| Probe.HostsDoNotStack | internal/dnssd/probe.go:75-79 | the same for every host name |
| Probe.OutOfBoundsExactly | internal/dnssd/probe.go:81-85 | only the first rename can slice out of bounds, and does exactly when the trim is not defined on the first name |
| Probe.HostTakenEveryTime | internal/dnssd/probe.go:61-101 | a run of a hundred rounds that ends with the zero service and no error |
| Arrange.ArrangeEntries | internal/discovery/browse.go:338-378 | rows ascend, each name and tag once as its earliest entry, and a row is marked exactly when another row has its base name |
| Arrange.SameForEveryPermutation | internal/discovery/browse.go:325-378 | entries with distinct orders give the same rows in whatever order they come |
| Arrange.RowIsEarliest | internal/discovery/browse.go:357-367 | the row of a name and tag is no later than any entry of them |
| Arrange.BaseNameIsExact | internal/discovery/browse.go:380-386 | the base is what stands in front of one blank and a bracketed number at the end, and the name itself if there is none |
| Arrange.BaseOfRename | internal/discovery/browse.go:384-386 | a conflict rename's base is what the trim leaves of the name, for every name the trim is defined on and every count |
| Arrange.BaseAfterRenames | internal/discovery/browse.go:384-386 | rename after rename the base stays, but for trailing blanks, which the second takes off, and for a blank base, which keeps its first number |
| Arrange.BaseAndTrimAgreeExactly | internal/discovery/browse.go:380-386 | when base and trim agree on a name, both ways |
| Arrange.RenameKeepsBaseIff | internal/discovery/browse.go:380-386 | a name whose base is what the trim leaves keeps it through its k-th rename if and only if that is the first or the base does not end in a blank |
| Arrange.RenameIsMarked | internal/discovery/browse.go:370-377 | a window with such a name and one with its k-th rename are both listed; both are marked under that condition; and when they are all that is heard, only then |
| Arrange.BlankEndEscapesTheMark | internal/discovery/browse.go:380-386 | a name whose second rename has another base |
| LocalAddresses.AnnounceTarget | internal/discovery/announce.go:285-372 | the port of the first valid address, and per eligible interface the addresses the listener is reached at; an error exactly when there are none |
| LocalAddresses.FoundOn | internal/discovery/announce.go:336-357 | the inner loop keeps exactly those addresses of one interface, in order |
| LocalAddresses.AnnouncesExactly | internal/discovery/announce.go:329-365 | an address is announced exactly when an eligible interface has it and the listener bound it or a wildcard on that port, IPv6 link-local only under a wildcard |
| LocalAddresses.AnnouncesWhatIsBound | internal/discovery/announce.go:285-372 | the same from the bound addresses themselves: a wildcard on the port announces every local address of an eligible interface, a bound address itself if it is local and not zoned |
| LocalAddresses.EligibleExactly | internal/discovery/discovery.go:140-163 | an interface is passed over exactly for its flags, its name or an address in a tailnet range |
| LocalAddresses.LocalV4 | internal/discovery/discovery.go:168-174 | the IPv4 addresses that may be announced or dialled are 10/8, 172.16/12, 192.168/16 and 169.254/16, in numbers |
| LocalAddresses.LocalV6 | internal/discovery/discovery.go:168-174 | the IPv6 ones are fc00::/7 without fd7a:115c:a1e0::/48, and fe80::/10 |
| LocalAddresses.ContainsExactly | internal/discovery/browse.go:437-439 | a subnet holds an address exactly if one block of its size holds both |
| LocalAddresses.NamesExactly | internal/discovery/announce.go:359-364 | an interface is named exactly when it gives an address |
| LocalAddresses.PickAddress | internal/discovery/browse.go:407-445 | the first usable IPv4 address, else the first usable other one, zoned if it is link-local IPv6; nothing exactly when the port is bad or none is usable |
| LocalAddresses.OnlyOneAnswer | internal/discovery/browse.go:407-445 | these two specifications leave one target and one pick |
| LocalAddresses.DialsWhatWasAnnounced | internal/discovery/browse.go:407-445 | of an announced target the browser finds something to dial exactly if it has a subnet for an address or one is zoned, and what it dials was announced, is on the link, and is no tailnet or loopback address |
| Browser.Screen | internal/discovery/browse.go:230-265 | a find is let through exactly with the right version, heard on a known eligible interface, with an address to pick there |
| Browser.AdmitsExactly | internal/discovery/browse.go:230-265 | a find is let through if and only if it speaks version 2, was heard on an eligible interface, the first of that name, and has a port and a local address that is zoned or in a subnet there; and it is dialled at such an address |
| Browser.KeyTellsApart | internal/discovery/browse.go:226-228 | two finds share an entry exactly when name and interface agree, if no interface name holds a NUL |
| Browser.PairingBrowser.Subscribe | internal/discovery/browse.go:105-130 | refused once closed; else subscribed, starting a browse if none is live |
| Browser.PairingBrowser.Unsubscribe | internal/discovery/browse.go:132-145 | the last one out stops the browse and forgets the entries |
| Browser.PairingBrowser.Close | internal/discovery/browse.go:161-177 | the browse stops, every subscriber's channel is closed once, and nobody is subscribed |
| Browser.PairingBrowser.Added | internal/discovery/browse.go:230-289 | what passes the screening is listed under a new id and signalled, unless its browse was cancelled; nothing else changes anything |
| Browser.PairingBrowser.Removed | internal/discovery/browse.go:291-306 | the entry goes and is signalled, unless it is unknown or the browse was cancelled |
| Browser.PairingBrowser.List | internal/discovery/browse.go:325-335 | the rows of the entries, in whatever order the map gives them |
| Browser.PairingBrowser.Resolve | internal/discovery/browse.go:390-398 | the row with that id, and nothing exactly if no row shown has it |
| Browser.CloseEach | internal/discovery/browse.go:172-174 | the loop closes each channel once more, and panics exactly if one was closed already |
| Browser.SignalEach | internal/discovery/browse.go:308-315 | the loop leaves every channel holding a signal, and panics exactly if one was closed |
| Browser.StepKeepsInv | internal/discovery/browse.go:105-315 | every step of every interleaving keeps the browser's invariant |
| Browser.StepsTakeEffect | internal/discovery/browse.go:105-315 | in every run each step does what it is for: a subscriber is on, a released one off, the last one ends browse and list, closing closes every channel, a find of the live browse is listed and one that goes is not, and then every subscriber holds a signal |
| Browser.LiveExactlyWhileSubscribed | internal/discovery/browse.go:105-157 | in every run a browse is live exactly while there is a subscriber, and it is the only one not cancelled |
| Browser.ListedCameFromTheLiveBrowse | internal/discovery/browse.go:230-289 | in every run each listed entry came from the live browse, was heard on an eligible interface and is dialled at an address usable there |
| Browser.ClosingIsForGood | internal/discovery/browse.go:161-177 | after closing nobody subscribes, nothing is browsed for, listed or issued |
| Browser.NoChannelMisused | internal/discovery/browse.go:161-177 | in every run no channel is closed twice and none is signalled after it was closed |
| Browser.IdsAreNeverReused | internal/discovery/browse.go:273-285 | in every run the ids of everything ever listed differ |
| Browser.RowsDependOnlyOnEntries | internal/discovery/browse.go:325-378 | in every run the rows shown do not depend on the map's order |
| LockWaiters.LockBoard.SetState | internal/app/lock.go:367-393 | publishes the state and hands out the channels to close: all state waiters, and the unseal waiters if unsealed |
| LockWaiters.LockBoard.Await | internal/app/lock.go:405-431 | returns a wanted state or parks a channel, in one critical section |
| LockWaiters.LockBoard.GiveUpAwaiting | internal/app/lock.go:435-446 | the first occurrence of the channel goes, the others keep their order |
| LockWaiters.LockBoard.UnsealNotify | internal/app/lock.go:458-472 | registers only while sealed |
| LockWaiters.UnsealWaiterRegistersIffSealed | internal/app/lock.go:458-472 | a waiter for the unsealing is listed exactly while sealed, and else about to be closed |
| LockWaiters.LockBoard.WithdrawUnsealNotify | internal/app/lock.go:474-486 | the channel goes from the list |
| LockWaiters.StepKeepsInv | internal/app/lock.go:367-487 | every step of every interleaving keeps the waiters' invariant |
| LockWaiters.NoWaiterLostOrClosedTwice | internal/app/lock.go:367-487 | in every run each channel made is in exactly one place: on its list, about to be closed, closed, or withdrawn |
| LockWaiters.PendingUnsealMeansSealed | internal/app/lock.go:367-487 | in every run a pending unseal waiter means the state is sealed |
| LockWaiters.UnsealWaiterLeavesOnlyWhenUnsealed | internal/app/lock.go:367-487 | an unseal waiter leaves its list only by withdrawal or by an unsealing that is about to close it |
| LockWaiters.NoMissedWakeUp | internal/app/lock.go:405-431 | in every run, once nobody has a channel left to close, a call parked while the instance is in a state it wants can wake |
| LockWaiters.ReportsAreTruthful | internal/app/lock.go:405-431 | in every run a report names a state the instance was in during the call, and a wanted one if it says reached |
| ApproverSlots.Approvers.RegisterSlot | internal/app/lock.go:93-103 | the slot is listed, and attached if there is a core |
| ApproverSlots.Approvers.UnregisterSlot | internal/app/lock.go:106-124 | the slot is off the list and its detach is taken, once |
| ApproverSlots.Approvers.AdoptEngine | internal/app/lock.go:211-228 | unless a core is there already, every listed slot is attached to the new engine |
| ApproverSlots.Approvers.TakeCoreOut | internal/app/lock.go:316-331 | the core is gone and every listed slot that was attached is released |
| ApproverSlots.StepKeepsInv | internal/app/lock.go:93-331 | every step of every interleaving keeps the slots' invariant |
| ApproverSlots.StepsTakeEffect | internal/app/lock.go:93-331 | in every run a registered slot is listed, an unregistered one is not and is detached if it was attached, a published core is the core unless there is one, and a seal leaves none |
| ApproverSlots.ListedSlotsFollowTheCore | internal/app/lock.go:93-331 | in every run a listed slot is attached exactly when a core is present, its handler is on that core's engine and on no other |
| ApproverSlots.ReleasedAtMostOnce | internal/app/lock.go:106-124 | in every run no registration is released twice |
| ApproverSlots.OldEnginesAreEmpty | internal/app/lock.go:316-331 | in every run an engine that is not the core's holds only handlers an unregistration is about to detach |
| InstanceLock.App.StopPeer | internal/app/listen.go:349-382 | the channel is gone and its node, if it had one, no longer listens |
| InstanceLock.App.StartPeer | internal/app/app.go:810-843 | without a node nothing happens; a node listens if it can bind |
| InstanceLock.App.StartPeerOn | internal/app/listen.go:308-344 | the channel is stopped, moved to the setting and started as far as building and binding allow |
| InstanceLock.App.RebindPeer | internal/app/listen.go:277-305 | the new setting, or the previous one again |
| InstanceLock.App.AdoptStore | internal/app/lock.go:205-251 | a store that builds is adopted unless there is a core; a peer that does not start does not undo it |
| InstanceLock.App.UnlockStore | internal/app/lock.go:143-171 | what unlocking does in each state |
| InstanceLock.App.Lift | internal/app/lock.go:186-202 | the passphrase lifts the soft lock |
| InstanceLock.App.LockSoftly | internal/app/lock.go:270-282 | local prompts are suspended and nothing else moves |
| InstanceLock.App.SealStore | internal/app/lock.go:288-303 | core and channel are gone, the state is sealed; nothing to seal changes nothing |
| InstanceLock.App.CloseDown | internal/app/app.go:894-912 | core and channel are gone, the state is as it was |
| LockOutcomes.LiftsExactlyForThePassphrase | internal/app/lock.go:186-203 | a soft-locked instance is unlocked with live prompts if and only if the passphrase is right, and otherwise left as it was with the refusal |
| LockOutcomes.OpensExactlyIfAdoptable | internal/app/lock.go:143-251 | a sealed instance is unlocked if and only if the store opens and everything can be built, with a core on its setting and its node listening if it serves and can bind; else it stays sealed, with the reason |
| LockOutcomes.OtherwiseUnlockingChangesNothing | internal/app/lock.go:143-172 | in any other state unlocking changes nothing |
| LockOutcomes.InitialisesExactlyOnce | internal/app/app.go:321-358 | a store is created only where there is none, and then opened like any other |
| LockOutcomes.SoftLocksExactlyWithACore | internal/app/lock.go:270-282 | a soft lock suspends and publishes if there is a core, and else changes nothing |
| LockOutcomes.SealsExactlyWithACore | internal/app/lock.go:288-303 | a seal leaves no core, none of its listening and the sealed state if there was a core, and else changes nothing |
| LockOutcomes.RebindsExactly | internal/app/listen.go:277-345 | done exactly if the new setting can be started, rolled back exactly if only the old one can, and what then runs on which setting |
| LockOutcomes.ServesExactlyOnce | internal/app/app.go:733-752 | serving starts the channel of the core there is, once |
| LockOutcomes.ClosesExactly | internal/app/app.go:894-913 | closing takes the core and its node and leaves the state |
| LockOutcomes.LockedUntilLiftedOrSealed | internal/app/lock.go:143-303 | over every run a soft-locked instance stays so until an unlock with the right passphrase or a seal |
| LockOutcomes.SealedUntilOpened | internal/app/lock.go:143-303 | over every run a sealed instance stays so, nothing listening, until an unlock with a store that can be adopted |
| InstanceLock.RebindKeepsOrMoves | internal/app/listen.go:277-305 | a rebind that fails leaves the setting at its previous value, one that works is on the new one; at most one node listens either way |
| InstanceLock.StepKeepsAgreement | internal/app/lock.go:143-303 | every operation keeps state, core, suspension and listening nodes in agreement |
| InstanceLock.StateAndCoreAgree | internal/app/lock.go:143-365 | over every run of operations that do not overlap: unlocked or locked exactly when there is a core, locked exactly when prompts are suspended, at most one node listening and none while sealed |
| InstanceLock.StoreNeverForgotten | internal/app/lock.go:72-74 | over every run an instance with a store never goes back to having none |
| InstanceLock.ClosedAgreesIffSealed | internal/app/app.go:894-912 | after closing, state and core agree exactly if nothing was open |
| LockOverlap.DisagreementIsEnclosure | internal/app/lock.go:143-294 | when operations overlap, state and core disagree in the end if and only if the last operation to publish ran its two sections around those of the last to move the core, and one of the two seals while the other does not |
| LockOverlap.AgreementInOrder | internal/app/lock.go:143-294 | operations that publish in the order of their first sections always end in agreement |
| PromptOverlap.PromptDisagreementIsEnclosure | internal/app/lock.go:186-294 | when operations overlap, locked and suspended prompts disagree in the end if and only if the last operation to publish began before the last effect on core or prompts and published after the operation that had it, and one of the two soft-locks while the other does not |
| PromptOverlap.PromptsAgreeInOrder | internal/app/lock.go:186-294 | where every effect comes before whatever publishes later begins, the two agree |
| PromptOverlap.LiftInsideSoftLock | internal/app/lock.go:186-282 | the interleaving that leaves the instance locked with its prompts live |
| LockOverlap.UnlockInsideSeal | internal/app/lock.go:143-294 | the interleaving that leaves the instance sealed with a core |
| LockOverlap.SealInsideUnlock | internal/app/lock.go:211-294 | the interleaving that leaves the instance unlocked without a core |
| InstanceLock.UnlockedWithoutCoreIsForGood | internal/app/lock.go:143-303 | from unlocked or locked without a core no operation changes either |
| ApprovalStream.SocketApprover.Send | internal/app/watch.go:170-190 | refused once the flag is set; else the event is on the stream |
| ApprovalStream.SocketApprover.Finish | internal/app/watch.go:201-206 | the flag is set and the stream is as it was |
| ApprovalStream.StreamUsedOnlyWhileHandlerRuns | internal/app/watch.go:170-206 | in every run the stream is written to only while the handler has not finished, by one call at a time |
| ApprovalStream.LateSendsAreRefused | internal/app/watch.go:170-206 | in every run a send that starts after `finish` never reaches the stream and ends refused |
| ApprovalStream.LateMeansAfterFinish | internal/app/watch.go:170-206 | in every run the sends counted late are exactly those begun after the flag was set |
| ApprovalStream.RefusalMeansFinished | internal/app/watch.go:170-190 | nothing is refused while the handler is serving |
| WatchedRequests.Watched.Add | internal/app/watch.go:56-65 | the prompt is the last of its request |
| WatchedRequests.Watched.Remove | internal/app/watch.go:67-84 | the prompt goes, and with the last one its request |
| WatchedRequests.Watched.Choose | internal/app/watch.go:89-125 | with a token the one prompt with it, without one all of them, ambiguous exactly if there are several |
| WatchedRequests.JudgedIsExact | internal/app/watch.go:361-395 | an answer is passed on exactly when its decision and length keep the request's bounds, with decision, length and, for a length, reach as asked; and which refusal it gets otherwise |
| WatchedRequests.ListedExactlyWhileDeciding | internal/app/watch.go:56-84 | in every run a prompt is listed once exactly while its `Decide` is between add and remove, and no id maps to an empty list |
| WatchedRequests.TokenNamesOneCard | internal/app/watch.go:89-125 | in every run a token picks the one card out with it and no other |
| WatchedRequests.NoTokenNamesAll | internal/app/watch.go:109-125 | in every run an answer without a token is for every card out, and ambiguous exactly if there are several |
| WatchedRequests.AnswersReachThoseMeant | internal/app/watch.go:340-408 | in every run an answer is put in flight once to every card it is meant for and to no other, with the decision, length and reach asked for, and to none exactly if there is none or it breaks the bounds |
| WatchedRequests.TakenAnswerIsFirstAndOwn | internal/app/watch.go:214-252 | in every run a card takes at most its first answer, for its own request and token, within the ceiling |
| WatchedRequests.DeliveredAnswersRespectTheCeiling | internal/app/watch.go:340-408 | in every run no answer on its way exceeds the ceiling or approves a grant request without a length |
| SignCommand.ParseSign | internal/signcli/parse.go:112-197 | the loop gives the invocation the command line's pieces mean, or refuses |
| SignCommand.FlagsExactly | internal/signcli/parse.go:44-58 | the flags there are, which of them take a value, what a payload is and what operation is refused |
| SignCommand.ReadAsWritten | internal/signcli/parse.go:112-174 | reading what any well-formed list of pieces spells gives back those pieces |
| SignCommand.WrittenAsRead | internal/signcli/parse.go:112-174 | and spelling what was read gives back the command line |
| SignCommand.ParsedExactly | internal/signcli/parse.go:112-197 | a line is accepted exactly when it is made of well-formed pieces that ask only for signing, name a namespace and a key and carry no option; the last of each counts, and no payload is standard input |
| SignCommand.LastExactly | internal/signcli/parse.go:168-171 | of several namespaces or keys the last counts |
| SignCommand.FilesExactly | internal/signcli/parse.go:115-128 | the payloads are those of the pieces, in their order |
| SignCommand.OperationOf | internal/signcli/parse.go:69-93 | the value of the first `-Y` in front of any `--` |
| SignCommand.HandOverOne | internal/signcli/signcli.go:394-402 | the command line for one payload |
| SignCommand.RebuiltReadsBack | internal/signcli/signcli.go:394-402 | reading it gives the accepted invocation with just that payload if and only if the payload is `-` or does not start with `-` |

## Left out

- Cryptographic hardness, randomness, constant-time comparison and wiping: the group, SHA-512,
  HMAC and the map to the group are parameters, and the theorems assume only that the inputs of
  the exchange at hand do not collide.
- ristretto255 itself: any group of prime order with an encoding that decodes back.
- Aliasing between a listed entry's address slice and the cache's: entries and services are
  values, and so are approver slots, which the source holds by pointer.
- BrowseCache.Cache.UpdateFrom: the order in which `sort.Sort` takes a message's records is a
  parameter, as the browse theorems hold for records in any order, and the added and removed
  services it returns are left out, as the browse loop does not use them.
- Denial.AreDenying: the records are sorted in a copy and not in the caller's slice.
- Denial.SomeoneIsDeniedIff: takes it as given that the text form the records are sorted by
  tells addresses apart; that is proved of dotted IPv4 and not of IPv6 text. What a probing side
  hears (`Denial.NobodyIsDeniedIff`) does not depend on it.
- Denial.HearsDenial: the interface a response came in on is taken to be there still when the
  service's addresses are looked up, so that those it has there are among those it drops.
- Host names are compared with ASCII letters folded, where the source folds all of Unicode; a
  record reaches that comparison only if its name is the probed one to the letter.
- InstanceName.RoundTripIffNoBackslash: an empty name and a dot within a type's label or the
  domain are not covered, as such names cannot be told apart by their dots.
- HeardList.ListsAdmittedEntries: interface names hold no NUL, which is what the browser's keys
  are split by.
- LocalAddresses.AnnounceTarget: bound addresses arrive split into host and port, and subnets
  have a prefix length rather than an arbitrary mask.
- LocalAddresses.PickAddress: the address, zone and port are a record rather than the text that
  joins them.
- Browser.PairingBrowser.Unsubscribe: the release function's `sync.Once` is left out, because
  unsubscribing twice is harmless by itself.
- Entry ids and waiter channels count without wrapping at 64 bits.
- Sending queries, the probe's packets and delays, announcing, refreshing and withdrawing.
- `SetPeerListen`, which validates and stores a setting before it rebinds.
- Audit entries, lifecycle logging, reasons and times of transitions, engine hooks, doc sync.
- What the front end reports as presented, and the reasons given with an answer.
- Names that are not valid UTF-8: a char of the model is one byte where the source counts bytes
  and one rune where it reverses a name.
- Sockets, D-Bus, files, processes, the relay, the command-line front ends and all drawing.
- The key store, the approval engine and the peer node beyond what the lock machine calls.
