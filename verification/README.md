# Verification of the VPP plugin crates

A Dafny model of the parts of this repository that are hardest to get right, with proofs of what they
keep and what they promise. `dafny verify dfyconfig.toml` checks all of it.

- **The hierarchical timer wheel.** `TimerArithmetic` and `TimerLaw` place timers by the base-S digits of
  the time and follow one timer through every slot it is filed under, down to a closed form for the tick that
  returns it. `WheelModel` is the wheel as a value: the lists of its slots and the timers on them.
  `WheelCalendar` proves that every call does to a calendar of appointments what a caller expects,
  `WheelRuns` and `WheelConservation` extend this to every run. `WheelHomes` says where a timer is kept at
  any time, `WheelNext` what the next-expiration report is, and `WheelReports` when it is the least expiry.
  `SlabLists` and the class in `TimerWheels` are the linked lists in one slab, updated in place, proved to be
  that wheel. `MachineArithmetic` holds word ranges and division.
- **The `.api` compiler.** `ApiTypes`, `ApiVla`, `ApiCrc` and `ApiValidation` are the growing table of types,
  the analysis of variable-length arrays, checksum data and validation; `ApiParsing` is the
  parser that runs over the statements; `ApiServices` checks and infers services. `ApiSoundness` proves
  what holds of every accepted file, `ApiCompatibility` that appended backwards-compatible variants are
  invisible. `ApiResults` says which files are accepted and what they give, statement by statement, and
  `ApiChecksums` and `ApiTrees` which declarations and type trees a checksum tells apart. `EndianSwap` holds
  the emitted byte-swapping code and an interpreter for it, `EndianMeaning` what swapping means;
  `EndianLaws`, `EndianRoundTrip`, `EndianReading` and `EndianMessages` prove that the code does this for
  every accepted message, that what is read from a message stays the same and that swapping undoes itself,
  and that allocated and reported sizes agree.
- **Batched fast paths.** `GetBuffers` is the unrolled index translation, `FeatureNode` the dispatch of
  packets four at a time against one at a time.
- **Concurrency.** `BarrierLock` is the reader-writer lock guarded by the worker-thread barrier, `Counters` the
  per-thread counters, each as the object it is and as a machine whose steps interleave.

Where the code falls short of what is said of it, the code is modelled and the exact extent is proved:

- A timer is not always returned at its expiry (`TimerLaw.LateExample`; exactly when, `TimerLaw.FireTickBounds`).
- `next_expiration` is not always the least expiry (`WheelNext.NextMayMissCoarser`; exactly when,
  `WheelReports.NearReport` and `WheelReports.ReportLaw`).
- The swapping code of an alias of a plain number assigns from a member named after the alias, which the
  generated tuple struct does not have (`EndianMessages.AliasCodeResolvesIff`).
- A stride of four packets on one arc advances the configuration index of its first packet only
  (`FeatureNode.PlacesAfter`; when the nexts still agree, `FeatureNode.FastAgrees`).
- The checksum of a message does not see what an alias stands for, nor tell a union from a struct, or a fixed
  length 0 from a variable one without a count (`ApiTrees.MessageCrcIff`, with everything it does tell).
- A repeated caller escapes the check of declared services (`ApiServices.RepeatedCallerEscapes`; exactly when,
  `ApiServices.OutcomeDefinedIff` and `ApiServices.OutcomeDistinctIff`).

## Model

| member | source | states |
|---|---|---|
| TimerArithmetic.FindLevel | vpp-plugin/src/vppinfra/tw_timer.rs:268-277 | the level of a delta is the first one whose range it is below, and the delta is at least the span of that level |
| TimerArithmetic.NextVisitAhead | vpp-plugin/src/vppinfra/tw_timer.rs:270-274 | the slot chosen x places ahead of the position is next drained x + 1 turns of its level later |
| TimerArithmetic.NextVisitStep | vpp-plugin/src/vppinfra/tw_timer.rs:364 | moving a level on by one slot changes the next visit of no slot but the one just left |
| TimerLaw.AgainSettled | vpp-plugin/src/vppinfra/tw_timer.rs:346-356 | a timer filed again while a level is drained lands on that level or below it, in a slot still to be drained, at a time the law covers again |
| TimerLaw.CascadeIsExact | vpp-plugin/src/vppinfra/tw_timer.rs:319-373 | a timer drained less than one span before its expiry cascades down and is returned exactly at its expiry |
| TimerLaw.LateByATurn | vpp-plugin/src/vppinfra/tw_timer.rs:319-373 | a timer drained a whole span or more before its expiry, parked however often, is returned at the first drain of its slot at or after the expiry, in closed form |
| TimerLaw.FiringLaw | vpp-plugin/src/vppinfra/tw_timer.rs:258-361 | for every start and every later expiry: following the timer through all its slots gives the closed form FireTick, exact when the quotients do not carry and one turn of the level later when they do |
| TimerLaw.FireTickBounds | vpp-plugin/src/vppinfra/tw_timer.rs:264-277 | every timer of interval 1 or more, also one beyond the range of the wheel, is returned no earlier than its expiry and at most S^L - S^(L-1) ticks later; exactly at its expiry if and only if a condition on the start and the interval holds |
| TimerLaw.ZeroInterval | vpp-plugin/src/vppinfra/tw_timer.rs:211-231 | interval 0 is returned one tick later when the time is a multiple of the slot count, and a whole turn later otherwise |
| TimerLaw.LateExample | vpp-plugin/src/vppinfra/tw_timer.rs:355-364 | 2 levels of 4 slots, start 3, expiry 10: returned at tick 20, so not every timer is returned at its expiry |
| WheelModel.FileThreads | vpp-plugin/src/vppinfra/tw_timer.rs:258-288 | filing a pending timer leaves every timer on exactly one list or pending |
| WheelModel.DrainThreads | vpp-plugin/src/vppinfra/tw_timer.rs:331-361 | draining a detached list hands back each of its expired timers once, in the order of the list, removes exactly those, and leaves every other live timer on one list |
| WheelModel.StopThreads | vpp-plugin/src/vppinfra/tw_timer.rs:291-316 | stopping a timer takes it off its list and leaves the lists disjoint and complete |
| WheelCalendar.HandleKeepsFates | vpp-plugin/src/vppinfra/tw_timer.rs:336-359 | handling one detached timer removes it exactly if its expiry has come, and otherwise keeps its appointment and those of all others |
| WheelCalendar.DrainKeepsFates | vpp-plugin/src/vppinfra/tw_timer.rs:331-361 | draining a list delivers exactly its timers appointed now, once each, and keeps every other appointment, although timers may return to the slot being drained |
| WheelCalendar.TurnKeepsFates | vpp-plugin/src/vppinfra/tw_timer.rs:319-364 | the same for a whole turn of a level, with the level moved on |
| WheelCalendar.AdvanceKeepsStep | vpp-plugin/src/vppinfra/tw_timer.rs:363-364 | advancing the position of the level under way makes it the base-S digit of the time again, once all lower ones are 0 and agree |
| WheelCalendar.TurnGoesOn | vpp-plugin/src/vppinfra/tw_timer.rs:363-370 | the next level is processed exactly when the position wraps; then all lower positions are 0 and that level is one slot behind the time; otherwise the tick is complete |
| WheelCalendar.WrapDigits | vpp-plugin/src/vppinfra/tw_timer.rs:363-370 | the positions at a wrap, from the base-S digits of the time |
| WheelCalendar.ProcessKeepsFates | vpp-plugin/src/vppinfra/tw_timer.rs:319-373 | processing from any level on delivers exactly the appointments of the present tick |
| WheelCalendar.BeginTick | vpp-plugin/src/vppinfra/tw_timer.rs:376-379 | advancing the time alone changes no appointment and puts level 0 one behind the time |
| WheelCalendar.TickLaw | vpp-plugin/src/vppinfra/tw_timer.rs:376-379 | a tick returns exactly the timers appointed at the new time, once each, keeps all other appointments, and leaves every position a base-S digit of the time |
| WheelCalendar.StartLaw | vpp-plugin/src/vppinfra/tw_timer.rs:211-255 | starting a timer enters one appointment, at the time the law promises, and changes no other |
| WheelCalendar.StopLaw | vpp-plugin/src/vppinfra/tw_timer.rs:291-316 | stopping a timer removes its appointment and changes no other |
| WheelCalendar.AppointmentsAhead | vpp-plugin/src/vppinfra/tw_timer.rs:319-361 | between calls every appointment is in the future and not before the expiry |
| WheelCalendar.NeverEarly | vpp-plugin/src/vppinfra/tw_timer.rs:346-356 | no timer is returned before its expiry |
| WheelCalendar.ExpireTimersLaw | vpp-plugin/src/vppinfra/tw_timer.rs:382-391 | n ticks return exactly the appointments of the next n ticks, once each and in their order |
| WheelCalendar.EmptyIdle | vpp-plugin/src/vppinfra/tw_timer.rs:167-208 | the initial wheel is between calls and has no appointments |
| WheelRuns.StepRefines | vpp-plugin/src/vppinfra/tw_timer.rs:211-391 | every call does to the calendar exactly what its entry in the book says |
| WheelRuns.RunLaw | vpp-plugin/src/vppinfra/tw_timer.rs:211-391 | over any run that does not stop it, a live timer is returned for the first time at its appointment, or is still live if that has not come |
| WheelRuns.FiringTimeLaw | vpp-plugin/src/vppinfra/tw_timer.rs:211-391 | over any run after its start, a timer not stopped is first returned at one tick, whatever other timers do. Its expiry is the given time, or now + interval, cut to the largest 64-bit number. Ahead of the time, that tick is FireTick of the expiry, within [expiry, expiry + S^L - S^(L-1)]; at the present time it is now + 1 or now + S |
| WheelRuns.IntervalLaw | vpp-plugin/src/vppinfra/tw_timer.rs:211-391 | for an interval of 1 or more that does not overflow the clock: not returned before now + interval, returned once the clock has reached now + interval + S^L - S^(L-1), and first at a tick between the two |
| WheelRuns.KeyBalance | vpp-plugin/src/vppinfra/tw_timer.rs:211-391 | over any run and for every key: times handed back by return or stop, plus 1 if live at the end, equal times started, plus 1 if live at the beginning, so none is delivered twice |
| WheelRuns.RunForward | vpp-plugin/src/vppinfra/tw_timer.rs:376-391 | time never goes back, and every run leaves the wheel as a call expects it |
| WheelConservation.StepConserves | vpp-plugin/src/vppinfra/tw_timer.rs:211-391 | for one call: contexts taken in and contexts live before are contexts live after and contexts handed back, with multiplicity |
| WheelConservation.RunConserves | vpp-plugin/src/vppinfra/tw_timer.rs:211-391 | the same over any run |
| WheelNext.NextIsLive | vpp-plugin/src/vppinfra/tw_timer.rs:396-425 | the report is None exactly when no timer is live, and otherwise the expiry of a live timer |
| WheelNext.NextIsLeastOfLevelZero | vpp-plugin/src/vppinfra/tw_timer.rs:396-425 | on any state with two levels or more and no overdue timer on level 0: the least expiry on level 0 whenever that level is occupied |
| WheelNext.NextIsLeastBeforeCascade | vpp-plugin/src/vppinfra/tw_timer.rs:396-425 | on any state: the least expiry of all when all timers are on time and one on level 0 expires no later than the next cascade (sufficient only; WheelReports.NearReport is exact) |
| WheelNext.NextMayMissCoarser | vpp-plugin/src/vppinfra/tw_timer.rs:396-425 | 2 levels of 4 slots, interval 5, three ticks, interval 3: the report is 6 although a timer expires at 5 |
| WheelHomes.StayStep | vpp-plugin/src/vppinfra/tw_timer.rs:319-361 | where a timer stays follows from its start and expiry: one tick later it has moved on exactly if its slot is drained at that tick |
| WheelHomes.NearIffLevelZero | vpp-plugin/src/vppinfra/tw_timer.rs:258-361 | by that rule a timer is on level 0 exactly when its interval is below the slot count, or it is on time and the last multiple of the slot count not after its expiry has come |
| WheelHomes.TickMoves | vpp-plugin/src/vppinfra/tw_timer.rs:376-379 | a tick moves exactly the timers whose slot is drained at the new time, each to its next stay, and no other |
| WheelReports.RunTracked | vpp-plugin/src/vppinfra/tw_timer.rs:211-391 | over any run with positive intervals the wheel keeps every live timer where its start, its expiry and the time say |
| WheelReports.OnLevelZeroIff | vpp-plugin/src/vppinfra/tw_timer.rs:211-391 | over any run from the empty wheel with positive intervals: a live timer is on level 0 if and only if its interval is below the slot count, or it is on time and the last multiple of the slot count not after its expiry has come; then it is not overdue |
| WheelReports.NearReport | vpp-plugin/src/vppinfra/tw_timer.rs:396-425 | over any such run, when some timer is near in that sense: the report is the least expiry of those that are, and the least expiry of all if and only if a timer of least expiry is near |
| WheelReports.ReportLaw | vpp-plugin/src/vppinfra/tw_timer.rs:396-425 | over any such run, whatever is live: the report is the least expiry of all if and only if some timer of least expiry has the first stay, by level and then by tick, where stays follow from starts, expiries and the time |
| WheelReports.NextIsLeastIff | vpp-plugin/src/vppinfra/tw_timer.rs:396-425 | the same on any state between calls, in terms of where the timers are kept |
| SlabLists.LinkFrontLinks | vpp-plugin/src/vppinfra/tw_timer.rs:279-287 | the four link updates put an entry in front of a list, linked in both directions |
| SlabLists.UnlinkLinks | vpp-plugin/src/vppinfra/tw_timer.rs:299-310 | the link updates of stopping take one entry out of its list and leave the rest linked in both directions |
| SlabLists.FileRepresents | vpp-plugin/src/vppinfra/tw_timer.rs:258-288 | after the link updates the slab holds the lists of the wheel with the timer filed |
| SlabLists.StopRepresents | vpp-plugin/src/vppinfra/tw_timer.rs:291-316 | after unlinking and removal the slab holds the lists of the wheel without the timer |
| SlabLists.DetachRepresents | vpp-plugin/src/vppinfra/tw_timer.rs:326-329 | after cutting the head entry loose, the slot is empty and its old list can still be followed forward |
| SlabLists.InsertRepresents | vpp-plugin/src/vppinfra/tw_timer.rs:211-229 | a new slab entry under a vacant key disturbs no list |
| SlabLists.DrainEntry | vpp-plugin/src/vppinfra/tw_timer.rs:332-334 | the first entry of a detached list holds its timer and leads to the rest of the list |
| SlabLists.PreparedRepresents | vpp-plugin/src/vppinfra/tw_timer.rs:167-208 | the slab made by initialisation is that of the empty wheel |
| SlabLists.ListsInSlab | vpp-plugin/src/vppinfra/tw_timer.rs:167-373 | between calls the list of every slot runs without repetition from its head entry, previous inverts next, no entry is on two lists, and the entries on some list are exactly the non-head entries |
| TimerWheels.TimerWheel.constructor | vpp-plugin/src/vppinfra/tw_timer.rs:167-208 | makes an empty wheel with a head entry for every slot |
| TimerWheels.TimerWheel.FindSlot | vpp-plugin/src/vppinfra/tw_timer.rs:264-277 | the loop over the levels finds the slot the arithmetic prescribes |
| TimerWheels.TimerWheel.StartTimerUnchecked | vpp-plugin/src/vppinfra/tw_timer.rs:258-288 | the slab update is the filing of the timer |
| TimerWheels.TimerWheel.StartTimer | vpp-plugin/src/vppinfra/tw_timer.rs:211-231 | the calendar gains exactly one appointment, with expiry now + interval, or 2^64 - 1 when that does not fit 64 bits |
| TimerWheels.TimerWheel.StartTimerAbsolute | vpp-plugin/src/vppinfra/tw_timer.rs:234-255 | refused exactly when the time is not in the future, and then nothing changes |
| TimerWheels.TimerWheel.StopTimer | vpp-plugin/src/vppinfra/tw_timer.rs:291-316 | hands back the context of the key's present timer, or nothing; the calendar loses exactly that appointment |
| TimerWheels.TimerWheel.DrainList | vpp-plugin/src/vppinfra/tw_timer.rs:331-361 | the loop over the detached list terminates, handles each entry once, and is the drain of the list |
| TimerWheels.TimerWheel.ProcessLevel | vpp-plugin/src/vppinfra/tw_timer.rs:319-373 | the recursion over the levels is that of the wheel and bounded by the number of levels |
| TimerWheels.TimerWheel.Tick | vpp-plugin/src/vppinfra/tw_timer.rs:376-379 | is a tick of the wheel |
| TimerWheels.TimerWheel.ExpireTimers | vpp-plugin/src/vppinfra/tw_timer.rs:382-391 | returns the contexts of exactly the timers appointed within the ticks, once each, in order, and keeps all later appointments |
| TimerWheels.TimerWheel.NextExpiration | vpp-plugin/src/vppinfra/tw_timer.rs:396-425 | the scan reports the least expiry of the first occupied slot |
| TimerWheels.TimerWheel.LeastExpireTime | vpp-plugin/src/vppinfra/tw_timer.rs:403-420 | the least expiry along one list |
| ApiTypes.FindStable | vpp-plugin-api-gen/src/parser.rs:1161-1167 | a registered name keeps its position as further types are registered |
| ApiTypes.NameMeans | vpp-plugin-api-gen/src/parser.rs:227-229 | a type refers to a declared one exactly when it is that name between vl_api_ and _t |
| ApiTypes.RegisterGrounded | vpp-plugin-api-gen/src/parser.rs:919-942 | registering a type whose references resolve keeps every reference to earlier types |
| ApiVla.FieldVlaStable | vpp-plugin-api-gen/src/parser.rs:214-248 | the verdict on a field never changes as later types are registered; the recursion is measured by registration position |
| ApiVla.EntryVlaStable | vpp-plugin-api-gen/src/parser.rs:572-602 | the same for a declared type |
| ApiVla.VerdictMeans | vpp-plugin-api-gen/src/parser.rs:212-248 | of variable length is exactly a string without a length, a field that names a count that is there, or one of a declared type whose last field is, or that is an alias of such a string |
| ApiVla.DescriptorResolves | vpp-plugin-api-gen/src/parser.rs:212-248 | the descriptor of a last field is exactly the one whose path leads, last field by last field, to an existing count field of the recorded type or to a variable string |
| ApiVla.EntryResolves | vpp-plugin-api-gen/src/parser.rs:572-602 | the same for the descriptor of a declared type |
| ApiValidation.ValidateVla | vpp-plugin-api-gen/src/parser.rs:944-971 | succeeds exactly on acceptable fields, tells whether the last is of variable length, and otherwise reports the first complaint |
| ApiValidation.PassesIffAccepted | vpp-plugin-api-gen/src/parser.rs:944-971 | no complaint exactly when strings are arrays, named counts exist, and only the last field of a block and none of a union is of variable length |
| ApiValidation.CrcForFields | vpp-plugin-api-gen/src/parser.rs:919-942 | own field data, then the data of each referenced type in field order, or the first unresolved name; what the field data tells apart is ApiChecksums.FieldsCrcIff |
| ApiValidation.AcceptedStable | vpp-plugin-api-gen/src/parser.rs:944-971 | acceptance lasts as later types are registered |
| ApiValidation.ImplicitFieldAccepted | vpp-plugin-api-gen/src/parser.rs:635-641 | putting the message number in front keeps an acceptable message acceptable |
| ApiCrc.CrcDataForEnum | vpp-plugin-api-gen/src/parser.rs:120-148 | the loop with its running number yields the items of the specification |
| ApiCrc.VariantsFromBlock | vpp-plugin-api-gen/src/parser.rs:266-289 | the loop with its running number yields the variants of the specification |
| ApiCrc.VariantsByIndex | vpp-plugin-api-gen/src/parser.rs:266-289 | a given value is kept, the first variant without one is 0, and a later one is its predecessor plus 1, modulo 2^32 |
| ApiCrc.NumberingAgrees | vpp-plugin-api-gen/src/parser.rs:120-289 | the checksum numbers its items as the generated constants are numbered, wrap-around included |
| ApiCrc.AppendedCompatibleIff | vpp-plugin-api-gen/src/parser.rs:137-142 | variants appended to an enum leave its checksum data unchanged if and only if each is marked backwards compatible |
| ApiCrc.TreesAreReferenced | vpp-plugin-api-gen/src/parser.rs:927-939 | what is combined from the stored checksums is the data of the whole type trees, in field order |
| ApiCrc.TreeStable | vpp-plugin-api-gen/src/parser.rs:919-942 | the data of a type tree does not change as later types are registered |
| ApiCrc.RegisterFaithful | vpp-plugin-api-gen/src/parser.rs:919-942 | registering a type with the computed checksum keeps every stored checksum that of its whole tree |
| ApiParsing.ApiParser.ProcessStatements | vpp-plugin-api-gen/src/parser.rs:976-1170 | the loop goes through the statements as the specification does, with the same first error, and returns the data of the file checksum |
| ApiParsing.ApiParser.DoImports | vpp-plugin-api-gen/src/parser.rs:904-917 | imports of imported files come first, each file once per import statement, with the same first error |
| ApiParsing.ApiParser.Insert | vpp-plugin-api-gen/src/parser.rs:1159-1167 | a second type of one name is refused |
| ApiParsing.ApiParser.Block | vpp-plugin-api-gen/src/parser.rs:1008-1089 | a block or union is validated, then hashed, then registered |
| ApiParsing.ApiParser.AddDefine | vpp-plugin-api-gen/src/parser.rs:988-1007 | a message is validated; unless imported it is hashed and stored, with its generated reply; what a whole file stores is ApiResults.ParsedContents |
| ApiParsing.ApiParser.One | vpp-plugin-api-gen/src/parser.rs:987-1158 | one statement, each kind |
| ApiParsing.ApiParser.Process | vpp-plugin-api-gen/src/parser.rs:1172-1300 | success, and the services, do not depend on the order in which the hash map yields the declared services |
| ApiParsing.ApiParser.New | vpp-plugin-api-gen/src/parser.rs:878-902 | success exactly when parsing and services succeed, with what Parse gives: its success is ApiResults.ParseOkIff, its types ApiResults.ParsedTypes, its messages, services, imports and options ApiResults.ParsedContents |
| ApiResults.ParseInOrder | vpp-plugin-api-gen/src/parser.rs:904-917 | parsing processes the statements of imported files, each after those it imports itself, and then those of the file |
| ApiResults.StepOkIff | vpp-plugin-api-gen/src/parser.rs:983-1168 | a statement is accepted exactly when its type is new, its fields are acceptable and the types they name are declared (not asked of an imported message), and an alias names no count |
| ApiResults.ParseOkIff | vpp-plugin-api-gen/src/parser.rs:976-1170 | a file is accepted if and only if each statement, imported ones first, fits the types declared before it |
| ApiResults.ParseErrorTells | vpp-plugin-api-gen/src/parser.rs:976-1170 | the error of a refused file is about its first statement that does not fit, and what it names is so |
| ApiResults.ParsedTypes | vpp-plugin-api-gen/src/parser.rs:1009-1167 | an accepted file registers exactly the types that the statements of its imports and its own declare, in order, each with its name, its details and, without fields, its checksum data |
| ApiResults.ParsedContents | vpp-plugin-api-gen/src/parser.rs:988-1157 | the messages of an accepted file are exactly those of its own defines in order, each with the message number in front and followed, when flagged, by <name>_reply with context and retval, and index exactly when only IndexReply is set; none of an imported file; services, imports and options are those of its own statements |
| ApiSoundness.RegisterValid | vpp-plugin-api-gen/src/parser.rs:1159-1167 | registering a type keeps the invariant of all types and of all messages already stored |
| ApiSoundness.ReplySound | vpp-plugin-api-gen/src/parser.rs:653-702 | a generated reply is acceptable and its checksum leaves out the message number |
| ApiSoundness.StepValid | vpp-plugin-api-gen/src/parser.rs:983-1168 | every statement keeps the invariant |
| ApiSoundness.ImportsValid | vpp-plugin-api-gen/src/parser.rs:904-917 | and so does every tree of imports |
| ApiSoundness.ParseValid | vpp-plugin-api-gen/src/parser.rs:878-902 | every accepted file satisfies the invariant |
| ApiSoundness.MessagesWellShaped | vpp-plugin-api-gen/src/parser.rs:944-971 | in every message of an accepted file no field but the last is of variable length, and the descriptor of the last leads to its count |
| ApiSoundness.TypesWellShaped | vpp-plugin-api-gen/src/parser.rs:944-971 | the same of every declared type; a union has no field of variable length |
| ApiSoundness.MessageCrcCoversTree | vpp-plugin-api-gen/src/parser.rs:919-942 | the checksum of a message covers its own fields without the message number, then the tree of each type referred to, in field order; what this tells apart is ApiTrees.MessageCrcIff |
| ApiChecksums.DecimalReads | vpp-plugin-api-gen/src/parser.rs:536-539 | the digits of a number read back as that number |
| ApiChecksums.FieldsCrcIff | vpp-plugin-api-gen/src/parser.rs:527-541 | two field lists have one text if and only if they agree field by field on type, name, presence of a size, number (0 for a variable size) and count |
| ApiChecksums.EnumCrcIff | vpp-plugin-api-gen/src/parser.rs:120-148 | two enums have one text if and only if their variants not marked backwards compatible have the same names and values in order |
| ApiChecksums.FileCrcJoins | vpp-plugin-api-gen/src/parser.rs:983-986 | the text of a file joins those of its parts |
| ApiChecksums.FileCrcOfOne | vpp-plugin-api-gen/src/parser.rs:150-172 | what each kind of statement adds to it; imports and services add nothing |
| ApiTrees.TreeOnce | vpp-plugin-api-gen/src/parser.rs:919-942 | the text of a type tree can be read in one way only: equal texts, whatever follows, exactly for trees that look the same and equal continuations |
| ApiTrees.MessageCrcIff | vpp-plugin-api-gen/src/parser.rs:919-942 | two messages of any accepted files have the same checksum data if and only if their fields agree as above and the types they refer to look the same, down to the leaves; a union looks like a struct and an alias like any alias |
| ApiCompatibility.CompatibleVariantsKeepCrcs | vpp-plugin-api-gen/src/parser.rs:120-148 | appending backwards-compatible variants to any enums, also in imported files, keeps success or the error, every message with its checksum, the file checksum and the services |
| ApiCompatibility.RunAlike | vpp-plugin-api-gen/src/parser.rs:976-1170 | processing goes the same way on both files |
| ApiCompatibility.ImportsAlike | vpp-plugin-api-gen/src/parser.rs:904-917 | and so do the imports |
| ApiCompatibility.FieldVlaAlike | vpp-plugin-api-gen/src/parser.rs:214-248 | variable length does not depend on the variants of enums |
| ApiServices.CheckServices | vpp-plugin-api-gen/src/parser.rs:1190-1211 | in any order: success exactly when every counting declaration is between defined messages and no caller is a reply; the events seen; otherwise a complaint some declaration causes |
| ApiServices.InferServices | vpp-plugin-api-gen/src/parser.rs:1213-1295 | succeeds exactly when no message is refused, appends the inferred services in message order, and otherwise reports the first refusal |
| ApiServices.ServicesComplete | vpp-plugin-api-gen/src/parser.rs:1172-1300 | after success with distinct names and callers: every service has a defined caller, a null or defined reply and defined events, no message calls two, and every message that is no event, reply or details message calls one |
| ApiServices.LastCounts | vpp-plugin-api-gen/src/parser.rs:1179-1183 | of several declarations with one caller the last one counts |
| ApiServices.AllDefinedIff | vpp-plugin-api-gen/src/parser.rs:1190-1211 | the check passes if and only if every declaration that counts has a defined caller, a null or defined reply and defined events, and its caller is the reply of no declaration |
| ApiServices.SeenIff | vpp-plugin-api-gen/src/parser.rs:1190-1211 | the events seen are exactly those of the declarations that count |
| ApiServices.AcceptsIff | vpp-plugin-api-gen/src/parser.rs:1190-1295 | success if and only if every counting declaration is between defined messages and no message stands alone: a reply has its request, a dump its details, details a get message with a declared service or else a dump, any other message its reply, unless it is an event or declares a service |
| ApiServices.OutcomeMembers | vpp-plugin-api-gen/src/parser.rs:1213-1295 | the services after success are those declared and one, fully described, for each message that needs one and declared none |
| ApiServices.OutcomeDefinedIff | vpp-plugin-api-gen/src/parser.rs:1190-1211 | after success every caller is defined; all replies are defined if and only if those of overridden declarations are; all events are if and only if those of overridden declarations are |
| ApiServices.OutcomeDistinctIff | vpp-plugin-api-gen/src/parser.rs:1213-1295 | after success no message calls two services if and only if the declared callers are distinct and no message that needs a service and declared none occurs twice |
| ApiServices.RepeatedCallerEscapes | vpp-plugin-api-gen/src/parser.rs:1179-1201 | an input on which a second declaration for one caller does hide an undefined reply in the first |
| EndianSwap.GenerateEndianSwap | vpp-plugin-api-gen/src/lib.rs:896-1048 | the loop emits one statement per field, or stops at the first field it cannot serve |
| EndianLaws.CountIsHostValue | vpp-plugin-api-gen/src/lib.rs:921-951 | in both directions the count is read as its host value, because its field comes before the counted array and is already swapped |
| EndianLaws.StatementLaw | vpp-plugin-api-gen/src/lib.rs:915-1041 | the statement of a field converts that field and nothing else |
| EndianLaws.SwapMembersLaw | vpp-plugin-api-gen/src/lib.rs:896-1048 | the code of a struct or alias converts every live number exactly once; what a conversion is, EndianReading.ConvertedReads |
| EndianLaws.SwapEntryLaw | vpp-plugin-api-gen/src/lib.rs:738-838 | and so do the implementations of declared types, through nested types |
| EndianReading.ConvertedReads | vpp-plugin-api-gen/src/lib.rs:970-995 | what to_be leaves, read most significant byte first, is the number the host had, on either kind of host |
| EndianReading.CountMeans | vpp-plugin-api-gen/src/lib.rs:921-951 | an unsigned count is its number, a negative one its sign extension to 64 bits |
| EndianReading.LiveMeans | vpp-plugin-api-gen/src/lib.rs:921-951 | the count of an array is read from the first member of its name, as the order of the message has it |
| EndianReading.StructReads | vpp-plugin-api-gen/src/lib.rs:896-1048 | through all nested types: the items read from a value swapped to the other order are those read from it before |
| EndianReading.SwappedMessageReads | vpp-plugin-api-gen/src/lib.rs:896-1048 | the emitted code succeeds, and every live number of the message reads the same in the new order, the rest being untouched |
| EndianRoundTrip.LiveKept | vpp-plugin-api-gen/src/lib.rs:921-951 | a swapped message has the same host count |
| EndianRoundTrip.MembersBack | vpp-plugin-api-gen/src/lib.rs:896-1048 | converting back restores every member |
| EndianRoundTrip.SwapUndone | vpp-plugin-api-gen/src/lib.rs:896-1048 | the emitted code does not fail on a value that fits its fields, and the opposite direction restores it |
| EndianMessages.EntryVlaIsFlatness | vpp-plugin-api-gen/src/parser.rs:572-602 | a declared type is of variable length, to the parser, exactly when some array of variable length lies below it, unless an alias hides one |
| EndianMessages.AcceptedLaidOut | vpp-plugin-api-gen/src/parser.rs:944-971 | what the parser accepts has nothing of variable length before its last field |
| EndianMessages.MessageSwapUndone | vpp-plugin-api-gen/src/lib.rs:896-1048 | for every message of an accepted file whose types have swaps, in both directions: the code is the conversion, the swapped message reads as the message did, and the opposite direction restores it |
| EndianMessages.StructCodeResolves | vpp-plugin-api-gen/src/lib.rs:896-1048 | the code of a struct names members of the struct only |
| EndianMessages.AliasCodeResolvesIff | vpp-plugin-api-gen/src/lib.rs:991-995 | the code of an alias names members that exist, of the tuple struct with the one member 0, if and only if the alias is not an unsized number |
| EndianMessages.SizesAgree | vpp-plugin-api-gen/src/lib.rs:413-617 | calc_size of a swapped message with a directly counted array is its true size; new_message allocated the same exactly when that fits 32 bits |
| EndianMessages.StringSizesAgree | vpp-plugin-api-gen/src/lib.rs:448-599 | the same for a message that ends with a variable string |
| GetBuffers.MaskRoundsDown | vpp-plugin/src/vlib/buffer.rs:552-556 | masking with the complement of 2^k - 1 rounds down to a multiple of 2^k |
| GetBuffers.NextMultipleIsLeast | vpp-plugin/src/vlib/buffer.rs:552-556 | the result is the least multiple not below the value |
| GetBuffers.PathsAgree | vpp-plugin/src/vlib/buffer.rs:579-718 | the 64-bit and the 32-bit shift give one pointer exactly for indices below 2^26 |
| GetBuffers.PointerIsOffset | vpp-plugin/src/vlib/buffer.rs:579-718 | the wide pointer is mem_start + 64 * index modulo 2^64, the plain sum when that fits; the scalar one cuts the offset to 32 bits first |
| GetBuffers.TranslateX64 | vpp-plugin/src/vlib/buffer.rs:623-663 | one unrolled step translates 64 indices and touches nothing else |
| GetBuffers.TranslateWide | vpp-plugin/src/vlib/buffer.rs:612-715 | the 64/32/16/8 ladder translates every index of a multiple of 8 and touches nothing else |
| GetBuffers.TranslateScalar | vpp-plugin/src/vlib/buffer.rs:607-614 | one index at a time with the 32-bit shift |
| GetBuffers.Translate | vpp-plugin/src/vlib/buffer.rs:579-718 | every index below the length is translated, nothing is left by the 64/32/16/8 ladder, and nothing at or above the least multiple of 8 is written |
| GetBuffers.WideBounds | vpp-plugin/src/vlib/buffer.rs:579-718 | that multiple stays within both arrays |
| FeatureNode.GetConfigData | vpp-plugin/src/vnet/buffer.rs:189-213 | the configuration of an index is the words before the next-node word, and the index moves on past that word |
| FeatureNode.GenericFeatureNodeX1 | vpp-plugin/src/vlib/node_generic.rs:59-98 | a packet for a defined node gets that number; one passed on gets the low 16 bits of the heap word behind its feature data, in as many words as hold them, rounded up, and its place moves past that word |
| FeatureNode.ProcessStride | vpp-plugin/src/vlib/node_generic.rs:184-221 | what one stride of four writes, lane by lane |
| FeatureNode.GenericFeatureNodeX4 | vpp-plugin/src/vlib/node_generic.rs:155-259 | the same read off the heap for four at a time: places move before mapping, a stride of one arc takes the word of its first packet and moves that one only; every next below the length is written and none above it |
| FeatureNode.FastAgrees | vpp-plugin/src/vlib/node_generic.rs:155-259 | a buffer gets the same next from both exactly when its stride is not of one arc, or it goes to a defined node, or it has the feature word of the first buffer of the stride |
| FeatureNode.FastRefinesSlow | vpp-plugin/src/vlib/node_generic.rs:155-259 | so both give the same nexts whenever buffers of a uniform stride share their configuration index |
| FeatureNode.PlacesAfter | vpp-plugin/src/vlib/node_generic.rs:190-206 | where each leaves the configuration index, and when they agree: a uniform stride advances that of its first buffer alone |
| BarrierLock.BarrierRwLock.NewReadGuard | vpp-plugin/src/vlib/main/sync.rs:155-177 | taken unless on the main thread with a writer; counts main-thread guards only |
| BarrierLock.BarrierRwLock.NewWriteGuard | vpp-plugin/src/vlib/main/sync.rs:237-252 | taken unless a reader or writer is counted |
| BarrierLock.BarrierRwLock.DropReadGuard | vpp-plugin/src/vlib/main/sync.rs:182-190 | undoes the count of its guard |
| BarrierLock.BarrierRwLock.DropWriteGuard | vpp-plugin/src/vlib/main/sync.rs:257-262 | clears the writer |
| BarrierLock.StepLaw | vpp-plugin/src/vlib/main/sync.rs:155-263 | every step keeps the invariant, and acquisition panics exactly on a conflict on the main thread |
| BarrierLock.NoUnderflow | vpp-plugin/src/vlib/main/sync.rs:182-190 | dropping a main-thread read guard never underflows the count |
| BarrierLock.Safety | vpp-plugin/src/vlib/main/sync.rs:155-263 | over all interleavings: a write guard coexists with no other guard on any thread, readers is the number of live main-thread read guards, and writer holds exactly while a write guard lives |
| BarrierLock.ReadersSeeStableData | vpp-plugin/src/vlib/main/sync.rs:155-290 | data does not change while a read guard lives |
| BarrierLock.ParkingWithGuardIsUnsafe | vpp-plugin/src/vlib/main/sync.rs:155-263 | parking with a live read guard breaks this |
| Counters.SimpleCounter.Increment | vpp-plugin/src/vlib/counter.rs:119-128 | adds to the cell of the calling thread, modulo 2^64, and to no other |
| Counters.SimpleCounter.Get | vpp-plugin/src/vlib/counter.rs:146-160 | the sum over all threads, modulo 2^64 |
| Counters.TotalCountsFinished | vpp-plugin/src/vlib/counter.rs:119-128 | the true total after a run is the one before it and the amounts of the increments that finished |
| Counters.GetIsBracketed | vpp-plugin/src/vlib/counter.rs:119-160 | a read interleaved with increments lies between the true total when it began and that plus the amounts of the increments finished meanwhile, and is the total when none finishes |
| Counters.Projects | vpp-plugin/src/vlib/counter.rs:276-333 | a run of a combined counter is a run of each component |
| Counters.CombinedGetIsBracketed | vpp-plugin/src/vlib/counter.rs:276-333 | each component of a combined read is bracketed, and exact when no increment of that component finishes meanwhile |

## Left out

- The runtime of process nodes: it rests on events, wakers and wall-clock time that are not part of this model.
- Calls into VPP, prefetching, tracing, enqueueing, allocation of buffers and messages, bindings, procedural macros and command-line plumbing: no logic of this repository.
- The text grammar, JSON output and reading of files: the parser starts from statements, and an import holds the statements of its file, so imports are finite and acyclic.
- The arithmetic of CRC-32: a hasher is the text it has absorbed, and combining two appends. Equal text gives equal checksums; nothing is said about collisions.
- Options, comments and flags of messages and types that only reach the generated text, the kept copies of the file's own declarations, the import file of a type, and `stream_message`, which is never checked.
- The choice of slab keys: any vacant key may be handed out, with fewer than 2^32 - 1 entries in use.
- The slab, the levels and the per-thread vectors are fields of type `map` and `seq` that methods reassign, since they are owned by their object; aliasing of their elements does not arise.
- TimerWheels.TimerWheel.ExpireTimers: the clock stays within 64 bits, which is a precondition; the source would overflow.
- TimerWheels.TimerWheel.StartTimer: handles are reused, so a stale handle addresses the present timer of its key.
- WheelNext.NextIsLeastOfLevelZero: no timer on level 0 may be overdue, since an interval of 0 may wait a turn; `WheelReports.OnLevelZeroIff` derives this from intervals of 1 or more.
- WheelReports.ReportLaw: intervals are 1 or more and timers are started by interval before the clock has reached its end, where every interval saturates to 0.
- BarrierLock.Safety: workers park without a live read guard and write guards do not outlive the barrier; both are guards of the steps, and `BarrierLock.ParkingWithGuardIsUnsafe` shows that the first is needed.
- Counters.GetIsBracketed: one reader is observed at a time, nothing is zeroed meanwhile, and totals fit 64 bits.
- FeatureNode.FastRefinesSlow: the mapping of a packet is a function of the packet; state of the node that changes from packet to packet is not threaded through it.
- GetBuffers.Translate: vector registers are sequences of eight numbers, and the source buffer of indices holds a multiple of eight, as frames do.
- ApiTrees.MessageCrcIff: types and names hold no quote, which is what the grammar's identifiers guarantee (vpp-plugin-api-gen/src/parser.rs:364-366).
- ApiServices.ServicesComplete: which error is reported depends on hash order and is described only as one that some declaration causes.
- EndianMessages.MessageSwapUndone: fields have distinct names, no array holds elements of variable length (the parser accepts one as a last field, but the emitted code places its elements one struct size apart, so that their tails overlap), no alias refers to a type of variable length or to a type declared after it, and swaps written by hand undo themselves. A field of type `i8` is outside it, since no swap exists for that type.
- EndianMessages.SizesAgree: for directly counted arrays; the count of a nested array is multiplied by the size of the outer field's type in the source, and that sum is not compared with anything here.
- An enum of width `i8` is accepted by the grammar but refused by the generator; the interpreter gives it no swap.
- The setter of the receive interface writes the transmit slot (vpp-plugin/src/vnet/buffer.rs:128-133), unlike its documentation; the accessors of packet metadata are otherwise plain reads and writes and not modelled.
