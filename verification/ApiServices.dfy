/** Checking the declared services and inferring the undeclared ones. */
module ApiServices {
  import opened Optional
  import opened ApiTypes
  import opened ApiStatements

  const REPLY: string := "_reply"
  const DUMP: string := "_dump"
  const DETAILS: string := "_details"
  const GET: string := "_get"

  function Callers(services: seq<Service>): set<string> {
    set s | s in services :: s.caller
  }

  /** Of several services with one caller the last one counts. */
  function ByCaller(services: seq<Service>): (m: map<string, Service>)
    ensures m.Keys == Callers(services)
    ensures forall c :: c in m ==> m[c] in services && m[c].caller == c
  {
    if services == [] then map[]
    else
      var last := services[|services| - 1];
      assert services == services[..|services| - 1] + [last];
      ByCaller(services[..|services| - 1])[last.caller := last]
  }

  function Replies(services: seq<Service>): set<string> {
    set s | s in services :: s.reply
  }

  predicate Defined(names: set<string>, replies: set<string>, s: Service) {
    && s.caller in names
    && (s.reply == "null" || s.reply in names)
    && s.caller !in replies
    && forall e :: e in s.events ==> e in names
  }

  function EventError(names: set<string>, events: seq<string>, caller: string): (r: Option<Error>)
    ensures r.None? <==> forall e :: e in events ==> e in names
  {
    if events == [] then None
    else if events[0] !in names then Some(ServiceRefersUndefinedEvent(events[0], caller))
    else EventError(names, events[1..], caller)
  }

  /** The first complaint about a declared service. */
  function ServiceError(names: set<string>, replies: set<string>, s: Service): (r: Option<Error>)
    ensures r.None? <==> Defined(names, replies, s)
  {
    if s.caller !in names then Some(ServiceRefersUndefinedMessage(s.caller))
    else if s.reply != "null" && s.reply !in names then Some(ServiceRefersUndefinedMessageReply(s.reply))
    else if s.caller in replies then Some(ServiceCallerUsedAsReply(s.caller))
    else EventError(names, s.events, s.caller)
  }

  ghost function EventsOf(services: map<string, Service>, callers: set<string>): set<string>
    requires callers <= services.Keys
  {
    set c, e | c in callers && e in services[c].events :: e
  }

  ghost predicate AllDefined(names: set<string>, services: seq<Service>) {
    forall c :: c in ByCaller(services) ==> Defined(names, Replies(services), ByCaller(services)[c])
  }

  /** The first loop of `ApiParser::process`, in whatever order the hash map yields the services:
      success, and the events seen, depend on the declarations alone. */
  method CheckServices(names: set<string>, services: seq<Service>) returns (r: Result<set<string>>)
    ensures r.Ok? <==> AllDefined(names, services)
    ensures r.Ok? ==> r.value == EventsOf(ByCaller(services), Callers(services))
    ensures r.Err? ==>
      exists c ::
        && c in ByCaller(services)
        && ServiceError(names, Replies(services), ByCaller(services)[c]) == Some(r.error)
  {
    var byCaller := ByCaller(services);
    var replies := Replies(services);
    var seen := {};
    var rest := byCaller.Keys;
    while rest != {}
      invariant rest <= byCaller.Keys
      invariant forall c :: c in byCaller && c !in rest ==> Defined(names, replies, byCaller[c])
      invariant seen == EventsOf(byCaller, byCaller.Keys - rest)
    {
      var c :| c in rest;
      var s := byCaller[c];
      var error := ServiceError(names, replies, s);
      if error.Some? {
        assert !Defined(names, Replies(services), ByCaller(services)[c]);
        return Err(error.value);
      }
      seen := seen + set e | e in s.events;
      rest := rest - {c};
      assert byCaller.Keys - rest == (byCaller.Keys - (rest + {c})) + {c};
    }
    assert byCaller.Keys - rest == Callers(services);
    r := Ok(seen);
  }

  datatype Verdict = Nothing | Infer(service: Service) | Fail(error: Error)

  /** What the second loop of `ApiParser::process` decides for a message. */
  function Decide(m: string, names: set<string>, callers: set<string>, seen: set<string>): Verdict {
    if m in seen then Nothing
    else if StripSuffix(m, REPLY).Some? then
      var base := StripSuffix(m, REPLY).value;
      if base in callers || base in names then Nothing else Fail(MissingCallerMessageForReply(base, m))
    else if StripSuffix(m, DUMP).Some? then
      var details := StripSuffix(m, DUMP).value + DETAILS;
      if m in callers then Nothing
      else if details in names then Infer(Service(m, details, [], true))
      else Fail(MissingDetailsMessageForDump(details, m))
    else if StripSuffix(m, DETAILS).Some? then
      var base := StripSuffix(m, DETAILS).value;
      if base + GET in names then
        if base + GET in callers then Nothing else Fail(ExplicitGetServiceRequiredDetails(base + GET, m))
      else if base + DUMP in names then Nothing
      else Fail(MissingDumpGetForDetailsMessage(base + GET, base + DUMP, m))
    else if m in callers then Nothing
    else if m + REPLY in names then Infer(Service(m, m + REPLY, [], false))
    else Fail(MissingReplyMessageForMessage(m, m + REPLY))
  }

  function Inferred(messages: seq<string>, names: set<string>, callers: set<string>, seen: set<string>): seq<Service> {
    if messages == [] then []
    else
      var v := Decide(messages[|messages| - 1], names, callers, seen);
      Inferred(messages[..|messages| - 1], names, callers, seen) + if v.Infer? then [v.service] else []
  }

  /** The second loop of `ApiParser::process`. */
  method InferServices(messages: seq<string>, names: set<string>, services: seq<Service>, seen: set<string>)
    returns (r: Result<seq<Service>>)
    ensures r.Ok? <==> forall m :: m in messages ==> !Decide(m, names, Callers(services), seen).Fail?
    ensures r.Ok? ==> r.value == services + Inferred(messages, names, Callers(services), seen)
    ensures r.Err? ==>
      exists i ::
        && 0 <= i < |messages|
        && Decide(messages[i], names, Callers(services), seen) == Fail(r.error)
        && forall j :: 0 <= j < i ==> !Decide(messages[j], names, Callers(services), seen).Fail?
  {
    hide Decide;
    var callers := Callers(services);
    var all := services;
    var i := 0;
    while i < |messages|
      invariant 0 <= i <= |messages|
      invariant forall j :: 0 <= j < i ==> !Decide(messages[j], names, callers, seen).Fail?
      invariant all == services + Inferred(messages[..i], names, callers, seen)
    {
      assert messages[..i + 1][..i] == messages[..i];
      var v := Decide(messages[i], names, callers, seen);
      if v.Fail? {
        return Err(v.error);
      }
      if v.Infer? {
        all := all + [v.service];
      }
      i := i + 1;
    }
    assert messages[..i] == messages;
    r := Ok(all);
  }

  /** Services are inferred message by message, in the order of the messages. */
  lemma {:induction false} InferredJoins(a: seq<string>, b: seq<string>, names: set<string>, callers: set<string>,
                                         seen: set<string>)
    ensures Inferred(a + b, names, callers, seen) == Inferred(a, names, callers, seen) + Inferred(b, names, callers, seen)
    decreases |b|
  {
    hide Decide;
    if b == [] {
      assert a + b == a;
    } else {
      assert (a + b)[..|a + b| - 1] == a + b[..|b| - 1];
      InferredJoins(a, b[..|b| - 1], names, callers, seen);
    }
  }

  /** A complaint about a declared service says what is wrong with it. */
  lemma ServiceErrorTells(names: set<string>, replies: set<string>, s: Service)
    requires ServiceError(names, replies, s).Some?
    ensures match ServiceError(names, replies, s).value
      case ServiceRefersUndefinedMessage(m) => m == s.caller && m !in names
      case ServiceRefersUndefinedMessageReply(m) => m == s.reply && m != "null" && m !in names
      case ServiceCallerUsedAsReply(m) => m == s.caller && m in replies
      case ServiceRefersUndefinedEvent(e, m) => e in s.events && e !in names && m == s.caller
      case _ => false
  {
    if EventError(names, s.events, s.caller).Some? {
      EventErrorTells(names, s.events, s.caller);
    }
  }

  lemma {:induction false} EventErrorTells(names: set<string>, events: seq<string>, caller: string)
    requires EventError(names, events, caller).Some?
    ensures exists e :: e in events && e !in names
                        && EventError(names, events, caller) == Some(ServiceRefersUndefinedEvent(e, caller))
  {
    if events[0] in names {
      EventErrorTells(names, events[1..], caller);
    }
  }

  lemma ReplyTells(m: string, names: set<string>, callers: set<string>, seen: set<string>)
    requires Decide(m, names, callers, seen).Fail? && StripSuffix(m, REPLY).Some?
    ensures var base := StripSuffix(m, REPLY).value;
      && m == base + "_reply" && base !in names
      && Decide(m, names, callers, seen).error == MissingCallerMessageForReply(base, m)
  {
    hide StripSuffix;
  }

  lemma DumpTells(m: string, names: set<string>, callers: set<string>, seen: set<string>)
    requires Decide(m, names, callers, seen).Fail? && StripSuffix(m, REPLY).None? && StripSuffix(m, DUMP).Some?
    ensures var details := StripSuffix(m, DUMP).value + "_details";
      details !in names && Decide(m, names, callers, seen).error == MissingDetailsMessageForDump(details, m)
  {
    hide StripSuffix;
  }

  lemma DetailsTells(m: string, names: set<string>, callers: set<string>, seen: set<string>)
    requires Decide(m, names, callers, seen).Fail?
    requires StripSuffix(m, REPLY).None? && StripSuffix(m, DUMP).None? && StripSuffix(m, DETAILS).Some?
    ensures var get, dump := StripSuffix(m, DETAILS).value + "_get", StripSuffix(m, DETAILS).value + "_dump";
      if get in names then get !in callers && Decide(m, names, callers, seen).error == ExplicitGetServiceRequiredDetails(get, m)
      else dump !in names && Decide(m, names, callers, seen).error == MissingDumpGetForDetailsMessage(get, dump, m)
  {
    hide StripSuffix;
  }

  lemma LonelyTells(m: string, names: set<string>, callers: set<string>, seen: set<string>)
    requires Decide(m, names, callers, seen).Fail?
    requires StripSuffix(m, REPLY).None? && StripSuffix(m, DUMP).None? && StripSuffix(m, DETAILS).None?
    ensures m !in callers && m + "_reply" !in names
    ensures Decide(m, names, callers, seen).error == MissingReplyMessageForMessage(m, m + "_reply")
  {
    hide StripSuffix;
  }

  // ---- what a successful run gives ------------------------------------------------------------------

  ghost predicate DistinctNames(messages: seq<string>) {
    forall i, j :: 0 <= i < j < |messages| ==> messages[i] != messages[j]
  }

  ghost predicate DistinctCallers(services: seq<Service>) {
    forall i, j :: 0 <= i < j < |services| ==> services[i].caller != services[j].caller
  }

  function Names(messages: seq<string>): set<string> {
    set m | m in messages
  }

  ghost function Seen(services: seq<Service>): set<string> {
    EventsOf(ByCaller(services), Callers(services))
  }

  /** When both loops succeed. */
  ghost predicate Accepts(messages: seq<string>, services: seq<Service>) {
    && AllDefined(Names(messages), services)
    && (forall m :: m in messages ==> !Decide(m, Names(messages), Callers(services), Seen(services)).Fail?)
  }

  ghost function Outcome(messages: seq<string>, services: seq<Service>): seq<Service> {
    services + Inferred(messages, Names(messages), Callers(services), Seen(services))
  }

  /** A message that must call some service. */
  predicate NeedsService(m: string, seen: set<string>) {
    m !in seen && StripSuffix(m, "_reply").None? && StripSuffix(m, "_details").None?
  }

  /** A later declaration has the same caller. */
  ghost predicate Overridden(services: seq<Service>, i: nat)
    requires i < |services|
  {
    exists j :: i < j < |services| && services[j].caller == services[i].caller
  }

  /** The last declaration of a caller counts. */
  lemma {:induction false} LastCounts(services: seq<Service>, i: nat)
    requires i < |services| && !Overridden(services, i)
    ensures ByCaller(services)[services[i].caller] == services[i]
  {
    if i < |services| - 1 {
      var init := services[..|services| - 1];
      assert services[|services| - 1].caller != services[i].caller;
      assert forall j :: i < j < |init| ==> init[j] == services[j];
      LastCounts(init, i);
    }
  }

  lemma OtherSuffix(base: string, p: string, q: string)
    requires p != [] && q != [] && p[|p| - 1] != q[|q| - 1]
    ensures StripSuffix(base + p, q).None?
  {
    var s := base + p;
    assert s[|s| - 1] == p[|p| - 1];
    assert |q| <= |s| ==> s[|s| - |q|..][|q| - 1] == s[|s| - 1];
  }

  /** The service inferred for a message. */
  function Implicit(m: string): Service {
    match StripSuffix(m, "_dump")
    case Some(base) => Service(m, base + "_details", [], true)
    case None => Service(m, m + "_reply", [], false)
  }

  lemma DumpIsNoDetails(m: string)
    ensures StripSuffix(m, DUMP).Some? ==> StripSuffix(m, DETAILS).None?
  {
    var base := StripSuffix(m, DUMP);
    if base.Some? {
      OtherSuffix(base.value, DUMP, DETAILS);
    }
  }

  /** A service is inferred for exactly the messages that need one and declared none. */
  lemma DecideInfers(m: string, names: set<string>, callers: set<string>, seen: set<string>)
    ensures var v := Decide(m, names, callers, seen);
      && (v.Infer? ==> NeedsService(m, seen) && m !in callers && v.service == Implicit(m) && v.service.reply in names)
      && (NeedsService(m, seen) && m !in callers && !v.Fail? ==> v.Infer?)
  {
    DumpIsNoDetails(m);
    hide StripSuffix;
  }

  /** The inferred services, as a set: one for each message that gets one. */
  lemma {:induction false} InferredMembers(messages: seq<string>, names: set<string>, callers: set<string>,
                                           seen: set<string>, s: Service)
    ensures s in Inferred(messages, names, callers, seen) <==>
      s.caller in messages && Decide(s.caller, names, callers, seen) == Infer(s)
  {
    hide Decide;
    if messages != [] {
      var init, last := messages[..|messages| - 1], messages[|messages| - 1];
      assert messages == init + [last];
      InferredMembers(init, names, callers, seen, s);
      DecideInfers(last, names, callers, seen);
    }
  }

  lemma LastDistinct(earlier: seq<Service>, s: Service)
    ensures DistinctCallers(earlier + [s]) <==>
      DistinctCallers(earlier) && forall t :: t in earlier ==> t.caller != s.caller
  {
    var all := earlier + [s];
    if DistinctCallers(all) {
      forall i, j | 0 <= i < j < |earlier| ensures earlier[i].caller != earlier[j].caller {
        assert all[i] == earlier[i] && all[j] == earlier[j];
      }
      forall t | t in earlier ensures t.caller != s.caller {
        var i :| 0 <= i < |earlier| && earlier[i] == t;
        assert all[i] == t && all[|earlier|] == s;
      }
    }
  }

  /** Two inferred services have one caller exactly when a message that gets one occurs twice. */
  lemma {:induction false} InferredDistinct(messages: seq<string>, names: set<string>, callers: set<string>,
                                            seen: set<string>)
    ensures DistinctCallers(Inferred(messages, names, callers, seen)) <==>
      forall i, j :: 0 <= i < j < |messages| && messages[i] == messages[j] ==>
        !Decide(messages[i], names, callers, seen).Infer?
  {
    hide Decide;
    if messages != [] {
      var n := |messages| - 1;
      var init, last := messages[..n], messages[n];
      var earlier, all := Inferred(init, names, callers, seen), Inferred(messages, names, callers, seen);
      InferredDistinct(init, names, callers, seen);
      DecideInfers(last, names, callers, seen);
      if Decide(last, names, callers, seen).Infer? {
        var s := Decide(last, names, callers, seen).service;
        InferredMembers(init, names, callers, seen, s);
        LastDistinct(earlier, s);
        assert all == earlier + [s] && messages[n] == last;
        if last in init {
          assert s in earlier;
          var i :| 0 <= i < n && init[i] == last;
          assert messages[i] == messages[n];
        }
        forall t | t in earlier && t.caller == last ensures last in init {
          InferredMembers(init, names, callers, seen, t);
        }
      } else {
        assert all == earlier;
      }
      assert forall i :: 0 <= i < n ==> init[i] == messages[i];
    }
  }

  // ---- when it succeeds -----------------------------------------------------------------------------------

  /** No message stands alone: a reply has its request, a dump its details, details a get message with
      a declared service or else a dump, and any other message its reply; events and messages with a
      declared service need nothing. */
  ghost predicate Partnered(names: set<string>, callers: set<string>, seen: set<string>) {
    && (forall base :: base + "_reply" in names && base + "_reply" !in seen ==> base in names)
    && (forall base :: base + "_dump" in names && base + "_dump" !in seen && base + "_dump" !in callers ==> base + "_details" in names)
    && (forall base :: base + "_details" in names && base + "_details" !in seen ==>
          if base + "_get" in names then base + "_get" in callers else base + "_dump" in names)
    && (forall m :: m in names && NeedsService(m, seen) && m !in callers && StripSuffix(m, "_dump").None? ==> m + "_reply" in names)
  }

  lemma PartneredReply(names: set<string>, callers: set<string>, seen: set<string>, base: string)
    requires callers <= names && base + REPLY !in seen
    ensures Decide(base + REPLY, names, callers, seen).Fail? <==> base !in names
  {
    StripSuffixOf(base, REPLY);
  }

  lemma PartneredDump(names: set<string>, callers: set<string>, seen: set<string>, base: string)
    requires base + DUMP !in seen
    ensures Decide(base + DUMP, names, callers, seen).Fail? <==> base + DUMP !in callers && base + DETAILS !in names
  {
    OtherSuffix(base, DUMP, REPLY);
    StripSuffixOf(base, DUMP);
  }

  lemma PartneredDetails(names: set<string>, callers: set<string>, seen: set<string>, base: string)
    requires base + DETAILS !in seen
    ensures Decide(base + DETAILS, names, callers, seen).Fail? <==>
      if base + GET in names then base + GET !in callers else base + DUMP !in names
  {
    OtherSuffix(base, DETAILS, REPLY);
    OtherSuffix(base, DETAILS, DUMP);
    StripSuffixOf(base, DETAILS);
  }

  lemma PartneredRest(names: set<string>, callers: set<string>, seen: set<string>, m: string)
    requires NeedsService(m, seen) && StripSuffix(m, DUMP).None?
    ensures Decide(m, names, callers, seen).Fail? <==> m !in callers && m + REPLY !in names
  {
  }

  ghost predicate NoneFails(names: set<string>, callers: set<string>, seen: set<string>) {
    forall m :: m in names ==> !Decide(m, names, callers, seen).Fail?
  }

  lemma NoneFailsPartnered(names: set<string>, callers: set<string>, seen: set<string>)
    requires callers <= names && NoneFails(names, callers, seen)
    ensures Partnered(names, callers, seen)
  {
    hide Decide, NeedsService;
    forall base | base + REPLY in names && base + REPLY !in seen ensures base in names {
      PartneredReply(names, callers, seen, base);
    }
    forall base | base + DUMP in names && base + DUMP !in seen && base + DUMP !in callers
      ensures base + DETAILS in names
    {
      PartneredDump(names, callers, seen, base);
    }
    forall base | base + DETAILS in names && base + DETAILS !in seen
      ensures if base + GET in names then base + GET in callers else base + DUMP in names
    {
      PartneredDetails(names, callers, seen, base);
    }
    forall m | m in names && NeedsService(m, seen) && m !in callers && StripSuffix(m, DUMP).None?
      ensures m + REPLY in names
    {
      PartneredRest(names, callers, seen, m);
    }
  }

  lemma SeenNeverFails(names: set<string>, callers: set<string>, seen: set<string>)
    ensures forall m :: m in seen ==> Decide(m, names, callers, seen) == Nothing
  {
  }

  lemma PartneredNeverFails(names: set<string>, callers: set<string>, seen: set<string>, m: string)
    requires callers <= names && Partnered(names, callers, seen) && m in names
    ensures !Decide(m, names, callers, seen).Fail?
  {
    SeenNeverFails(names, callers, seen);
    hide Decide;
    var r, d, t := StripSuffix(m, REPLY), StripSuffix(m, DUMP), StripSuffix(m, DETAILS);
    if m !in seen {
      if r.Some? {
        assert m == r.value + REPLY;
        PartneredReply(names, callers, seen, r.value);
      } else if d.Some? {
        assert m == d.value + DUMP;
        PartneredDump(names, callers, seen, d.value);
      } else if t.Some? {
        assert m == t.value + DETAILS;
        PartneredDetails(names, callers, seen, t.value);
      } else {
        PartneredRest(names, callers, seen, m);
      }
    }
  }

  /** Every declaration that counts is between defined messages with defined events, and its caller is the
      reply of no declaration at all. */
  ghost predicate Declared(messages: seq<string>, services: seq<Service>) {
    forall i :: 0 <= i < |services| && !Overridden(services, i) ==>
      && services[i].caller in messages
      && (services[i].reply == "null" || services[i].reply in messages)
      && (forall j :: 0 <= j < |services| ==> services[j].reply != services[i].caller)
      && forall e :: e in services[i].events ==> e in messages
  }

  lemma DefinedIff(messages: seq<string>, services: seq<Service>, i: nat)
    requires i < |services|
    ensures Defined(Names(messages), Replies(services), services[i]) <==>
      && services[i].caller in messages
      && (services[i].reply == "null" || services[i].reply in messages)
      && (forall j :: 0 <= j < |services| ==> services[j].reply != services[i].caller)
      && forall e :: e in services[i].events ==> e in messages
  {
    if services[i].caller in Replies(services) {
      var s :| s in services && s.reply == services[i].caller;
      var j :| 0 <= j < |services| && services[j] == s;
      assert services[j].reply == services[i].caller;
    } else {
      forall j | 0 <= j < |services| ensures services[j].reply != services[i].caller {
        assert services[j] in services;
      }
    }
  }

  /** The declaration of a caller that counts is the last one. */
  lemma {:induction false} CountingIndex(services: seq<Service>, c: string) returns (i: nat)
    requires c in ByCaller(services)
    ensures i < |services| && !Overridden(services, i) && services[i] == ByCaller(services)[c]
  {
    var n := |services| - 1;
    if services[n].caller == c {
      i := n;
    } else {
      i := CountingIndex(services[..n], c);
      forall j | i < j < |services| ensures services[j].caller != services[i].caller {
        assert j < n ==> services[..n][j] == services[j];
      }
    }
  }

  lemma AllDefinedIff(messages: seq<string>, services: seq<Service>)
    ensures AllDefined(Names(messages), services) <==> Declared(messages, services)
  {
    hide Defined, Overridden;
    forall i | 0 <= i < |services| && !Overridden(services, i) && AllDefined(Names(messages), services)
      ensures Defined(Names(messages), Replies(services), services[i])
    {
      LastCounts(services, i);
      assert services[i] in services;
    }
    forall i | 0 <= i < |services| {
      DefinedIff(messages, services, i);
    }
    if Declared(messages, services) {
      forall c | c in ByCaller(services) ensures Defined(Names(messages), Replies(services), ByCaller(services)[c]) {
        var i := CountingIndex(services, c);
      }
    }
  }

  /** The events seen are those of the declarations that count. */
  lemma SeenIff(services: seq<Service>, e: string)
    ensures e in Seen(services) <==> exists i :: 0 <= i < |services| && !Overridden(services, i) && e in services[i].events
  {
    hide Overridden;
    if e in Seen(services) {
      var c :| c in ByCaller(services) && e in ByCaller(services)[c].events;
      var i := CountingIndex(services, c);
    }
    if i :| 0 <= i < |services| && !Overridden(services, i) && e in services[i].events {
      LastCounts(services, i);
      assert services[i] in services;
    }
  }

  lemma AllDefinedCallers(names: set<string>, services: seq<Service>)
    requires AllDefined(names, services)
    ensures Callers(services) <= names
  {
    forall c | c in Callers(services) ensures c in names {
      assert c in ByCaller(services);
    }
  }

  /** Processing succeeds exactly when every counting declaration is between defined messages and no
      message stands alone. */
  lemma AcceptsIff(messages: seq<string>, services: seq<Service>)
    ensures Accepts(messages, services) <==>
      Declared(messages, services) && Partnered(Names(messages), Callers(services), Seen(services))
  {
    hide Decide, AllDefined, Declared, Partnered, Callers, Seen;
    AllDefinedIff(messages, services);
    var names, callers, seen := Names(messages), Callers(services), Seen(services);
    if AllDefined(names, services) {
      AllDefinedCallers(names, services);
      if NoneFails(names, callers, seen) {
        NoneFailsPartnered(names, callers, seen);
      } else if Partnered(names, callers, seen) {
        forall m | m in names ensures !Decide(m, names, callers, seen).Fail? {
          PartneredNeverFails(names, callers, seen, m);
        }
      }
    }
  }

  // ---- what it leaves -------------------------------------------------------------------------------------

  /** The services after a successful run: those declared, and one for each message that needs one and
      declared none. */
  lemma OutcomeMembers(messages: seq<string>, services: seq<Service>, s: Service)
    requires Accepts(messages, services)
    ensures s in Outcome(messages, services) <==>
      || s in services
      || (s.caller in messages && NeedsService(s.caller, Seen(services)) && s.caller !in Callers(services)
          && s == match StripSuffix(s.caller, "_dump")
                  case Some(base) => Service(s.caller, base + "_details", [], true)
                  case None => Service(s.caller, s.caller + "_reply", [], false))
  {
    hide Decide, Inferred, NeedsService, AllDefined, Seen, Callers, StripSuffix;
    InferredMembers(messages, Names(messages), Callers(services), Seen(services), s);
    DecideInfers(s.caller, Names(messages), Callers(services), Seen(services));
  }

  predicate ReplyDefined(messages: seq<string>, s: Service) {
    s.reply == "null" || s.reply in messages
  }

  predicate EventsDefined(messages: seq<string>, s: Service) {
    forall e :: e in s.events ==> e in messages
  }

  lemma CountingDefined(messages: seq<string>, services: seq<Service>, i: nat)
    requires Accepts(messages, services) && i < |services|
    ensures services[i].caller in messages
    ensures !Overridden(services, i) ==> ReplyDefined(messages, services[i]) && EventsDefined(messages, services[i])
  {
    hide Decide;
    var c := services[i].caller;
    assert c in ByCaller(services);
    if !Overridden(services, i) {
      LastCounts(services, i);
      assert Defined(Names(messages), Replies(services), services[i]);
    }
  }

  lemma InferredDefined(messages: seq<string>, services: seq<Service>, s: Service)
    requires Accepts(messages, services) && s in Outcome(messages, services) && s !in services
    ensures s.caller in messages && ReplyDefined(messages, s) && s.events == []
  {
    hide Decide, Inferred, AllDefined, Seen, Callers;
    InferredMembers(messages, Names(messages), Callers(services), Seen(services), s);
    DecideInfers(s.caller, Names(messages), Callers(services), Seen(services));
  }

  /** After a successful run every caller is defined; all replies are, exactly when those of overridden
      declarations are; and likewise all events. */
  lemma OutcomeDefinedIff(messages: seq<string>, services: seq<Service>)
    requires Accepts(messages, services)
    ensures forall s :: s in Outcome(messages, services) ==> s.caller in messages
    ensures (forall s :: s in Outcome(messages, services) ==> ReplyDefined(messages, s)) <==>
      forall i :: 0 <= i < |services| && Overridden(services, i) ==> ReplyDefined(messages, services[i])
    ensures (forall s :: s in Outcome(messages, services) ==> EventsDefined(messages, s)) <==>
      forall i :: 0 <= i < |services| && Overridden(services, i) ==> EventsDefined(messages, services[i])
  {
    hide Accepts, Overridden, ReplyDefined, Inferred;
    var all := Outcome(messages, services);
    forall i | 0 <= i < |services|
      ensures services[i] in all && services[i].caller in messages
      ensures !Overridden(services, i) ==> ReplyDefined(messages, services[i]) && EventsDefined(messages, services[i])
    {
      CountingDefined(messages, services, i);
    }
    forall s | s in all && s !in services
      ensures s.caller in messages && ReplyDefined(messages, s) && EventsDefined(messages, s)
    {
      InferredDefined(messages, services, s);
    }
    assert forall s :: s in services ==> exists i :: 0 <= i < |services| && services[i] == s;
  }

  lemma JoinedDistinct(a: seq<Service>, b: seq<Service>)
    requires forall s :: s in b ==> s.caller !in Callers(a)
    ensures DistinctCallers(a + b) <==> DistinctCallers(a) && DistinctCallers(b)
  {
    var c := a + b;
    assert forall i :: 0 <= i < |a| ==> c[i] == a[i] && a[i].caller in Callers(a);
    assert forall i :: 0 <= i < |b| ==> c[|a| + i] == b[i] && b[i] in b;
    if DistinctCallers(c) {
      forall i, j | 0 <= i < j < |b| ensures b[i].caller != b[j].caller {
        assert c[|a| + i].caller != c[|a| + j].caller;
      }
      forall i, j | 0 <= i < j < |a| ensures a[i].caller != a[j].caller {
        assert c[i].caller != c[j].caller;
      }
    }
  }

  /** After a successful run no message calls two services exactly when the declared callers are distinct
      and no message that needs a service and declared none occurs twice. */
  lemma OutcomeDistinctIff(messages: seq<string>, services: seq<Service>)
    requires Accepts(messages, services)
    ensures DistinctCallers(Outcome(messages, services)) <==>
      && DistinctCallers(services)
      && forall i, j :: 0 <= i < j < |messages| && messages[i] == messages[j] ==>
           !NeedsService(messages[i], Seen(services)) || messages[i] in Callers(services)
  {
    hide Decide, Inferred, NeedsService, Seen, AllDefined;
    var names, callers, seen := Names(messages), Callers(services), Seen(services);
    var inferred := Inferred(messages, names, callers, seen);
    InferredDistinct(messages, names, callers, seen);
    forall m | m in messages
      ensures Decide(m, names, callers, seen).Infer? <==> NeedsService(m, seen) && m !in callers
    {
      DecideInfers(m, names, callers, seen);
    }
    forall s | s in inferred ensures s.caller !in callers {
      InferredMembers(messages, names, callers, seen, s);
      DecideInfers(s.caller, names, callers, seen);
    }
    JoinedDistinct(services, inferred);
  }

  /** After a successful run every message that is no event, reply or details message calls a service. */
  lemma NeededIsServed(messages: seq<string>, services: seq<Service>, m: string)
    requires Accepts(messages, services) && m in messages && NeedsService(m, Seen(services))
    ensures exists s :: s in Outcome(messages, services) && s.caller == m
  {
    hide Decide, Inferred, NeedsService, Seen, AllDefined;
    if m in Callers(services) {
      var s :| s in services && s.caller == m;
      assert s in Outcome(messages, services);
    } else {
      OutcomeMembers(messages, services, Implicit(m));
    }
  }

  /** With distinct names and callers: every service is between defined messages with defined events, no
      message calls two, and every message that is no event, reply or details message calls one. */
  lemma ServicesComplete(messages: seq<string>, services: seq<Service>)
    requires Accepts(messages, services)
    ensures DistinctCallers(services) ==>
      forall s :: s in Outcome(messages, services) ==>
        s.caller in messages && ReplyDefined(messages, s) && EventsDefined(messages, s)
    ensures DistinctNames(messages) && DistinctCallers(services) ==> DistinctCallers(Outcome(messages, services))
    ensures forall m :: m in messages && NeedsService(m, Seen(services)) ==>
      exists s :: s in Outcome(messages, services) && s.caller == m
  {
    hide Accepts, Outcome, NeedsService, Seen, Callers;
    OutcomeDefinedIff(messages, services);
    OutcomeDistinctIff(messages, services);
    forall m | m in messages && NeedsService(m, Seen(services))
      ensures exists s :: s in Outcome(messages, services) && s.caller == m
    {
      NeededIsServed(messages, services, m);
    }
  }

  /** A second declaration does hide an undefined reply in the first. */
  lemma RepeatedCallerEscapes(messages: seq<string>, services: seq<Service>)
    requires messages == ["a", "a_reply"]
    requires services == [Service("a", "b", [], false), Service("a", "a_reply", [], false)]
    ensures Accepts(messages, services)
    ensures services[0] in Outcome(messages, services) && services[0].reply !in messages
  {
    assert services[..1] == [services[0]] && services[..1][..0] == [];
    assert ByCaller(services[..1]) == map["a" := services[0]];
    assert ByCaller(services) == map["a" := services[1]];
    assert "a_reply"[..1] == "a" && "a_reply"[1..] == REPLY;
    assert services[0].caller == "a" && services[1].caller == "a" && services[0] in services;
    assert "a" in Callers(services);
    assert Replies(services) == {"b", "a_reply"};
    assert |"a"| != |"a_reply"|;
  }
}
