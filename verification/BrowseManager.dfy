/** The owner of every browse: it performs the store's effects while holding one reference for each
    attached record (src/BrowseManager.cpp). A ghost log records what the outside world saw. */
module BrowseManager {
  import opened Common
  import opened BrowseLifecycle
  import opened BrowseStore

  /** One thing the outside world can see happen to a search ID. */
  datatype Note =
    | Opened(id: uint32, client: ClientKey)        // the reference to the peer is taken
    | FailureLine(id: uint32, named: ClientKey)    // the log line, naming the peer still referenced (0: nobody)
    | Announced(id: uint32, finished: bool)        // the GUI is told how the browse ended
    | Released(id: uint32)                         // the reference to the peer is dropped
    | Disposed(id: uint32)                         // the record goes away with its search

  /** Everything seen so far, the latest note outermost. */
  datatype Log = Empty | Entry(before: Log, note: Note)

  datatype ManagerState = ManagerState(records: Records, clients: map<uint32, ClientKey>, log: Log)

  function StateOf(m: Records, id: uint32): State {
    if id in m then m[id].rec.state else Failed
  }

  function RecordOf(s: ManagerState, id: uint32): Option<Held> {
    if id in s.records then Some(s.records[id]) else None
  }

  function ReferenceOf(s: ManagerState, id: uint32): Option<ClientKey> {
    if id in s.clients then Some(s.clients[id]) else None
  }

  /** What performing an effect shows, given the reference held and the state the store answers then. */
  function Logged(log: Log, id: uint32, effect: Effect, reference: Option<ClientKey>, state: State): Log {
    match effect
    case Nothing => log
    case ReleaseClient => Entry(log, Released(id))
    case AnnounceFailure =>
      var named := if reference.Some? then reference.value else 0;
      Entry(Entry(log, FailureLine(id, named)), Announced(id, state == Finished))
    case Announce => Entry(log, Announced(id, state == Finished))
  }

  function Performed(s: ManagerState, o: Outcome): ManagerState {
    s.(clients := if o.effect == ReleaseClient then s.clients - {o.searchId} else s.clients,
       log := Logged(s.log, o.searchId, o.effect, ReferenceOf(s, o.searchId), StateOf(s.records, o.searchId)))
  }

  function PerformedAll(s: ManagerState, outcomes: seq<Outcome>): ManagerState
    decreases |outcomes|
  {
    if outcomes == [] then s else PerformedAll(Performed(s, outcomes[0]), outcomes[1..])
  }

  /** The calls the rest of the core makes. */
  datatype Event =
    | Start(client: ClientKey, id: uint32, now: uint64)
    | Sign(client: ClientKey, sign: BrowseStore.Sign, now: uint64)
    | Forget(client: ClientKey)
    | Remove(id: uint32)
    | Process(now: uint64)

  ghost function Next(s: ManagerState, e: Event): ManagerState {
    match e
    case Start(client, id, now) =>
      var (m, result) := StartStep(s.records, client, id, now);
      var linked := if result.started
                    then s.(records := m, clients := s.clients[id := client], log := Entry(s.log, Opened(id, client)))
                    else s.(records := m);
      Performed(linked, result.displaced)
    case Sign(client, sign, now) =>
      var (m, outcome) := OnPeer(s.records, client, sign, now);
      Performed(s.(records := m), outcome)
    case Forget(client) =>
      var (m, outcomes) := ForgetStep(s.records, client);
      PerformedAll(s.(records := m), outcomes)
    case Remove(id) =>
      ManagerState(s.records - {id}, s.clients - {id}, Entry(s.log, Disposed(id)))
    case Process(now) =>
      PerformedAll(s.(records := TickRecords(s.records, now)), TickOutcomes(s.records, s.records.Keys, now))
  }

  /** What an event does to the records; performing its effects leaves them alone. */
  ghost function StepRecords(m: Records, e: Event): Records {
    match e
    case Start(client, id, now) => StartStep(m, client, id, now).0
    case Sign(client, sign, now) => OnPeer(m, client, sign, now).0
    case Forget(client) => ForgetStep(m, client).0
    case Remove(id) => m - {id}
    case Process(now) => TickRecords(m, now)
  }

  lemma {:induction false} PerformedAllKeepsRecords(s: ManagerState, outcomes: seq<Outcome>)
    ensures PerformedAll(s, outcomes).records == s.records
    decreases |outcomes|
  {
    if outcomes != [] {
      PerformedAllKeepsRecords(Performed(s, outcomes[0]), outcomes[1..]);
    }
  }

  lemma NextRecords(s: ManagerState, e: Event)
    ensures Next(s, e).records == StepRecords(s.records, e)
  {
    match e
    case Forget(client) =>
      var (m, outcomes) := ForgetStep(s.records, client);
      PerformedAllKeepsRecords(s.(records := m), outcomes);
    case Process(now) =>
      PerformedAllKeepsRecords(s.(records := TickRecords(s.records, now)),
                               TickOutcomes(s.records, s.records.Keys, now));
    case _ =>
  }

  const INITIAL := ManagerState(map[], map[], Empty)

  ghost function RunFrom(s: ManagerState, events: seq<Event>): ManagerState {
    if events == [] then s
    else Next(RunFrom(s, events[..|events| - 1]), events[|events| - 1])
  }

  ghost function Run(events: seq<Event>): ManagerState {
    RunFrom(INITIAL, events)
  }

  // ----- The invariant -----

  ghost predicate HeldOk(id: uint32, h: Held) {
    && id != 0
    && h.rec.searchId == id
    && (h.rec.state == InProgress ==>
          && h.client != 0
          && ((h.rec.outstanding == FLAT_BROWSE && h.rec.totalDirs == 0) || 1 <= h.rec.outstanding <= h.rec.totalDirs))
  }

  /** What was seen of `id` since it was last disposed of, in order. */
  function Since(log: Log, id: uint32): seq<Note> {
    match log
    case Empty => []
    case Entry(before, note) =>
      if note.id != id then Since(before, id)
      else if note.Disposed? then []
      else Since(before, id) + [note]
  }

  /** The one story a tracked browse may have told, given what its record says now. */
  ghost predicate Tells(id: uint32, h: Held, story: seq<Note>) {
    && story != []
    && story[0].Opened?
    && var c := story[0].client;
       && c != 0
       && (h.client == 0 || h.client == c)
       && story == [Opened(id, c)]
                   + (match h.rec.state
                      case InProgress => []
                      case Finished => [Announced(id, true)]
                      case Failed => [FailureLine(id, c), Announced(id, false)])
                   + (if h.client == 0 then [Released(id)] else [])
  }

  /** What the record, the reference and the log may say together about one search ID. */
  ghost predicate Consistent(id: uint32, record: Option<Held>, reference: Option<ClientKey>, story: seq<Note>) {
    match record
    case None => reference == None && story == []
    case Some(h) =>
      && HeldOk(id, h)
      && Tells(id, h, story)
      && reference == (if h.client == 0 then None else Some(h.client))
  }

  ghost predicate Agrees(s: ManagerState, id: uint32) {
    Consistent(id, RecordOf(s, id), ReferenceOf(s, id), Since(s.log, id))
  }

  ghost predicate Inv(s: ManagerState) {
    && OnePeerEach(s.records)
    && forall id: uint32 :: Agrees(s, id)
  }

  // ----- Effects touch one search ID at a time -----

  lemma PerformAt(s: ManagerState, o: Outcome, id: uint32)
    ensures var t := Performed(s, o);
            var effect := if o.searchId == id then o.effect else Nothing;
            && RecordOf(t, id) == RecordOf(s, id)
            && ReferenceOf(t, id) == (if effect == ReleaseClient then None else ReferenceOf(s, id))
            && Since(t.log, id) == Since(Logged(s.log, id, effect, ReferenceOf(s, id), StateOf(s.records, id)), id)
  {}

  /** The only ways one record may change under an effect that is still to be performed. */
  ghost predicate Lawful(id: uint32, h: Held, g: Held, effect: Effect) {
    && HeldOk(id, g)
    && match effect
       case Nothing => g.rec.state == h.rec.state && g.client == h.client
       case ReleaseClient => g.rec.state == h.rec.state && g.client == 0 != h.client
       case AnnounceFailure => g.rec.state == Failed && h.rec.state == InProgress && g.client == h.client
       case Announce => g.rec.state == Finished && h.rec.state == InProgress && g.client == h.client
  }

  lemma ReactIsLawful(id: uint32, h: Held, sign: BrowseStore.Sign, now: uint64)
    requires HeldOk(id, h)
    ensures var (g, effect) := React(h, sign, now); Lawful(id, h, g, effect)
  {}

  /** A lawful change of the record, once its effect is performed, keeps the three views consistent. */
  lemma LawfulKeepsConsistent(id: uint32, h: Held, g: Held, effect: Effect, reference: Option<ClientKey>, log: Log)
    requires Consistent(id, Some(h), reference, Since(log, id)) && Lawful(id, h, g, effect)
    ensures Consistent(id, Some(g), if effect == ReleaseClient then None else reference,
                       Since(Logged(log, id, effect, reference, g.rec.state), id))
  {}

  lemma SignAgrees(s: ManagerState, client: ClientKey, sign: BrowseStore.Sign, now: uint64, j: uint32)
    requires Agrees(s, j)
    ensures Agrees(Next(s, Event.Sign(client, sign, now)), j)
  {
    var (m, o) := OnPeer(s.records, client, sign, now);
    PerformAt(s.(records := m), o, j);
    if o.searchId == j && FindFor(s.records, client).Some? {
      ReactIsLawful(j, s.records[j], sign, now);
      LawfulKeepsConsistent(j, s.records[j], m[j], o.effect, ReferenceOf(s, j), s.log);
    }
  }

  lemma StartAgrees(s: ManagerState, client: ClientKey, id: uint32, now: uint64, j: uint32)
    requires Agrees(s, j)
    ensures Agrees(Next(s, Start(client, id, now)), j)
  {
    var (m, result) := StartStep(s.records, client, id, now);
    var o := result.displaced;
    if result.started {
      var t := s.(records := m, clients := s.clients[id := client], log := Entry(s.log, Opened(id, client)));
      PerformAt(t, o, j);
      assert j != id ==> ReferenceOf(t, j) == ReferenceOf(s, j) && Since(t.log, j) == Since(s.log, j);
      if j != id && j in m && m[j] != s.records[j] {
        LawfulKeepsConsistent(j, s.records[j], m[j], ReleaseClient, ReferenceOf(s, j), s.log);
      }
    } else {
      PerformAt(s, NO_OUTCOME, j);
    }
  }

  lemma PerformedOneOrTwo(s: ManagerState, a: Outcome, b: Outcome)
    ensures PerformedAll(s, [a]) == Performed(s, a)
    ensures PerformedAll(s, [a] + [b]) == Performed(Performed(s, a), b)
  {
    assert [a][1..] == [] && [b][1..] == [] && ([a] + [b])[1..] == [b];
    assert PerformedAll(Performed(s, a), [b]) == PerformedAll(Performed(Performed(s, a), b), []);
  }

  lemma ForgetAgrees(s: ManagerState, client: ClientKey, j: uint32)
    requires Agrees(s, j)
    ensures Agrees(Next(s, Forget(client)), j)
    ensures Next(s, Forget(client)).records == ForgetStep(s.records, client).0
  {
    var found := FindFor(s.records, client);
    if found.Some? {
      var id := found.value;
      var h := s.records[id];
      var (failed, effect) := ApplyTo(h, Expire);
      var gone := failed.(client := 0);
      var t := s.(records := s.records[id := gone]);
      var a, b := Outcome(id, effect), Outcome(id, ReleaseClient);
      PerformedOneOrTwo(t, if h.rec.state == InProgress then a else b, b);
      assert [] + [b] == [b];
      PerformAt(t, a, j);
      PerformAt(t, b, j);
      PerformAt(Performed(t, a), b, j);
      if j == id {
        var reference := ReferenceOf(s, j);
        LawfulKeepsConsistent(j, h, failed, effect, reference, s.log);
        LawfulKeepsConsistent(j, failed, gone, ReleaseClient, reference,
                              Logged(s.log, j, effect, reference, failed.rec.state));
      }
    }
  }

  lemma RemoveAgrees(s: ManagerState, id: uint32, j: uint32)
    requires Agrees(s, j)
    ensures Agrees(Next(s, Remove(id)), j)
  {}

  lemma PerformedFirst(s: ManagerState, o: Outcome, rest: seq<Outcome>)
    ensures PerformedAll(s, (if o.effect == Nothing then [] else [o]) + rest) == PerformedAll(Performed(s, o), rest)
  {
    if o.effect == Nothing {
      assert [] + rest == rest;
    } else {
      assert ([o] + rest)[1..] == rest;
    }
  }

  /** In a whole tick an ID hears about its own record only, and at most once. */
  lemma {:induction false} TickAt(s: ManagerState, m: Records, ids: set<uint32>, now: uint64, id: uint32)
    requires ids <= m.Keys
    ensures var t := PerformedAll(s, TickOutcomes(m, ids, now));
            var effect := if id in ids then TickHeld(m[id], now).1 else Nothing;
            && t.records == s.records
            && ReferenceOf(t, id) == (if effect == ReleaseClient then None else ReferenceOf(s, id))
            && Since(t.log, id) == Since(Logged(s.log, id, effect, ReferenceOf(s, id), StateOf(s.records, id)), id)
    decreases |ids|
  {
    if ids != {} {
      var first: uint32 := Least(ids);
      var o := Outcome(first, TickHeld(m[first], now).1);
      var rest := TickOutcomes(m, ids - {first}, now);
      PerformedFirst(s, o, rest);
      TickAt(Performed(s, o), m, ids - {first}, now, id);
      PerformAt(s, o, id);
    }
  }

  lemma TickedConsistently(s: ManagerState, now: uint64, id: uint32, reference: Option<ClientKey>, story: seq<Note>)
    requires Agrees(s, id)
    requires var effect := if id in s.records then TickHeld(s.records[id], now).1 else Nothing;
             var state := StateOf(TickRecords(s.records, now), id);
             && reference == (if effect == ReleaseClient then None else ReferenceOf(s, id))
             && story == Since(Logged(s.log, id, effect, ReferenceOf(s, id), state), id)
    ensures Consistent(id, if id in s.records then Some(TickHeld(s.records[id], now).0) else None, reference, story)
  {
    if id in s.records {
      var h := s.records[id];
      LawfulKeepsConsistent(id, h, TickHeld(h, now).0, TickHeld(h, now).1, ReferenceOf(s, id), s.log);
    }
  }

  lemma TickAgrees(s: ManagerState, now: uint64, id: uint32)
    requires Agrees(s, id)
    ensures Agrees(Next(s, Process(now)), id)
  {
    var t := Next(s, Process(now));
    TickAt(s.(records := TickRecords(s.records, now)), s.records, s.records.Keys, now, id);
    TickedConsistently(s, now, id, ReferenceOf(t, id), Since(t.log, id));
  }

  lemma NextAgrees(s: ManagerState, e: Event, id: uint32)
    requires Agrees(s, id)
    ensures Agrees(Next(s, e), id)
  {
    match e
    case Start(client, newId, now) => StartAgrees(s, client, newId, now, id);
    case Sign(client, sign, now) => SignAgrees(s, client, sign, now, id);
    case Forget(client) => ForgetAgrees(s, client, id);
    case Remove(goneId) => RemoveAgrees(s, goneId, id);
    case Process(now) => TickAgrees(s, now, id);
  }

  lemma NextKeepsOnePeerEach(s: ManagerState, e: Event)
    requires OnePeerEach(s.records)
    ensures OnePeerEach(Next(s, e).records)
  {
    NextRecords(s, e);
    match e
    case Start(client, id, now) => StartKeepsOnePeerEach(s.records, client, id, now);
    case Sign(client, sign, now) => OnPeerKeepsOnePeerEach(s.records, client, sign, now);
    case Forget(client) =>
    case Process(now) =>
    case Remove(id) =>
  }

  lemma NextKeepsInv(s: ManagerState, e: Event)
    requires Inv(s)
    ensures Inv(Next(s, e))
  {
    forall id: uint32 ensures Agrees(Next(s, e), id) {
      NextAgrees(s, e, id);
    }
    NextKeepsOnePeerEach(s, e);
  }

  /** Every reachable state satisfies the invariant, whatever the events were. */
  lemma {:induction false} RunKeepsInv(events: seq<Event>)
    ensures Inv(Run(events))
  {
    if events == [] {
      assert forall id: uint32 :: Agrees(INITIAL, id);
    } else {
      RunKeepsInv(events[..|events| - 1]);
      NextKeepsInv(Run(events[..|events| - 1]), events[|events| - 1]);
    }
  }

  // ----- What the invariant means to someone watching -----

  /** A story announces the end exactly when there is one, and how the browse ended. */
  ghost predicate AnnouncesOnce(h: Held, story: seq<Note>) {
    if h.rec.state == InProgress then forall i | 0 <= i < |story| :: !story[i].Announced?
    else exists i :: 0 <= i < |story| && story[i] == Announced(h.rec.searchId, h.rec.state == Finished)
                     && forall j | 0 <= j < |story| && story[j].Announced? :: j == i
  }

  /** A story lets go of the peer at most once, last of all and only after the announcement. */
  ghost predicate ReleasesLast(h: Held, story: seq<Note>) {
    && (h.client == 0 <==> exists i :: 0 <= i < |story| && story[i].Released?)
    && forall i | 0 <= i < |story| && story[i].Released? ::
         i == |story| - 1 && exists j :: 0 <= j < i && story[j].Announced?
  }

  /** A failure is logged while the peer that was opened is still referenced, so that it can be named. */
  ghost predicate NamesThePeer(h: Held, story: seq<Note>) {
    && (h.rec.state == Failed <==> exists i :: 0 <= i < |story| && story[i].FailureLine?)
    && forall i | 0 <= i < |story| && story[i].FailureLine? ::
         story[0].Opened? && story[i].named == story[0].client != 0
  }

  lemma StoryShape(id: uint32, h: Held, story: seq<Note>)
    requires HeldOk(id, h) && Tells(id, h, story)
    ensures AnnouncesOnce(h, story) && ReleasesLast(h, story) && NamesThePeer(h, story)
  {
    match h.rec.state {
      case InProgress => assert |story| == 1;
      case Finished => assert story[1] == Announced(id, true);
      case Failed => assert story[1].FailureLine? && story[2] == Announced(id, false);
    }
    if h.client == 0 {
      assert story[|story| - 1].Released?;
    }
  }

  /** Over every run, a tracked browse has been announced exactly once if it has ended and not at all if
      it is running; a failure was logged with its peer named; the peer is let go at most once, last. */
  lemma AnnouncedOnceThenReleased(events: seq<Event>, id: uint32)
    requires id in Run(events).records
    ensures var s := Run(events);
            var story := Since(s.log, id);
            AnnouncesOnce(s.records[id], story) && ReleasesLast(s.records[id], story)
            && NamesThePeer(s.records[id], story)
  {
    RunKeepsInv(events);
    assert Agrees(Run(events), id);
    StoryShape(id, Run(events).records[id], Since(Run(events).log, id));
  }

  lemma LoggedGrows(log: Log, o: Outcome, reference: Option<ClientKey>, state: State, id: uint32)
    ensures Since(log, id) <= Since(Logged(log, o.searchId, o.effect, reference, state), id)
  {}

  lemma {:induction false} PerformedAllGrows(s: ManagerState, outcomes: seq<Outcome>, id: uint32)
    ensures Since(s.log, id) <= Since(PerformedAll(s, outcomes).log, id)
    decreases |outcomes|
  {
    if outcomes != [] {
      var o := outcomes[0];
      LoggedGrows(s.log, o, ReferenceOf(s, o.searchId), StateOf(s.records, o.searchId), id);
      PerformedAllGrows(Performed(s, o), outcomes[1..], id);
    }
  }

  /** What was seen of a tracked browse is only added to. */
  lemma StoryGrows(s: ManagerState, e: Event, id: uint32)
    requires id in s.records && e != Remove(id)
    ensures Since(s.log, id) <= Since(Next(s, e).log, id)
  {
    match e
    case Forget(client) =>
      var (m, outcomes) := ForgetStep(s.records, client);
      PerformedAllGrows(s.(records := m), outcomes, id);
    case Process(now) =>
      PerformedAllGrows(s.(records := TickRecords(s.records, now)),
                        TickOutcomes(s.records, s.records.Keys, now), id);
    case _ =>
  }

  /** The references in force after what was seen. */
  function HeldBy(log: Log): map<uint32, ClientKey> {
    match log
    case Empty => map[]
    case Entry(before, Opened(id, client)) => HeldBy(before)[id := client]
    case Entry(before, Released(id)) => HeldBy(before) - {id}
    case Entry(before, Disposed(id)) => HeldBy(before) - {id}
    case Entry(before, _) => HeldBy(before)
  }

  lemma PerformedHeld(s: ManagerState, o: Outcome)
    requires HeldBy(s.log) == s.clients
    ensures HeldBy(Performed(s, o).log) == Performed(s, o).clients
  {}

  lemma {:induction false} PerformedAllHeld(s: ManagerState, outcomes: seq<Outcome>)
    requires HeldBy(s.log) == s.clients
    ensures HeldBy(PerformedAll(s, outcomes).log) == PerformedAll(s, outcomes).clients
    decreases |outcomes|
  {
    if outcomes != [] {
      PerformedHeld(s, outcomes[0]);
      PerformedAllHeld(Performed(s, outcomes[0]), outcomes[1..]);
    }
  }

  lemma NextHeld(s: ManagerState, e: Event)
    requires HeldBy(s.log) == s.clients
    ensures HeldBy(Next(s, e).log) == Next(s, e).clients
  {
    match e
    case Start(client, id, now) =>
    case Sign(client, sign, now) =>
    case Forget(client) =>
      var (m, outcomes) := ForgetStep(s.records, client);
      PerformedAllHeld(s.(records := m), outcomes);
    case Remove(id) =>
    case Process(now) =>
      PerformedAllHeld(s.(records := TickRecords(s.records, now)), TickOutcomes(s.records, s.records.Keys, now));
  }

  /** Over every run the log accounts for the references held. */
  lemma {:induction false} LogAccountsForReferences(events: seq<Event>)
    ensures HeldBy(Run(events).log) == Run(events).clients
    decreases |events|
  {
    if events != [] {
      LogAccountsForReferences(events[..|events| - 1]);
      NextHeld(Run(events[..|events| - 1]), events[|events| - 1]);
    }
  }

  /** Some reference to the peer is held after each note between two logs. */
  predicate HeldThroughout(from: Log, to: Log, client: ClientKey) {
    to == from || (to.Entry? && client in HeldBy(to).Values && HeldThroughout(from, to.before, client))
  }

  /** Starting a browse of a peer lets go of its ended one without a moment when nothing here refers to the peer. */
  lemma StartNeverLetsGo(s: ManagerState, client: ClientKey, id: uint32, now: uint64)
    requires StartStep(s.records, client, id, now).1.started
    ensures HeldThroughout(s.log, Next(s, Event.Start(client, id, now)).log, client)
    ensures client in Next(s, Event.Start(client, id, now)).clients.Values
  {
    var linked := Entry(s.log, Opened(id, client));
    var result := StartStep(s.records, client, id, now).1;
    assert id in HeldBy(linked) && HeldBy(linked)[id] == client;
    var after := Next(s, Event.Start(client, id, now));
    assert result.displaced.effect == ReleaseClient ==> result.displaced.searchId != id;
    assert id in HeldBy(after.log) && HeldBy(after.log)[id] == client;
    assert id in after.clients && after.clients[id] == client;
  }

  /** The reference map holds exactly the IDs whose record still has a peer, for that same peer; no peer
      is named twice; and a running browse has a peer and something definite left to wait for. */
  lemma ReferencesMatchRecords(events: seq<Event>, id: uint32)
    ensures var s := Run(events);
            && (id in s.clients <==> id in s.records && s.records[id].client != 0)
            && (id in s.clients ==>
                  && s.clients[id] == s.records[id].client
                  && forall j | j in s.clients && s.clients[j] == s.clients[id] :: j == id)
            && (id in s.records && s.records[id].rec.state == InProgress ==>
                  && id in s.clients
                  && FindFor(s.records, s.clients[id]) == Some(id)
                  && (s.records[id].rec.outstanding == FLAT_BROWSE
                      || 1 <= s.records[id].rec.outstanding <= s.records[id].rec.totalDirs))
  {
    RunKeepsInv(events);
    var s := Run(events);
    assert Agrees(s, id);
    forall j: uint32 | j in s.clients ensures j in s.records && s.clients[j] == s.records[j].client != 0 {
      assert Agrees(s, j);
    }
  }

  /** Once a browse has ended no event short of disposing of its search changes how it ended. */
  lemma {:induction false} TerminalStaysTerminal(s: ManagerState, events: seq<Event>, id: uint32)
    requires id in s.records && s.records[id].rec.state != InProgress
    requires forall i | 0 <= i < |events| :: events[i] != Remove(id)
    ensures id in RunFrom(s, events).records && RunFrom(s, events).records[id].rec == s.records[id].rec
  {
    if events != [] {
      var k := |events| - 1;
      TerminalStaysTerminal(s, events[..k], id);
      EffectsKeepRecords(RunFrom(s, events[..k]), events[k], id);
    }
  }

  lemma EffectsKeepRecords(s: ManagerState, e: Event, id: uint32)
    requires id in s.records && s.records[id].rec.state != InProgress && e != Remove(id)
    ensures id in Next(s, e).records && Next(s, e).records[id].rec == s.records[id].rec
  {
    NextRecords(s, e);
  }

  // ----- The manager itself -----

  /** A failed browse: the log line names whom the reference leads to, then the GUI is told. */
  function Failure(log: Log, id: uint32, clients: map<uint32, ClientKey>): Log {
    Entry(Entry(log, FailureLine(id, if id in clients then clients[id] else 0)), Announced(id, false))
  }

  class Manager {
    const store: Store
    var clients: map<uint32, ClientKey>
    ghost var log: Log

    ghost function State(): ManagerState
      reads this, store
    {
      ManagerState(store.records, clients, log)
    }

    constructor ()
      ensures State() == INITIAL && fresh(store)
    {
      store := new Store();
      clients := map[];
      log := Empty;
    }

    method Perform(outcome: Outcome)
      modifies this
      ensures State() == Performed(old(State()), outcome)
    {
      match outcome.effect
      case Nothing =>
      case ReleaseClient =>
        clients := clients - {outcome.searchId};
        log := Entry(log, Released(outcome.searchId));
      case AnnounceFailure =>
        var named := if outcome.searchId in clients then clients[outcome.searchId] else 0;
        log := Entry(log, FailureLine(outcome.searchId, named));
        AnnounceState(outcome.searchId);
      case Announce =>
        AnnounceState(outcome.searchId);
    }

    method AnnounceState(searchId: uint32)
      modifies this`log
      ensures log == Entry(old(log), Announced(searchId, StateOf(store.records, searchId) == Finished))
    {
      log := Entry(log, Announced(searchId, StateOf(store.records, searchId) == Finished));
    }

    method PerformEach(outcomes: seq<Outcome>)
      modifies this
      ensures State() == PerformedAll(old(State()), outcomes)
    {
      for i := 0 to |outcomes|
        invariant PerformedAll(State(), outcomes[i..]) == PerformedAll(old(State()), outcomes)
      {
        assert outcomes[i..][1..] == outcomes[i + 1..];
        Perform(outcomes[i]);
      }
    }

    /** The new reference is taken before the displaced one is dropped. */
    method Start(client: ClientKey, searchId: uint32, now: uint64) returns (started: bool)
      modifies this, store
      ensures State() == Next(old(State()), Event.Start(client, searchId, now))
      ensures started == StartStep(old(store.records), client, searchId, now).1.started
    {
      var result := store.Start(client, searchId, now);
      if result.started {
        clients := clients[searchId := client];
        log := Entry(log, Opened(searchId, client));
      }
      Perform(result.displaced);
      return result.started;
    }

    method OnRequestSent(client: ClientKey, now: uint64)
      modifies this, store
      ensures State() == Next(old(State()), Event.Sign(client, Touched, now))
    {
      store.Touch(client, now);
    }

    method OnDirectoryList(client: ClientKey, dirCount: int, now: uint64)
      modifies this, store
      ensures State() == Next(old(State()), Event.Sign(client, DirectoryList(dirCount), now))
    {
      var outcome := store.DirectoryListArrived(client, dirCount, now);
      Perform(outcome);
    }

    method OnListingReceived(client: ClientKey, now: uint64)
      modifies this, store
      ensures State() == Next(old(State()), Event.Sign(client, Listing, now))
    {
      var outcome := store.ListingArrived(client, now);
      Perform(outcome);
    }

    method Fail(client: ClientKey)
      modifies this, store
      ensures State() == Next(old(State()), Event.Sign(client, Failing, 0))
      ensures var it := FindFor(old(store.records), client);
              log == if it.None? || old(store.records)[it.value].rec.state != InProgress then old(log)
                     else Failure(old(log), it.value, old(clients))
    {
      var outcome := store.Fail(client);
      Perform(outcome);
    }

    method Forget(client: ClientKey)
      modifies this, store
      ensures State() == Next(old(State()), Event.Forget(client))
      ensures var it := FindFor(old(store.records), client);
              log == if it.None? then old(log)
                     else if old(store.records)[it.value].rec.state != InProgress
                     then Entry(old(log), Released(it.value))
                     else Entry(Failure(old(log), it.value, old(clients)), Released(it.value))
    {
      var outcomes := store.Forget(client);
      if |outcomes| == 2 {
        PerformedOneOrTwo(State(), outcomes[0], outcomes[1]);
      } else if |outcomes| == 1 {
        PerformedOneOrTwo(State(), outcomes[0], outcomes[0]);
      }
      PerformEach(outcomes);
    }

    method Remove(searchId: uint32)
      modifies this, store
      ensures State() == Next(old(State()), Event.Remove(searchId))
    {
      store.Remove(searchId);
      clients := clients - {searchId};
      log := Entry(log, Disposed(searchId));
    }

    method Process(now: uint64)
      modifies this, store
      ensures State() == Next(old(State()), Event.Process(now))
    {
      var outcomes := store.TickAll(now);
      PerformEach(outcomes);
    }
  }
}
