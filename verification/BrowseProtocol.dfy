/** The guards under which packets reach the browse manager (src/BaseClient.cpp, src/ClientTCPSocket.cpp),
    and what they buy: a browse whose directory list has arrived must end. */
module BrowseProtocol {
  import opened Common
  import opened BrowseLifecycle
  import opened BrowseStore
  import opened BrowseManager

  /** Non-zero exactly when the peer has a browse still running. */
  ghost function SearchIdFor(m: Records, client: ClientKey): uint32 {
    match FindFor(m, client)
    case Some(id) => if m[id].rec.state == InProgress then id else 0
    case None => 0
  }

  ghost predicate AwaitingDirectoryList(m: Records, client: ClientKey) {
    match FindFor(m, client)
    case Some(id) => m[id].rec.state == InProgress && m[id].rec.outstanding == FLAT_BROWSE
    case None => false
  }

  /** What a peer, a user or the timer may cause; packets that fail their guard are dropped. */
  ghost predicate Admitted(s: ManagerState, e: Event) {
    match e
    case Sign(client, Touched, _) => AwaitingDirectoryList(s.records, client)
    case Sign(client, DirectoryList(_), _) => AwaitingDirectoryList(s.records, client)
    case Sign(client, Listing, _) => SearchIdFor(s.records, client) != 0
    case Sign(_, Finishing, _) => false
    case _ => true
  }

  ghost function Guarded(s: ManagerState, e: Event): ManagerState {
    if Admitted(s, e) then Next(s, e) else s
  }

  ghost function GuardedRun(s: ManagerState, events: seq<Event>): ManagerState {
    if events == [] then s
    else Guarded(GuardedRun(s, events[..|events| - 1]), events[|events| - 1])
  }

  /** Listing packets sent by this peer. */
  function Listings(events: seq<Event>, client: ClientKey): nat {
    if events == [] then 0
    else
      var last := events[|events| - 1];
      Listings(events[..|events| - 1], client) +
      (if last.Sign? && last.client == client && last.sign == Listing then 1 else 0)
  }

  /** A running browse of `client` that knows how many listings to expect. */
  ghost predicate Counting(s: ManagerState, id: uint32, client: ClientKey) {
    && Inv(s)
    && id in s.records
    && s.records[id].client == client
    && s.records[id].rec.state == InProgress
    && s.records[id].rec.outstanding != FLAT_BROWSE
  }

  ghost predicate Ended(s: ManagerState, id: uint32) {
    id in s.records && s.records[id].rec.state != InProgress
  }

  lemma CountingFacts(s: ManagerState, id: uint32, client: ClientKey)
    requires Counting(s, id, client)
    ensures id != 0 && client != 0 && FindFor(s.records, client) == Some(id)
    ensures 1 <= s.records[id].rec.outstanding <= s.records[id].rec.totalDirs
  {
    assert Agrees(s, id);
  }

  ghost function After(s: ManagerState, e: Event, id: uint32): Record
    requires id in Guarded(s, e).records
  {
    Guarded(s, e).records[id].rec
  }

  predicate IsListingOf(e: Event, client: ClientKey) {
    e.Sign? && e.client == client && e.sign == Listing
  }

  /** A packet a counting browse would not take. */
  predicate OutOfTurn(e: Event, client: ClientKey) {
    e.Sign? && e.client == client && !(e.sign == Listing || e.sign == Failing)
  }

  /** What one event makes of a counting record, the guards apart. */
  lemma CountingRecord(m: Records, e: Event, id: uint32, client: ClientKey)
    requires FindFor(m, client) == Some(id) && m[id].rec.state == InProgress
    requires 1 <= m[id].rec.outstanding && e != Event.Remove(id) && !OutOfTurn(e, client)
    ensures var after, rec := StepRecords(m, e), m[id].rec;
            && id in after
            && (after[id].rec.state == Finished <==> IsListingOf(e, client) && rec.outstanding == 1)
            && (after[id].rec.state == InProgress ==>
                  && after[id].client == client
                  && after[id].rec == if IsListingOf(e, client)
                                      then rec.(outstanding := rec.outstanding - 1, deadline := Deadline(e.now))
                                      else rec)
  {
    match e
    case Sign(c, sign, now) =>
      assert FindFor(m, c) == Some(id) <==> c == client;
    case Forget(c) =>
      assert FindFor(m, c) == Some(id) <==> c == client;
    case _ =>
  }

  /** One event leaves a counting browse alone, counts it down by one listing, or ends it. Only the
      countdown moves the silence deadline. */
  lemma CountingStep(s: ManagerState, e: Event, id: uint32, client: ClientKey)
    requires Counting(s, id, client) && e != Event.Remove(id)
    ensures Inv(Guarded(s, e)) && id in Guarded(s, e).records
    ensures After(s, e, id).state == Finished <==> IsListingOf(e, client) && s.records[id].rec.outstanding == 1
    ensures !Ended(Guarded(s, e), id) ==>
              && Counting(Guarded(s, e), id, client)
              && var rec := s.records[id].rec;
                 After(s, e, id) == if IsListingOf(e, client)
                                    then rec.(outstanding := rec.outstanding - 1, deadline := Deadline(e.now))
                                    else rec
  {
    CountingFacts(s, id, client);
    if Admitted(s, e) {
      NextKeepsInv(s, e);
      NextRecords(s, e);
      CountingRecord(s.records, e, id, client);
    }
  }

  /** The one directory list a browse accepts either starts the countdown at the announced number or,
      announcing nothing, ends the browse on the spot. */
  lemma DirectoryListStartsCountdown(s: ManagerState, client: ClientKey, dirCount: int, now: uint64)
    requires Inv(s) && AwaitingDirectoryList(s.records, client)
    requires now + SILENCE_TIMEOUT_MS < TWO64
    ensures var id := SearchIdFor(s.records, client);
            var e := Event.Sign(client, DirectoryList(dirCount), now);
            var t := Guarded(s, e);
            && id != 0 && id in t.records
            && (dirCount <= 0 ==> t.records[id].rec.state == Finished)
            && (0 < dirCount ==>
                  && Counting(t, id, client)
                  && t.records[id].rec.outstanding == t.records[id].rec.totalDirs == dirCount
                  && t.records[id].rec.deadline == now + SILENCE_TIMEOUT_MS)
            && !AwaitingDirectoryList(t.records, client)
  {
    var id := FindFor(s.records, client).value;
    var e := Event.Sign(client, DirectoryList(dirCount), now);
    assert Agrees(s, id);
    NextKeepsInv(s, e);
    assert Next(s, e).records == s.records[id := React(s.records[id], DirectoryList(dirCount), now).0];
  }

  lemma OneEventOn(s: ManagerState, e: Event, id: uint32, client: ClientKey)
    requires Counting(s, id, client) && e != Event.Remove(id)
    ensures var t := Guarded(s, e);
            id in t.records &&
            (Ended(t, id) ||
             (&& Counting(t, id, client)
              && t.records[id].rec.outstanding == s.records[id].rec.outstanding
                 - (if IsListingOf(e, client) then 1 else 0)
              && t.records[id].rec.totalDirs == s.records[id].rec.totalDirs
              && BarValue(s.records[id].rec) <= BarValue(t.records[id].rec) < 100))
    ensures After(s, e, id).state == Finished <==> IsListingOf(e, client) && s.records[id].rec.outstanding == 1
  {
    CountingFacts(s, id, client);
    CountingStep(s, e, id, client);
    var t := Guarded(s, e);
    if !Ended(t, id) {
      CountingFacts(t, id, client);
      var before, after := s.records[id].rec, t.records[id].rec;
      Percent(after.totalDirs - after.outstanding, after.totalDirs);
      PercentMonotone(before.totalDirs - before.outstanding, after.totalDirs - after.outstanding, after.totalDirs);
    }
  }

  /** A counting browse is over once its peer has sent as many listings as it announced directories;
      until then it is exactly that many listings short, and its bar has only moved forward. It is a success only
      with all of them, and what it is follows from the events. */
  lemma {:induction false} EndsAfterItsListings(s: ManagerState, events: seq<Event>, id: uint32, client: ClientKey)
    requires Counting(s, id, client)
    requires forall i | 0 <= i < |events| :: events[i] != Event.Remove(id)
    ensures var t := GuardedRun(s, events);
            Ended(t, id) ||
            (&& Counting(t, id, client)
             && t.records[id].rec.outstanding == s.records[id].rec.outstanding - Listings(events, client)
             && t.records[id].rec.totalDirs == s.records[id].rec.totalDirs
             && BarValue(s.records[id].rec) <= BarValue(t.records[id].rec) < 100)
    ensures Listings(events, client) >= s.records[id].rec.outstanding ==> Ended(GuardedRun(s, events), id)
    ensures var rec, t := s.records[id].rec, GuardedRun(s, events);
            && (t.records[id].rec.state == Finished ==> Listings(events, client) >= rec.outstanding)
            && Shows(t.records[id].rec, Followed(Running(Some(rec.outstanding), rec.deadline), events, client))
  {
    CountingFacts(s, id, client);
    CountingIsTaken(s, id, client);
    HowItEnds(s, events, id, client, Running(Some(s.records[id].rec.outstanding), s.records[id].rec.deadline));
    if events == [] {
      var rec := s.records[id].rec;
      Percent(rec.totalDirs - rec.outstanding, rec.totalDirs);
    } else {
      var k := |events| - 1;
      var mid := GuardedRun(s, events[..k]);
      EndsAfterItsListings(s, events[..k], id, client);
      if Ended(mid, id) {
        EffectsKeepRecords(mid, events[k], id);
      } else {
        OneEventOn(mid, events[k], id, client);
      }
    }
  }

  /** The tick at which an event happens; calls that read no clock inherit the one before. */
  function At(e: Event, before: nat): nat {
    match e
    case Start(_, _, now) => now
    case Process(now) => now
    case Sign(_, Failing, _) => before
    case Sign(_, Finishing, _) => before
    case Sign(_, _, now) => now
    case _ => before
  }

  function Clock(events: seq<Event>, t0: nat): nat {
    if events == [] then t0
    else At(events[|events| - 1], Clock(events[..|events| - 1], t0))
  }

  /** When the timer last ticked. */
  function LastTick(events: seq<Event>, t0: nat): nat {
    if events == [] then t0
    else
      var e := events[|events| - 1];
      if e.Process? then e.now else LastTick(events[..|events| - 1], t0)
  }

  /** The clock never runs backwards, never comes within one timeout of wrapping, and no event is more
      than `gap` after the latest timer tick. */
  predicate Timely(events: seq<Event>, t0: nat, gap: nat) {
    events == [] ||
    var k := |events| - 1;
    && Timely(events[..k], t0, gap)
    && var now := Clock(events, t0);
       Clock(events[..k], t0) <= now <= LastTick(events[..k], t0) + gap && now + SILENCE_TIMEOUT_MS < TWO64
  }

  /** `listings` silences, each of which may last one timeout plus the lag of the timer that notices it. */
  function Budget(listings: int, gap: nat): nat {
    if listings <= 0 then 0 else Budget(listings - 1, gap) + SILENCE_TIMEOUT_MS + gap
  }

  /** The bound kept along a run: where the deadline can be after `left` listings are still missing. */
  ghost predicate Bounded(rec: Record, n: int, t0: nat, gap: nat, ticked: nat) {
    && rec.outstanding <= n
    && 0 < rec.deadline
    && ticked <= rec.deadline <= t0 + SILENCE_TIMEOUT_MS + Budget(n - rec.outstanding, gap)
  }

  lemma {:induction false} BudgetGrows(m: int, n: int, gap: nat)
    requires m < n && 0 < n
    ensures Budget(m, gap) + SILENCE_TIMEOUT_MS + gap <= Budget(n, gap)
  {
    if m < n - 1 && 0 < n - 1 {
      BudgetGrows(m, n - 1, gap);
    }
  }

  /** While a listing is still missing, the budget for all of them has not run out. */
  lemma WithinBudget(rec: Record, n: int, t0: nat, gap: nat, ticked: nat)
    requires Bounded(rec, n, t0, gap, ticked) && 1 <= rec.outstanding
    ensures ticked <= t0 + Budget(n, gap)
  {
    BudgetGrows(n - rec.outstanding, n, gap);
  }

  lemma {:induction false} TickedByNow(events: seq<Event>, t0: nat, gap: nat)
    requires Timely(events, t0, gap)
    ensures LastTick(events, t0) <= Clock(events, t0)
  {
    if events != [] {
      TickedByNow(events[..|events| - 1], t0, gap);
    }
  }

  /** The silence deadline of a counting browse moves at most one timeout-plus-gap per listing, and no
      timer tick has yet passed it. */
  lemma {:induction false} DeadlineIsBounded(
    s: ManagerState, events: seq<Event>, id: uint32, client: ClientKey, t0: nat, gap: nat)
    requires Counting(s, id, client)
    requires s.records[id].rec.deadline == t0 + SILENCE_TIMEOUT_MS
    requires forall i | 0 <= i < |events| :: events[i] != Event.Remove(id)
    requires Timely(events, t0, gap)
    ensures var t := GuardedRun(s, events);
            Ended(t, id) ||
            (&& Counting(t, id, client)
             && Bounded(t.records[id].rec, s.records[id].rec.outstanding, t0, gap, LastTick(events, t0)))
  {
    if events != [] {
      var k := |events| - 1;
      var e := events[k];
      var mid := GuardedRun(s, events[..k]);
      DeadlineIsBounded(s, events[..k], id, client, t0, gap);
      if Ended(mid, id) {
        EffectsKeepRecords(mid, e, id);
      } else {
        CountingStep(mid, e, id, client);
        if !Ended(Guarded(mid, e), id) {
          TickedByNow(events[..k], t0, gap);
          BoundedStep(mid, e, id, client, s.records[id].rec.outstanding, t0, gap,
                      LastTick(events[..k], t0), LastTick(events, t0));
        }
      }
    }
  }

  lemma BoundedStep(s: ManagerState, e: Event, id: uint32, client: ClientKey, n: int, t0: nat, gap: nat,
                    ticked: nat, ticks: nat)
    requires Counting(s, id, client) && Counting(Guarded(s, e), id, client) && e != Event.Remove(id)
    requires Bounded(s.records[id].rec, n, t0, gap, ticked)
    requires ticks == (if e.Process? then e.now else ticked)
    requires IsListingOf(e, client) ==> ticked <= e.now <= ticked + gap && e.now + SILENCE_TIMEOUT_MS < TWO64
    ensures Bounded(After(s, e, id), n, t0, gap, ticks)
  {
    CountingFacts(s, id, client);
    CountingStep(s, e, id, client);
    if e.Process? {
      assert Agrees(s, id);
      TickDecides(s, e.now, id);
    }
  }

  /** A timer tick past the deadline ends a running browse. */
  lemma TickDecides(s: ManagerState, now: uint64, id: uint32)
    requires Agrees(s, id) && id in s.records
    ensures id in Next(s, Process(now)).records
    ensures s.records[id].rec.deadline != 0 && s.records[id].rec.deadline < now ==> Ended(Next(s, Process(now)), id)
  {
    NextRecords(s, Process(now));
  }

  /** So a browse that was told of n directories at t0 is over once the timer has ticked later than
      t0 + n * (120 s + largest tick gap), however the peer behaves. */
  lemma EndsInTime(s: ManagerState, events: seq<Event>, id: uint32, client: ClientKey, t0: nat, gap: nat)
    requires Counting(s, id, client)
    requires s.records[id].rec.deadline == t0 + SILENCE_TIMEOUT_MS
    requires forall i | 0 <= i < |events| :: events[i] != Event.Remove(id)
    requires Timely(events, t0, gap)
    requires t0 + Budget(s.records[id].rec.outstanding, gap) < LastTick(events, t0)
    ensures Ended(GuardedRun(s, events), id)
  {
    DeadlineIsBounded(s, events, id, client, t0, gap);
    var t := GuardedRun(s, events);
    if !Ended(t, id) {
      CountingFacts(t, id, client);
      WithinBudget(t.records[id].rec, s.records[id].rec.outstanding, t0, gap, LastTick(events, t0));
      assert false;
    }
  }

  // ----- Before the directory list -----

  /** A running browse of `client` that has not been answered yet. */
  ghost predicate Waiting(s: ManagerState, id: uint32, client: ClientKey) {
    && Inv(s)
    && id in s.records
    && s.records[id].client == client
    && s.records[id].rec.state == InProgress
    && s.records[id].rec.outstanding == FLAT_BROWSE
  }

  /** The peer is asked again, or answers. */
  predicate AsksOrAnswers(e: Event, client: ClientKey) {
    e.Sign? && e.client == client && (e.sign == Touched || e.sign.DirectoryList? || e.sign == Listing)
  }

  lemma WaitingFound(s: ManagerState, id: uint32, client: ClientKey)
    requires Waiting(s, id, client)
    ensures id != 0 && client != 0 && FindFor(s.records, client) == Some(id) && AwaitingDirectoryList(s.records, client)
  {
    assert Agrees(s, id);
  }

  /** What ends a waiting browse: its packet fails, its peer goes, or the timer notices the silence. */
  predicate Fatal(e: Event, client: ClientKey, deadline: nat) {
    || (e.Sign? && e.client == client && e.sign == Failing)
    || e == Event.Forget(client)
    || (e.Process? && deadline != 0 && deadline < e.now)
  }

  lemma WaitingRecord(m: Records, e: Event, id: uint32, client: ClientKey)
    requires FindFor(m, client) == Some(id) && m[id].rec.state == InProgress && m[id].rec.outstanding == FLAT_BROWSE
    requires e != Event.Remove(id) && !AsksOrAnswers(e, client) && !(e.Sign? && e.sign == Finishing)
    ensures var after := StepRecords(m, e);
            && id in after
            && (after[id].rec.state == Failed <==> Fatal(e, client, m[id].rec.deadline))
            && after[id].rec.state != Finished
            && (after[id].rec.state == InProgress ==> after[id] == m[id])
  {
    match e
    case Sign(c, sign, now) =>
      assert FindFor(m, c) == Some(id) <==> c == client;
    case Forget(c) =>
      assert FindFor(m, c) == Some(id) <==> c == client;
    case _ =>
  }

  /** Nothing else moves the deadline of a waiting browse. */
  lemma WaitingStep(s: ManagerState, e: Event, id: uint32, client: ClientKey)
    requires Waiting(s, id, client) && e != Event.Remove(id) && !AsksOrAnswers(e, client)
    ensures Inv(Guarded(s, e)) && id in Guarded(s, e).records
    ensures After(s, e, id).state != Finished
    ensures After(s, e, id).state == Failed <==> Fatal(e, client, s.records[id].rec.deadline)
    ensures !Ended(Guarded(s, e), id) ==> Waiting(Guarded(s, e), id, client) && After(s, e, id) == s.records[id].rec
  {
    WaitingFound(s, id, client);
    if Admitted(s, e) {
      NextKeepsInv(s, e);
      NextRecords(s, e);
      WaitingRecord(s.records, e, id, client);
    }
  }

  predicate AnyFatal(events: seq<Event>, client: ClientKey, deadline: nat) {
    exists i :: 0 <= i < |events| && Fatal(events[i], client, deadline)
  }

  lemma AnyFatalSnoc(before: seq<Event>, e: Event, client: ClientKey, deadline: nat)
    ensures AnyFatal(before + [e], client, deadline) <==>
              AnyFatal(before, client, deadline) || Fatal(e, client, deadline)
  {
    if AnyFatal(before, client, deadline) {
      var i :| 0 <= i < |before| && Fatal(before[i], client, deadline);
      assert (before + [e])[i] == before[i];
    }
    assert (before + [e])[|before|] == e;
  }

  /** A browse that is neither answered nor asked about again is a failure, and announced as one, if and only if it
      was denied, its peer was let go, or there was a tick past its deadline, which is two minutes after it was last
      asked about. Otherwise it is still running. */
  lemma {:induction false} WaitingEnds(s: ManagerState, events: seq<Event>, id: uint32, client: ClientKey)
    requires Waiting(s, id, client)
    requires forall i | 0 <= i < |events| :: events[i] != Event.Remove(id) && !AsksOrAnswers(events[i], client)
    ensures var t := GuardedRun(s, events);
            if AnyFatal(events, client, s.records[id].rec.deadline)
            then id in t.records && t.records[id].rec.state == Failed
                 && Told(Since(t.log, id), id, client, Over(false, false), t.records[id].client == 0)
            else Waiting(t, id, client) && t.records[id].rec == s.records[id].rec
    decreases |events|
  {
    WaitingIsTaken(s, id, client);
    HowItEnds(s, events, id, client, Running(None, s.records[id].rec.deadline));
    if events != [] {
      var k := |events| - 1;
      var mid := GuardedRun(s, events[..k]);
      WaitingEnds(s, events[..k], id, client);
      AnyFatalSnoc(events[..k], events[k], client, s.records[id].rec.deadline);
      assert events[..k] + [events[k]] == events;
      if Ended(mid, id) {
        EffectsKeepRecords(mid, events[k], id);
      } else {
        WaitingStep(mid, events[k], id, client);
      }
    }
  }

  /** The peer is asked again, on another hello or contact over the open connection, and silence is looked for just
      as it would be over. */
  function Reasked(client: ClientKey, t0: nat): seq<Event>
    requires t0 + SILENCE_TIMEOUT_MS < TWO64
  {
    [Sign(client, Touched, t0), Process(t0 + SILENCE_TIMEOUT_MS)]
  }

  /** The same `n` times over, each time as late as it can be. */
  function Reasking(client: ClientKey, t0: nat, n: nat): seq<Event>
    requires t0 + n * SILENCE_TIMEOUT_MS < TWO64
    decreases n
  {
    if n == 0 then [] else Reasked(client, t0) + Reasking(client, t0 + SILENCE_TIMEOUT_MS, n - 1)
  }

  /** That keeps an unanswered browse going for as long as the clock lasts. */
  lemma {:induction false} ReaskedIsKeptAlive(s: ManagerState, id: uint32, client: ClientKey, t0: nat, n: nat)
    requires Waiting(s, id, client) && t0 + n * SILENCE_TIMEOUT_MS < TWO64
    ensures Waiting(GuardedRun(s, Reasking(client, t0, n)), id, client)
    decreases n
  {
    if n > 0 {
      var both := Reasked(client, t0);
      ReaskedOnce(s, id, client, t0);
      ReaskedIsKeptAlive(GuardedRun(s, both), id, client, t0 + SILENCE_TIMEOUT_MS, n - 1);
      GuardedRunJoins(s, both, Reasking(client, t0 + SILENCE_TIMEOUT_MS, n - 1));
    }
  }

  lemma ReaskedOnce(s: ManagerState, id: uint32, client: ClientKey, t0: nat)
    requires Waiting(s, id, client) && t0 + SILENCE_TIMEOUT_MS < TWO64
    ensures Waiting(GuardedRun(s, Reasked(client, t0)), id, client)
  {
    AskedAgain(s, id, client, t0);
    RunOfTwo(s, Reasked(client, t0));
  }

  lemma RunOfTwo(s: ManagerState, both: seq<Event>)
    requires |both| == 2
    ensures GuardedRun(s, both) == Guarded(Guarded(s, both[0]), both[1])
  {
    var first := both[..1];
    assert first == [both[0]] && first[..0] == [];
    assert GuardedRun(s, first) == Guarded(GuardedRun(s, first[..0]), first[0]);
  }

  lemma {:induction false} GuardedRunJoins(s: ManagerState, first: seq<Event>, second: seq<Event>)
    ensures GuardedRun(s, first + second) == GuardedRun(GuardedRun(s, first), second)
    decreases |second|
  {
    if second == [] {
      assert first + second == first;
    } else {
      var k := |second| - 1;
      assert (first + second)[..|first| + k] == first + second[..k];
      GuardedRunJoins(s, first, second[..k]);
    }
  }

  lemma AskedAgain(s: ManagerState, id: uint32, client: ClientKey, t0: nat)
    requires Waiting(s, id, client) && t0 + SILENCE_TIMEOUT_MS < TWO64
    ensures Waiting(Guarded(Guarded(s, Sign(client, Touched, t0)), Process(t0 + SILENCE_TIMEOUT_MS)), id, client)
  {
    AskedOnce(s, id, client, t0);
    var t := Guarded(s, Sign(client, Touched, t0));
    WaitingStep(t, Process(t0 + SILENCE_TIMEOUT_MS), id, client);
  }

  lemma AskedOnce(s: ManagerState, id: uint32, client: ClientKey, t0: nat)
    requires Waiting(s, id, client) && t0 + SILENCE_TIMEOUT_MS < TWO64
    ensures Waiting(Guarded(s, Sign(client, Touched, t0)), id, client)
    ensures Guarded(s, Sign(client, Touched, t0)).records[id].rec.deadline == t0 + SILENCE_TIMEOUT_MS
  {
    WaitingFound(s, id, client);
    NextKeepsInv(s, Sign(client, Touched, t0));
    assert Next(s, Sign(client, Touched, t0)).records == OnPeer(s.records, client, Touched, t0).0;
  }

  // ----- How a browse ends -----

  /** What has become of a browse, told from its events alone: still running, with so many listings to come (none
      known yet before the directory list) and silence over at `deadline`; or over, its peer perhaps let go. */
  datatype Course = Running(left: Option<int>, deadline: nat) | Over(success: bool, released: bool)

  function SilenceOver(now: uint64): nat {
    (now + 120000) % TWO64
  }

  /** Going on from an answer, unless the 64-bit clock wraps and silence seems over at once. */
  function Answered(left: int, now: uint64): Course {
    var deadline := SilenceOver(now);
    if deadline != 0 && deadline < now then Over(false, false) else Running(Some(left), deadline)
  }

  /** A packet of the peer. */
  function Received(c: Course, sign: BrowseStore.Sign, now: uint64): Course
    requires c.Running?
  {
    match sign
    case Touched => if c.left == None then Running(None, SilenceOver(now)) else c
    case DirectoryList(n) =>
      if c.left != None then c else if n <= 0 then Over(true, false) else Answered(n, now)
    case Listing =>
      if c.left == None || c.left.value <= 1 then Over(true, false) else Answered(c.left.value - 1, now)
    case Failing => Over(false, false)
    case Finishing => c
  }

  function Follow(c: Course, e: Event, client: ClientKey): Course {
    match e
    case Sign(who, sign, now) => if c.Running? && who == client then Received(c, sign, now) else c
    case Forget(who) => if who != client then c else if c.Running? then Over(false, true) else c.(released := true)
    case Process(now) =>
      if c.Over? then c.(released := true)
      else if c.deadline != 0 && c.deadline < now then Over(false, false) else c
    case Start(_, _, _) => c
    case Remove(_) => c
  }

  function Followed(c: Course, events: seq<Event>, client: ClientKey): Course {
    if events == [] then c else Follow(Followed(c, events[..|events| - 1], client), events[|events| - 1], client)
  }

  /** The record of a browse that has taken this course. */
  predicate Shows(rec: Record, c: Course) {
    match c
    case Running(None, d) => rec.state == InProgress && rec.outstanding == -1 && rec.deadline == d
    case Running(Some(n), d) => rec.state == InProgress && rec.outstanding == n >= 1 && rec.deadline == d
    case Over(success, _) => rec.state == if success then Finished else Failed
  }

  /** What the outside world has seen of it. */
  predicate Told(story: seq<Note>, id: uint32, client: ClientKey, c: Course, released: bool) {
    story == [Opened(id, client)]
             + (match c
                case Running(_, _) => []
                case Over(true, _) => [Announced(id, true)]
                case Over(false, _) => [FailureLine(id, client), Announced(id, false)])
             + (if released then [Released(id)] else [])
  }

  /** A browse of `client` that has taken this course. */
  ghost predicate Taken(s: ManagerState, id: uint32, client: ClientKey, c: Course) {
    && Inv(s) && id in s.records && Shows(s.records[id].rec, c)
    && [Opened(id, client)] <= Since(s.log, id)
    && (s.records[id].client == client || (c.Over? && s.records[id].client == 0))
    && (c.Over? && c.released ==> s.records[id].client == 0)
  }

  lemma TakenIsTold(s: ManagerState, id: uint32, client: ClientKey, c: Course)
    requires Taken(s, id, client, c)
    ensures Told(Since(s.log, id), id, client, c, s.records[id].client == 0)
    ensures id != 0 && client != 0
    ensures s.records[id].client != 0 ==> FindFor(s.records, client) == Some(id)
  {
    assert Agrees(s, id);
  }

  lemma WaitingIsTaken(s: ManagerState, id: uint32, client: ClientKey)
    requires Waiting(s, id, client)
    ensures Taken(s, id, client, Running(None, s.records[id].rec.deadline))
  {
    assert Agrees(s, id);
  }

  lemma CountingIsTaken(s: ManagerState, id: uint32, client: ClientKey)
    requires Counting(s, id, client)
    ensures Taken(s, id, client, Running(Some(s.records[id].rec.outstanding), s.records[id].rec.deadline))
  {
    assert Agrees(s, id);
  }

  lemma RecordFollows(m: Records, e: Event, id: uint32, client: ClientKey, c: Course)
    requires FindFor(m, client) == Some(id) && Shows(m[id].rec, c) && c.Running? && e != Event.Remove(id)
    requires e.Sign? && e.client == client && (e.sign == Touched || e.sign.DirectoryList?) ==> c.left == None
    requires e.Sign? ==> e.sign != Finishing
    ensures var d, after := Follow(c, e, client), StepRecords(m, e);
            && id in after && Shows(after[id].rec, d)
            && after[id].client == if d.Over? && d.released then 0 else client
  {
    match e
    case Sign(who, sign, now) =>
      assert FindFor(m, who) == Some(id) <==> who == client;
    case Forget(who) =>
      assert FindFor(m, who) == Some(id) <==> who == client;
    case _ =>
  }

  /** An ended browse loses its peer at the next tick, when the peer goes, or to a new browse of that peer. */
  lemma EndedIsLetGo(m: Records, e: Event, id: uint32, client: ClientKey)
    requires id in m && m[id].rec.state != InProgress && e != Event.Remove(id)
    requires m[id].client == 0 || (m[id].client == client && FindFor(m, client) == Some(id))
    requires e.Sign? && e.client == m[id].client ==> !e.sign.DirectoryList? && e.sign != Listing
    ensures var after := StepRecords(m, e);
            && id in after && after[id].rec == m[id].rec
            && (after[id].client == m[id].client || after[id].client == 0)
            && (e == Event.Forget(client) || e.Process? ==> after[id].client == 0)
            && (after[id].client != m[id].client ==>
                  e == Event.Forget(client) || e.Process? || (e.Start? && e.client == client))
  {
    match e
    case Sign(who, sign, now) =>
    case Forget(who) =>
      assert m[id].client != 0 ==> (FindFor(m, who) == Some(id) <==> who == client);
    case Start(who, _, _) =>
      assert m[id].client != 0 ==> (FindFor(m, who) == Some(id) <==> who == client);
    case _ =>
  }

  lemma CourseFollowed(s: ManagerState, e: Event, id: uint32, client: ClientKey, c: Course)
    requires Taken(s, id, client, c) && e != Event.Remove(id)
    ensures Taken(Guarded(s, e), id, client, Follow(c, e, client))
    ensures Guarded(s, e).records[id].client == 0 ==>
              s.records[id].client == 0 || (e.Start? && e.client == client) || Follow(c, e, client).released
  {
    TakenIsTold(s, id, client, c);
    if Admitted(s, e) {
      NextKeepsInv(s, e);
      NextRecords(s, e);
      StoryGrows(s, e, id);
      if c.Running? {
        RecordFollows(s.records, e, id, client, c);
      } else {
        EndedIsLetGo(s.records, e, id, client);
      }
    } else {
      assert Follow(c, e, client) == c;
    }
  }

  predicate StartsAgain(events: seq<Event>, client: ClientKey) {
    exists i :: 0 <= i < |events| && events[i].Start? && events[i].client == client
  }

  /** Over every guarded run short of its removal, a browse takes the course its events alone tell: it is a success
      exactly if an empty directory list or the last listing came in time, and a failure exactly if before that it
      was denied, its peer went, or silence was noticed. The outside world is told just so. Its peer is let go once
      it is over and the timer ticks or the peer goes, and else only for a new browse of that peer. */
  lemma {:induction false} HowItEnds(s: ManagerState, events: seq<Event>, id: uint32, client: ClientKey, c: Course)
    requires Taken(s, id, client, c) && forall i | 0 <= i < |events| :: events[i] != Event.Remove(id)
    ensures var t, d := GuardedRun(s, events), Followed(c, events, client);
            && id in t.records && Shows(t.records[id].rec, d)
            && Told(Since(t.log, id), id, client, d, t.records[id].client == 0)
            && (d.Over? && d.released ==> t.records[id].client == 0)
            && (t.records[id].client == 0 ==>
                  s.records[id].client == 0 || (d.Over? && d.released) || StartsAgain(events, client))
    ensures Taken(GuardedRun(s, events), id, client, Followed(c, events, client))
    decreases |events|
  {
    if events != [] {
      var k := |events| - 1;
      HowItEnds(s, events[..k], id, client, c);
      CourseFollowed(GuardedRun(s, events[..k]), events[k], id, client, Followed(c, events[..k], client));
      if StartsAgain(events[..k], client) {
        var i :| 0 <= i < k && events[..k][i].Start? && events[..k][i].client == client;
        assert events[i].Start?;
      }
    }
    TakenIsTold(GuardedRun(s, events), id, client, Followed(c, events, client));
  }
}
