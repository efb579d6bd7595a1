/** Every browse the core is tracking, and the rules about them (src/BrowseStore.cpp). */
module BrowseStore {
  import opened Common
  import opened BrowseLifecycle

  datatype Effect = Nothing | Announce | AnnounceFailure | ReleaseClient

  datatype Outcome = Outcome(searchId: uint32, effect: Effect)

  const NO_OUTCOME := Outcome(0, Nothing)

  datatype StartResult = StartResult(started: bool, displaced: Outcome)

  /** The opaque stand-in for a peer: its address, with 0 for none. */
  type ClientKey = nat

  datatype Held = Held(rec: Record, client: ClientKey)

  type Records = map<uint32, Held>

  // ----- What each operation does, as a function of the records -----

  function ApplyTo(held: Held, action: Action): (Held, Effect) {
    if action == Drop then
      if held.client == 0 then (held, Nothing) else (held.(client := 0), ReleaseClient)
    else
      var rec := ApplyAction(held.rec, action);
      var after := held.(rec := rec);
      if rec.state == held.rec.state then (after, Nothing)
      else if rec.state == Failed then (after, AnnounceFailure)
      else (after, Announce)
  }

  /** The things that can happen to the browse a given peer is attached to. */
  datatype Sign = Touched | DirectoryList(dirCount: int) | Listing | Failing | Finishing

  function React(held: Held, sign: Sign, now: uint64): (Held, Effect) {
    match sign
    case Touched =>
      (if held.rec.state == InProgress then held.(rec := held.rec.(deadline := Deadline(now))) else held, Nothing)
    case DirectoryList(dirCount) =>
      var rec := OnDirectoryList(held.rec, dirCount, Deadline(now));
      ApplyTo(held.(rec := rec), Tick(rec, now))
    case Listing =>
      var rec := OnListingReceived(held.rec, Deadline(now));
      ApplyTo(held.(rec := rec), Tick(rec, now))
    case Failing => ApplyTo(held, Expire)
    case Finishing => ApplyTo(held, Complete)
  }

  ghost function Naming(m: Records, client: ClientKey): set<uint32> {
    set id | id in m && m[id].client == client
  }

  /** The first record, in ascending order of search ID, that names the peer. */
  ghost function FindFor(m: Records, client: ClientKey): (r: Option<uint32>)
    ensures r.None? <==> client == 0 || forall id | id in m :: m[id].client != client
    ensures r.Some? ==> r.value in m && m[r.value].client == client
                        && forall id | id in m && m[id].client == client :: r.value <= id
  {
    if client == 0 || Naming(m, client) == {} then
      assert client != 0 ==> forall id | id in m :: m[id].client == client ==> id in Naming(m, client);
      None
    else
      var k: uint32 := Least(Naming(m, client));
      assert forall id | id in m && m[id].client == client :: id in Naming(m, client);
      Some(k)
  }

  ghost function OnPeer(m: Records, client: ClientKey, sign: Sign, now: uint64): (Records, Outcome) {
    match FindFor(m, client)
    case None => (m, NO_OUTCOME)
    case Some(id) =>
      var (held, effect) := React(m[id], sign, now);
      (m[id := held], Outcome(id, effect))
  }

  function NewRecord(searchId: uint32, now: uint64): Record {
    Record(searchId, InProgress, FLAT_BROWSE, 0, Deadline(now))
  }

  ghost function StartStep(m: Records, client: ClientKey, searchId: uint32, now: uint64): (Records, StartResult) {
    var refused := (m, StartResult(false, NO_OUTCOME));
    if client == 0 || searchId == 0 || searchId in m then refused
    else
      var held := Held(NewRecord(searchId, now), client);
      match FindFor(m, client)
      case None => (m[searchId := held], StartResult(true, NO_OUTCOME))
      case Some(prior) =>
        if m[prior].rec.state == InProgress then refused
        else (m[prior := m[prior].(client := 0)][searchId := held], StartResult(true, Outcome(prior, ReleaseClient)))
  }

  ghost function ForgetStep(m: Records, client: ClientKey): (Records, seq<Outcome>) {
    match FindFor(m, client)
    case None => (m, [])
    case Some(id) =>
      var (held, effect) := ApplyTo(m[id], Expire);
      (m[id := held.(client := 0)],
       (if m[id].rec.state == InProgress then [Outcome(id, effect)] else []) + [Outcome(id, ReleaseClient)])
  }

  function TickHeld(held: Held, now: uint64): (Held, Effect) {
    ApplyTo(held, Tick(held.rec, now))
  }

  function TickRecords(m: Records, now: uint64): Records {
    map id | id in m :: TickHeld(m[id], now).0
  }

  /** What a tick reports about the records in `ids`, in ascending order of search ID. */
  ghost function TickOutcomes(m: Records, ids: set<uint32>, now: uint64): seq<Outcome>
    requires ids <= m.Keys
    decreases |ids|
  {
    if ids == {} then []
    else
      var id: uint32 := Least(ids);
      var effect := TickHeld(m[id], now).1;
      (if effect == Nothing then [] else [Outcome(id, effect)]) + TickOutcomes(m, ids - {id}, now)
  }

  /** A tick reports in ascending order of search ID: the running browses it ends, as a success if nothing is left to
      come and as a failure if silence is over, and the release of the ended ones. */
  lemma {:induction false} TickReports(m: Records, ids: set<uint32>, now: uint64)
    requires ids <= m.Keys
    ensures var out := TickOutcomes(m, ids, now);
            && (forall i, j | 0 <= i < j < |out| :: out[i].searchId < out[j].searchId)
            && forall id, effect :: Outcome(id, effect) in out <==>
                 id in ids && effect != Nothing && effect ==
                   var (rec, client) := (m[id].rec, m[id].client);
                   if rec.state != InProgress then if client != 0 then ReleaseClient else Nothing
                   else if rec.outstanding == 0 then Announce
                   else if 0 < rec.deadline < now then AnnounceFailure
                   else Nothing
    decreases |ids|
  {
    if ids != {} {
      var id: uint32 := Least(ids);
      TickReports(m, ids - {id}, now);
    }
  }

  /** At most one record names any given peer, so a lookup by peer has one answer. */
  ghost predicate OnePeerEach(m: Records) {
    forall i, j | i in m && j in m && m[i].client == m[j].client != 0 :: i == j
  }

  lemma OnPeerKeepsOnePeerEach(m: Records, client: ClientKey, sign: Sign, now: uint64)
    requires OnePeerEach(m)
    ensures OnePeerEach(OnPeer(m, client, sign, now).0)
  {}

  lemma StartKeepsOnePeerEach(m: Records, client: ClientKey, searchId: uint32, now: uint64)
    requires OnePeerEach(m)
    ensures OnePeerEach(StartStep(m, client, searchId, now).0)
  {}

  // ----- The same, record by record -----

  /** The peer's running browse, if it has one, is now in `state`, and `effect` says so. */
  ghost predicate EndedAs(m: Records, client: ClientKey, state: State, effect: Effect, after: Records, out: Outcome) {
    match FindFor(m, client)
    case None => after == m && out.effect == Nothing
    case Some(id) =>
      if m[id].rec.state != InProgress then after == m && out.effect == Nothing
      else after == m[id := Held(m[id].rec.(state := state), client)] && out == Outcome(id, effect)
  }

  /** The peer is named no more; a browse of it that was running has failed, and that is reported first. */
  ghost predicate Forgotten(m: Records, client: ClientKey, after: Records, out: seq<Outcome>) {
    match FindFor(m, client)
    case None => after == m && out == []
    case Some(id) =>
      if m[id].rec.state != InProgress
      then after == m[id := Held(m[id].rec, 0)] && out == [Outcome(id, ReleaseClient)]
      else && after == m[id := Held(m[id].rec.(state := Failed), 0)]
           && out == [Outcome(id, AnnounceFailure), Outcome(id, ReleaseClient)]
  }

  /** A browse may start unless its ID is taken or the peer has one running; an ended one lets go of the peer. */
  lemma StartsUnlessBusy(m: Records, client: ClientKey, searchId: uint32, now: uint64)
    requires OnePeerEach(m)
    ensures var (after, result) := StartStep(m, client, searchId, now);
            && (result.started <==>
                  && client != 0 && searchId != 0 && searchId !in m
                  && forall id | id in m && m[id].client == client :: m[id].rec.state != InProgress)
            && (!result.started ==> after == m && result.displaced.effect == Nothing)
            && (result.started ==>
                  && after.Keys == m.Keys + {searchId}
                  && after[searchId] == Held(Record(searchId, InProgress, -1, 0, (now + 120000) % TWO64), client)
                  && (forall id | id in m ::
                        after[id] == Held(m[id].rec, if m[id].client == client then 0 else m[id].client))
                  && (if exists id :: id in m && m[id].client == client
                      then result.displaced.searchId in m && m[result.displaced.searchId].client == client
                           && result.displaced.effect == ReleaseClient
                      else result.displaced.effect == Nothing))
  {}

  // ----- The store itself -----

  lemma TickOutcomesFirst(m: Records, ids: set<uint32>, now: uint64, out: seq<Outcome>)
    requires ids <= m.Keys && ids != {}
    ensures var id: uint32 := Least(ids);
            var effect := TickHeld(m[id], now).1;
            out + TickOutcomes(m, ids, now) ==
              (if effect == Nothing then out else out + [Outcome(id, effect)]) + TickOutcomes(m, ids - {id}, now)
  {
    var id: uint32 := Least(ids);
    var effect, rest := TickHeld(m[id], now).1, TickOutcomes(m, ids - {id}, now);
    assert out + ([Outcome(id, effect)] + rest) == (out + [Outcome(id, effect)]) + rest;
    assert [] + rest == rest;
  }

  class Store {
    var records: Records

    constructor ()
      ensures records == map[]
    {
      records := map[];
    }

    method Find(client: ClientKey) returns (r: Option<uint32>)
      ensures r == FindFor(records, client)
    {
      if client == 0 {
        return None;
      }
      var todo := records.Keys;
      while todo != {}
        invariant todo <= records.Keys
        invariant forall id | id in records.Keys - todo :: records[id].client != client
        invariant forall id, j | id in records.Keys - todo && j in todo :: id < j
      {
        var id := NextKey(todo);
        if records[id].client == client {
          return Some(id);
        }
        assert forall i | i in records.Keys - (todo - {id}) :: i == id || i in records.Keys - todo;
        todo := todo - {id};
      }
      return None;
    }

    method Apply(id: uint32, action: Action) returns (effect: Effect)
      requires id in records
      modifies this
      ensures (records, effect) == var (h, e) := ApplyTo(old(records)[id], action); (old(records)[id := h], e)
    {
      var held := records[id];
      if action == Drop {
        if held.client == 0 {
          assert records == records[id := held];
          return Nothing;
        }
        records := records[id := held.(client := 0)];
        return ReleaseClient;
      }
      var before := held.rec.state;
      held := held.(rec := ApplyAction(held.rec, action));
      records := records[id := held];
      if held.rec.state == before {
        return Nothing;
      }
      return if held.rec.state == Failed then AnnounceFailure else Announce;
    }

    method Start(client: ClientKey, searchId: uint32, now: uint64) returns (result: StartResult)
      modifies this
      ensures (records, result) == StartStep(old(records), client, searchId, now)
    {
      result := StartResult(false, NO_OUTCOME);
      if client == 0 || searchId == 0 || searchId in records {
        return;
      }
      var existing := Find(client);
      if existing.Some? {
        var held := records[existing.value];
        if held.rec.state == InProgress {
          return;
        }
        records := records[existing.value := held.(client := 0)];
        result := result.(displaced := Outcome(existing.value, ReleaseClient));
      }
      records := records[searchId := Held(NewRecord(searchId, now), client)];
      result := result.(started := true);
    }

    method Touch(client: ClientKey, now: uint64)
      modifies this
      ensures records == OnPeer(old(records), client, Touched, now).0
    {
      var it := Find(client);
      if it.Some? {
        var held := records[it.value];
        if held.rec.state == InProgress {
          records := records[it.value := held.(rec := held.rec.(deadline := Deadline(now)))];
        } else {
          assert records == records[it.value := held];
        }
      }
    }

    method DirectoryListArrived(client: ClientKey, dirCount: int, now: uint64) returns (outcome: Outcome)
      modifies this
      ensures (records, outcome) == OnPeer(old(records), client, DirectoryList(dirCount), now)
    {
      var it := Find(client);
      if it.None? {
        return NO_OUTCOME;
      }
      var held := records[it.value];
      held := held.(rec := OnDirectoryList(held.rec, dirCount, Deadline(now)));
      records := records[it.value := held];
      var effect := Apply(it.value, Tick(held.rec, now));
      assert old(records)[it.value := held][it.value := records[it.value]]
            == old(records)[it.value := records[it.value]];
      return Outcome(it.value, effect);
    }

    method ListingArrived(client: ClientKey, now: uint64) returns (outcome: Outcome)
      modifies this
      ensures (records, outcome) == OnPeer(old(records), client, Listing, now)
    {
      var it := Find(client);
      if it.None? {
        return NO_OUTCOME;
      }
      var held := records[it.value];
      held := held.(rec := OnListingReceived(held.rec, Deadline(now)));
      records := records[it.value := held];
      var effect := Apply(it.value, Tick(held.rec, now));
      assert old(records)[it.value := held][it.value := records[it.value]]
            == old(records)[it.value := records[it.value]];
      return Outcome(it.value, effect);
    }

    method Fail(client: ClientKey) returns (outcome: Outcome)
      modifies this
      ensures (records, outcome) == OnPeer(old(records), client, Failing, 0)
      ensures EndedAs(old(records), client, Failed, AnnounceFailure, records, outcome)
    {
      var it := Find(client);
      if it.None? {
        return NO_OUTCOME;
      }
      var effect := Apply(it.value, Expire);
      return Outcome(it.value, effect);
    }

    method Finish(client: ClientKey) returns (outcome: Outcome)
      modifies this
      ensures (records, outcome) == OnPeer(old(records), client, Finishing, 0)
      ensures EndedAs(old(records), client, Finished, Announce, records, outcome)
    {
      var it := Find(client);
      if it.None? {
        return NO_OUTCOME;
      }
      var effect := Apply(it.value, Complete);
      return Outcome(it.value, effect);
    }

    method Forget(client: ClientKey) returns (out: seq<Outcome>)
      modifies this
      ensures (records, out) == ForgetStep(old(records), client)
      ensures Forgotten(old(records), client, records, out)
    {
      out := [];
      var it := Find(client);
      if it.None? {
        return;
      }
      if records[it.value].rec.state == InProgress {
        var effect := Apply(it.value, Expire);
        out := [Outcome(it.value, effect)];
      }
      records := records[it.value := records[it.value].(client := 0)];
      assert records == old(records)[it.value := records[it.value]];
      out := out + [Outcome(it.value, ReleaseClient)];
    }

    method Remove(searchId: uint32)
      modifies this
      ensures records == old(records) - {searchId}
    {
      records := records - {searchId};
    }

    method TickAll(now: uint64) returns (out: seq<Outcome>)
      modifies this
      ensures records == TickRecords(old(records), now)
      ensures out == TickOutcomes(old(records), old(records).Keys, now)
    {
      out := [];
      var todo := records.Keys;
      while todo != {}
        invariant todo <= records.Keys == old(records).Keys
        invariant forall id | id in records ::
                    records[id] == if id in todo then old(records)[id] else TickHeld(old(records)[id], now).0
        invariant out + TickOutcomes(old(records), todo, now) == TickOutcomes(old(records), old(records).Keys, now)
      {
        var id: uint32 := NextKey(todo);
        TickOutcomesFirst(old(records), todo, now, out);
        var effect := Apply(id, Tick(records[id].rec, now));
        if effect != Nothing {
          out := out + [Outcome(id, effect)];
        }
        todo := todo - {id};
      }
    }
  }
}
