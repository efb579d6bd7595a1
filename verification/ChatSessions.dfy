/** The chat history the core keeps for its clients (src/ChatSessionStore.cpp): a bounded list of conversations, the
    most recently active first, with message ids that run through all of them. */
module ChatSessions {
  import opened Common

  const MAX_MESSAGES: nat := 200
  const MAX_SESSIONS: nat := 50
  const MAX_ID: nat := 0xffff_ffff

  datatype Message = Message(id: nat, incoming: bool, timestamp: nat, text: string)

  datatype Session = Session(guiId: nat, name: string, lastActivity: nat, messages: seq<Message>)

  datatype Store = Store(sessions: seq<Session>, lastMsgId: nat)

  /** What is said in a conversation: outgoing messages carry no name. */
  datatype Said = Said(guiId: nat, name: string, incoming: bool, text: string, now: nat)

  function LastIdOf(s: Session): nat {
    if s.messages == [] then 0 else s.messages[|s.messages| - 1].id
  }

  // ----- The operations -----

  /** Where a conversation is in the list, or its length. */
  function IndexOf(sessions: seq<Session>, guiId: nat): (i: nat)
    ensures i <= |sessions|
    ensures i < |sessions| ==> sessions[i].guiId == guiId
    ensures forall j | 0 <= j < i :: sessions[j].guiId != guiId
  {
    if sessions == [] || sessions[0].guiId == guiId then 0 else 1 + IndexOf(sessions[1..], guiId)
  }

  /** At most `n` elements from the front; from the back. */
  function Front<T>(s: seq<T>, n: nat): seq<T> {
    if |s| <= n then s else s[..n]
  }

  function Back<T>(s: seq<T>, n: nat): seq<T> {
    if |s| <= n then s else s[|s| - n..]
  }

  function WithoutAt<T>(s: seq<T>, i: nat): seq<T>
    requires i < |s|
  {
    s[..i] + s[i + 1..]
  }

  function Touched(sessions: seq<Session>, guiId: nat, name: string, now: nat): (touched: seq<Session>)
    ensures touched != [] && touched[0].guiId == guiId
  {
    var i := IndexOf(sessions, guiId);
    if i < |sessions| then
      var s := sessions[i];
      [s.(name := if name != "" then name else s.name, lastActivity := now)] + WithoutAt(sessions, i)
    else Front([Session(guiId, name, now, [])] + sessions, MAX_SESSIONS)
  }

  /** The id is 32 bits wide; 0 stands for no message. */
  function NextId(id: nat): nat {
    (id + 1) % TWO32
  }

  /** What a conversation keeps: the last `cap` messages, or all of them without a cap. */
  function Capped(messages: seq<Message>, cap: Option<nat>): seq<Message> {
    match cap case None => messages case Some(n) => Back(messages, n)
  }

  function Added(s: Store, said: Said, cap: Option<nat>): Store {
    var touched := Touched(s.sessions, said.guiId, said.name, said.now);
    var id := NextId(s.lastMsgId);
    var messages := Capped(touched[0].messages + [Message(id, said.incoming, said.now, said.text)], cap);
    Store([touched[0].(messages := messages)] + touched[1..], id)
  }

  function Closed(s: Store, guiId: nat): Store {
    var i := IndexOf(s.sessions, guiId);
    if i < |s.sessions| then s.(sessions := WithoutAt(s.sessions, i)) else s
  }

  // ----- Order -----

  ghost predicate SessionOk(s: Session, lastMsgId: nat) {
    && 0 < |s.messages| <= MAX_MESSAGES
    && (forall i | 0 <= i < |s.messages| :: 0 < s.messages[i].id <= lastMsgId)
    && forall i, j | 0 <= i < j < |s.messages| :: s.messages[i].id < s.messages[j].id
  }

  ghost predicate NoSharedIds(a: Session, b: Session) {
    forall i, j | 0 <= i < |a.messages| && 0 <= j < |b.messages| :: a.messages[i].id != b.messages[j].id
  }

  /** `a` comes before `b`: another conversation, active more recently, with messages of its own. */
  ghost predicate Precedes(a: Session, b: Session) {
    a.guiId != b.guiId && LastIdOf(a) > LastIdOf(b) && NoSharedIds(a, b)
  }

  ghost predicate StoreOk(s: Store) {
    && |s.sessions| <= MAX_SESSIONS
    && (forall i | 0 <= i < |s.sessions| :: SessionOk(s.sessions[i], s.lastMsgId))
    && forall i, j | 0 <= i < j < |s.sessions| :: Precedes(s.sessions[i], s.sessions[j])
  }

  lemma RemovedOk(s: Store, i: nat)
    requires StoreOk(s) && i < |s.sessions|
    ensures StoreOk(s.(sessions := WithoutAt(s.sessions, i)))
    ensures forall k | 0 <= k < |s.sessions| - 1 :: WithoutAt(s.sessions, i)[k].guiId != s.sessions[i].guiId
    ensures forall k | 0 <= k < |s.sessions| - 1 :: NoSharedIds(s.sessions[i], WithoutAt(s.sessions, i)[k])
  {
    var all, rest := s.sessions, WithoutAt(s.sessions, i);
    assert forall k | 0 <= k < |rest| :: rest[k] == all[if k < i then k else k + 1];
    forall j, k | 0 <= j < k < |rest| ensures Precedes(rest[j], rest[k]) {
      assert Precedes(all[if j < i then j else j + 1], all[if k < i then k else k + 1]);
    }
    forall k | 0 <= k < |rest|
      ensures SessionOk(rest[k], s.lastMsgId) && rest[k].guiId != all[i].guiId && NoSharedIds(all[i], rest[k])
    {
      assert SessionOk(all[if k < i then k else k + 1], s.lastMsgId);
      assert if k < i then Precedes(all[k], all[i]) else Precedes(all[i], all[k + 1]);
      assert k < i ==> NoSharedIds(all[k], all[i]);
    }
  }

  /** Closing removes exactly the one conversation. */
  lemma ClosedOk(s: Store, guiId: nat)
    requires StoreOk(s)
    ensures StoreOk(Closed(s, guiId)) && Closed(s, guiId).lastMsgId == s.lastMsgId
    ensures forall k | 0 <= k < |Closed(s, guiId).sessions| :: Closed(s, guiId).sessions[k].guiId != guiId
  {
    var i := IndexOf(s.sessions, guiId);
    if i < |s.sessions| {
      RemovedOk(s, i);
    }
  }

  /** What a conversation may be put in front of. */
  ghost predicate Behind(s: Store, first: Session, rest: seq<Session>) {
    && StoreOk(Store(rest, s.lastMsgId)) && |rest| < MAX_SESSIONS
    && (first.messages == [] || SessionOk(first, s.lastMsgId))
    && forall k | 0 <= k < |rest| :: rest[k].guiId != first.guiId && NoSharedIds(first, rest[k])
  }

  lemma TouchedBehind(s: Store, guiId: nat, name: string, now: nat)
    requires StoreOk(s)
    ensures var t := Touched(s.sessions, guiId, name, now); Behind(s, t[0], t[1..])
  {
    var t, i := Touched(s.sessions, guiId, name, now), IndexOf(s.sessions, guiId);
    if i < |s.sessions| {
      RemovedOk(s, i);
      assert t[1..] == WithoutAt(s.sessions, i);
      MovedBehind(s, i, t[0]);
    } else {
      var kept := Front(s.sessions, MAX_SESSIONS - 1);
      assert t[1..] == kept;
      assert forall k | 0 <= k < |kept| :: kept[k] == s.sessions[k];
    }
  }

  lemma MovedBehind(s: Store, i: nat, first: Session)
    requires StoreOk(s) && i < |s.sessions|
    requires first.guiId == s.sessions[i].guiId && first.messages == s.sessions[i].messages
    ensures Behind(s, first, WithoutAt(s.sessions, i))
  {
    RemovedOk(s, i);
    assert SessionOk(s.sessions[i], s.lastMsgId);
    var rest := WithoutAt(s.sessions, i);
    forall k | 0 <= k < |rest| ensures NoSharedIds(first, rest[k]) {
      assert NoSharedIds(s.sessions[i], rest[k]);
    }
  }

  /** A new message, with an id above all others, brings its conversation to the front. */
  lemma AppendedOk(s: Store, first: Session, rest: seq<Session>, m: Message)
    requires Behind(s, first, rest) && m.id == s.lastMsgId + 1
    ensures var front := first.(messages := Back(first.messages + [m], MAX_MESSAGES));
            SessionOk(front, m.id) && StoreOk(Store([front] + rest, m.id))
  {
    var front := first.(messages := Back(first.messages + [m], MAX_MESSAGES));
    AppendedSessionOk(first, m);
    var all := [front] + rest;
    forall k | 0 <= k < |rest| ensures SessionOk(rest[k], m.id) && Precedes(front, rest[k]) {
      assert SessionOk(rest[k], s.lastMsgId);
      NotSharedAfter(first, m, rest[k]);
    }
    forall j, k | 0 <= j < k < |all| ensures Precedes(all[j], all[k]) {
      assert j > 0 ==> Precedes(rest[j - 1], rest[k - 1]);
    }
  }

  lemma AppendedSessionOk(first: Session, m: Message)
    requires m.id > 0 && (first.messages == [] || SessionOk(first, m.id - 1))
    ensures SessionOk(first.(messages := Back(first.messages + [m], MAX_MESSAGES)), m.id)
    ensures LastIdOf(first.(messages := Back(first.messages + [m], MAX_MESSAGES))) == m.id
  {
  }

  lemma NotSharedAfter(first: Session, m: Message, other: Session)
    requires NoSharedIds(first, other) && m.id > 0 && SessionOk(other, m.id - 1)
    ensures NoSharedIds(first.(messages := Back(first.messages + [m], MAX_MESSAGES)), other)
  {}

  /** A message keeps the order for as long as ids do not run out, and no longer. */
  lemma AddedOk(s: Store, said: Said)
    requires StoreOk(s) && s.lastMsgId <= MAX_ID
    ensures StoreOk(Added(s, said, Some(MAX_MESSAGES))) <==> s.lastMsgId < MAX_ID
    ensures s.lastMsgId < MAX_ID ==> Added(s, said, Some(MAX_MESSAGES)).lastMsgId == s.lastMsgId + 1
  {
    var t := Touched(s.sessions, said.guiId, said.name, said.now);
    var m := Message(NextId(s.lastMsgId), said.incoming, said.now, said.text);
    if s.lastMsgId < MAX_ID {
      TouchedBehind(s, said.guiId, said.name, said.now);
      AppendedOk(s, t[0], t[1..], m);
    } else {
      var after := Added(s, said, Some(MAX_MESSAGES));
      var kept := after.sessions[0].messages;
      assert kept[|kept| - 1] == m && m.id == 0;
      assert !SessionOk(after.sessions[0], after.lastMsgId);
    }
  }

  // ----- Whole runs -----

  datatype Event = Say(said: Said) | Close(guiId: nat)

  ghost function Next(s: Store, e: Event, cap: Option<nat>): Store {
    match e case Say(said) => Added(s, said, cap) case Close(guiId) => Closed(s, guiId)
  }

  /** A run from the empty store. */
  ghost function Run(events: seq<Event>, cap: Option<nat>): Store {
    if events == [] then Store([], 0) else Next(Run(events[..|events| - 1], cap), events[|events| - 1], cap)
  }

  ghost function MessageCount(events: seq<Event>): nat {
    if events == [] then 0 else MessageCount(events[..|events| - 1]) + if events[|events| - 1].Say? then 1 else 0
  }

  /** In every run with fewer messages than there are ids: distinct conversations, strictly the most recently
      active first, and message ids that never repeat anywhere. */
  lemma {:induction false} RunOk(events: seq<Event>)
    requires MessageCount(events) <= MAX_ID
    ensures StoreOk(Run(events, Some(MAX_MESSAGES)))
            && Run(events, Some(MAX_MESSAGES)).lastMsgId == MessageCount(events)
    decreases |events|
  {
    if events != [] {
      var before, e := events[..|events| - 1], events[|events| - 1];
      RunOk(before);
      match e
      case Say(said) => AddedOk(Run(before, Some(MAX_MESSAGES)), said);
      case Close(guiId) => ClosedOk(Run(before, Some(MAX_MESSAGES)), guiId);
    }
  }

  // ----- What a conversation holds -----

  /** The same conversations, `a` keeping the last messages of what `b` keeps. */
  ghost predicate Abridges(a: seq<Session>, b: seq<Session>, cap: nat) {
    && |a| == |b|
    && forall i | 0 <= i < |a| :: a[i] == b[i].(messages := Back(b[i].messages, cap))
  }

  lemma BackBack<T>(s: seq<T>, m: T, cap: nat)
    ensures Back(Back(s, cap) + [m], cap) == Back(s + [m], cap)
  {
  }

  lemma {:induction false} SameIndex(a: seq<Session>, b: seq<Session>, cap: nat, guiId: nat)
    requires Abridges(a, b, cap)
    ensures IndexOf(a, guiId) == IndexOf(b, guiId)
  {
  }

  lemma RemovedAbridges(a: seq<Session>, b: seq<Session>, cap: nat, i: nat)
    requires Abridges(a, b, cap) && i < |a|
    ensures Abridges(WithoutAt(a, i), WithoutAt(b, i), cap)
  {}

  lemma PushedAbridges(a: seq<Session>, b: seq<Session>, cap: nat, s: Session, t: Session, n: nat)
    requires Abridges(a, b, cap) && s == t.(messages := Back(t.messages, cap))
    ensures Abridges(Front([s] + a, n), Front([t] + b, n), cap)
  {
    var x, y := Front([s] + a, n), Front([t] + b, n);
    forall i | 0 <= i < |x| ensures x[i] == y[i].(messages := Back(y[i].messages, cap)) {
      if i > 0 {
        assert x[i] == a[i - 1] && y[i] == b[i - 1];
      }
    }
  }

  lemma TouchedAbridges(a: seq<Session>, b: seq<Session>, cap: nat, guiId: nat, name: string, now: nat)
    requires Abridges(a, b, cap)
    ensures Abridges(Touched(a, guiId, name, now), Touched(b, guiId, name, now), cap)
  {
    SameIndex(a, b, cap, guiId);
    var i := IndexOf(a, guiId);
    if i < |a| {
      RemovedAbridges(a, b, cap, i);
      var s := Touched(a, guiId, name, now)[0];
      PushedAbridges(WithoutAt(a, i), WithoutAt(b, i), cap, s, Touched(b, guiId, name, now)[0], |a|);
    } else {
      var s := Session(guiId, name, now, []);
      PushedAbridges(a, b, cap, s, s, MAX_SESSIONS);
    }
  }

  lemma AddedAbridges(a: Store, b: Store, cap: nat, said: Said)
    requires Abridges(a.sessions, b.sessions, cap) && a.lastMsgId == b.lastMsgId
    ensures Abridges(Added(a, said, Some(cap)).sessions, Added(b, said, None).sessions, cap)
  {
    TouchedAbridges(a.sessions, b.sessions, cap, said.guiId, said.name, said.now);
    var m := Message(NextId(a.lastMsgId), said.incoming, said.now, said.text);
    BackBack(Touched(b.sessions, said.guiId, said.name, said.now)[0].messages, m, cap);
  }

  lemma ClosedAbridges(a: Store, b: Store, cap: nat, guiId: nat)
    requires Abridges(a.sessions, b.sessions, cap)
    ensures Abridges(Closed(a, guiId).sessions, Closed(b, guiId).sessions, cap)
  {
    SameIndex(a.sessions, b.sessions, cap, guiId);
    var i := IndexOf(a.sessions, guiId);
    if i < |a.sessions| {
      RemovedAbridges(a.sessions, b.sessions, cap, i);
    }
  }

  /** The cap only ever cuts off the oldest messages: a conversation holds the last 200 of those said in it since it
      was created, and the list is what it would be without the cap. */
  lemma {:induction false} RunAbridges(events: seq<Event>)
    ensures var capped, all := Run(events, Some(MAX_MESSAGES)), Run(events, None);
            Abridges(capped.sessions, all.sessions, MAX_MESSAGES) && capped.lastMsgId == all.lastMsgId
    decreases |events|
  {
    if events != [] {
      var before, e := events[..|events| - 1], events[|events| - 1];
      RunAbridges(before);
      var capped, all := Run(before, Some(MAX_MESSAGES)), Run(before, None);
      match e
      case Say(said) => AddedAbridges(capped, all, MAX_MESSAGES, said);
      case Close(guiId) => ClosedAbridges(capped, all, MAX_MESSAGES, guiId);
    }
  }

  // ----- Which conversations there are -----

  /** The conversations of a run, the most recently touched first. */
  ghost function Recency(run: seq<Said>): seq<nat> {
    if run == [] then []
    else
      var earlier, id := Recency(run[..|run| - 1]), run[|run| - 1].guiId;
      [id] + Without(earlier, id)
  }

  ghost function Without(ids: seq<nat>, id: nat): seq<nat> {
    if ids == [] then []
    else (if ids[0] == id then [] else [ids[0]]) + Without(ids[1..], id)
  }

  lemma {:induction false} WithoutMembers(ids: seq<nat>, id: nat, x: nat)
    ensures x in Without(ids, id) <==> x in ids && x != id
  {
    if ids != [] {
      WithoutMembers(ids[1..], id, x);
    }
  }

  /** The last message to a conversation. */
  ghost function LastTouch(run: seq<Said>, id: nat): (i: int)
    ensures -1 <= i < |run|
    ensures i >= 0 ==> run[i].guiId == id
    ensures forall j | i < j < |run| :: run[j].guiId != id
  {
    if run == [] then -1 else if run[|run| - 1].guiId == id then |run| - 1 else LastTouch(run[..|run| - 1], id)
  }

  ghost predicate ByLastTouch(run: seq<Said>, ids: seq<nat>) {
    forall i, j | 0 <= i < j < |ids| :: LastTouch(run, ids[i]) > LastTouch(run, ids[j])
  }

  lemma {:induction false} WithoutKeepsOrder(run: seq<Said>, ids: seq<nat>, id: nat)
    requires ByLastTouch(run, ids)
    ensures ByLastTouch(run, Without(ids, id))
  {
    if ids != [] {
      assert forall i | 0 <= i < |ids| - 1 :: ids[1..][i] == ids[i + 1];
      WithoutKeepsOrder(run, ids[1..], id);
      var rest := Without(ids[1..], id);
      forall j | 0 <= j < |rest| ensures LastTouch(run, ids[0]) > LastTouch(run, rest[j]) {
        WithoutMembers(ids[1..], id, rest[j]);
      }
    }
  }

  /** Recency lists exactly the conversations touched, by their last touch. */
  lemma {:induction false} RecencyIsByLastTouch(run: seq<Said>)
    ensures ByLastTouch(run, Recency(run))
    ensures forall id :: id in Recency(run) <==> LastTouch(run, id) >= 0
    decreases |run|
  {
    if run != [] {
      var before, last := run[..|run| - 1], run[|run| - 1].guiId;
      RecencyIsByLastTouch(before);
      WithoutKeepsOrder(before, Recency(before), last);
      var rest := Without(Recency(before), last);
      forall id ensures id in Recency(run) <==> LastTouch(run, id) >= 0 {
        WithoutMembers(Recency(before), last, id);
      }
      WithoutMembers(Recency(before), last, last);
      TouchedIsFirst(run, rest);
    }
  }

  /** The conversation just touched goes before all others, whose order is what it was. */
  lemma TouchedIsFirst(run: seq<Said>, rest: seq<nat>)
    requires run != [] && run[|run| - 1].guiId !in rest && ByLastTouch(run[..|run| - 1], rest)
    ensures ByLastTouch(run, [run[|run| - 1].guiId] + rest)
  {
    var before, last := run[..|run| - 1], run[|run| - 1].guiId;
    assert forall i | 0 <= i < |rest| :: LastTouch(run, rest[i]) == LastTouch(before, rest[i]);
    var ids := [last] + rest;
    forall i, j | 0 <= i < j < |ids| ensures LastTouch(run, ids[i]) > LastTouch(run, ids[j]) {
      assert ids[j] == rest[j - 1];
      if i > 0 {
        assert ids[i] == rest[i - 1];
      }
    }
  }

  ghost function Ids(sessions: seq<Session>): (ids: seq<nat>)
    ensures |ids| == |sessions| && forall i | 0 <= i < |ids| :: ids[i] == sessions[i].guiId
  {
    seq(|sessions|, i requires 0 <= i < |sessions| => sessions[i].guiId)
  }

  lemma {:induction false} WithoutAbsent(ids: seq<nat>, id: nat)
    requires id !in ids
    ensures Without(ids, id) == ids
  {
    if ids != [] {
      WithoutAbsent(ids[1..], id);
    }
  }

  lemma {:induction false} WithoutAtIs(ids: seq<nat>, i: nat)
    requires i < |ids| && NoDuplicates(ids)
    ensures Without(ids, ids[i]) == WithoutAt(ids, i)
    decreases i
  {
    var tail := ids[1..];
    assert forall k | 0 <= k < |tail| :: tail[k] == ids[k + 1];
    if i == 0 {
      WithoutAbsent(tail, ids[0]);
    } else {
      WithoutAtIs(tail, i - 1);
      assert WithoutAt(ids, i) == [ids[0]] + WithoutAt(tail, i - 1);
    }
  }

  /** Moving to the front can be done on what is kept, when it is kept; otherwise it comes in new. */
  lemma FrontMoved(ids: seq<nat>, k: nat, n: nat)
    requires k < |ids|
    ensures k < n ==> Front([ids[k]] + WithoutAt(ids, k), n) == [ids[k]] + WithoutAt(Front(ids, n), k)
    ensures k >= n > 0 ==> Front([ids[k]] + WithoutAt(ids, k), n) == Front([ids[k]] + Front(ids, n), n)
  {
  }

  lemma FrontPushed(ids: seq<nat>, id: nat, n: nat)
    requires n > 0
    ensures Front([id] + ids, n) == Front([id] + Front(ids, n), n)
  {
  }

  lemma IdsWithoutAt(sessions: seq<Session>, i: nat)
    requires i < |sessions|
    ensures Ids(WithoutAt(sessions, i)) == WithoutAt(Ids(sessions), i)
  {}

  lemma IdsPushed(first: Session, sessions: seq<Session>, n: nat)
    ensures Ids([first] + sessions) == [first.guiId] + Ids(sessions)
    ensures Ids(Front(sessions, n)) == Front(Ids(sessions), n)
  {
  }

  lemma TouchedIdsAre(sessions: seq<Session>, id: nat, name: string, now: nat)
    ensures var i := IndexOf(sessions, id);
            Ids(Touched(sessions, id, name, now)) ==
            if i < |sessions| then [id] + WithoutAt(Ids(sessions), i) else Front([id] + Ids(sessions), MAX_SESSIONS)
  {
    var i, t := IndexOf(sessions, id), Touched(sessions, id, name, now);
    if i < |sessions| {
      IdsWithoutAt(sessions, i);
      IdsPushed(t[0], WithoutAt(sessions, i), 0);
    } else {
      var added := Session(id, name, now, []);
      IdsPushed(added, sessions, 0);
      IdsPushed(added, [added] + sessions, MAX_SESSIONS);
    }
  }

  lemma {:induction false} PlaceOf(ids: seq<nat>, id: nat) returns (k: nat)
    ensures k <= |ids| && (k < |ids| ==> ids[k] == id) && (k == |ids| ==> id !in ids)
  {
    if id in ids {
      k :| 0 <= k < |ids| && ids[k] == id;
    } else {
      k := |ids|;
    }
  }

  /** A touch moves to the front, or pushes out the last when there is no room. */
  lemma TouchedIds(sessions: seq<Session>, recency: seq<nat>, id: nat, name: string, now: nat)
    requires NoDuplicates(recency) && Ids(sessions) == Front(recency, MAX_SESSIONS)
    ensures Ids(Touched(sessions, id, name, now)) == Front([id] + Without(recency, id), MAX_SESSIONS)
  {
    TouchedIdsAre(sessions, id, name, now);
    var i := IndexOf(sessions, id);
    if i < |sessions| {
      assert recency[i] == Ids(sessions)[i] == id;
      WithoutAtIs(recency, i);
      FrontMoved(recency, i, MAX_SESSIONS);
    } else {
      assert forall j | 0 <= j < |sessions| :: recency[j] == Ids(sessions)[j] == sessions[j].guiId != id;
      var k := PlaceOf(recency, id);
      if k < |recency| {
        WithoutAtIs(recency, k);
        FrontMoved(recency, k, MAX_SESSIONS);
      } else {
        WithoutAbsent(recency, id);
        FrontPushed(recency, id, MAX_SESSIONS);
      }
    }
  }

  ghost function Spoken(run: seq<Said>): (events: seq<Event>)
    ensures |events| == |run| && forall i | 0 <= i < |run| :: events[i] == Say(run[i])
  {
    seq(|run|, i requires 0 <= i < |run| => Say(run[i]))
  }

  lemma SpokenLast(run: seq<Said>, cap: Option<nat>)
    requires run != []
    ensures Run(Spoken(run), cap) == Added(Run(Spoken(run[..|run| - 1]), cap), run[|run| - 1], cap)
  {
    assert Spoken(run)[..|run| - 1] == Spoken(run[..|run| - 1]);
  }

  lemma AddedIds(s: Store, said: Said, cap: Option<nat>)
    ensures Ids(Added(s, said, cap).sessions) == Ids(Touched(s.sessions, said.guiId, said.name, said.now))
  {
  }

  /** When nobody closes one, the conversations kept are exactly the 50 most recently touched. */
  lemma {:induction false} FiftyMostRecent(run: seq<Said>)
    ensures Ids(Run(Spoken(run), Some(MAX_MESSAGES)).sessions) == Front(Recency(run), MAX_SESSIONS)
    decreases |run|
  {
    if run != [] {
      var before, last := run[..|run| - 1], run[|run| - 1];
      FiftyMostRecent(before);
      RecencyIsByLastTouch(before);
      SpokenLast(run, Some(MAX_MESSAGES));
      var s := Run(Spoken(before), Some(MAX_MESSAGES));
      AddedIds(s, last, Some(MAX_MESSAGES));
      TouchedIds(s.sessions, Recency(before), last.guiId, last.name, last.now);
    }
  }

  // ----- What a conversation holds, told from the events alone -----

  /** The conversations kept, as ids: touched ones to the front, closed ones gone, no more than fit. */
  ghost function Live(events: seq<Event>): seq<nat> {
    if events == [] then []
    else
      var before := Live(events[..|events| - 1]);
      match events[|events| - 1]
      case Say(said) => Front([said.guiId] + Without(before, said.guiId), MAX_SESSIONS)
      case Close(guiId) => Without(before, guiId)
  }

  /** What was said in a conversation since it was last created; the ids count all messages of the run. */
  ghost function Talk(events: seq<Event>, guiId: nat): seq<Message> {
    if events == [] then []
    else
      var before, e := events[..|events| - 1], events[|events| - 1];
      if e.Say? && e.said.guiId == guiId then
        (if guiId in Live(before) then Talk(before, guiId) else []) +
        [Message(MessageCount(events) % TWO32, e.said.incoming, e.said.now, e.said.text)]
      else Talk(before, guiId)
  }

  /** The name last given in a conversation since it was last created; empty while none was. */
  ghost function NameOf(events: seq<Event>, guiId: nat): string {
    if events == [] then ""
    else
      var before, e := events[..|events| - 1], events[|events| - 1];
      if !e.Say? || e.said.guiId != guiId then NameOf(before, guiId)
      else if e.said.name == "" && guiId in Live(before) then NameOf(before, guiId)
      else e.said.name
  }

  /** When something was last said in a conversation. */
  ghost function TimeOf(events: seq<Event>, guiId: nat): nat {
    if events == [] then 0
    else
      var e := events[|events| - 1];
      if e.Say? && e.said.guiId == guiId then e.said.now else TimeOf(events[..|events| - 1], guiId)
  }

  /** A conversation as the events tell it. */
  ghost function Told(events: seq<Event>, guiId: nat): Session {
    Session(guiId, NameOf(events, guiId), TimeOf(events, guiId), Talk(events, guiId))
  }

  ghost predicate AllTold(sessions: seq<Session>, events: seq<Event>) {
    forall i | 0 <= i < |sessions| :: sessions[i] == Told(events, sessions[i].guiId)
  }

  /** An uncapped store holds all that was said. */
  ghost predicate HoldsTalk(s: Store, events: seq<Event>) {
    && Ids(s.sessions) == Live(events) && NoDuplicates(Live(events)) && |Live(events)| <= MAX_SESSIONS
    && s.lastMsgId == MessageCount(events) % TWO32
    && AllTold(s.sessions, events)
  }

  lemma IdAt(sessions: seq<Session>, id: nat)
    requires NoDuplicates(Ids(sessions))
    ensures var i := IndexOf(sessions, id);
            && (i < |sessions| <==> id in Ids(sessions))
            && Without(Ids(sessions), id) == if i < |sessions| then WithoutAt(Ids(sessions), i) else Ids(sessions)
  {
    var i, ids := IndexOf(sessions, id), Ids(sessions);
    if i < |sessions| {
      assert ids[i] == id;
      WithoutAtIs(ids, i);
    } else {
      assert forall k | 0 <= k < |ids| :: ids[k] == sessions[k].guiId;
      WithoutAbsent(ids, id);
    }
  }

  lemma {:induction false} WithoutDistinct(ids: seq<nat>, id: nat)
    requires NoDuplicates(ids)
    ensures NoDuplicates(Without(ids, id))
  {
    if ids != [] {
      assert forall k | 0 <= k < |ids| - 1 :: ids[1..][k] == ids[k + 1];
      WithoutDistinct(ids[1..], id);
      WithoutMembers(ids[1..], id, ids[0]);
    }
  }

  lemma {:induction false} WithoutShorter(ids: seq<nat>, id: nat)
    ensures |Without(ids, id)| <= |ids|
  {
    if ids != [] {
      WithoutShorter(ids[1..], id);
    }
  }

  lemma LiveDistinct(before: seq<nat>, id: nat, n: nat)
    requires NoDuplicates(before)
    ensures NoDuplicates(Front([id] + Without(before, id), n)) && NoDuplicates(Without(before, id))
    ensures |Without(before, id)| <= |before|
  {
    WithoutShorter(before, id);
    WithoutDistinct(before, id);
    WithoutMembers(before, id, id);
  }

  lemma CloseHoldsTalk(s: Store, events: seq<Event>, guiId: nat)
    requires HoldsTalk(s, events)
    ensures HoldsTalk(Closed(s, guiId), events + [Close(guiId)])
  {
    var more := events + [Close(guiId)];
    assert more[..|events|] == events;
    LiveDistinct(Live(events), guiId, 0);
    ClosedIds(s, guiId);
    ClosedElsewhere(s, events, guiId);
  }

  lemma ClosedIds(s: Store, guiId: nat)
    requires NoDuplicates(Ids(s.sessions))
    ensures Ids(Closed(s, guiId).sessions) == Without(Ids(s.sessions), guiId)
  {
    IdAt(s.sessions, guiId);
    if IndexOf(s.sessions, guiId) < |s.sessions| {
      IdsWithoutAt(s.sessions, IndexOf(s.sessions, guiId));
    }
  }

  lemma ClosedElsewhere(s: Store, events: seq<Event>, guiId: nat)
    requires HoldsTalk(s, events)
    ensures AllTold(Closed(s, guiId).sessions, events + [Close(guiId)])
  {
    var i, after := IndexOf(s.sessions, guiId), Closed(s, guiId);
    assert (events + [Close(guiId)])[..|events|] == events;
    forall k | 0 <= k < |after.sessions|
      ensures after.sessions[k] == Told(events + [Close(guiId)], after.sessions[k].guiId)
    {
      assert after.sessions[k] == s.sessions[if k < i then k else k + 1];
    }
  }

  lemma SayHoldsTalk(s: Store, events: seq<Event>, said: Said)
    requires HoldsTalk(s, events)
    ensures HoldsTalk(Added(s, said, None), events + [Say(said)])
  {
    var more, id := events + [Say(said)], said.guiId;
    assert more[..|events|] == events;
    IdAt(s.sessions, id);
    LiveDistinct(Live(events), id, MAX_SESSIONS);
    SaidIds(s, said);
    SaidAnywhere(s, events, said);
    assert (s.lastMsgId + 1) % TWO32 == MessageCount(more) % TWO32;
  }

  lemma SaidIds(s: Store, said: Said)
    requires NoDuplicates(Ids(s.sessions)) && |s.sessions| <= MAX_SESSIONS
    ensures Ids(Added(s, said, None).sessions) ==
              Front([said.guiId] + Without(Ids(s.sessions), said.guiId), MAX_SESSIONS)
  {
    AddedIds(s, said, None);
    TouchedIds(s.sessions, Ids(s.sessions), said.guiId, said.name, said.now);
  }

  /** Where an older conversation was before something was said in the one with this id. */
  function Before(sessions: seq<Session>, guiId: nat, k: nat): nat
    requires k > 0
  {
    if k <= IndexOf(sessions, guiId) then k - 1 else k
  }

  lemma OthersMove(sessions: seq<Session>, said: Said, k: nat)
    requires NoDuplicates(Ids(sessions))
    requires 0 < k < |Touched(sessions, said.guiId, said.name, said.now)|
    ensures var j := Before(sessions, said.guiId, k);
            && j < |sessions| && sessions[j].guiId != said.guiId
            && Touched(sessions, said.guiId, said.name, said.now)[k] == sessions[j]
  {
    var i, j, ids := IndexOf(sessions, said.guiId), Before(sessions, said.guiId, k), Ids(sessions);
    assert i < |sessions| ==> ids[i] == said.guiId;
    assert j < |sessions| && ids[j] == sessions[j].guiId;
  }

  lemma SaidThere(s: Store, events: seq<Event>, said: Said, k: nat)
    requires HoldsTalk(s, events) && 0 < k < |Added(s, said, None).sessions|
    ensures var session := Added(s, said, None).sessions[k];
            session == Told(events + [Say(said)], session.guiId)
  {
    assert (events + [Say(said)])[..|events|] == events;
    OthersMove(s.sessions, said, k);
    var j := Before(s.sessions, said.guiId, k);
    assert s.sessions[j] == Told(events, s.sessions[j].guiId);
  }

  /** What is said goes on with a conversation that is kept, and begins one that is not. */
  lemma TalkGoesOn(events: seq<Event>, said: Said)
    ensures var kept := said.guiId in Live(events);
            Told(events + [Say(said)], said.guiId) == Session(
              said.guiId, if said.name == "" && kept then NameOf(events, said.guiId) else said.name, said.now,
              (if kept then Talk(events, said.guiId) else [])
              + [Message((MessageCount(events) + 1) % TWO32, said.incoming, said.now, said.text)])
  {
    var more := events + [Say(said)];
    assert more[..|events|] == events && more[|events|] == Say(said);
    assert MessageCount(more) == MessageCount(events) + 1;
  }

  lemma AddedHere(s: Store, said: Said)
    ensures var i := IndexOf(s.sessions, said.guiId);
            var kept := i < |s.sessions|;
            Added(s, said, None).sessions[0] == Session(
              said.guiId, if said.name == "" && kept then s.sessions[i].name else said.name, said.now,
              (if kept then s.sessions[i].messages else [])
              + [Message(NextId(s.lastMsgId), said.incoming, said.now, said.text)])
  {}

  lemma HeldIsTold(s: Store, events: seq<Event>, id: nat)
    requires HoldsTalk(s, events)
    ensures var i := IndexOf(s.sessions, id);
            (i < |s.sessions| <==> id in Live(events)) && (i < |s.sessions| ==> s.sessions[i] == Told(events, id))
  {
    IdAt(s.sessions, id);
  }

  lemma SaidHere(s: Store, events: seq<Event>, said: Said)
    requires HoldsTalk(s, events)
    ensures Added(s, said, None).sessions[0] == Told(events + [Say(said)], said.guiId)
  {
    HeldIsTold(s, events, said.guiId);
    TalkGoesOn(events, said);
    AddedHere(s, said);
    NextIdCounts(MessageCount(events));
  }

  lemma NextIdCounts(n: nat)
    ensures NextId(n % TWO32) == (n + 1) % TWO32
  {}

  /** The other conversations hold what they held, in their new places. */
  lemma SaidAnywhere(s: Store, events: seq<Event>, said: Said)
    requires HoldsTalk(s, events)
    ensures AllTold(Added(s, said, None).sessions, events + [Say(said)])
  {
    var after := Added(s, said, None).sessions;
    SaidHere(s, events, said);
    forall k | 0 <= k < |after| ensures after[k] == Told(events + [Say(said)], after[k].guiId) {
      if k > 0 {
        SaidThere(s, events, said, k);
      }
    }
  }

  lemma {:induction false} RunHoldsTalk(events: seq<Event>)
    ensures HoldsTalk(Run(events, None), events)
    decreases |events|
  {
    if events != [] {
      var before, e := events[..|events| - 1], events[|events| - 1];
      RunHoldsTalk(before);
      assert before + [e] == events;
      match e
      case Say(said) => SayHoldsTalk(Run(before, None), before, said);
      case Close(guiId) => CloseHoldsTalk(Run(before, None), before, guiId);
    }
  }

  /** In every run the conversations are those the events leave alive, and each holds the last min(200, n) of the n
      messages said in it since it was last created, the name it was last given and the time of its last message. */
  lemma HoldsLastOfTalk(events: seq<Event>)
    ensures var s := Run(events, Some(MAX_MESSAGES));
            && Ids(s.sessions) == Live(events)
            && forall i | 0 <= i < |s.sessions| ::
                 var id := s.sessions[i].guiId;
                 s.sessions[i] == Session(id, NameOf(events, id), TimeOf(events, id),
                                          Back(Talk(events, id), MAX_MESSAGES))
  {
    RunHoldsTalk(events);
    RunAbridges(events);
    var s, all := Run(events, Some(MAX_MESSAGES)), Run(events, None);
    assert forall i | 0 <= i < |s.sessions| :: s.sessions[i].guiId == all.sessions[i].guiId;
    assert Ids(s.sessions) == Ids(all.sessions);
  }

  // ----- The store -----


  class ChatSessionStore {
    var sessions: seq<Session>
    var lastMsgId: nat

    ghost function Contents(): Store
      reads this
    {
      Store(sessions, lastMsgId)
    }

    constructor ()
      ensures Contents() == Store([], 0)
    {
      sessions, lastMsgId := [], 0;
    }

    /** The front of the list is the conversation touched. */
    method Touch(guiId: nat, name: string, now: nat)
      modifies `sessions
      ensures sessions == Touched(old(sessions), guiId, name, now)
    {
      for i := 0 to |sessions|
        invariant sessions == old(sessions)
        invariant forall j | 0 <= j < i :: sessions[j].guiId != guiId
      {
        if sessions[i].guiId != guiId {
          continue;
        }
        IsIndexOf(sessions, guiId, i);
        var s := sessions[i];
        if name != "" {
          s := s.(name := name);
        }
        s := s.(lastActivity := now);
        sessions := [s] + sessions[..i] + sessions[i + 1..];
        return;
      }
      IsIndexOf(sessions, guiId, |sessions|);
      sessions := [Session(guiId, name, now, [])] + sessions;
      EvictSessionsIfNeeded();
    }

    method EvictSessionsIfNeeded()
      modifies `sessions
      ensures sessions == Front(old(sessions), MAX_SESSIONS)
    {
      while |sessions| > MAX_SESSIONS
        invariant sessions <= old(sessions)
        invariant |sessions| >= MAX_SESSIONS || sessions == old(sessions)
      {
        sessions := sessions[..|sessions| - 1];
      }
    }

    method Append(incoming: bool, text: string, now: nat) returns (id: nat)
      requires sessions != []
      modifies this
      ensures id == lastMsgId == NextId(old(lastMsgId))
      ensures sessions == [old(sessions)[0].(messages :=
                             Back(old(sessions)[0].messages + [Message(id, incoming, now, text)], MAX_MESSAGES))]
                          + old(sessions)[1..]
    {
      lastMsgId := NextId(lastMsgId);
      var m := Message(lastMsgId, incoming, now, text);
      var messages := sessions[0].messages + [m];
      ghost var all := messages;
      while |messages| > MAX_MESSAGES
        invariant |messages| <= |all| && messages == all[|all| - |messages|..]
        invariant |messages| >= MAX_MESSAGES || messages == all
      {
        messages := messages[1..];
      }
      sessions := [sessions[0].(messages := messages)] + sessions[1..];
      return lastMsgId;
    }

    method AddIncoming(guiId: nat, name: string, text: string, now: nat) returns (id: nat)
      modifies this
      ensures Contents() == Added(old(Contents()), Said(guiId, name, true, text, now), Some(MAX_MESSAGES))
      ensures id == lastMsgId
    {
      Touch(guiId, name, now);
      id := Append(true, text, now);
    }

    method AddOutgoing(guiId: nat, text: string, now: nat) returns (id: nat)
      modifies this
      ensures Contents() == Added(old(Contents()), Said(guiId, "", false, text, now), Some(MAX_MESSAGES))
      ensures id == lastMsgId
    {
      Touch(guiId, "", now);
      id := Append(false, text, now);
    }

    method CloseSession(guiId: nat) returns (found: bool)
      modifies `sessions
      ensures Contents() == Closed(old(Contents()), guiId)
      ensures found == exists i :: 0 <= i < |old(sessions)| && old(sessions)[i].guiId == guiId
    {
      for i := 0 to |sessions|
        invariant sessions == old(sessions)
        invariant forall j | 0 <= j < i :: sessions[j].guiId != guiId
      {
        if sessions[i].guiId == guiId {
          IsIndexOf(sessions, guiId, i);
          sessions := sessions[..i] + sessions[i + 1..];
          return true;
        }
      }
      IsIndexOf(sessions, guiId, |sessions|);
      return false;
    }
  }

  lemma IsIndexOf(sessions: seq<Session>, guiId: nat, i: nat)
    requires i <= |sessions| && (forall j | 0 <= j < i :: sessions[j].guiId != guiId)
    requires i < |sessions| ==> sessions[i].guiId == guiId
    ensures IndexOf(sessions, guiId) == i
  {}
}
