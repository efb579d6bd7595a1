/** The buddy a firewalled client keeps in the Kad network (src/ClientList.cpp): which of the Kad contacts is
    queued, being tried or connected, and what the list believes about it. */
module KadBuddy {
  import opened Common

  datatype KadState =
    | Idle
    | QueuedFwCheck
    | ConnectingFwCheck
    | ConnectedFwCheck
    | QueuedBuddy
    | IncomingBuddy
    | ConnectingBuddy
    | ConnectedBuddy
    | QueuedFwCheckUdp
    | FwCheckUdp
    | ConnectingFwCheckUdp

  datatype Status = Disconnected | Connecting | Connected

  class KadClient {
    var kadState: KadState
    const lowID: bool

    constructor (state: KadState, lowID: bool)
      ensures kadState == state && this.lowID == lowID
    {
      kadState, this.lowID := state, lowID;
    }
  }

  // ----- One cycle, as a function -----

  /** The Kad sources with their states, and the list's own two fields. */
  datatype View = View(sources: map<KadClient, KadState>, status: Status, buddy: Option<KadClient>)

  /** A cycle so far: `flag` is whether a buddy was met on the way, `tried` which queued ones were contacted. */
  datatype Pass = Pass(view: View, flag: Status, tried: set<KadClient>)

  /** What became of a client that was contacted: its Kad state afterwards, or nothing if it was deleted. */
  type Attempts = map<KadClient, Option<KadState>>

  ghost predicate Inv(v: View) {
    && (v.status == Connected <==> v.buddy.Some?)
    && (v.buddy.Some? ==> v.buddy.value in v.sources)
  }

  /** Leaving the sources takes the buddy's place with it. */
  function Dropped(v: View, c: KadClient): View {
    var rest := map d | d in v.sources && d != c :: v.sources[d];
    if c in v.sources && v.buddy == Some(c) then View(rest, Disconnected, None) else v.(sources := rest)
  }

  function Added(v: View, c: KadClient, state: KadState): View {
    v.(sources := v.sources[c := state])
  }

  lemma DroppedAfterAdded(v: View, c: KadClient, state: KadState)
    requires c in v.sources
    ensures Dropped(Added(v, c, state), c) == Dropped(v, c)
  {
  }

  function Contacted(v: View, c: KadClient, attempts: Attempts): View {
    if c !in attempts then v else match attempts[c] case None => Dropped(v, c) case Some(s) => Added(v, c, s)
  }

  function Visit(p: Pass, c: KadClient, running: bool, attempts: Attempts): Pass
    requires c in p.view.sources
  {
    var v := p.view;
    match if running then v.sources[c] else Idle
    case QueuedFwCheck => p.(view := Contacted(v, c, attempts))
    case QueuedFwCheckUdp => p.(view := Contacted(v, c, attempts))
    case ConnectingFwCheck => p
    case FwCheckUdp => p
    case ConnectingFwCheckUdp => p
    case ConnectedFwCheck => p.(view := Added(v, c, Idle))
    case IncomingBuddy => if v.status == Connected then p.(view := Added(v, c, Idle)) else p
    case QueuedBuddy =>
      (match v.status
       case Disconnected =>
         Pass(Contacted(Added(v, c, ConnectingBuddy).(status := Connecting), c, attempts), Connecting, p.tried + {c})
       case Connecting => p
       case Connected => p.(view := Added(v, c, Idle)))
    case ConnectingBuddy => if v.status == Connected then p.(view := Added(v, c, Idle)) else p.(flag := Connecting)
    case ConnectedBuddy =>
      Pass(if v.status == Connected then v else v.(status := Connected, buddy := Some(c)), Connected, p.tried)
    case Idle => p.(view := Dropped(v, c))
  }

  /** The rest of the cycle: losing a buddy, and letting one go that is of no use. */
  function Concluded(p: Pass, connected: bool, firewalled: bool): View {
    var v := if p.flag == Disconnected then p.view.(status := Disconnected, buddy := None) else p.view;
    if v.buddy.Some? && (if connected then !firewalled && !v.buddy.value.lowID else true)
    then Added(v, v.buddy.value, Idle) else v
  }

  ghost function Visited(p: Pass, order: seq<KadClient>, running: bool, attempts: Attempts): Pass {
    if order == [] then p
    else
      var q, c := Visited(p, order[..|order| - 1], running, attempts), order[|order| - 1];
      if c in q.view.sources then Visit(q, c, running, attempts) else q
  }

  /** One cycle over the sources in the given order. */
  ghost function Cycle(v: View, order: seq<KadClient>, running: bool, attempts: Attempts): Pass {
    Visited(Pass(v, Disconnected, {}), order, running, attempts)
  }

  ghost predicate Orders(order: seq<KadClient>, sources: set<KadClient>) {
    && (forall c | c in order :: c in sources) && (forall c | c in sources :: c in order)
    && forall i, j | 0 <= i < j < |order| :: order[i] != order[j]
  }

  // ----- Every reachable state -----

  lemma VisitKeepsInv(p: Pass, c: KadClient, running: bool, attempts: Attempts)
    requires Inv(p.view) && c in p.view.sources
    ensures Inv(Visit(p, c, running, attempts).view)
  {
  }

  lemma {:induction false} VisitedKeepsInv(p: Pass, order: seq<KadClient>, running: bool, attempts: Attempts)
    requires Inv(p.view)
    ensures Inv(Visited(p, order, running, attempts).view)
    decreases |order|
  {
    if order != [] {
      var before, c := order[..|order| - 1], order[|order| - 1];
      VisitedKeepsInv(p, before, running, attempts);
      var q := Visited(p, before, running, attempts);
      if c in q.view.sources {
        VisitKeepsInv(q, c, running, attempts);
      }
    }
  }

  /** Everything that touches these fields; `Touch` is a client's state changing elsewhere. */
  datatype Event =
    | Process(order: seq<KadClient>, running: bool, attempts: Attempts, connected: bool, firewalled: bool)
    | Add(client: KadClient, state: KadState)
    | Remove(client: KadClient)
    | Touch(client: KadClient, state: KadState)

  ghost function Next(v: View, e: Event): View {
    match e
    case Process(order, running, attempts, connected, firewalled) =>
      Concluded(Cycle(v, order, running, attempts), connected, firewalled)
    case Add(c, s) => Added(v, c, s)
    case Remove(c) => Dropped(v, c)
    case Touch(c, s) => if c in v.sources then Added(v, c, s) else v
  }

  ghost function Run(events: seq<Event>): View {
    if events == [] then View(map[], Disconnected, None) else Next(Run(events[..|events| - 1]), events[|events| - 1])
  }

  /** The status is Connected exactly while a buddy is linked, and that buddy is one of the sources. */
  lemma {:induction false} RunKeepsInv(events: seq<Event>)
    ensures Inv(Run(events))
    decreases |events|
  {
    if events != [] {
      var v, e := Run(events[..|events| - 1]), events[|events| - 1];
      RunKeepsInv(events[..|events| - 1]);
      if e.Process? {
        VisitedKeepsInv(Pass(v, Disconnected, {}), e.order, e.running, e.attempts);
      }
    }
  }

  // ----- The assertion in the branch of a source being tried -----

  /** What the branch asserts: a source being tried is met only while an attempt is believed to be under way, or a
      buddy is connected. */
  ghost predicate AssertedAt(p: Pass, c: KadClient, running: bool)
    requires c in p.view.sources
  {
    running && p.view.sources[c] == ConnectingBuddy && p.view.status != Connected ==> p.view.status == Connecting
  }

  /** The assertion holds at each visit of the cycle. */
  ghost predicate Asserted(v: View, order: seq<KadClient>, running: bool, attempts: Attempts) {
    order == [] ||
    var before, c := order[..|order| - 1], order[|order| - 1];
    var p := Cycle(v, before, running, attempts);
    Asserted(v, before, running, attempts) && (c in p.view.sources ==> AssertedAt(p, c, running))
  }

  predicate Involved(s: KadState) {
    s == QueuedBuddy || s == ConnectingBuddy || s == ConnectedBuddy
  }

  /** The first source in the walk that is queued, tried or connected as a buddy. */
  ghost function FirstInvolved(sources: map<KadClient, KadState>, order: seq<KadClient>): (r: Option<KadClient>)
    ensures r.Some? ==> r.value in sources && r.value in order
  {
    if order == [] then None
    else
      var earlier, last := FirstInvolved(sources, order[..|order| - 1]), order[|order| - 1];
      if earlier.Some? then earlier else if last in sources && Involved(sources[last]) then Some(last) else None
  }

  /** Whether a visit drops the source for good. */
  ghost predicate Drops(s: KadState, c: KadClient, attempts: Attempts) {
    s == Idle || ((s == QueuedFwCheck || s == QueuedFwCheckUdp) && c in attempts && attempts[c] == None)
  }

  /** The buddy is dropped when it is visited. */
  ghost predicate Lost(v: View, attempts: Attempts) {
    v.buddy.Some? && v.buddy.value in v.sources && Drops(v.sources[v.buddy.value], v.buddy.value, attempts)
  }

  ghost function Behind(order: seq<KadClient>, c: KadClient): seq<KadClient> {
    if order == [] || order[|order| - 1] == c then []
    else if c in order[..|order| - 1] then Behind(order[..|order| - 1], c) + [order[|order| - 1]] else []
  }

  /** The part of the walk that can start out believing in no attempt and no buddy. */
  ghost function Exposed(v: View, order: seq<KadClient>, attempts: Attempts): seq<KadClient> {
    match v.status
    case Disconnected => order
    case Connecting => []
    case Connected => if Lost(v, attempts) then Behind(order, v.buddy.value) else []
  }

  ghost predicate TriedFirst(v: View, walk: seq<KadClient>) {
    var first := FirstInvolved(v.sources, walk);
    first.Some? && v.sources[first.value] == ConnectingBuddy
  }

  ghost predicate ExposedNow(v: View, order: seq<KadClient>, attempts: Attempts) {
    v.status == Disconnected || (Lost(v, attempts) && v.buddy.value in order)
  }

  /** The sources still ahead are as they were. */
  ghost predicate AheadAsTheyWere(v: View, order: seq<KadClient>, p: Pass) {
    forall c | c in v.sources && c !in order :: c in p.view.sources && p.view.sources[c] == v.sources[c]
  }

  /** How the status stands in the course of a walk, as long as the assertion has held. */
  ghost predicate Stands(v: View, order: seq<KadClient>, attempts: Attempts, p: Pass) {
    AheadAsTheyWere(v, order, p) && Inv(p.view) && StatusStands(v, order, attempts, p)
  }

  ghost predicate StatusStands(v: View, order: seq<KadClient>, attempts: Attempts, p: Pass) {
    if ExposedNow(v, order, attempts) then
         match FirstInvolved(v.sources, Exposed(v, order, attempts))
         case None => p.view.status == Disconnected
         case Some(c) => v.sources[c] != ConnectingBuddy ==>
                           p.view.status != Disconnected && (p.view.buddy.Some? ==> p.view.buddy.value in order)
       else if v.status == Connected then p.view.status == Connected && p.view.buddy == v.buddy
       else p.view.status != Disconnected && (p.view.buddy.Some? ==> p.view.buddy.value in order)
  }

  /** One more visit: what the exposed part of the walk becomes, and who is involved first in it. */
  lemma ExposedGrows(v: View, order: seq<KadClient>, attempts: Attempts)
    requires Inv(v) && order != [] && NoDuplicates(order) && forall c | c in order :: c in v.sources
    ensures var before, c := order[..|order| - 1], order[|order| - 1];
            && Exposed(v, order, attempts) ==
               (if ExposedNow(v, before, attempts) then Exposed(v, before, attempts) + [c] else [])
            && (!ExposedNow(v, before, attempts) ==> Exposed(v, before, attempts) == [])
  {
    var before, c := order[..|order| - 1], order[|order| - 1];
    assert before + [c] == order;
    if v.status == Connected && Lost(v, attempts) && v.buddy.value !in before {
      assert Behind(before, v.buddy.value) == [];
    }
  }

  lemma FirstInvolvedSnoc(sources: map<KadClient, KadState>, walk: seq<KadClient>, c: KadClient)
    ensures FirstInvolved(sources, []) == None
    ensures FirstInvolved(sources, walk + [c]) ==
            if FirstInvolved(sources, walk).Some? then FirstInvolved(sources, walk)
            else if c in sources && Involved(sources[c]) then Some(c) else None
  {
    assert (walk + [c])[..|walk|] == walk;
  }

  /** What one visit can do to the status and the buddy, and does to no other source. */
  ghost predicate Moves(v: View, w: View, c: KadClient, attempts: Attempts)
    requires c in v.sources
  {
    var s := v.sources[c];
    && (forall d | d in v.sources && d != c :: d in w.sources && w.sources[d] == v.sources[d])
    && Inv(w)
    && if v.status == Disconnected then
         && (w.buddy.Some? ==> w.buddy == Some(c))
         && w.status == if s == QueuedBuddy then Connecting else if s == ConnectedBuddy then Connected else Disconnected
       else if v.buddy == Some(c) && Drops(s, c, attempts) then w.status == Disconnected
       else
         && w.status != Disconnected && (v.status == Connected ==> w.status == Connected && w.buddy == v.buddy)
         && (w.buddy == v.buddy || w.buddy == Some(c))
  }

  lemma VisitMoves(p: Pass, c: KadClient, attempts: Attempts)
    requires Inv(p.view) && c in p.view.sources
    ensures Moves(p.view, Visit(p, c, true, attempts).view, c, attempts)
  {
  }

  lemma StepStands(v: View, order: seq<KadClient>, attempts: Attempts)
    requires Inv(v) && order != [] && NoDuplicates(order) && forall c | c in order :: c in v.sources
    requires Stands(v, order[..|order| - 1], attempts, Cycle(v, order[..|order| - 1], true, attempts))
    ensures Stands(v, order, attempts, Cycle(v, order, true, attempts))
  {
    var before, c := order[..|order| - 1], order[|order| - 1];
    var p := Cycle(v, before, true, attempts);
    assert before + [c] == order && c !in before;
    assert Cycle(v, order, true, attempts) == Visit(p, c, true, attempts);
    VisitMoves(p, c, attempts);
    StepOn(v, order, attempts, p, Visit(p, c, true, attempts));
  }

  lemma StepAsserted(v: View, order: seq<KadClient>, attempts: Attempts)
    requires Inv(v) && order != [] && NoDuplicates(order) && forall c | c in order :: c in v.sources
    requires var before := order[..|order| - 1];
             && Stands(v, before, attempts, Cycle(v, before, true, attempts))
             && (Asserted(v, before, true, attempts) <==> !TriedFirst(v, Exposed(v, before, attempts)))
    ensures Asserted(v, order, true, attempts) <==> !TriedFirst(v, Exposed(v, order, attempts))
  {
    var before, c := order[..|order| - 1], order[|order| - 1];
    assert before + [c] == order && c !in before;
    var p := Cycle(v, before, true, attempts);
    assert p.view.sources[c] == v.sources[c];
    ExposedGrows(v, order, attempts);
    if !TriedFirst(v, Exposed(v, before, attempts)) {
      AssertedNext(v, before, c, attempts, p);
    }
    FirstInvolvedSnoc(v.sources, Exposed(v, before, attempts), c);
  }

  /** As long as the assertion has held, the next visit breaks it if and only if it meets a source being tried before
      any other that is involved. */
  lemma AssertedNext(v: View, before: seq<KadClient>, c: KadClient, attempts: Attempts, p: Pass)
    requires Inv(v) && Inv(p.view) && c in v.sources && c in p.view.sources && p.view.sources[c] == v.sources[c]
    requires StatusStands(v, before, attempts, p) && !TriedFirst(v, Exposed(v, before, attempts))
    ensures !AssertedAt(p, c, true) <==>
              && ExposedNow(v, before, attempts) && v.sources[c] == ConnectingBuddy
              && FirstInvolved(v.sources, Exposed(v, before, attempts)).None?
  {
  }

  /** The same for any pass that such a visit can lead to. */
  lemma StepOn(v: View, order: seq<KadClient>, attempts: Attempts, p: Pass, q: Pass)
    requires Inv(v) && order != [] && NoDuplicates(order) && forall c | c in order :: c in v.sources
    requires order[|order| - 1] !in order[..|order| - 1] && Stands(v, order[..|order| - 1], attempts, p)
    requires var c := order[|order| - 1]; c in p.view.sources && Moves(p.view, q.view, c, attempts)
    ensures Stands(v, order, attempts, q)
  {
    var before, c := order[..|order| - 1], order[|order| - 1];
    assert before + [c] == order;
    assert p.view.sources[c] == v.sources[c];
    ExposedGrows(v, order, attempts);
    if ExposedNow(v, before, attempts) {
      StatusOnExposed(v, before, c, attempts, p, q);
    } else {
      StatusOnHidden(v, before, c, attempts, p, q);
    }
  }

  lemma StatusOnExposed(v: View, before: seq<KadClient>, c: KadClient, attempts: Attempts, p: Pass, q: Pass)
    requires Inv(v) && Inv(p.view) && c in v.sources && c in p.view.sources && p.view.sources[c] == v.sources[c]
    requires StatusStands(v, before, attempts, p) && Moves(p.view, q.view, c, attempts) && c !in before
    requires ExposedNow(v, before, attempts)
    requires Exposed(v, before + [c], attempts) == Exposed(v, before, attempts) + [c]
    ensures StatusStands(v, before + [c], attempts, q)
  {
    FirstInvolvedSnoc(v.sources, Exposed(v, before, attempts), c);
  }

  lemma StatusOnHidden(v: View, before: seq<KadClient>, c: KadClient, attempts: Attempts, p: Pass, q: Pass)
    requires Inv(v) && Inv(p.view) && c in v.sources && c in p.view.sources && p.view.sources[c] == v.sources[c]
    requires StatusStands(v, before, attempts, p) && Moves(p.view, q.view, c, attempts) && c !in before
    requires !ExposedNow(v, before, attempts) && Exposed(v, before + [c], attempts) == []
    ensures StatusStands(v, before + [c], attempts, q)
  {
    assert FirstInvolved(v.sources, []) == None;
  }

  lemma {:induction false} WalkStands(v: View, order: seq<KadClient>, attempts: Attempts)
    requires Inv(v) && NoDuplicates(order) && forall c | c in order :: c in v.sources
    ensures Stands(v, order, attempts, Cycle(v, order, true, attempts))
    ensures Asserted(v, order, true, attempts) <==> !TriedFirst(v, Exposed(v, order, attempts))
    decreases |order|
  {
    if order != [] {
      var before, c := order[..|order| - 1], order[|order| - 1];
      WalkStands(v, before, attempts);
      StepStands(v, order, attempts);
      StepAsserted(v, order, attempts);
    }
  }

  lemma {:induction false} NothingAsserted(v: View, order: seq<KadClient>, attempts: Attempts)
    ensures Asserted(v, order, false, attempts)
    decreases |order|
  {
    if order != [] {
      NothingAsserted(v, order[..|order| - 1], attempts);
    }
  }

  /** The assertion holds throughout a cycle that starts while an attempt is under way. If no attempt is, it holds
      unless the first source met that is queued, tried or connected as a buddy is one being tried. If a buddy is
      connected, it can only fail behind that buddy's own visit, and only if the visit drops it. */
  lemma AssertedExactly(v: View, order: seq<KadClient>, running: bool, attempts: Attempts)
    requires Inv(v) && NoDuplicates(order) && forall c | c in order :: c in v.sources
    ensures v.status == Connecting ==> Asserted(v, order, running, attempts)
    ensures v.status == Disconnected ==> (Asserted(v, order, running, attempts) <==> !running || !TriedFirst(v, order))
    ensures v.status == Connected ==>
              (Asserted(v, order, running, attempts) <==>
                 !running || !Lost(v, attempts) || !TriedFirst(v, Behind(order, v.buddy.value)))
  {
    if running {
      WalkStands(v, order, attempts);
    } else {
      NothingAsserted(v, order, attempts);
    }
  }

  /** A cycle over two sources, the first queued or being tried, the second an incoming or the connected buddy. */
  lemma CycleOfTwo(v: View, tried: KadClient, found: KadClient)
    requires tried != found && v.buddy == None
    requires v == View(map[tried := QueuedBuddy, found := IncomingBuddy], Disconnected, None)
             || v == View(map[tried := ConnectingBuddy, found := ConnectedBuddy], Connecting, None)
    ensures Next(v, Process([tried, found], true, map[], true, true)) ==
              if v.status == Disconnected
              then View(map[tried := ConnectingBuddy, found := IncomingBuddy], Connecting, None)
              else View(map[tried := ConnectingBuddy, found := ConnectedBuddy], Connected, Some(found))
  {
    TwoVisits(Pass(v, Disconnected, {}), tried, found);
  }

  /** A buddy found while another source is being tried, then lost again, leaves that source being tried although
      the list believes nobody is, and the assertion fails in the next cycle. */
  lemma TriedWhileDisconnected(tried: KadClient, found: KadClient)
    requires tried != found
    ensures exists run :: !Asserted(Run(run), [tried], true, map[]) && Orders([tried], Run(run).sources.Keys)
  {
    var cycle := Process([tried, found], true, map[], true, true);
    var a := Then([], Add(tried, QueuedBuddy));
    var b := Then(a, Add(found, IncomingBuddy));
    CycleOfTwo(Run(b), tried, found);
    var c := Then(b, cycle);
    var d := Then(c, Touch(found, ConnectedBuddy));
    CycleOfTwo(Run(d), tried, found);
    var e := Then(d, cycle);
    var f := Then(e, Remove(found));
    TripsOver(tried);
    assert Run(f) == View(map[tried := ConnectingBuddy], Disconnected, None);
  }

  lemma TripsOver(tried: KadClient)
    ensures !Asserted(View(map[tried := ConnectingBuddy], Disconnected, None), [tried], true, map[])
  {
    var v := View(map[tried := ConnectingBuddy], Disconnected, None);
    assert [tried][..0] == [];
    assert Cycle(v, [], true, map[]) == Pass(v, Disconnected, {});
  }
  ghost function Then(events: seq<Event>, e: Event): (more: seq<Event>)
    ensures Run(more) == Next(Run(events), e)
  {
    assert (events + [e])[..|events|] == events;
    events + [e]
  }

  lemma TwoVisits(p: Pass, first: KadClient, second: KadClient)
    requires first in p.view.sources && second in Visit(p, first, true, map[]).view.sources
    ensures Visited(p, [first, second], true, map[]) == Visit(Visit(p, first, true, map[]), second, true, map[])
  {
    assert [first, second][..1] == [first] && [first][..0] == [];
    assert Visited(p, [first], true, map[]) == Visit(p, first, true, map[]);
  }

  // ----- Getting out of a stale attempt -----

  /** No source is being tried as a buddy, or is one. */
  ghost predicate NoneInHand(sources: map<KadClient, KadState>) {
    forall c | c in sources :: sources[c] != ConnectingBuddy && sources[c] != ConnectedBuddy
  }

  /** Contacting a source for some other reason does not make it a buddy. */
  ghost predicate OnlyForBuddies(attempts: Attempts) {
    forall c | c in attempts && attempts[c].Some? ::
      attempts[c].value != ConnectingBuddy && attempts[c].value != ConnectedBuddy
  }

  /** While an attempt is believed to be under way that nobody is making, a cycle touches no queued source. */
  lemma {:induction false} StaleVisited(v: View, order: seq<KadClient>, running: bool, attempts: Attempts)
    requires Inv(v) && v.status == Connecting && NoneInHand(v.sources) && OnlyForBuddies(attempts)
    requires forall i, j | 0 <= i < j < |order| :: order[i] != order[j]
    ensures var p := Cycle(v, order, running, attempts);
            && p.flag == Disconnected && p.view.status == Connecting && p.view.buddy == None && p.tried == {}
            && NoneInHand(p.view.sources)
            && (running ==> forall c | c in v.sources && v.sources[c] == QueuedBuddy ::
                  c in p.view.sources && p.view.sources[c] == QueuedBuddy)
    decreases |order|
  {
    if order != [] {
      var before := order[..|order| - 1];
      StaleVisited(v, before, running, attempts);
    }
  }

  /** One cycle clears a stale attempt. */
  lemma StaleClears(v: View, order: seq<KadClient>, running: bool, attempts: Attempts, connected: bool,
                    firewalled: bool)
    requires Inv(v) && v.status == Connecting && NoneInHand(v.sources) && OnlyForBuddies(attempts)
    requires Orders(order, v.sources.Keys)
    ensures var w := Concluded(Cycle(v, order, running, attempts), connected, firewalled);
            w.status == Disconnected && w.buddy == None
  {
    StaleVisited(v, order, running, attempts);
  }

  /** The queued source a walk in this order meets first. */
  ghost function FirstQueued(sources: map<KadClient, KadState>, order: seq<KadClient>): Option<KadClient> {
    if order == [] then None
    else
      var earlier, last := FirstQueued(sources, order[..|order| - 1]), order[|order| - 1];
      if earlier.Some? then earlier
      else if last in sources && sources[last] == QueuedBuddy then Some(last) else None
  }

  lemma {:induction false} FirstQueuedFinds(sources: map<KadClient, KadState>, order: seq<KadClient>, c: KadClient)
    requires c in order && c in sources && sources[c] == QueuedBuddy
    ensures FirstQueued(sources, order).Some?
    decreases |order|
  {
    if c in order[..|order| - 1] {
      FirstQueuedFinds(sources, order[..|order| - 1], c);
    }
  }

  /** Of the sources walked so far exactly the first queued one was contacted. */
  ghost predicate TriesFirst(v: View, order: seq<KadClient>, p: Pass) {
    && AheadAsTheyWere(v, order, p) && p.view.buddy == None
    && match FirstQueued(v.sources, order)
       case Some(c) => p.tried == {c} && p.view.status == Connecting
       case None => p.tried == {} && p.view.status == Disconnected
  }

  lemma TriesOn(v: View, before: seq<KadClient>, last: KadClient, attempts: Attempts, p: Pass)
    requires NoneInHand(v.sources) && last in v.sources && last !in before && TriesFirst(v, before, p)
    ensures TriesFirst(v, before + [last], Visit(p, last, true, attempts))
  {
    assert (before + [last])[..|before|] == before;
    assert p.view.sources[last] == v.sources[last];
  }

  /** Free to try and with nobody in hand, a cycle contacts exactly the first queued source it meets. */
  lemma {:induction false} QueuedIsTried(v: View, order: seq<KadClient>, attempts: Attempts)
    requires Inv(v) && v.status == Disconnected && NoneInHand(v.sources) && NoDuplicates(order)
    requires forall c | c in order :: c in v.sources
    ensures TriesFirst(v, order, Cycle(v, order, true, attempts))
    decreases |order|
  {
    if order != [] {
      var before, last := order[..|order| - 1], order[|order| - 1];
      QueuedIsTried(v, before, attempts);
      assert before + [last] == order && last !in before;
      TriesOn(v, before, last, attempts, Cycle(v, before, true, attempts));
    }
  }

  /** So a source that is queued behind a stale attempt gets its turn, or another queued one does, within two
      cycles. */
  lemma QueuedWithinTwo(v: View, c: KadClient, order: seq<KadClient>, attempts: Attempts, connected: bool,
                        firewalled: bool,
                        order': seq<KadClient>, attempts': Attempts)
    requires Inv(v) && v.status == Connecting && NoneInHand(v.sources) && OnlyForBuddies(attempts)
    requires c in v.sources && v.sources[c] == QueuedBuddy && Orders(order, v.sources.Keys)
    requires var w := Concluded(Cycle(v, order, true, attempts), connected, firewalled); Orders(order', w.sources.Keys)
    ensures var w := Concluded(Cycle(v, order, true, attempts), connected, firewalled);
            var d := FirstQueued(w.sources, order');
            d.Some? && Cycle(w, order', true, attempts').tried == {d.value}
  {
    StaleVisited(v, order, true, attempts);
    var w := Concluded(Cycle(v, order, true, attempts), connected, firewalled);
    QueuedIsTried(w, order', attempts');
    FirstQueuedFinds(w.sources, order', c);
  }

  // ----- What becomes of each source -----

  /** A visit concerns the one source. */
  lemma VisitTouchesOne(p: Pass, c: KadClient, running: bool, attempts: Attempts, d: KadClient)
    requires c in p.view.sources && d != c
    ensures var after := Visit(p, c, running, attempts).view.sources;
            (d in after <==> d in p.view.sources) && (d in after ==> after[d] == p.view.sources[d])
  {}

  lemma {:induction false} CycleTouchesItsOwn(
    v: View, order: seq<KadClient>, running: bool, attempts: Attempts, d: KadClient)
    requires d !in order
    ensures var after := Cycle(v, order, running, attempts).view.sources;
            (d in after <==> d in v.sources) && (d in after ==> after[d] == v.sources[d])
    decreases |order|
  {
    if order != [] {
      var before, last := order[..|order| - 1], order[|order| - 1];
      CycleTouchesItsOwn(v, before, running, attempts, d);
      var q := Cycle(v, before, running, attempts);
      if last in q.view.sources {
        VisitTouchesOne(q, last, running, attempts, d);
      }
    }
  }

  /** What one visit makes of a source, given the status of the list then: its state afterwards, or nothing. */
  function Fate(s: KadState, status: Status, running: bool, attempt: Option<Option<KadState>>): Option<KadState> {
    if !running || s == Idle then None
    else if s == ConnectedFwCheck then Some(Idle)
    else if s == QueuedFwCheck || s == QueuedFwCheckUdp then
      if attempt == None then Some(s) else attempt.value
    else if s == QueuedBuddy && status == Disconnected then
      if attempt == None then Some(ConnectingBuddy) else attempt.value
    else if status == Connected && (s == QueuedBuddy || s == IncomingBuddy || s == ConnectingBuddy) then Some(Idle)
    else Some(s)
  }

  function StateIn(sources: map<KadClient, KadState>, c: KadClient): Option<KadState> {
    if c in sources then Some(sources[c]) else None
  }

  /** In a cycle each source is visited once: it ends up as that visit leaves it, whatever the others do. */
  lemma {:induction false} EachHasItsFate(
    v: View, order: seq<KadClient>, running: bool, attempts: Attempts, i: nat)
    requires NoDuplicates(order) && i < |order| && order[i] in v.sources
    ensures var c := order[i];
            var status := Cycle(v, order[..i], running, attempts).view.status;
            var attempt := if c in attempts then Some(attempts[c]) else None;
            StateIn(Cycle(v, order, running, attempts).view.sources, c) == Fate(v.sources[c], status, running, attempt)
    decreases |order|
  {
    var before, last, c := order[..|order| - 1], order[|order| - 1], order[i];
    var q := Cycle(v, before, running, attempts);
    if i == |order| - 1 {
      CycleTouchesItsOwn(v, before, running, attempts, c);
    } else {
      assert before[i] == c && before[..i] == order[..i];
      EachHasItsFate(v, before, running, attempts, i);
      if last in q.view.sources {
        VisitTouchesOne(q, last, running, attempts, c);
      }
    }
  }

  /** A source in this state, met while the list has this status, speaks for a buddy: it is one, it is being tried, or
      it is tried now. */
  predicate Speaks(s: KadState, status: Status) {
    || s == ConnectedBuddy
    || (s == ConnectingBuddy && status != Connected)
    || (s == QueuedBuddy && status == Disconnected)
  }

  lemma VisitHears(p: Pass, c: KadClient, running: bool, attempts: Attempts)
    requires c in p.view.sources
    ensures Visit(p, c, running, attempts).flag == Disconnected <==>
              p.flag == Disconnected && !(running && Speaks(p.view.sources[c], p.view.status))
  {}

  /** The source met at this point of the cycle speaks for a buddy, and Kad is there to hear it. */
  ghost predicate Heard(v: View, order: seq<KadClient>, running: bool, attempts: Attempts, i: nat)
    requires i < |order|
  {
    && running && order[i] in v.sources
    && Speaks(v.sources[order[i]], Cycle(v, order[..i], running, attempts).view.status)
  }

  lemma HeardBefore(v: View, before: seq<KadClient>, last: KadClient, running: bool, attempts: Attempts, i: nat)
    requires i < |before|
    ensures Heard(v, before + [last], running, attempts, i) <==> Heard(v, before, running, attempts, i)
  {
    assert (before + [last])[..i] == before[..i];
  }

  lemma HeardNow(v: View, before: seq<KadClient>, last: KadClient, running: bool, attempts: Attempts)
    requires last in v.sources && last !in before
    ensures Cycle(v, before + [last], running, attempts).flag == Disconnected <==>
              Cycle(v, before, running, attempts).flag == Disconnected
              && !Heard(v, before + [last], running, attempts, |before|)
  {
    assert (before + [last])[..|before|] == before;
    CycleTouchesItsOwn(v, before, running, attempts, last);
    VisitHears(Cycle(v, before, running, attempts), last, running, attempts);
  }

  /** A cycle takes the list to be without a buddy and without an attempt if and only if no source it met spoke for
      one. */
  lemma {:induction false} SilenceIsLoss(v: View, order: seq<KadClient>, running: bool, attempts: Attempts)
    requires NoDuplicates(order) && forall c | c in order :: c in v.sources
    ensures Cycle(v, order, running, attempts).flag == Disconnected <==>
              forall i | 0 <= i < |order| :: !Heard(v, order, running, attempts, i)
    decreases |order|
  {
    if order != [] {
      var before, last := order[..|order| - 1], order[|order| - 1];
      assert order == before + [last];
      SilenceIsLoss(v, before, running, attempts);
      HeardNow(v, before, last, running, attempts);
      forall i | 0 <= i < |before|
        ensures Heard(v, order, running, attempts, i) <==> Heard(v, before, running, attempts, i)
      {
        HeardBefore(v, before, last, running, attempts, i);
      }
    }
  }

  /** While a buddy stays connected every other candidate gives way: after the cycle it is idle. */
  lemma OthersGiveWay(v: View, order: seq<KadClient>, attempts: Attempts, c: KadClient)
    requires Inv(v) && NoDuplicates(order) && forall d | d in order :: d in v.sources
    requires v.status == Connected && !Lost(v, attempts) && c in order
    requires v.sources[c] == QueuedBuddy || v.sources[c] == IncomingBuddy || v.sources[c] == ConnectingBuddy
    ensures StateIn(Cycle(v, order, true, attempts).view.sources, c) == Some(Idle)
  {
    var i :| 0 <= i < |order| && order[i] == c;
    EachHasItsFate(v, order, true, attempts, i);
    assert forall d | d in order[..i] :: d in order;
    WalkStands(v, order[..i], attempts);
  }

  /** A buddy that is of no use: Kad is not connected, or neither side is firewalled. */
  predicate Useless(buddy: KadClient, connected: bool, firewalled: bool) {
    !connected || (!firewalled && !buddy.lowID)
  }

  /** At the end of a cycle a buddy still linked is idle if it is of no use; nothing else is touched. */
  lemma UselessIsIdle(v: View, order: seq<KadClient>, running: bool, attempts: Attempts, connected: bool,
                      firewalled: bool)
    requires Inv(v)
    ensures var p := Cycle(v, order, running, attempts);
            var w := Concluded(p, connected, firewalled);
            && (w.buddy.Some? ==> w.buddy.value in w.sources && w.buddy == p.view.buddy)
            && (w.buddy.Some? && Useless(w.buddy.value, connected, firewalled) ==>
                  w.sources == p.view.sources[w.buddy.value := Idle])
            && (w.buddy.None? || !Useless(w.buddy.value, connected, firewalled) ==> w.sources == p.view.sources)
            && (w.buddy.None? <==> p.flag == Disconnected || p.view.buddy.None?)
            && w.status == if p.flag == Disconnected then Disconnected else p.view.status
  {
    VisitedKeepsInv(Pass(v, Disconnected, {}), order, running, attempts);
  }

  lemma StaysConnected(v: View, order: seq<KadClient>, attempts: Attempts)
    requires Inv(v) && NoDuplicates(order) && forall d | d in order :: d in v.sources
    requires v.buddy.Some? && v.sources[v.buddy.value] == ConnectedBuddy
    ensures var w := Cycle(v, order, true, attempts).view; w.status == Connected && w.buddy == v.buddy
  {
    WalkStands(v, order, attempts);
  }

  /** Nothing visited while connected takes back that the buddy was met. */
  lemma VisitMeets(p: Pass, c: KadClient, attempts: Attempts)
    requires c in p.view.sources && p.view.status == Connected
    requires p.flag == Connected || p.view.sources[c] == ConnectedBuddy
    ensures Visit(p, c, true, attempts).flag == Connected
  {}

  lemma {:induction false} MeetsItsBuddy(v: View, order: seq<KadClient>, attempts: Attempts, b: KadClient)
    requires Inv(v) && NoDuplicates(order) && forall d | d in order :: d in v.sources
    requires v.buddy == Some(b) && v.sources[b] == ConnectedBuddy
    ensures b in order ==> Cycle(v, order, true, attempts).flag == Connected
    decreases |order|
  {
    if b in order {
      var before, last := order[..|order| - 1], order[|order| - 1];
      assert order == before + [last];
      MeetsItsBuddy(v, before, attempts, b);
      StaysConnected(v, before, attempts);
      CycleTouchesItsOwn(v, before, true, attempts, last);
      VisitMeets(Cycle(v, before, true, attempts), last, attempts);
    }
  }

  /** A connected buddy that is a source when the cycle begins is still the buddy when it ends. */
  lemma BuddyIsKept(v: View, order: seq<KadClient>, attempts: Attempts, connected: bool, firewalled: bool)
    requires Inv(v) && v.buddy.Some? && v.sources[v.buddy.value] == ConnectedBuddy && Orders(order, v.sources.Keys)
    ensures var w := Concluded(Cycle(v, order, true, attempts), connected, firewalled);
            w.buddy == v.buddy && w.status == Connected
  {
    MeetsItsBuddy(v, order, attempts, v.buddy.value);
    StaysConnected(v, order, attempts);
  }

  /** And an idle buddy is gone after the next cycle: no longer a source, and no longer linked. */
  lemma IdleBuddyGoes(v: View, order: seq<KadClient>, running: bool, attempts: Attempts, connected: bool,
                      firewalled: bool)
    requires Inv(v) && v.buddy.Some? && v.sources[v.buddy.value] == Idle && Orders(order, v.sources.Keys)
    ensures var w := Concluded(Cycle(v, order, running, attempts), connected, firewalled);
            v.buddy.value !in w.sources && w.buddy != v.buddy
  {
    var b := v.buddy.value;
    var i :| 0 <= i < |order| && order[i] == b;
    EachHasItsFate(v, order, running, attempts, i);
    VisitedKeepsInv(Pass(v, Disconnected, {}), order, running, attempts);
  }

  // ----- The list -----

  class BuddyList {
    var kadSources: set<KadClient>
    var buddy: KadClient?
    var buddyStatus: Status

    ghost function Seen(): View
      reads this, kadSources
    {
      View(map c | c in kadSources :: c.kadState, buddyStatus, if buddy == null then None else Some(buddy))
    }

    constructor ()
      ensures Seen() == View(map[], Disconnected, None)
    {
      kadSources, buddy, buddyStatus := {}, null, Disconnected;
    }

    method AddToKadList(toadd: KadClient)
      modifies `kadSources
      ensures Seen() == Added(old(Seen()), toadd, toadd.kadState)
    {
      kadSources := kadSources + {toadd};
    }

    method RemoveFromKadList(torem: KadClient)
      modifies this
      ensures Seen() == Dropped(old(Seen()), torem) && kadSources == old(kadSources) - {torem}
    {
      if torem in kadSources {
        kadSources := kadSources - {torem};
        if torem == buddy {
          buddy, buddyStatus := null, Disconnected;
        }
      }
    }

    /** Contacting a client may change its state or delete it; which of these comes from `attempts`. */
    method TryToConnect(client: KadClient, attempts: Attempts)
      requires client in kadSources
      modifies this, client
      ensures Seen() == Contacted(old(Seen()), client, attempts)
      ensures kadSources == old(kadSources) || kadSources == old(kadSources) - {client}
    {
      if client in attempts {
        match attempts[client] {
          case None => RemoveFromKadList(client);
          case Some(s) => client.kadState := s;
        }
      }
    }

    method SetKadState(client: KadClient, state: KadState)
      requires client in kadSources
      modifies client
      ensures Seen() == Added(old(Seen()), client, state)
    {
      client.kadState := state;
    }

    method TryQueued(client: KadClient, attempts: Attempts)
      requires client in kadSources
      modifies this, client
      ensures Seen() == Contacted(Added(old(Seen()), client, ConnectingBuddy).(status := Connecting), client, attempts)
      ensures kadSources == old(kadSources) || kadSources == old(kadSources) - {client}
    {
      buddyStatus := Connecting;
      SetKadState(client, ConnectingBuddy);
      assert Seen() == Added(old(Seen()), client, ConnectingBuddy).(status := Connecting);
      TryToConnect(client, attempts);
    }

    method VisitSource(client: KadClient, flag: Status, running: bool, attempts: Attempts, ghost tried: set<KadClient>)
      returns (buddyFlag: Status, ghost nowTried: set<KadClient>, ghost asserted: bool)
      requires client in kadSources
      modifies this, client
      ensures asserted == AssertedAt(Pass(old(Seen()), flag, tried), client, running)
      ensures Pass(Seen(), buddyFlag, nowTried) == Visit(Pass(old(Seen()), flag, tried), client, running, attempts)
      ensures kadSources == old(kadSources) || kadSources == old(kadSources) - {client}
    {
      buddyFlag, nowTried, asserted := flag, tried, true;
      if !running {
        DroppedAfterAdded(Seen(), client, Idle);
        SetKadState(client, Idle);
      }
      match client.kadState {
        case QueuedFwCheck => TryToConnect(client, attempts);
        case QueuedFwCheckUdp => TryToConnect(client, attempts);
        case ConnectingFwCheck =>
        case FwCheckUdp =>
        case ConnectingFwCheckUdp =>
        case ConnectedFwCheck => SetKadState(client, Idle);
        case IncomingBuddy =>
          if buddyStatus == Connected {
            SetKadState(client, Idle);
          }
        case QueuedBuddy =>
          if buddyStatus == Disconnected {
            buddyFlag := Connecting;
            TryQueued(client, attempts);
            nowTried := tried + {client};
          } else if buddyStatus == Connected {
            SetKadState(client, Idle);
          }
        case ConnectingBuddy =>
          if buddyStatus == Connected {
            SetKadState(client, Idle);
          } else {
            asserted := buddyStatus == Connecting;
            buddyFlag := Connecting;
          }
        case ConnectedBuddy =>
          buddyFlag := Connected;
          if buddyStatus != Connected {
            buddy, buddyStatus := client, Connected;
          }
        case Idle => RemoveFromKadList(client);
      }
    }

    /** The walk over the sources; one that removes itself does not disturb it. */
    method VisitSources(running: bool, attempts: Attempts)
      returns (ghost order: seq<KadClient>, buddyFlag: Status, ghost tried: set<KadClient>, ghost asserted: bool)
      modifies this, kadSources
      ensures asserted == Asserted(old(Seen()), order, running, attempts)
      ensures Orders(order, old(kadSources)) && kadSources <= old(kadSources)
      ensures Pass(Seen(), buddyFlag, tried) == Cycle(old(Seen()), order, running, attempts)
    {
      order, buddyFlag, tried, asserted := [], Disconnected, {}, true;
      var todo := kadSources;
      while todo != {}
        invariant todo <= kadSources <= old(kadSources)
        invariant Orders(order, old(kadSources) - todo)
        invariant Pass(Seen(), buddyFlag, tried) == Cycle(old(Seen()), order, running, attempts)
        invariant asserted == Asserted(old(Seen()), order, running, attempts)
        decreases todo
      {
        var current :| current in todo;
        ghost var held;
        buddyFlag, tried, held := VisitSource(current, buddyFlag, running, attempts, tried);
        asserted := asserted && held;
        assert (order + [current])[..|order|] == order;
        order := order + [current];
        todo := todo - {current};
      }
    }

    method Conclude(buddyFlag: Status, connected: bool, firewalled: bool, ghost tried: set<KadClient>)
      requires Inv(Seen())
      modifies this, kadSources
      ensures Seen() == Concluded(Pass(old(Seen()), buddyFlag, tried), connected, firewalled)
      ensures buddy == (if buddyFlag == Disconnected then null else old(buddy)) && kadSources == old(kadSources)
      ensures forall c | c in kadSources ::
                c.kadState == if c == buddy && Useless(c, connected, firewalled) then Idle else old(c.kadState)
    {
      if buddyFlag == Disconnected {
        if buddyStatus != Disconnected || buddy != null {
          buddy, buddyStatus := null, Disconnected;
        }
      }
      if connected {
        if !firewalled && buddy != null && !buddy.lowID {
          buddy.kadState := Idle;
        }
      } else if buddy != null {
        buddy.kadState := Idle;
      }
    }

    method Process(running: bool, attempts: Attempts, connected: bool, firewalled: bool)
      returns (ghost order: seq<KadClient>, ghost asserted: bool)
      requires Inv(Seen())
      modifies this, kadSources
      ensures asserted == Asserted(old(Seen()), order, running, attempts)
      ensures Orders(order, old(kadSources)) && Inv(Seen())
      ensures Seen() == Next(old(Seen()), Event.Process(order, running, attempts, connected, firewalled))
      ensures buddy != null ==>
                buddy in kadSources && (Useless(buddy, connected, firewalled) ==> buddy.kadState == Idle)
    {
      var buddyFlag;
      ghost var tried;
      order, buddyFlag, tried, asserted := VisitSources(running, attempts);
      VisitedKeepsInv(Pass(old(Seen()), Disconnected, {}), order, running, attempts);
      Conclude(buddyFlag, connected, firewalled, tried);
    }
  }
}
