/** The limit on direct-callback requests (src/ClientList.cpp, src/ClientUDPSocket.cpp): a list of recent requests,
    newest first, pruned whenever one is added. */
module CallbackRequests {
  import opened Common

  const WINDOW: nat := 180000

  datatype Request = Request(ip: uint32, inserted: nat)

  /** What the full history says about a request at `now`. */
  ghost predicate Recent(history: seq<Request>, ip: uint32, now: nat) {
    exists r :: r in history && r.ip == ip && now - r.inserted < WINDOW
  }

  /** Two requests from one address are at least the window apart. */
  ghost predicate Spaced(history: seq<Request>) {
    forall i, j | 0 <= i < j < |history| && history[i].ip == history[j].ip ::
      history[i].inserted - history[j].inserted >= WINDOW
  }

  ghost predicate NewestFirst(history: seq<Request>, latest: nat) {
    && (forall i, j | 0 <= i < j < |history| :: history[j].inserted <= history[i].inserted)
    && forall i | 0 <= i < |history| :: history[i].inserted <= latest
  }

  class CallbackLimiter {
    var requests: seq<Request>
    /** Every request ever added, and the last time the clock was read. */
    ghost var history: seq<Request>
    ghost var latest: nat

    /** What was pruned is too old to matter. */
    ghost predicate Valid()
      reads this
    {
      && NewestFirst(history, latest)
      && requests <= history
      && forall i | |requests| <= i < |history| :: latest - history[i].inserted > WINDOW
    }

    constructor ()
      ensures Valid() && history == [] && latest == 0
    {
      requests, history, latest := [], [], 0;
    }

    method AddTrackCallbackRequests(ip: uint32, now: nat)
      requires Valid() && latest <= now
      modifies this
      ensures Valid() && latest == now && history == [Request(ip, now)] + old(history)
    {
      ghost var before := history;
      requests, history, latest := [Request(ip, now)] + requests, [Request(ip, now)] + history, now;
      while requests != []
        invariant Valid() && latest == now && history == [Request(ip, now)] + before
      {
        if now - requests[|requests| - 1].inserted > WINDOW {
          requests := requests[..|requests| - 1];
        } else {
          break;
        }
      }
    }

    /** The pruned list answers as the full history would. */
    method AllowCallbackRequest(ip: uint32, now: nat) returns (allow: bool)
      requires Valid() && latest <= now
      ensures allow <==> !Recent(history, ip, now)
    {
      for i := 0 to |requests|
        invariant forall j | 0 <= j < i :: requests[j].ip == ip ==> now - requests[j].inserted >= WINDOW
      {
        if requests[i].ip == ip && now - requests[i].inserted < WINDOW {
          assert requests[i] == history[i];
          return false;
        }
      }
      forall r | r in history && r.ip == ip ensures now - r.inserted >= WINDOW {
        var i :| 0 <= i < |history| && history[i] == r;
        assert i < |requests| ==> requests[i] == r;
      }
      return true;
    }

    /** What the UDP socket does with a request: accept it only if its address was quiet for the whole window, and
        only if requests are accepted at all. */
    method DirectCallbackRequest(host: uint32, now: nat, accepting: bool) returns (accepted: bool)
      requires Valid() && latest <= now && Spaced(history)
      modifies this
      ensures Valid() && latest <= now && Spaced(history)
      ensures accepted <==> accepting && !Recent(old(history), host, now)
      ensures history == if accepted then [Request(host, now)] + old(history) else old(history)
    {
      var allow := AllowCallbackRequest(host, now);
      if !allow || !accepting {
        return false;
      }
      ghost var before := history;
      AddTrackCallbackRequests(host, now);
      SpacedStep(before, host, now);
      return true;
    }
  }

  lemma SpacedStep(history: seq<Request>, ip: uint32, now: nat)
    requires Spaced(history) && !Recent(history, ip, now)
    ensures Spaced([Request(ip, now)] + history)
  {}

  datatype Arrival = Arrival(host: uint32, at: nat, accepting: bool)

  /** The accepted requests of a run, newest first. */
  ghost function Accepted(run: seq<Arrival>): seq<Request> {
    if run == [] then []
    else
      var before, a := Accepted(run[..|run| - 1]), run[|run| - 1];
      if a.accepting && !Recent(before, a.host, a.at) then [Request(a.host, a.at)] + before else before
  }

  /** Over a whole run no address is served twice within the window, however often it asks. */
  lemma {:induction false} AcceptedAreSpaced(run: seq<Arrival>)
    ensures Spaced(Accepted(run))
    decreases |run|
  {
    if run != [] {
      var before, a := run[..|run| - 1], run[|run| - 1];
      AcceptedAreSpaced(before);
      if a.accepting && !Recent(Accepted(before), a.host, a.at) {
        SpacedStep(Accepted(before), a.host, a.at);
      }
    }
  }

  lemma {:induction false} AcceptedArrived(run: seq<Arrival>, r: Request)
    ensures r in Accepted(run) ==> Arrival(r.ip, r.inserted, true) in run
    decreases |run|
  {
    if run != [] {
      AcceptedArrived(run[..|run| - 1], r);
    }
  }

  /** And none is refused without need: a request that arrives while requests are accepted is accepted, unless an
      earlier one from the same address was accepted less than three minutes before. */
  lemma {:induction false} RefusedOnlyIfRecent(run: seq<Arrival>, i: nat)
    requires i < |run| && run[i].accepting
    ensures Request(run[i].host, run[i].at) in Accepted(run)
            || exists j :: 0 <= j < i && run[j].host == run[i].host && run[i].at - run[j].at < 180000
                           && Request(run[j].host, run[j].at) in Accepted(run)
    decreases |run|
  {
    var before, a := run[..|run| - 1], run[|run| - 1];
    assert forall r | r in Accepted(before) :: r in Accepted(run);
    if i < |run| - 1 {
      RefusedOnlyIfRecent(before, i);
    } else if Recent(Accepted(before), a.host, a.at) {
      var r :| r in Accepted(before) && r.ip == a.host && a.at - r.inserted < WINDOW;
      AcceptedArrived(before, r);
      var j :| 0 <= j < |before| && before[j] == Arrival(r.ip, r.inserted, true);
      assert run[j] == before[j];
    }
  }

  /** The limiter serves a run as the full history would, for any clock that never goes back. */
  method Serve(run: seq<Arrival>) returns (limiter: CallbackLimiter)
    requires forall i, j | 0 <= i < j < |run| :: run[i].at <= run[j].at
    ensures fresh(limiter) && limiter.Valid() && limiter.history == Accepted(run)
  {
    limiter := new CallbackLimiter();
    for n := 0 to |run|
      invariant fresh(limiter) && limiter.Valid() && limiter.history == Accepted(run[..n])
      invariant n < |run| ==> limiter.latest <= run[n].at
      invariant Spaced(limiter.history)
    {
      assert run[..n + 1][..n] == run[..n];
      var _ := limiter.DirectCallbackRequest(run[n].host, run[n].at, run[n].accepting);
    }
    assert run[..|run|] == run;
  }
}
