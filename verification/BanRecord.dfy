/** The banned addresses (src/BanRecord.h) and the statistic kept beside them (src/ClientList.cpp). A lapsed ban is
    forgotten by whoever comes across it, even by a query. */
module BanRecord {
  import opened Common

  /** Two hours, in milliseconds. */
  const BAN_DURATION: nat := 7200000
  const BAN_CLEANUP_TIME: nat := 1200000

  // ----- What callers asked for -----

  datatype Event = Banned(ip: uint32, at: nat) | Unbanned(ip: uint32)

  /** When the standing ban of an address began, whether it has lapsed or not. Zero is no address. */
  ghost function LastBan(history: seq<Event>, ip: uint32): Option<nat> {
    if history == [] || ip == 0 then None
    else
      var last := history[|history| - 1];
      if last.ip != ip then LastBan(history[..|history| - 1], ip)
      else match last case Banned(_, at) => Some(at) case Unbanned(_) => None
  }

  /** That is the last ban of it with nothing said about it since. */
  lemma {:induction false} LastBanIsTheLast(history: seq<Event>, ip: uint32, at: nat)
    ensures LastBan(history, ip) == Some(at) <==>
            ip != 0 && exists i :: 0 <= i < |history| && history[i] == Banned(ip, at) && NothingSince(history, ip, i)
    decreases |history|
  {
    if history != [] && ip != 0 {
      var n := |history| - 1;
      var before := history[..n];
      if history[n].ip == ip {
        assert history[n] == Banned(ip, at) ==> NothingSince(history, ip, n);
      } else {
        LastBanIsTheLast(before, ip, at);
        forall i | 0 <= i < n ensures NothingSince(history, ip, i) <==> NothingSince(before, ip, i) {
          assert NothingSince(history, ip, i) ==> forall j | i < j < n :: before[j] == history[j];
        }
        assert forall i | 0 <= i < n :: history[i] == before[i];
      }
    }
  }

  ghost predicate NothingSince(history: seq<Event>, ip: uint32, i: int)
    requires 0 <= i < |history|
  {
    forall j | i < j < |history| :: history[j].ip != ip
  }

  ghost predicate Standing(history: seq<Event>, ip: uint32, now: nat) {
    LastBan(history, ip).Some? && now < LastBan(history, ip).value + BAN_DURATION
  }

  // ----- What is kept of it -----

  /** The record holds the standing bans, short only of some that had lapsed by `latest`. */
  ghost predicate Remembers(banned: map<uint32, nat>, history: seq<Event>, latest: nat) {
    && (forall ip {:trigger banned[ip]} | ip in banned :: LastBan(history, ip) == Some(banned[ip]))
    && (forall ip: uint32 | ip !in banned :: !Standing(history, ip, latest))
  }

  lemma BanRemembered(banned: map<uint32, nat>, history: seq<Event>, latest: nat, ip: uint32, now: nat)
    requires Remembers(banned, history, latest) && latest <= now && ip != 0
    ensures Remembers(banned[ip := now], history + [Banned(ip, now)], now)
  {}

  lemma UnbanRemembered(banned: map<uint32, nat>, history: seq<Event>, latest: nat, ip: uint32)
    requires Remembers(banned, history, latest)
    ensures Remembers(banned - {ip}, history + [Unbanned(ip)], latest)
  {}

  /** Forgetting what has lapsed changes no answer. */
  lemma LapsedForgotten(banned: map<uint32, nat>, history: seq<Event>, latest: nat, now: nat, rest: map<uint32, nat>)
    requires Remembers(banned, history, latest) && latest <= now && rest.Keys <= banned.Keys
    requires forall ip | ip in rest :: rest[ip] == banned[ip]
    requires forall ip | ip in banned && ip !in rest :: banned[ip] + BAN_DURATION <= now
    ensures Remembers(rest, history, now)
  {
  }

  lemma OneFewer(banned: map<uint32, nat>, ip: uint32)
    ensures |banned - {ip}| == if ip in banned then |banned| - 1 else |banned|
  {}

  lemma OneMore(banned: map<uint32, nat>, ip: uint32, at: nat)
    ensures |banned[ip := at]| == if ip in banned then |banned| else |banned| + 1
  {}

  class BanRecord {
    var banned: map<uint32, nat>
    ghost var history: seq<Event>
    ghost var latest: nat

    ghost predicate Valid()
      reads this
    {
      Remembers(banned, history, latest)
    }

    constructor ()
      ensures Valid() && banned == map[] && history == [] && latest == 0
    {
      banned, history, latest := map[], [], 0;
    }

    method Ban(ip: uint32, now: nat) returns (isNew: bool)
      requires Valid() && latest <= now
      modifies this
      ensures Valid() && latest == now
      ensures history == if ip == 0 then old(history) else old(history) + [Banned(ip, now)]
      ensures |banned| == |old(banned)| + if isNew then 1 else 0
    {
      LapsedForgotten(banned, history, latest, now, banned);
      latest := now;
      if ip == 0 {
        return false;
      }
      BanRemembered(banned, history, latest, ip, now);
      OneMore(banned, ip, now);
      isNew := ip !in banned;
      banned, history := banned[ip := now], history + [Banned(ip, now)];
    }

    method Unban(ip: uint32) returns (lifted: bool)
      requires Valid()
      modifies this
      ensures Valid() && latest == old(latest) && history == old(history) + [Unbanned(ip)]
      ensures |banned| == |old(banned)| - if lifted then 1 else 0
    {
      UnbanRemembered(banned, history, latest, ip);
      OneFewer(banned, ip);
      lifted := ip in banned;
      banned, history := banned - {ip}, history + [Unbanned(ip)];
    }

    /** The answer is the history's, whatever queries and sweeps came before. */
    method IsBanned(ip: uint32, now: nat) returns (isBanned: bool, dropped: bool)
      requires Valid() && latest <= now
      modifies `banned, `latest
      ensures Valid() && latest == now
      ensures isBanned == Standing(history, ip, now)
      ensures |banned| == |old(banned)| - if dropped then 1 else 0
    {
      LapsedForgotten(banned, history, latest, now, banned);
      latest := now;
      if ip == 0 || ip !in banned {
        assert !Standing(history, ip, now);
        return false, false;
      }
      if banned[ip] + BAN_DURATION > now {
        return true, false;
      }
      LapsedForgotten(banned, history, latest, now, banned - {ip});
      OneFewer(banned, ip);
      banned := banned - {ip};
      return false, true;
    }

    /** The sweep over the map, in key order, erasing behind itself. */
    method DropLapsed(now: nat) returns (removed: nat)
      requires Valid() && latest <= now
      modifies `banned, `latest
      ensures Valid() && latest == now
      ensures forall ip :: ip in banned <==> ip in old(banned) && now < old(banned)[ip] + BAN_DURATION
      ensures |banned| == |old(banned)| - removed
    {
      LapsedForgotten(banned, history, latest, now, banned);
      latest := now;
      removed := 0;
      var left := banned.Keys;
      while left != {}
        modifies `banned
        invariant Valid() && left <= banned.Keys <= old(banned).Keys
        invariant forall ip | ip in banned :: banned[ip] == old(banned)[ip]
        invariant forall ip | ip in old(banned) && ip !in left :: ip in banned <==> now < old(banned)[ip] + BAN_DURATION
        invariant |banned| == |old(banned)| - removed
        decreases |left|
      {
        EmptyIfNoMember(left);
        var current := NextKey(left);
        left := left - {current};
        if banned[current] + BAN_DURATION <= now {
          LapsedForgotten(banned, history, latest, now, banned - {current});
          OneFewer(banned, current);
          banned := banned - {current};
          removed := removed + 1;
        }
      }
    }
  }

  /** The client list's use of the record: its statistic is the number of banned addresses, always. */
  class BannedClients {
    const record: BanRecord
    var counter: int
    var lastCleanUp: nat

    ghost predicate Valid()
      reads this, record
    {
      record.Valid() && counter == |record.banned|
    }

    constructor ()
      ensures Valid() && fresh(record) && record.history == [] && record.latest == 0
    {
      record := new BanRecord();
      counter, lastCleanUp := 0, 0;
    }

    method AddBannedClient(ip: uint32, now: nat)
      requires Valid() && record.latest <= now
      modifies `counter, record
      ensures Valid() && record.latest == now
      ensures record.history == if ip == 0 then old(record.history) else old(record.history) + [Banned(ip, now)]
    {
      var isNew := record.Ban(ip, now);
      if isNew {
        counter := counter + 1;
      }
    }

    method IsBannedClient(ip: uint32, now: nat) returns (isBanned: bool)
      requires Valid() && record.latest <= now
      modifies `counter, record
      ensures Valid() && record.latest == now && record.history == old(record.history)
      ensures isBanned == Standing(record.history, ip, now)
    {
      var dropped;
      isBanned, dropped := record.IsBanned(ip, now);
      if dropped {
        counter := counter - 1;
      }
    }

    method RemoveBannedClient(ip: uint32)
      requires Valid()
      modifies `counter, record
      ensures Valid() && record.latest == old(record.latest) && record.history == old(record.history) + [Unbanned(ip)]
    {
      var lifted := record.Unban(ip);
      if lifted {
        counter := counter - 1;
      }
    }

    /** The sweep, at most once in a while; the statistic follows it one decrement at a time. */
    method Process(now: nat)
      requires Valid() && record.latest <= now
      modifies this, record
      ensures Valid() && record.history == old(record.history) && record.latest <= now
      ensures if old(lastCleanUp) + BAN_CLEANUP_TIME < now
              then lastCleanUp == now && forall ip | ip in record.banned :: now < record.banned[ip] + BAN_DURATION
              else lastCleanUp == old(lastCleanUp) && record.banned == old(record.banned)
    {
      if lastCleanUp + BAN_CLEANUP_TIME < now {
        lastCleanUp := now;
        var dropped := record.DropLapsed(now);
        for i := 0 to dropped
          modifies `counter
          invariant counter == |record.banned| + dropped - i
        {
          counter := counter - 1;
        }
      }
    }
  }
}
