/** `CClientList` of src/ClientList.cpp: three multimaps over the same clients, kept in step with the clients'
    own fields, the references those multimaps hold, and the tiered search for a known client. */
module ClientList {
  import opened Common
  import opened MultiMap

  // ----- Clients -----

  datatype ClientState = New | Listed | Dying

  /** A client as far as the list looks at it. The empty hash is 0. */
  class Client {
    var ip: uint32
    var userId: uint32
    var userHash: nat
    var userPort: uint16
    var kadPort: uint16
    var serverIP: uint32
    var serverPort: uint16
    var state: ClientState
    /** How many `CClientRef`s point here; dropping the last one frees the client. */
    var linked: nat
    var freed: bool

    constructor ()
      ensures state == New && linked == 0 && !freed && ip == 0 && userId == 0 && userHash == 0
    {
      ip, userId, userHash, userPort, kadPort, serverIP, serverPort := 0, 0, 0, 0, 0, 0, 0;
      state, linked, freed := New, 0, false;
    }

    predicate HasValidHash()
      reads `userHash
    {
      userHash != 0
    }

    predicate HasLowID()
      reads `userId
    {
      userId < HIGHEST_LOWID
    }

    method Link()
      modifies `linked
      ensures linked == old(linked) + 1
    {
      linked := linked + 1;
    }

    method Unlink()
      requires linked > 0
      modifies `linked, `freed
      ensures linked == old(linked) - 1 && freed == (old(freed) || linked == 0)
    {
      linked := linked - 1;
      if linked == 0 {
        freed := true;
      }
    }

    /** Changing the ID takes the old entry out before it puts the new one in. That is the end of the client
        exactly when the entry was the last reference to it. */
    method SetUserIDHybrid(list: ClientList, newID: uint32)
      requires list.Valid() && list.Knows(this)
      modifies `userId, `linked, `freed, list.ids
      ensures userId == newID && linked == old(linked)
      ensures freed == (old(freed) || (this in list.listed && old(userId) != newID && old(linked) == 1))
      ensures list.Indexed() && list.Complete()
      ensures list.Valid() <==> !(this in list.listed && old(userId) != newID && old(linked) == 1)
    {
      assert this in list.listed ==> list.IdOk(this) && list.Kept(this);
      list.UpdateClientID(this, newID);
      userId := newID;
      forall c | c in list.listed
        ensures list.IdOk(c) && list.IpOk(c) && list.HashOk(c) && list.IpFull(c) && list.HashFull(c)
      {
        assert old(list.IdOk(c)) && old(list.IpOk(c)) && old(list.HashOk(c))
               && old(list.IpFull(c)) && old(list.HashFull(c));
      }
      forall c | c in list.listed && (c != this || !freed) ensures list.Kept(c) {
        assert old(list.Kept(c));
      }
      assert freed ==> !list.Kept(this);
    }

    /** The entry in the ID index outlives this, so the client does too. */
    method SetIP(list: ClientList, newIP: uint32)
      requires list.Valid() && list.Knows(this)
      modifies `ip, `linked, `freed, list.ips
      ensures ip == newIP && list.Valid() && freed == old(freed)
      ensures linked - list.Held(this) == old(linked - list.Held(this))
    {
      assert this in list.listed ==> list.IpOk(this) && list.IpFull(this) && list.IdOk(this) && list.Kept(this);
      list.UpdateClientIP(this, newIP);
      ip := newIP;
      forall c | c in list.listed
        ensures list.IdOk(c) && list.IpOk(c) && list.HashOk(c) && list.IpFull(c) && list.HashFull(c)
      {
        assert old(list.IdOk(c)) && old(list.IpOk(c)) && old(list.HashOk(c))
               && old(list.IpFull(c)) && old(list.HashFull(c));
      }
      forall c | c in list.listed ensures list.Kept(c) {
        assert old(list.Kept(c));
      }
    }

    method SetUserHash(list: ClientList, newHash: nat)
      requires list.Valid() && list.Knows(this)
      modifies `userHash, `linked, `freed, list.hashes
      ensures userHash == newHash && list.Valid() && freed == old(freed)
      ensures linked - list.Held(this) == old(linked - list.Held(this))
    {
      assert this in list.listed ==> list.HashOk(this) && list.HashFull(this) && list.IdOk(this) && list.Kept(this);
      list.UpdateClientHash(this, newHash);
      userHash := newHash;
      forall c | c in list.listed
        ensures list.IdOk(c) && list.IpOk(c) && list.HashOk(c) && list.IpFull(c) && list.HashFull(c)
      {
        assert old(list.IdOk(c)) && old(list.IpOk(c)) && old(list.HashOk(c))
               && old(list.IpFull(c)) && old(list.HashFull(c));
      }
      forall c | c in list.listed ensures list.Kept(c) {
        assert old(list.Kept(c));
      }
    }

    /** Takes the client out of the list. It lives on only while something else refers to it. */
    method SafeDelete(list: ClientList)
      requires list.InOrder() && list.Knows(this)
      modifies `state, `linked, `freed, list, list.ids, list.ips, list.hashes
      ensures list.InOrder() && (old(list.Complete()) ==> list.Complete())
      ensures list.listed == old(list.listed) - {this} && state == Dying
      ensures list.ips.keys.Keys <= old(list.ips.keys).Keys && list.hashes.keys.Keys <= old(list.hashes.keys).Keys
      ensures linked == old(linked) - old(list.Held(this))
      ensures freed == (old(freed) || (old(state) != Dying && linked == 0))
    {
      if state == Dying {
        return;
      }
      Detach(list);
      Unlink();
    }

    /** Holds a reference of its own while the list lets go. */
    method Detach(list: ClientList)
      requires list.InOrder() && list.Knows(this)
      modifies `state, `linked, `freed, list, list.ids, list.ips, list.hashes
      ensures list.InOrder() && (old(list.Complete()) ==> list.Complete())
      ensures list.listed == old(list.listed) - {this} && state == Dying && freed == old(freed)
      ensures list.ips.keys.Keys <= old(list.ips.keys).Keys && list.hashes.keys.Keys <= old(list.hashes.keys).Keys
      ensures linked == old(linked) + 1 - old(list.Held(this)) && linked > 0
    {
      BeginToDie(list);
      list.RemoveClient(this);
    }

    method BeginToDie(list: ClientList)
      requires list.InOrder() && list.Knows(this)
      modifies `state, `linked
      ensures list.Indexed() && (old(list.Complete()) ==> list.Complete())
      ensures forall c | c in list.listed && c != this :: list.Kept(c)
      ensures state == Dying && linked == old(linked) + 1 && linked > list.Held(this)
    {
      assert this in list.listed ==> list.Kept(this);
      state := Dying;
      Link();
      forall c | c in list.listed && c != this ensures list.Kept(c) {
        assert old(list.Kept(c));
      }
    }
  }

  const HIGHEST_LOWID: nat := 16777216

  // ----- One index -----

  /** A multimap of references to clients; each client is in it at most once. */
  class Index {
    var entries: MultiMap<Client>
    /** The clients in the index, and where they are filed. */
    ghost var keys: map<Client, nat>

    ghost predicate Valid()
      reads this
    {
      Indexes(entries, keys)
    }

    constructor ()
      ensures Valid() && keys == map[]
    {
      entries, keys := map[], map[];
    }

    method Add(key: nat, client: Client)
      requires Valid() && client !in keys
      modifies this, client`linked
      ensures Valid() && keys == old(keys)[client := key] && client.linked == old(client.linked) + 1
    {
      InsertIndexes(entries, keys, key, client);
      entries, keys := Insert(entries, key, client), keys[client := key];
      client.Link();
    }

    method Drop(key: nat, client: Client) returns (found: bool)
      requires Valid() && (client in keys && keys[client] == key ==> client.linked > 0)
      modifies this, client`linked, client`freed
      ensures Valid() && found == (client in old(keys) && old(keys)[client] == key)
      ensures keys == if found then old(keys) - {client} else old(keys)
      ensures client.linked == old(client.linked) - (if found then 1 else 0)
      ensures client.freed == (old(client.freed) || (found && client.linked == 0))
    {
      RangeMembers(entries, keys, key, client);
      var range := EqualRange(entries, key);
      for i := 0 to |range|
        invariant client !in range[..i]
      {
        if range[i] == client {
          EraseIndexes(entries, keys, client);
          entries, keys := Erase(entries, key, client), keys - {client};
          client.Unlink();
          return true;
        }
      }
      return false;
    }

    method Range(key: nat) returns (range: seq<Client>)
      requires Valid()
      ensures forall c | c in range :: c in keys && keys[c] == key
      ensures forall c | c in keys && keys[c] == key :: c in range
    {
      range := EqualRange(entries, key);
      forall c | c in range ensures c in keys && keys[c] == key {
        RangeMembers(entries, keys, key, c);
      }
      forall c | c in keys && keys[c] == key ensures c in range {
        RangeMembers(entries, keys, key, c);
      }
    }

    /** The entry a walk from `begin()` meets first. */
    method Begin() returns (key: nat, client: Client)
      requires Valid() && entries != map[]
      ensures client in keys && keys[client] == key
    {
      EmptyIfNoMember(entries.Keys);
      key := NextKey(entries.Keys);
      client := entries[key][0];
      RangeMembers(entries, keys, key, client);
    }

    lemma Empty()
      requires Valid() && keys == map[]
      ensures entries == map[]
    {
      forall k ensures k !in entries {
        if k in entries {
          Filed(k);
        }
      }
      assert entries.Keys == {};
    }

    lemma Filed(k: nat)
      requires Valid() && k in entries
      ensures keys != map[]
    {
      var c := entries[k][0];
      RangeMembers(entries, keys, k, c);
      assert c in keys;
    }

    /** Clearing the index drops its references. */
    method Clear()
      requires Valid() && forall c | c in keys :: c.linked > 1
      modifies this, keys.Keys`linked, keys.Keys`freed
      ensures Valid() && keys == map[] && entries == map[]
      ensures forall c | c in old(keys) :: c.linked == old(c.linked) - 1 && c.freed == old(c.freed)
    {
      while entries != map[]
        invariant Valid() && keys.Keys <= old(keys).Keys
        invariant forall c | c in old(keys) ::
                    c.freed == old(c.freed) && c.linked == old(c.linked) - (if c in keys then 0 else 1)
        decreases keys.Keys
      {
        var key, client := Begin();
        var _ := Drop(key, client);
      }
      EmptyIndexesNone(keys);
    }
  }

  // ----- Matching -----

  /** How a known client `o` can turn out to be the same peer as `w`, most trusted way first. A LowID is only
      unique on its server, and only the first two and the last way apply to it. */
  predicate Matches(w: Client, tier: nat, o: Client)
    reads w, o
  {
    if tier == 4 then w.HasValidHash() && w.userHash == o.userHash
    else if w.HasLowID() then
      if tier == 0
      then w.ip != 0 && w.ip == o.ip && (SamePort(w.userPort, o.userPort) || SamePort(w.kadPort, o.kadPort))
      else tier == 1 && w.userId != 0 && w.serverIP != 0 && w.serverPort != 0 &&
           w.userId == o.userId && w.serverIP == o.serverIP && w.serverPort == o.serverPort
    else
      match tier
      case 0 => w.ip != 0 && w.ip == o.ip && SamePort(w.userPort, o.userPort)
      case 1 => w.ip != 0 && w.ip == o.ip && SamePort(w.kadPort, o.kadPort)
      case 2 => w.userId != 0 && w.userId == o.userId && SamePort(w.userPort, o.userPort)
      case 3 => w.userId != 0 && w.userId == o.userId && SamePort(w.kadPort, o.kadPort)
      case _ => false
  }

  predicate SamePort(p: uint16, q: uint16) {
    p != 0 && p == q
  }

  const TIERS: nat := 5

  // The same, said of the fields.

  /** One address and a port in common. */
  ghost predicate SameAddress(w: Client, o: Client)
    reads w, o
  {
    && w.ip != 0 && w.ip == o.ip
    && ((w.userPort != 0 && w.userPort == o.userPort) || (w.kadPort != 0 && w.kadPort == o.kadPort))
  }

  /** One ID: a low one on the same server, a high one with a port in common. */
  ghost predicate SameID(w: Client, o: Client)
    reads w, o
  {
    && w.userId != 0 && w.userId == o.userId
    && if w.userId < 16777216
       then w.serverIP != 0 && w.serverIP == o.serverIP && w.serverPort != 0 && w.serverPort == o.serverPort
       else (w.userPort != 0 && w.userPort == o.userPort) || (w.kadPort != 0 && w.kadPort == o.kadPort)
  }

  ghost predicate SamePeer(w: Client, o: Client)
    reads w, o
  {
    SameAddress(w, o) || SameID(w, o) || (w.userHash != 0 && w.userHash == o.userHash)
  }

  lemma MatchesIsSamePeer(w: Client, o: Client)
    ensures SamePeer(w, o) <==> exists t: nat :: t < TIERS && Matches(w, t, o)
    ensures SameAddress(w, o) <==> Matches(w, 0, o) || (!w.HasLowID() && Matches(w, 1, o))
    ensures SameID(w, o) <==> if w.HasLowID() then Matches(w, 1, o) else Matches(w, 2, o) || Matches(w, 3, o)
    ensures w.HasLowID() ==> !Matches(w, 2, o) && !Matches(w, 3, o)
    ensures Matches(w, 4, o) <==> w.userHash != 0 && w.userHash == o.userHash
  {
    if SamePeer(w, o) {
      assert Matches(w, 0, o) || Matches(w, 1, o) || Matches(w, 2, o) || Matches(w, 3, o) || Matches(w, 4, o);
    }
  }

  /** A client of the list that is the same peer, by its address if any is, or else by its ID if any is. */
  ghost predicate BestMatch(clients: set<Client>, w: Client, r: Client)
    reads clients, w, r
  {
    && r in clients && SamePeer(w, r)
    && (!SameAddress(w, r) ==> forall o | o in clients :: !SameAddress(w, o))
    && (!SameAddress(w, r) && !SameID(w, r) ==> forall o | o in clients :: !SameID(w, o))
    && (w.userId >= 16777216 && w.ip != 0 && w.userPort != 0 && !(w.userPort == r.userPort && w.ip == r.ip) ==>
          forall o | o in clients :: !(w.userPort == o.userPort && w.ip == o.ip))
    && (w.userId >= 16777216 && w.userPort != 0 && !SameAddress(w, r) &&
        !(w.userPort == r.userPort && w.userId == r.userId) ==>
          forall o | o in clients :: !(w.userPort == o.userPort && w.userId == o.userId))
  }

  lemma FoundIsBest(clients: set<Client>, w: Client, t: nat, r: Client)
    requires t < TIERS && FoundAt(clients, w, t, r)
    ensures BestMatch(clients, w, r)
  {
    MatchesIsSamePeer(w, r);
    assert (t > 0 ==> NoneAt(clients, w, 0)) && (t > 1 ==> NoneAt(clients, w, 1));
    assert (t > 2 ==> NoneAt(clients, w, 2)) && (t > 3 ==> NoneAt(clients, w, 3));
    forall o | o in clients
      ensures !SameAddress(w, r) ==> !SameAddress(w, o)
      ensures !SameAddress(w, r) && !SameID(w, r) ==> !SameID(w, o)
      ensures (t > 0 ==> !Matches(w, 0, o)) && (t > 2 ==> !Matches(w, 2, o))
    {
      MatchesIsSamePeer(w, o);
    }
  }

  ghost predicate NoneAt(clients: set<Client>, w: Client, tier: nat)
    reads clients, w
  {
    forall o | o in clients :: !Matches(w, tier, o)
  }

  /** `r` matches at this tier, and no client of the list at a more trusted one. */
  ghost predicate FoundAt(clients: set<Client>, w: Client, tier: nat, r: Client)
    reads clients, w, r
  {
    r in clients && Matches(w, tier, r) && forall t: nat | t < tier :: NoneAt(clients, w, t)
  }

  lemma NoneIsNoPeer(clients: set<Client>, w: Client)
    requires forall t: nat | t < TIERS :: NoneAt(clients, w, t)
    ensures forall o | o in clients :: !SamePeer(w, o)
  {
    forall o | o in clients ensures !SamePeer(w, o) {
      MatchesIsSamePeer(w, o);
      forall t: nat | t < TIERS ensures !Matches(w, t, o) {
        assert NoneAt(clients, w, t);
      }
    }
  }

  lemma NoPortsNoMatch(clients: set<Client>, w: Client)
    requires !w.HasLowID() && w.userPort == 0 && w.kadPort == 0
    ensures forall t: nat | t < 4 :: NoneAt(clients, w, t)
  {
    forall t: nat | t < 4 ensures NoneAt(clients, w, t) {
      assert forall o | o in clients :: !Matches(w, t, o);
    }
  }

  // ----- The list -----

  class ClientList {
    const ids: Index
    const ips: Index
    const hashes: Index
    ghost var listed: set<Client>

    /** The entry of a listed client in the ID index is under its current ID; likewise below. */
    ghost predicate IdOk(c: Client)
      reads ids`keys, c`userId
    {
      c in ids.keys && ids.keys[c] == c.userId
    }

    ghost predicate IpOk(c: Client)
      reads ips`keys, c`ip
    {
      c in ips.keys ==> ips.keys[c] == c.ip && c.ip != 0
    }

    ghost predicate HashOk(c: Client)
      reads hashes`keys, c`userHash
    {
      c in hashes.keys ==> hashes.keys[c] == c.userHash && c.userHash != 0
    }

    ghost predicate IpFull(c: Client)
      reads ips`keys, c`ip
    {
      c.ip != 0 ==> c in ips.keys
    }

    ghost predicate HashFull(c: Client)
      reads hashes`keys, c`userHash
    {
      c.userHash != 0 ==> c in hashes.keys
    }

    /** The references the list itself holds on a client. */
    ghost function Held(c: Client): nat
      reads ids`keys, ips`keys, hashes`keys
    {
      (if c in ids.keys then 1 else 0) + (if c in ips.keys then 1 else 0) + (if c in hashes.keys then 1 else 0)
    }

    /** A listed client is alive, and the list's own references on it are counted. */
    ghost predicate Kept(c: Client)
      reads ids`keys, ips`keys, hashes`keys, c`state, c`freed, c`linked
    {
      c.state == Listed && !c.freed && c.linked >= Held(c)
    }

    /** Nothing but the listed clients has an entry, and no entry is stale. */
    ghost predicate Indexed()
      reads this, ids, ips, hashes, listed`userId, listed`ip, listed`userHash
    {
      && ids.Valid() && ips.Valid() && hashes.Valid() && ids != ips && ips != hashes && hashes != ids
      && ids.keys.Keys == listed && ips.keys.Keys <= listed && hashes.keys.Keys <= listed
      && (forall c {:trigger IdOk(c)} | c in listed :: IdOk(c))
      && (forall c {:trigger IpOk(c)} | c in listed :: IpOk(c))
      && (forall c {:trigger HashOk(c)} | c in listed :: HashOk(c))
    }

    ghost predicate InOrder()
      reads this, ids, ips, hashes, listed
    {
      Indexed() && forall c {:trigger Kept(c)} | c in listed :: Kept(c)
    }

    /** No entry is missing either. */
    ghost predicate Complete()
      reads this, ips`keys, hashes`keys, listed`ip, listed`userHash
    {
      && (forall c {:trigger IpFull(c)} | c in listed :: IpFull(c))
      && (forall c {:trigger HashFull(c)} | c in listed :: HashFull(c))
    }

    ghost predicate Valid()
      reads this, ids, ips, hashes, listed
    {
      InOrder() && Complete()
    }

    /** A client is listed here iff it says so. */
    ghost predicate Knows(c: Client)
      reads this, c
    {
      c.state == Listed <==> c in listed
    }

    constructor ()
      ensures Valid() && listed == {} && fresh(ids) && fresh(ips) && fresh(hashes)
    {
      ids := new Index();
      ips := new Index();
      hashes := new Index();
      listed := {};
    }

    /** A client enters the list once in its life. */
    method AddClient(toadd: Client)
      requires Valid() && Knows(toadd) && !toadd.freed
      modifies this, ids, ips, hashes, toadd`state, toadd`linked
      ensures Valid() && Knows(toadd)
      ensures listed == if old(toadd.state) == New then old(listed) + {toadd} else old(listed)
      ensures toadd.linked == old(toadd.linked) + (if old(toadd.state) == New then Held(toadd) else 0)
    {
      if toadd.state == New {
        toadd.state := Listed;
        AddEntries(toadd);
        listed := listed + {toadd};
        forall c | c in listed ensures IdOk(c) && IpOk(c) && HashOk(c) && IpFull(c) && HashFull(c) && Kept(c) {
          assert c != toadd ==>
            old(IdOk(c)) && old(IpOk(c)) && old(HashOk(c)) && old(IpFull(c)) && old(HashFull(c)) && old(Kept(c));
        }
      }
    }

    method AddEntries(toadd: Client)
      requires ids.Valid() && ips.Valid() && hashes.Valid() && ids != ips && ips != hashes && hashes != ids
      requires toadd !in ids.keys && toadd !in ips.keys && toadd !in hashes.keys
      modifies ids, ips, hashes, toadd`linked
      ensures ids.Valid() && ips.Valid() && hashes.Valid()
      ensures ids.keys == old(ids.keys)[toadd := toadd.userId]
      ensures ips.keys == if toadd.ip != 0 then old(ips.keys)[toadd := toadd.ip] else old(ips.keys)
      ensures hashes.keys ==
              if toadd.HasValidHash() then old(hashes.keys)[toadd := toadd.userHash] else old(hashes.keys)
      ensures toadd.linked == old(toadd.linked) + Held(toadd)
    {
      ids.Add(toadd.userId, toadd);
      if toadd.ip != 0 {
        ips.Add(toadd.ip, toadd);
      }
      if toadd.HasValidHash() {
        hashes.Add(toadd.userHash, toadd);
      }
    }

    /** The caller holds a reference of its own, so the client is not freed under it. */
    method RemoveClient(client: Client)
      requires Indexed() && client.linked > Held(client)
      modifies this, ids, ips, hashes, client`linked, client`freed
      ensures Indexed() && listed == old(listed) - {client} && (old(Complete()) ==> Complete())
      ensures (forall c | c in old(listed) && c != client :: old(Kept(c))) ==> InOrder()
      ensures ids.keys == old(ids.keys) - {client} && ips.keys == old(ips.keys) - {client}
              && hashes.keys == old(hashes.keys) - {client}
      ensures client.linked == old(client.linked) - old(Held(client)) && client.freed == old(client.freed)
    {
      assert client in listed ==> IdOk(client) && IpOk(client) && HashOk(client);
      RemoveEntries(client);
      listed := listed - {client};
      forall c | c in listed ensures IdOk(c) && IpOk(c) && HashOk(c) && (old(Complete()) ==> IpFull(c) && HashFull(c)) {
        assert old(IdOk(c)) && old(IpOk(c)) && old(HashOk(c))
               && (old(Complete()) ==> old(IpFull(c)) && old(HashFull(c)));
      }
    }

    method RemoveEntries(client: Client)
      requires ids.Valid() && ips.Valid() && hashes.Valid() && ids != ips && ips != hashes && hashes != ids
      requires client in ids.keys ==> IdOk(client) && IpOk(client) && HashOk(client)
      requires client !in ids.keys ==> client !in ips.keys && client !in hashes.keys
      requires client.linked > Held(client)
      modifies ids, ips, hashes, client`linked, client`freed
      ensures ids.Valid() && ips.Valid() && hashes.Valid()
      ensures ids.keys == old(ids.keys) - {client} && ips.keys == old(ips.keys) - {client}
              && hashes.keys == old(hashes.keys) - {client}
      ensures client.linked == old(client.linked) - old(Held(client)) && client.freed == old(client.freed)
    {
      var found := ids.Drop(client.userId, client);
      if found {
        RemoveIPFromList(client);
        RemoveHashFromList(client);
      }
    }

    method RemoveIPFromList(client: Client)
      requires ips.Valid() && (client in ips.keys ==> client.linked > 0)
      modifies ips, client`linked, client`freed
      ensures var found := client.ip != 0 && client in old(ips.keys) && old(ips.keys)[client] == client.ip;
              && ips.Valid() && ips.keys == (if found then old(ips.keys) - {client} else old(ips.keys))
              && client.linked == old(client.linked) - (if found then 1 else 0)
              && client.freed == (old(client.freed) || (found && client.linked == 0))
    {
      if client.ip == 0 {
        return;
      }
      var _ := ips.Drop(client.ip, client);
    }

    method RemoveHashFromList(client: Client)
      requires hashes.Valid() && (client in hashes.keys ==> client.linked > 0)
      modifies hashes, client`linked, client`freed
      ensures var found := client.HasValidHash() && client in old(hashes.keys)
                          && old(hashes.keys)[client] == client.userHash;
              && hashes.Valid() && hashes.keys == (if found then old(hashes.keys) - {client} else old(hashes.keys))
              && client.linked == old(client.linked) - (if found then 1 else 0)
              && client.freed == (old(client.freed) || (found && client.linked == 0))
    {
      if !client.HasValidHash() {
        return;
      }
      var _ := hashes.Drop(client.userHash, client);
    }

    // Following a change of key

    method UpdateClientID(client: Client, newID: uint32)
      requires ids.Valid() && Knows(client) && (client in listed ==> IdOk(client) && client.linked > 0)
      modifies ids, client`linked, client`freed
      ensures ids.Valid() && client.linked == old(client.linked)
      ensures ids.keys == if client in listed then old(ids.keys)[client := newID] else old(ids.keys)
      ensures client.freed ==
                (old(client.freed) || (client in listed && client.userId != newID && old(client.linked) == 1))
    {
      if client.state != Listed || client.userId == newID {
        return;
      }
      var _ := ids.Drop(client.userId, client);
      ids.Add(newID, client);
    }

    method UpdateClientIP(client: Client, newIP: uint32)
      requires ips.Valid() && Knows(client)
      requires client in listed ==> IpOk(client) && IpFull(client) && (client in ips.keys ==> client.linked > 1)
      modifies ips, client`linked, client`freed
      ensures ips.Valid() && client.freed == old(client.freed)
      ensures ips.keys == if client !in listed then old(ips.keys)
                          else if newIP == 0 then old(ips.keys) - {client} else old(ips.keys)[client := newIP]
      ensures client.linked == old(client.linked) + if client !in listed then 0
                else (if newIP != 0 then 1 else 0) - (if client in old(ips.keys) then 1 else 0)
    {
      if client.state != Listed || client.ip == newIP {
        return;
      }
      RemoveIPFromList(client);
      if newIP != 0 {
        ips.Add(newIP, client);
      }
    }

    method UpdateClientHash(client: Client, newHash: nat)
      requires hashes.Valid() && Knows(client)
      requires client in listed ==> HashOk(client) && HashFull(client) && (client in hashes.keys ==> client.linked > 1)
      modifies hashes, client`linked, client`freed
      ensures hashes.Valid() && client.freed == old(client.freed)
      ensures hashes.keys == if client !in listed then old(hashes.keys)
                             else if newHash == 0 then old(hashes.keys) - {client}
                             else old(hashes.keys)[client := newHash]
      ensures client.linked == old(client.linked) + if client !in listed then 0
                else (if newHash != 0 then 1 else 0) - (if client in old(hashes.keys) then 1 else 0)
    {
      if client.state != Listed || client.userHash == newHash {
        return;
      }
      RemoveHashFromList(client);
      if newHash != 0 {
        hashes.Add(newHash, client);
      }
    }

    // Looking a client up

    /** The first client with the given IP that matches at a tier. */
    method FirstByIP(client: Client, tier: nat) returns (r: Client?)
      requires Indexed() && Complete() && client.ip != 0
      ensures r != null ==> r in listed && r.ip == client.ip && Matches(client, tier, r)
      ensures r == null ==> forall o | o in listed && o.ip == client.ip :: !Matches(client, tier, o)
    {
      var range := ips.Range(client.ip);
      r := First(range, client, tier);
      forall o | o in listed && o.ip == client.ip ensures o in range {
        assert IpOk(o) && IpFull(o);
      }
      assert r != null ==> IpOk(r);
    }

    method FirstByID(client: Client, tier: nat) returns (r: Client?)
      requires Indexed() && Complete()
      ensures r != null ==> r in listed && r.userId == client.userId && Matches(client, tier, r)
      ensures r == null ==> forall o | o in listed && o.userId == client.userId :: !Matches(client, tier, o)
    {
      var range := ids.Range(client.userId);
      r := First(range, client, tier);
      forall o | o in listed && o.userId == client.userId ensures o in range {
        assert IdOk(o);
      }
      assert r != null ==> IdOk(r);
    }

    static method First(range: seq<Client>, client: Client, tier: nat) returns (r: Client?)
      ensures r != null ==> r in range && Matches(client, tier, r)
      ensures r == null ==> forall o | o in range :: !Matches(client, tier, o)
    {
      for i := 0 to |range|
        invariant forall j | 0 <= j < i :: !Matches(client, tier, range[j])
      {
        if Matches(client, tier, range[i]) {
          return range[i];
        }
      }
      return null;
    }

    method FindLowID(client: Client) returns (r: Client?)
      requires Indexed() && Complete() && client.HasLowID()
      ensures r == null ==> forall t: nat | t < 4 :: NoneAt(listed, client, t)
      ensures r != null ==> exists t: nat :: t < 4 && FoundAt(listed, client, t, r)
      ensures if r == null then forall o | o in listed :: !SameAddress(client, o) && !SameID(client, o)
              else SameAddress(client, r) || SameID(client, r)
    {
      if client.ip != 0 && (client.userPort != 0 || client.kadPort != 0) {
        r := FirstByIP(client, 0);
        if r != null {
          assert FoundAt(listed, client, 0, r);
          return;
        }
      }
      assert NoneAt(listed, client, 0);
      if client.userId != 0 && client.serverIP != 0 && client.serverPort != 0 {
        r := FirstByID(client, 1);
        if r != null {
          assert FoundAt(listed, client, 1, r);
          return;
        }
      }
      assert NoneAt(listed, client, 1) && NoneAt(listed, client, 2) && NoneAt(listed, client, 3);
      return null;
    }

    method FindHighID(client: Client) returns (r: Client?)
      requires Indexed() && Complete() && !client.HasLowID() && (client.userPort != 0 || client.kadPort != 0)
      ensures r == null ==> forall t: nat | t < 4 :: NoneAt(listed, client, t)
      ensures r != null ==> exists t: nat :: t < 4 && FoundAt(listed, client, t, r)
      ensures if r == null then forall o | o in listed :: !SameAddress(client, o) && !SameID(client, o)
              else SameAddress(client, r) || SameID(client, r)
    {
      if client.ip != 0 {
        r := FindByAddress(client);
        if r != null {
          return;
        }
      }
      assert NoneAt(listed, client, 0) && NoneAt(listed, client, 1);
      if client.userId != 0 && client.userPort != 0 {
        r := FirstByID(client, 2);
        if r != null {
          assert FoundAt(listed, client, 2, r);
          return;
        }
      }
      assert NoneAt(listed, client, 2);
      if client.userId != 0 && client.kadPort != 0 {
        r := FirstByID(client, 3);
        if r != null {
          assert FoundAt(listed, client, 3, r);
          return;
        }
      }
      assert NoneAt(listed, client, 3);
      return null;
    }

    method FindByAddress(client: Client) returns (r: Client?)
      requires Indexed() && Complete() && !client.HasLowID() && client.ip != 0
      ensures r == null ==> NoneAt(listed, client, 0) && NoneAt(listed, client, 1)
      ensures r != null ==> FoundAt(listed, client, 0, r) || FoundAt(listed, client, 1, r)
    {
      if client.userPort != 0 {
        r := FirstByIP(client, 0);
        if r != null {
          return;
        }
      }
      assert NoneAt(listed, client, 0);
      if client.kadPort != 0 {
        r := FirstByIP(client, 1);
        if r != null {
          return;
        }
      }
      return null;
    }

    /** A listed client that is the same peer, by the most trusted way that finds one at all; null exactly when
        no listed client matches in any way. */
    method FindMatchingClient(client: Client) returns (r: Client?)
      requires Indexed() && Complete()
      ensures r == null <==> forall t: nat | t < TIERS :: NoneAt(listed, client, t)
      ensures r != null ==> exists t: nat :: t < TIERS && FoundAt(listed, client, t, r)
      ensures if r == null then forall o | o in listed :: !SamePeer(client, o) else BestMatch(listed, client, r)
    {
      r := SearchTiers(client);
      if r == null {
        NoneIsNoPeer(listed, client);
      } else {
        ghost var t: nat :| t < TIERS && FoundAt(listed, client, t, r);
        FoundIsBest(listed, client, t, r);
      }
    }

    method SearchTiers(client: Client) returns (r: Client?)
      requires Indexed() && Complete()
      ensures r == null <==> forall t: nat | t < TIERS :: NoneAt(listed, client, t)
      ensures r != null ==> exists t: nat :: t < TIERS && FoundAt(listed, client, t, r)
    {
      r := null;
      if client.HasLowID() {
        r := FindLowID(client);
      } else if client.userPort != 0 || client.kadPort != 0 {
        r := FindHighID(client);
      } else {
        NoPortsNoMatch(listed, client);
      }
      if r != null {
        ghost var t: nat :| t < 4 && FoundAt(listed, client, t, r);
        assert !NoneAt(listed, client, t);
        return;
      }
      if client.HasValidHash() {
        var range := hashes.Range(client.userHash);
        forall o | o in listed && o.userHash == client.userHash ensures o in range {
          assert HashOk(o) && HashFull(o);
        }
        if range != [] {
          assert range[0] in range && HashOk(range[0]);
          assert FoundAt(listed, client, 4, range[0]) && !NoneAt(listed, client, 4);
          return range[0];
        }
      }
      assert NoneAt(listed, client, 4);
      return null;
    }

    // Shutting down

    /** Every client is deleted, and that ends: what is listed is never already dying. */
    method DeleteAll()
      requires Valid()
      modifies this, ids, ips, hashes, listed
      ensures Valid() && listed == {} && ids.entries == map[] && ips.entries == map[] && hashes.entries == map[]
      ensures forall c | c in old(listed) :: c.state == Dying
    {
      ReleaseIndexes();
      while ids.entries != map[]
        invariant InOrder() && listed <= old(listed) && ips.keys.Keys == hashes.keys.Keys == {}
        invariant forall c | c in old(listed) && c !in listed :: c.state == Dying
        decreases listed
      {
        var _ := DeleteFirst();
      }
      EmptyIndexesNone(ids.keys);
      ips.Empty();
      hashes.Empty();
    }

    method DeleteFirst() returns (client: Client)
      requires InOrder() && ids.entries != map[]
      modifies this, ids, ips, hashes, listed
      ensures InOrder() && client in old(listed) && listed == old(listed) - {client} && client.state == Dying
      ensures ips.keys.Keys <= old(ips.keys).Keys && hashes.keys.Keys <= old(hashes.keys).Keys
      ensures forall c | c in old(listed) && c != client :: c.state == old(c.state)
    {
      var key;
      key, client := ids.Begin();
      assert Kept(client);
      client.SafeDelete(this);
    }

    /** Clearing the IP and hash indexes never drops the last reference. */
    method ReleaseIndexes()
      requires Valid()
      modifies ips, hashes, listed`linked, listed`freed
      ensures InOrder() && ips.keys == map[] && hashes.keys == map[]
    {
      forall c | c in ips.keys || c in hashes.keys
        ensures c.linked > 1 + (if c in ips.keys && c in hashes.keys then 1 else 0)
      {
        assert Kept(c);
      }
      ips.Clear();
      hashes.Clear();
      forall c | c in listed ensures IdOk(c) && IpOk(c) && HashOk(c) && Kept(c) {
        assert old(IdOk(c)) && old(Kept(c));
      }
    }
  }

  /** A listed client nobody else refers to does not survive learning its ID. */
  method IdChangeCanBeTheEnd() returns (lost: bool)
    ensures lost
  {
    var list := new ClientList();
    var client := new Client();
    list.AddClient(client);
    assert list.IdOk(client) && list.IpOk(client) && list.HashOk(client);
    client.SetUserIDHybrid(list, 1);
    lost := client.freed;
  }
}
