/** The row lists behind the client pages: the history list that is loaded once and then patched
    (src/ClientHistoryListCtrl.cpp), and the live list that is overwritten in place while the peers stay the same
    (src/ClientsListCtrl.cpp). */
module RowLists {
  import opened Common

  // ----- The history -----

  datatype Stats = Stats(uploaded: nat, downloaded: nat, upSpeed: nat, downSpeed: nat)

  /** Everything shown that only a completed handshake tells: the name, the text of its cell, version, address,
      software, badges. */
  datatype Identity = Identity(name: string, cell: string, details: seq<nat>)

  datatype LiveClient = LiveClient(stats: Stats, identity: Identity)

  const HASH_DIGITS: nat := 32

  /** A hash of 128 bits. */
  type Hash = n: int | 0 <= n < 0x1_00000000_00000000_00000000_00000000

  datatype Row = Row(
    hash: Hash, stats: Stats, identity: Identity, identityKnown: bool,
    firstSeen: nat, lastSeen: nat, sessions: nat, hasMeta: bool, online: bool)

  function Digit(n: nat): char
    requires n < 16
  {
    if n < 10 then '0' + n as char else 'A' + (n - 10) as char
  }

  /** The last `width` hexadecimal digits of a number. */
  function Hex(n: nat, width: nat): (s: string)
    ensures |s| == width
  {
    if width == 0 then "" else Hex(n / 16, width - 1) + [Digit(n % 16)]
  }

  function Pow16(width: nat): (p: nat)
    ensures p > 0
  {
    if width == 0 then 1 else 16 * Pow16(width - 1)
  }

  predicate IsDigit(c: char) {
    '0' <= c <= '9' || 'A' <= c <= 'F'
  }

  /** The number a hexadecimal text stands for. */
  function Value(s: string): int {
    if s == "" then 0
    else
      var c := s[|s| - 1];
      16 * Value(s[..|s| - 1]) + if c <= '9' then c as int - '0' as int else c as int - 'A' as int + 10
  }

  /** The text is the number, in capital digits and with leading zeros. */
  lemma {:induction false} HexIsTheNumber(n: nat, width: nat)
    requires n < Pow16(width)
    ensures Value(Hex(n, width)) == n && forall i | 0 <= i < width :: IsDigit(Hex(n, width)[i])
  {
    if width > 0 {
      HexIsTheNumber(n / 16, width - 1);
      assert Hex(n, width)[..width - 1] == Hex(n / 16, width - 1);
    }
  }

  /** Different hashes read differently. */
  lemma HexTellsApart(a: nat, b: nat, width: nat)
    requires a < Pow16(width) && b < Pow16(width)
    ensures Hex(a, width) == Hex(b, width) <==> a == b
  {
    HexIsTheNumber(a, width);
    HexIsTheNumber(b, width);
  }

  lemma HashFits(a: Hash)
    ensures a < Pow16(HASH_DIGITS)
  {
    assert Pow16(4) == 0x1_0000;
    Pow16Joins(4, 4);
    Pow16Joins(8, 8);
    Pow16Joins(16, 16);
  }

  /** So what a row shows for want of a name tells its peer from any other. */
  lemma HashesReadDifferently(a: Hash, b: Hash)
    ensures Hex(a, HASH_DIGITS) == Hex(b, HASH_DIGITS) <==> a == b
  {
    HashFits(a);
    HashFits(b);
    HexTellsApart(a, b, HASH_DIGITS);
  }

  lemma {:induction false} Pow16Joins(a: nat, b: nat)
    ensures Pow16(a + b) == Pow16(a) * Pow16(b)
  {
    if a > 0 {
      Pow16Joins(a - 1, b);
    }
  }

  /** Until the peer says otherwise its hash is all it is known by. */
  function CellOr(identity: Identity, hash: Hash): Identity {
    if identity.cell == "" then identity.(cell := Hex(hash, HASH_DIGITS)) else identity
  }

  /** The row of a peer never met before. */
  function NewRow(hash: Hash, live: LiveClient, now: nat): (row: Row)
    ensures row.identity.cell != ""
  {
    Row(hash, live.stats, CellOr(live.identity, hash), live.identity.name != "", now, 0, 1, false, true)
  }

  /** The row of a peer that is there: its figures, its identity once known, and the first time it was seen. */
  function Patched(row: Row, live: LiveClient, now: nat): Row {
    var named := live.identity.name != "";
    row.(online := true, stats := live.stats,
         identity := if named then live.identity else row.identity,
         identityKnown := row.identityKnown || (named && row.identity != live.identity),
         firstSeen := if row.firstSeen == 0 then now else row.firstSeen,
         sessions := if row.firstSeen == 0 && row.sessions == 0 then 1 else row.sessions)
  }

  /** The row of a peer that was there a moment ago. */
  function Departed(row: Row, now: nat): Row {
    row.(online := false, lastSeen := now, stats := row.stats.(upSpeed := 0, downSpeed := 0))
  }

  /** What a row should be, given who is there now. */
  ghost function Reconciled(row: Row, live: map<Hash, LiveClient>, now: nat): Row {
    if row.hash in live then Patched(row, live[row.hash], now) else if row.online then Departed(row, now) else row
  }

  // The same, field by field.

  /** What became of the row of a peer that is there. */
  ghost predicate Present(was: Row, row: Row, live: LiveClient, now: nat) {
    var named := live.identity.name != "";
    && row.hash == was.hash && row.online && row.stats == live.stats
    && row.identity == (if named then live.identity else was.identity)
    && row.identityKnown == (was.identityKnown || (named && was.identity != live.identity))
    && row.firstSeen == (if was.firstSeen != 0 then was.firstSeen else now)
    && row.sessions == (if was.firstSeen == 0 && was.sessions == 0 then 1 else was.sessions)
    && row.lastSeen == was.lastSeen && row.hasMeta == was.hasMeta
  }

  /** What became of the row of a peer that was there before and is not any more. */
  ghost predicate Gone(was: Row, row: Row, now: nat) {
    && !row.online && row.lastSeen == now
    && row.stats.upSpeed == 0 && row.stats.downSpeed == 0
    && row.stats.uploaded == was.stats.uploaded && row.stats.downloaded == was.stats.downloaded
    && row.hash == was.hash && row.identity == was.identity && row.identityKnown == was.identityKnown
    && row.firstSeen == was.firstSeen && row.sessions == was.sessions && row.hasMeta == was.hasMeta
  }

  /** The row of a peer met for the first time. */
  ghost predicate Met(row: Row, live: LiveClient, now: nat) {
    && row.online && row.stats == live.stats && row.firstSeen == now && row.lastSeen == 0 && row.sessions == 1
    && !row.hasMeta && row.identityKnown == (live.identity.name != "")
    && row.identity.name == live.identity.name && row.identity.details == live.identity.details
    && row.identity.cell == if live.identity.cell != "" then live.identity.cell else Hex(row.hash, HASH_DIGITS)
  }

  lemma ReconciledIs(was: Row, live: map<Hash, LiveClient>, now: nat)
    ensures var row := Reconciled(was, live, now);
            if was.hash in live then Present(was, row, live[was.hash], now)
            else if was.online then Gone(was, row, now) else row == was
  {}

  lemma AllReconciledIs(was: seq<Row>, rows: seq<Row>, live: map<Hash, LiveClient>, now: nat)
    requires |was| <= |rows| && forall i | 0 <= i < |was| :: rows[i] == Reconciled(was[i], live, now)
    requires forall i | |was| <= i < |rows| ::
               rows[i].hash in live && rows[i] == NewRow(rows[i].hash, live[rows[i].hash], now)
    ensures forall i | 0 <= i < |was| ::
              if was[i].hash in live then Present(was[i], rows[i], live[was[i].hash], now)
              else if was[i].online then Gone(was[i], rows[i], now) else rows[i] == was[i]
    ensures forall i | |was| <= i < |rows| :: Met(rows[i], live[rows[i].hash], now)
  {
    forall i | 0 <= i < |was|
      ensures if was[i].hash in live then Present(was[i], rows[i], live[was[i].hash], now)
              else if was[i].online then Gone(was[i], rows[i], now) else rows[i] == was[i]
    {
      ReconciledIs(was[i], live, now);
    }
  }

  /** The hash index leads to each row and nowhere else. */
  ghost predicate Inverse(rowOfHash: map<Hash, nat>, rows: seq<Row>) {
    && (forall h | h in rowOfHash :: rowOfHash[h] < |rows| && rows[rowOfHash[h]].hash == h)
    && forall i {:trigger rows[i]} | 0 <= i < |rows| :: rows[i].hash in rowOfHash && rowOfHash[rows[i].hash] == i
  }

  ghost predicate DistinctHashes(rows: seq<Row>) {
    forall i, j | 0 <= i < j < |rows| :: rows[i].hash != rows[j].hash
  }

  ghost predicate MarksOnline(marked: set<nat>, rows: seq<Row>) {
    forall i: nat {:trigger i in marked} :: i in marked <==> i < |rows| && rows[i].online
  }

  class ClientHistoryList {
    var rows: seq<Row>
    var rowOfHash: map<Hash, nat>
    var onlineRows: set<nat>
    var loaded: bool

    ghost predicate Valid()
      reads this
    {
      Inverse(rowOfHash, rows) && MarksOnline(onlineRows, rows)
    }

    constructor ()
      ensures Valid() && rows == [] && !loaded
    {
      rows, rowOfHash, onlineRows, loaded := [], map[], {}, false;
    }

    /** The index is the inverse of the rows exactly if no two of them share a hash. */
    method SetRows(newRows: seq<Row>)
      modifies this
      ensures rows == newRows && loaded && MarksOnline(onlineRows, rows)
      ensures Inverse(rowOfHash, rows) <==> DistinctHashes(newRows)
    {
      rows, loaded := newRows, true;
      rowOfHash, onlineRows := map[], {};
      for i := 0 to |rows|
        invariant rows == newRows && loaded
        invariant forall k: nat {:trigger k in onlineRows} :: k in onlineRows <==> k < i && rows[k].online
        invariant forall h | h in rowOfHash :: rowOfHash[h] < i && rows[rowOfHash[h]].hash == h
        invariant forall k | 0 <= k < i :: rows[k].hash in rowOfHash && k <= rowOfHash[rows[k].hash]
      {
        rowOfHash := rowOfHash[rows[i].hash := i];
        if rows[i].online {
          onlineRows := onlineRows + {i};
        }
      }
    }

    method AppendLiveRow(hash: Hash, live: LiveClient, now: nat) returns (index: nat)
      requires Inverse(rowOfHash, rows) && hash !in rowOfHash
      modifies `rows, `rowOfHash
      ensures rows == old(rows) + [NewRow(hash, live, now)] && index == |old(rows)|
      ensures Inverse(rowOfHash, rows) && rowOfHash == old(rowOfHash)[hash := index]
      ensures live.identity.cell == "" ==> rows[index].identity.cell == Hex(hash, HASH_DIGITS)
    {
      rows := rows + [NewRow(hash, live, now)];
      index := |rows| - 1;
      rowOfHash := rowOfHash[hash := index];
    }

    /** One peer that is there. */
    method ReconcileOne(hash: Hash, live: LiveClient, now: nat) returns (index: nat)
      requires Inverse(rowOfHash, rows)
      modifies `rows, `rowOfHash
      ensures Inverse(rowOfHash, rows) && hash in rowOfHash && index == rowOfHash[hash]
      ensures if hash in old(rowOfHash)
              then rowOfHash == old(rowOfHash) && rows == old(rows)[index := Patched(old(rows)[index], live, now)]
              else rowOfHash == old(rowOfHash)[hash := index] && index == |old(rows)|
                   && rows == old(rows) + [NewRow(hash, live, now)]
    {
      if hash !in rowOfHash {
        index := AppendLiveRow(hash, live, now);
        return;
      }
      index := rowOfHash[hash];
      var row := rows[index].(online := true, stats := live.stats);
      if live.identity.name != "" && row.identity != live.identity {
        row := row.(identity := live.identity, identityKnown := true);
      }
      if row.firstSeen == 0 {
        row := row.(firstSeen := now, sessions := if row.sessions == 0 then 1 else row.sessions);
      }
      SameHashes(rowOfHash, rows, rows[index := row]);
      rows := rows[index := row];
    }

    /** Patching the rows leaves them as rebuilding them would: every old row is what it should be now, each peer
        met for the first time has a new one, and the rows marked online are exactly those of the peers there. */
    method ReconcileLive(live: map<Hash, LiveClient>, now: nat)
      requires Valid()
      modifies `rows, `rowOfHash, `onlineRows
      ensures Valid()
      ensures !loaded ==> rows == old(rows) && onlineRows == old(onlineRows)
      ensures loaded ==>
                && |old(rows)| <= |rows|
                && (forall i | 0 <= i < |old(rows)| :: rows[i] == Reconciled(old(rows)[i], live, now))
                && (forall i | |old(rows)| <= i < |rows| ::
                      rows[i].hash in live && rows[i] == NewRow(rows[i].hash, live[rows[i].hash], now))
                && (forall i | 0 <= i < |old(rows)| ::
                      var was := old(rows)[i];
                      if was.hash in live then Present(was, rows[i], live[was.hash], now)
                      else if was.online then Gone(was, rows[i], now) else rows[i] == was)
                && (forall i | |old(rows)| <= i < |rows| ::
                      rows[i].hash in live && Met(rows[i], live[rows[i].hash], now))
                && (forall h | h in live :: h in rowOfHash && rowOfHash[h] in onlineRows)
                && (forall i | i in onlineRows :: rows[i].hash in live)
    {
      if !loaded {
        return;
      }
      var stillOnline := PatchPresent(live, now);
      ghost var patched := rows;
      MarkDeparted(stillOnline, now);
      SameHashes(rowOfHash, patched, rows);
      AllReconciled(old(rows), patched, rows, live, now, onlineRows, stillOnline);
      onlineRows := stillOnline;
      AllReconciledIs(old(rows), rows, live, now);
    }

    /** Whoever was online and is not any more, found through the set of online rows. */
    method MarkDeparted(stillOnline: set<nat>, now: nat)
      requires forall i | i in onlineRows :: i < |rows|
      modifies `rows
      ensures |rows| == |old(rows)|
      ensures forall i | 0 <= i < |rows| ::
                rows[i] == DepartedIf(old(rows)[i], i in onlineRows && i !in stillOnline, now)
    {
      var todo := onlineRows;
      while todo != {}
        invariant todo <= onlineRows && |rows| == |old(rows)|
        invariant forall i | 0 <= i < |rows| ::
                    rows[i] == DepartedIf(old(rows)[i], i in onlineRows && i !in todo && i !in stillOnline, now)
        decreases |todo|
      {
        var index :| index in todo;
        if index !in stillOnline {
          rows := rows[index := Departed(rows[index], now)];
        }
        todo := todo - {index};
      }
    }

    /** Whoever is there, in whatever order the map gives them. */
    method PatchPresent(live: map<Hash, LiveClient>, now: nat) returns (stillOnline: set<nat>)
      requires Inverse(rowOfHash, rows)
      modifies `rows, `rowOfHash
      ensures Inverse(rowOfHash, rows) && Progress(old(rows), rows, live, now, {}, stillOnline)
      ensures forall h | h in live :: h in rowOfHash
    {
      stillOnline := {};
      var todo := live.Keys;
      ghost var before := rows;
      while todo != {}
        invariant todo <= live.Keys && Inverse(rowOfHash, rows) && Progress(before, rows, live, now, todo, stillOnline)
        invariant forall h | h in live && h !in todo :: h in rowOfHash
        decreases |todo|
      {
        var hash :| hash in todo;
        if hash in rowOfHash {
          PatchedProgress(before, rowOfHash, rows, live, now, todo, stillOnline, hash);
        } else {
          AppendedProgress(before, rowOfHash, rows, live, now, todo, stillOnline, hash);
        }
        var index := ReconcileOne(hash, live[hash], now);
        stillOnline := stillOnline + {index};
        todo := todo - {hash};
      }
    }
  }

  lemma SameHashes(rowOfHash: map<Hash, nat>, a: seq<Row>, b: seq<Row>)
    requires Inverse(rowOfHash, a) && |a| == |b| && forall i | 0 <= i < |a| :: b[i].hash == a[i].hash
    ensures Inverse(rowOfHash, b)
  {}

  ghost function DepartedIf(row: Row, departed: bool, now: nat): Row {
    if departed then Departed(row, now) else row
  }

  lemma AllReconciled(before: seq<Row>, patched: seq<Row>, after: seq<Row>, live: map<Hash, LiveClient>, now: nat,
                      wasOnline: set<nat>, stillOnline: set<nat>)
    requires MarksOnline(wasOnline, before) && Progress(before, patched, live, now, {}, stillOnline)
             && |after| == |patched|
    requires forall i | 0 <= i < |after| :: after[i] == DepartedIf(patched[i], i in wasOnline && i !in stillOnline, now)
    ensures MarksOnline(stillOnline, after)
    ensures forall i | 0 <= i < |before| :: after[i] == Reconciled(before[i], live, now)
    ensures forall i | |before| <= i < |after| :: IsNew(after[i], live, now, {})
  {}

  /** The row of a peer once all but those in `todo` were dealt with. */
  ghost function PatchedIf(row: Row, live: map<Hash, LiveClient>, now: nat, todo: set<Hash>): Row {
    if row.hash in live && row.hash !in todo then Patched(row, live[row.hash], now) else row
  }

  ghost predicate IsNew(row: Row, live: map<Hash, LiveClient>, now: nat, todo: set<Hash>) {
    row.hash in live && row.hash !in todo && row == NewRow(row.hash, live[row.hash], now)
  }

  /** The rows grown out of `before` once all peers but those in `todo` were dealt with. */
  ghost predicate Progress(before: seq<Row>, rows: seq<Row>, live: map<Hash, LiveClient>, now: nat,
                             todo: set<Hash>, seen: set<nat>)
  {
    && |before| <= |rows|
    && (forall i {:trigger rows[i]} {:trigger before[i]} | 0 <= i < |before| ::
          rows[i] == PatchedIf(before[i], live, now, todo))
    && (forall i {:trigger rows[i]} | |before| <= i < |rows| :: IsNew(rows[i], live, now, todo))
    && (forall i: nat {:trigger i in seen} ::
          i in seen <==> i < |rows| && rows[i].hash in live && rows[i].hash !in todo)
  }

  lemma PatchedProgress(before: seq<Row>, rowOfHash: map<Hash, nat>, rows: seq<Row>, live: map<Hash, LiveClient>,
                        now: nat,
                        todo: set<Hash>, seen: set<nat>, hash: Hash)
    requires Inverse(rowOfHash, rows) && Progress(before, rows, live, now, todo, seen)
    requires hash in todo && hash in live && hash in rowOfHash
    ensures var index := rowOfHash[hash];
            Progress(before, rows[index := Patched(rows[index], live[hash], now)], live, now,
                     todo - {hash}, seen + {index})
  {
    var index := rowOfHash[hash];
    assert rows[index].hash == hash;
    assert index < |before|;
    var after := rows[index := Patched(rows[index], live[hash], now)];
    forall i | 0 <= i < |rows| ensures after[i].hash == rows[i].hash && (i != index ==> rows[i].hash != hash) {
    }
  }

  lemma AppendedProgress(before: seq<Row>, rowOfHash: map<Hash, nat>, rows: seq<Row>, live: map<Hash, LiveClient>,
                         now: nat,
                         todo: set<Hash>, seen: set<nat>, hash: Hash)
    requires Inverse(rowOfHash, rows) && Progress(before, rows, live, now, todo, seen)
    requires hash in todo && hash in live && hash !in rowOfHash
    ensures Progress(before, rows + [NewRow(hash, live[hash], now)], live, now, todo - {hash}, seen + {|rows|})
  {
    forall i | 0 <= i < |rows| ensures rows[i].hash != hash {
    }
  }

  // ----- The live list -----

  /** A row is addressed by the peer's id; 0 is no peer. */
  datatype Peer = Peer(ecid: nat, shown: seq<nat>)

  /** The rows by id; of rows that share one, the last. */
  ghost function ById(rows: seq<Peer>): map<nat, Peer> {
    if rows == [] then map[] else ById(rows[..|rows| - 1])[rows[|rows| - 1].ecid := rows[|rows| - 1]]
  }

  function Identified(rows: seq<Peer>): seq<Peer> {
    if rows == [] then []
    else Identified(rows[..|rows| - 1]) + if rows[|rows| - 1].ecid == 0 then [] else [rows[|rows| - 1]]
  }

  ghost predicate DistinctIds(rows: seq<Peer>) {
    forall i, j | 0 <= i < j < |rows| :: rows[i].ecid != rows[j].ecid
  }

  lemma {:induction false} ByIdHas(rows: seq<Peer>, i: nat)
    requires i < |rows|
    ensures rows[i].ecid in ById(rows)
    decreases |rows|
  {
    if i < |rows| - 1 {
      ByIdHas(rows[..|rows| - 1], i);
    }
  }

  /** What the map holds is one of the rows. */
  lemma {:induction false} ByIdFrom(rows: seq<Peer>, e: nat) returns (i: nat)
    requires e in ById(rows)
    ensures i < |rows| && rows[i] == ById(rows)[e] && rows[i].ecid == e
    decreases |rows|
  {
    i := |rows| - 1;
    if rows[i].ecid != e {
      i := ByIdFrom(rows[..|rows| - 1], e);
    }
  }

  /** It is as large as the list exactly if no two rows share an id. */
  lemma {:induction false} ByIdSize(rows: seq<Peer>)
    ensures |ById(rows)| <= |rows|
    ensures |ById(rows)| == |rows| <==> DistinctIds(rows)
    decreases |rows|
  {
    if rows != [] {
      var before, last := rows[..|rows| - 1], rows[|rows| - 1];
      ByIdSize(before);
      Grows(ById(before), last.ecid, last);
      DistinctSnoc(rows);
      if last.ecid in ById(before) {
        var i := ByIdFrom(before, last.ecid);
      }
      forall i | 0 <= i < |before| ensures before[i].ecid in ById(before) {
        ByIdHas(before, i);
      }
    }
  }

  lemma Grows(m: map<nat, Peer>, k: nat, v: Peer)
    ensures |m[k := v]| == if k in m then |m| else |m| + 1
  {}

  lemma DistinctSnoc(rows: seq<Peer>)
    requires rows != []
    ensures var before, last := rows[..|rows| - 1], rows[|rows| - 1];
            DistinctIds(rows) <==> DistinctIds(before) && forall i | 0 <= i < |before| :: before[i].ecid != last.ecid
  {}

  /** Rows of which none is missing from a map of the same size have all of its ids exactly if they are distinct. */
  lemma SameSet(rows: seq<Peer>, incoming: map<nat, Peer>)
    requires |incoming| == |rows| && forall i | 0 <= i < |rows| :: rows[i].ecid in incoming
    ensures ById(rows).Keys <= incoming.Keys
    ensures ById(rows).Keys == incoming.Keys <==> DistinctIds(rows)
  {
    ByIdSize(rows);
    forall e | e in ById(rows) ensures e in incoming {
      var i := ByIdFrom(rows, e);
    }
    assert |ById(rows)| == |ById(rows).Keys| && |incoming| == |incoming.Keys|;
    if DistinctIds(rows) {
      SubsetOfSameSize(ById(rows).Keys, incoming.Keys);
    }
  }

  lemma SubsetOfSameSize(a: set<nat>, b: set<nat>)
    requires a <= b && |a| == |b|
    ensures a == b
  {
    assert |b - a| == |b| - |a|;
    assert b == a + (b - a);
  }

  lemma {:induction false} ByIdOverwritten(rows: seq<Peer>, incoming: map<nat, Peer>)
    requires forall i | 0 <= i < |rows| :: rows[i].ecid in incoming && rows[i] == incoming[rows[i].ecid]
    ensures forall e | e in ById(rows) :: e in incoming && ById(rows)[e] == incoming[e]
    decreases |rows|
  {
    if rows != [] {
      ByIdOverwritten(rows[..|rows| - 1], incoming);
    }
  }

  lemma {:induction false} SameKeys(a: seq<Peer>, b: seq<Peer>)
    requires |a| == |b| && forall i | 0 <= i < |a| :: a[i].ecid == b[i].ecid
    ensures ById(a).Keys == ById(b).Keys
    decreases |a|
  {
    if a != [] {
      SameKeys(a[..|a| - 1], b[..|b| - 1]);
    }
  }

  /** The peers look the same as before: as many rows, none of them gone. */
  ghost predicate SamePeers(rows: seq<Peer>, incoming: map<nat, Peer>) {
    |incoming| == |rows| && forall i | 0 <= i < |rows| :: rows[i].ecid in incoming
  }

  ghost predicate InPlace(rows: seq<Peer>, newRows: seq<Peer>) {
    |Identified(newRows)| == |rows| && SamePeers(rows, ById(Identified(newRows)))
  }

  ghost function Overwritten(rows: seq<Peer>, incoming: map<nat, Peer>): (after: seq<Peer>)
    requires SamePeers(rows, incoming)
    ensures |after| == |rows| && forall i | 0 <= i < |rows| :: after[i] == incoming[rows[i].ecid]
  {
    seq(|rows|, i requires 0 <= i < |rows| => incoming[rows[i].ecid])
  }

  ghost function Updated(rows: seq<Peer>, newRows: seq<Peer>): seq<Peer> {
    if InPlace(rows, newRows) then Overwritten(rows, ById(Identified(newRows))) else Identified(newRows)
  }

  lemma OverwrittenKeys(rows: seq<Peer>, newRows: seq<Peer>)
    requires InPlace(rows, newRows)
    ensures ById(Overwritten(rows, ById(Identified(newRows)))).Keys == ById(rows).Keys
    ensures forall i | 0 <= i < |rows| :: Updated(rows, newRows)[i].ecid == rows[i].ecid
  {
    var incoming := ById(Identified(newRows));
    forall i | 0 <= i < |rows| ensures incoming[rows[i].ecid].ecid == rows[i].ecid {
      var j := ByIdFrom(Identified(newRows), rows[i].ecid);
    }
    SameKeys(rows, Overwritten(rows, incoming));
  }

  /** Overwriting the rows where they sit leaves the same map from ids to rows as replacing all of them does, exactly
      if the rows that were there had ids of their own; otherwise some peer that has just come is missed. */
  lemma UpdatedIsReplaced(rows: seq<Peer>, newRows: seq<Peer>)
    ensures ById(Updated(rows, newRows)) == ById(Identified(newRows))
            <==> (InPlace(rows, newRows) ==> DistinctIds(rows))
  {
    if InPlace(rows, newRows) {
      var incoming := ById(Identified(newRows));
      OverwrittenKeys(rows, newRows);
      SameSet(rows, incoming);
      ByIdOverwritten(Updated(rows, newRows), incoming);
    }
  }

  lemma TwoById(a: Peer, b: Peer)
    ensures ById([a, b]) == map[a.ecid := a][b.ecid := b]
  {
    assert [a, b][..1] == [a] && [a][..0] == [];
    assert ById([a]) == ById([a][..0])[a.ecid := a];
    assert ById([a, b]) == ById([a, b][..1])[b.ecid := b];
  }

  lemma TwoIdentified(a: Peer, b: Peer)
    requires a.ecid != 0 && b.ecid != 0
    ensures Identified([a, b]) == [a, b]
  {
    assert [a, b][..1] == [a] && [a][..0] == [];
    assert Identified([a]) == Identified([a][..0]) + [a];
    assert Identified([a, b]) == Identified([a, b][..1]) + [b];
  }

  /** Two rows with one id hide the arrival of another peer. */
  lemma DuplicateHidesAPeer(a: Peer, b: Peer)
    requires a.ecid != 0 && b.ecid != 0 && a.ecid != b.ecid
    ensures b.ecid in ById(Identified([a, b])) && b.ecid !in ById(Updated([a, a], [a, b]))
  {
    TwoIdentified(a, b);
    TwoById(a, b);
    TwoById(a, a);
    ByIdSize([a, b]);
    OverwrittenKeys([a, a], [a, b]);
  }

  class ClientsList {
    var rows: seq<Peer>
    var rowOfEcid: map<nat, nat>

    /** The index leads from each id to its row, or the last of its rows. */
    ghost predicate Valid()
      reads this
    {
      rowOfEcid.Keys == ById(rows).Keys && forall e | e in rowOfEcid :: LeadsTo(e)
    }

    ghost predicate LeadsTo(e: nat)
      requires e in rowOfEcid
      reads this
    {
      rowOfEcid[e] < |rows| && e in ById(rows) && rows[rowOfEcid[e]] == ById(rows)[e]
    }

    constructor ()
      ensures Valid() && rows == []
    {
      rows, rowOfEcid := [], map[];
    }

    method RowFor(item: nat) returns (row: Option<Peer>)
      requires Valid()
      ensures row == if item in ById(rows) then Some(ById(rows)[item]) else None
    {
      if item in rowOfEcid {
        assert LeadsTo(item);
        return Some(rows[rowOfEcid[item]]);
      }
      return None;
    }

    method ReindexRows()
      modifies `rowOfEcid
      ensures Valid()
    {
      rowOfEcid := map[];
      for i := 0 to |rows|
        invariant rowOfEcid.Keys == ById(rows[..i]).Keys
        invariant forall e | e in rowOfEcid :: rowOfEcid[e] < i && rows[rowOfEcid[e]] == ById(rows[..i])[e]
      {
        assert rows[..i + 1][..i] == rows[..i];
        rowOfEcid := rowOfEcid[rows[i].ecid := i];
      }
      assert rows[..|rows|] == rows;
    }

    /** The same peers are overwritten where they sit; otherwise everything is replaced. */
    method SetClients(newRows: seq<Peer>)
      requires Valid()
      modifies this
      ensures Valid() && rows == Updated(old(rows), newRows)
    {
      var identified := WithIds(newRows);
      if |identified| == |rows| {
        var incoming := Incoming(identified);
        var sameSet := SameIds(incoming);
        if sameSet {
          OverwrittenKeys(rows, newRows);
          IndexStays(newRows);
          Overwrite(incoming);
          return;
        }
      }
      rows := identified;
      ReindexRows();
    }

    method WithIds(newRows: seq<Peer>) returns (identified: seq<Peer>)
      ensures identified == Identified(newRows)
    {
      identified := [];
      for i := 0 to |newRows|
        invariant identified == Identified(newRows[..i])
      {
        assert newRows[..i + 1][..i] == newRows[..i];
        if newRows[i].ecid != 0 {
          identified := identified + [newRows[i]];
        }
      }
      assert newRows[..|newRows|] == newRows;
    }

    /** The index fits the overwritten rows as it fitted the old ones. */
    lemma IndexStays(newRows: seq<Peer>)
      requires Valid() && InPlace(rows, newRows)
      ensures var after := Updated(rows, newRows);
              rowOfEcid.Keys == ById(after).Keys &&
              forall e | e in rowOfEcid :: rowOfEcid[e] < |after| && after[rowOfEcid[e]] == ById(after)[e]
    {
      var after, incoming := Updated(rows, newRows), ById(Identified(newRows));
      OverwrittenKeys(rows, newRows);
      ByIdOverwritten(after, incoming);
      forall e | e in rowOfEcid ensures rowOfEcid[e] < |after| && after[rowOfEcid[e]] == ById(after)[e] {
        assert LeadsTo(e);
        var i := ByIdFrom(rows, e);
      }
    }

    method Incoming(identified: seq<Peer>) returns (incoming: map<nat, Peer>)
      ensures incoming == ById(identified)
    {
      incoming := map[];
      for i := 0 to |identified|
        invariant incoming == ById(identified[..i])
      {
        assert identified[..i + 1][..i] == identified[..i];
        incoming := incoming[identified[i].ecid := identified[i]];
      }
      assert identified[..|identified|] == identified;
    }

    method SameIds(incoming: map<nat, Peer>) returns (same: bool)
      ensures same <==> SamePeers(rows, incoming)
    {
      same := |incoming| == |rows|;
      for i := 0 to |rows|
        invariant same <==> |incoming| == |rows|
        invariant forall j | 0 <= j < i :: rows[j].ecid in incoming
      {
        if rows[i].ecid !in incoming {
          return false;
        }
      }
    }

    method Overwrite(incoming: map<nat, Peer>)
      requires SamePeers(rows, incoming)
      modifies `rows
      ensures rows == Overwritten(old(rows), incoming)
    {
      ghost var before := rows;
      for i := 0 to |rows|
        invariant |rows| == |before|
        invariant forall j | 0 <= j < i :: rows[j] == Overwritten(before, incoming)[j]
        invariant forall j | i <= j < |rows| :: rows[j] == before[j]
      {
        var newer := incoming[rows[i].ecid];
        if rows[i] == newer {
          continue;
        }
        rows := rows[i := newer];
      }
    }
  }
}
