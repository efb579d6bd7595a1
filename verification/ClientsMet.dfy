/** The clients.met credit file (src/ClientCreditsList.cpp): fixed 119-byte records behind a back-patched
    count, followed by an optional metadata trailer that older readers never look at. */
module ClientsMet {
  import opened Common
  import opened FileModel
  import opened RecordLists
  import opened Strings

  type Hash = s: seq<byte> | |s| == 16 witness Zeros(16)

  const MAX_PUBKEY_SIZE: nat := 80

  type KeyBytes = s: seq<byte> | |s| == MAX_PUBKEY_SIZE witness Zeros(MAX_PUBKEY_SIZE)

  datatype Credit = Credit(
    key: Hash,
    uploaded: uint64,
    downloaded: uint64,
    lastSeen: uint32,
    reserved: uint16,
    keySize: byte,
    secureIdent: KeyBytes)

  /** `name` is text in memory and bytes on disk. */
  datatype Meta<N> = Meta(
    name: N,
    firstSeen: uint32,
    sessions: uint32,
    lastIP: uint32,
    lastPort: uint16,
    kadPort: uint16,
    version: uint32,
    clientSoft: byte,
    sourceFrom: byte,
    obfuscation: byte)

  const NO_META: Meta<Text> := Meta([], 0, 0, 0, 0, 0, 0, 0, 0, 0)

  datatype Client = Client(credit: Credit, meta: Meta<Text>)

  type Clients = map<Hash, Client>

  const CREDITFILE_VERSION: byte := 0x12
  const META_MAGIC: seq<byte> := [0x41, 0x4D, 0x55, 0x4C, 0x45, 0x4D, 0x44, 0x31]
  const META_VERSION: byte := 1
  const META_MAX_NAME: nat := 64
  const META_NAME_BYTES: nat := 4 * META_MAX_NAME

  predicate HasTraffic(c: Client) {
    c.credit.uploaded != 0 || c.credit.downloaded != 0
  }

  predicate HasMeta(c: Client) {
    c.meta.firstSeen != 0
  }

  // ----- Integers on disk -----

  function LE(n: nat, width: nat): (s: seq<byte>)
    ensures |s| == width
  {
    if width == 0 then [] else [n % 256] + LE(n / 256, width - 1)
  }

  function FromLE(s: seq<byte>): (n: nat)
    ensures n < Pow256(|s|)
  {
    if s == [] then 0 else s[0] + 256 * FromLE(s[1..])
  }

  function Pow256(width: nat): nat {
    if width == 0 then 1 else 256 * Pow256(width - 1)
  }

  lemma {:induction false} RoundTripLE(n: nat, width: nat)
    requires n < Pow256(width)
    ensures FromLE(LE(n, width)) == n
  {
    if width > 0 {
      RoundTripLE(n / 256, width - 1);
      assert LE(n, width)[1..] == LE(n / 256, width - 1);
    }
  }

  lemma Widths()
    ensures Pow256(1) == 0x100 && Pow256(2) == 0x1_0000 && Pow256(4) == 0x1_0000_0000
  {}

  function Low(n: uint64): uint32 {
    n % TWO32
  }

  function High(n: uint64): uint32 {
    n / TWO32
  }

  /** A `width`-byte number at the front of what is left to read. */
  function NumberAt(rest: seq<byte>, width: nat): nat
    requires width <= |rest|
  {
    FromLE(rest[..width])
  }

  /** Reading back a number that was written, and moving past it. */
  lemma {:induction false} ReadNumber(n: nat, width: nat, more: seq<byte>)
    requires n < Pow256(width)
    ensures NumberAt(LE(n, width) + more, width) == n
    ensures (LE(n, width) + more)[width..] == more
  {
    assert (LE(n, width) + more)[..width] == LE(n, width);
    RoundTripLE(n, width);
  }

  lemma ReadBytes(s: seq<byte>, more: seq<byte>)
    ensures (s + more)[..|s|] == s && (s + more)[|s|..] == more
  {}

  /** Consecutive numbers of the given widths. */
  function EncodeNumbers(ns: seq<nat>, widths: seq<nat>): (s: seq<byte>)
    requires |ns| == |widths|
    ensures |s| == Total(widths)
  {
    if ns == [] then [] else LE(ns[0], widths[0]) + EncodeNumbers(ns[1..], widths[1..])
  }

  function DecodeNumbers(rest: seq<byte>, widths: seq<nat>): (ns: seq<nat>)
    requires |rest| == Total(widths)
    ensures |ns| == |widths|
    ensures forall i | 0 <= i < |ns| :: ns[i] < Pow256(widths[i])
    decreases |widths|
  {
    if widths == [] then []
    else [NumberAt(rest, widths[0])] + DecodeNumbers(rest[widths[0]..], widths[1..])
  }

  function Total(widths: seq<nat>): nat {
    if widths == [] then 0 else widths[0] + Total(widths[1..])
  }

  lemma {:induction false} NumbersRoundTrip(ns: seq<nat>, widths: seq<nat>)
    requires |ns| == |widths| && forall i | 0 <= i < |ns| :: ns[i] < Pow256(widths[i])
    ensures DecodeNumbers(EncodeNumbers(ns, widths), widths) == ns
    decreases |ns|
  {
    if ns != [] {
      ReadNumber(ns[0], widths[0], EncodeNumbers(ns[1..], widths[1..]));
      NumbersRoundTrip(ns[1..], widths[1..]);
    }
  }

  // ----- One credit record -----

  const CREDIT_WIDTHS: seq<nat> := [4, 4, 4, 4, 4, 2, 1]
  const CREDIT_NUMBERS: nat := 23
  const RECORD_SIZE: nat := 119

  lemma CreditWidths()
    ensures Total(CREDIT_WIDTHS) == CREDIT_NUMBERS
  {}

  function CreditNumbers(c: Credit): seq<nat> {
    [Low(c.uploaded), Low(c.downloaded), c.lastSeen, High(c.uploaded), High(c.downloaded), c.reserved, c.keySize]
  }

  function EncodeCredit(c: Credit): (s: seq<byte>)
    ensures |s| == RECORD_SIZE
  {
    CreditWidths();
    c.key + EncodeNumbers(CreditNumbers(c), CREDIT_WIDTHS) + c.secureIdent
  }

  function DecodeCredit(r: seq<byte>): Credit
    requires |r| == RECORD_SIZE
  {
    Widths();
    CreditWidths();
    var ns := DecodeNumbers(r[16..][..CREDIT_NUMBERS], CREDIT_WIDTHS);
    assert ns[6] < Pow256(CREDIT_WIDTHS[6]) && ns[5] < Pow256(CREDIT_WIDTHS[5]);
    assert forall i | 0 <= i < 5 :: ns[i] < Pow256(CREDIT_WIDTHS[i]) && CREDIT_WIDTHS[i] == 4;
    Credit(r[..16], ns[0] + ns[3] * TWO32, ns[1] + ns[4] * TWO32, ns[2], ns[5], ns[6], r[16 + CREDIT_NUMBERS..])
  }

  lemma CreditRoundTrip(c: Credit)
    ensures DecodeCredit(EncodeCredit(c)) == c
  {
    Widths();
    CreditWidths();
    var numbers := EncodeNumbers(CreditNumbers(c), CREDIT_WIDTHS);
    assert EncodeCredit(c)[16..][..CREDIT_NUMBERS] == numbers;
    NumbersRoundTrip(CreditNumbers(c), CREDIT_WIDTHS);
  }

  /** The next record of a file, if it is all there. */
  function CreditAt(rest: seq<byte>): Option<(Credit, seq<byte>)> {
    if |rest| < RECORD_SIZE then None else Some((DecodeCredit(rest[..RECORD_SIZE]), rest[RECORD_SIZE..]))
  }

  const CREDIT := Codec(EncodeCredit, CreditAt, (c: Credit) => true)

  lemma CreditCodec()
    ensures Inverts(CREDIT)
  {
    forall c: Credit, more: seq<byte> ensures CreditAt(EncodeCredit(c) + more) == Some((c, more)) {
      CreditRoundTrip(c);
      ReadBytes(EncodeCredit(c), more);
    }
  }

  // ----- One metadata entry -----

  datatype Entry = Entry(key: Hash, meta: Meta<seq<byte>>)

  const META_WIDTHS: seq<nat> := [4, 4, 4, 2, 2, 4, 1, 1, 1]
  const META_NUMBERS: nat := 23
  const ENTRY_FIXED: nat := 41

  lemma MetaWidths()
    ensures Total(META_WIDTHS) == META_NUMBERS
  {}

  function Renamed<M, N>(m: Meta<M>, name: N): Meta<N> {
    Meta(name, m.firstSeen, m.sessions, m.lastIP, m.lastPort, m.kadPort, m.version, m.clientSoft, m.sourceFrom,
         m.obfuscation)
  }

  /** Names are attacker-supplied, so only so many characters of them are written. */
  function Left(name: Text): (r: Text)
    ensures |r| <= META_MAX_NAME
  {
    if |name| <= META_MAX_NAME then name else name[..META_MAX_NAME]
  }

  function Stored(m: Meta<Text>): Meta<seq<byte>> {
    Renamed(m, StringBytes(Left(m.name)))
  }

  function Restored(m: Meta<seq<byte>>): Meta<Text> {
    Renamed(m, StringFrom(m.name))
  }

  /** What the file keeps of a peer's metadata. */
  function Cut(m: Meta<Text>): Meta<Text> {
    m.(name := Kept(Left(m.name)))
  }

  lemma CutComesBack(m: Meta<Text>)
    ensures |Stored(m).name| <= META_NAME_BYTES
    ensures Restored(Stored(m)) == Cut(m)
  {
    Utf8IsShort(Left(m.name));
    ReadsBack(Left(m.name));
  }

  /** Exactly the names that come back as they were. */
  lemma NameComesBack(m: Meta<Text>)
    ensures Restored(Stored(m)) == m <==> |m.name| <= META_MAX_NAME && 0 !in m.name && !StartsWithMark(m.name)
  {
    CutComesBack(m);
    Utf8IsShort(Left(m.name));
    ReadsBack(Left(m.name));
    ReadsBackWhole(Left(m.name));
  }

  function MetaNumbers(m: Meta<seq<byte>>): seq<nat> {
    [m.firstSeen, m.sessions, m.lastIP, m.lastPort, m.kadPort, m.version, m.clientSoft, m.sourceFrom, m.obfuscation]
  }

  function EncodeFields(key: Hash, m: Meta<seq<byte>>): (s: seq<byte>)
    ensures |s| == ENTRY_FIXED - 2
  {
    MetaWidths();
    key + EncodeNumbers(MetaNumbers(m), META_WIDTHS)
  }

  function EncodeEntry(e: Entry): (s: seq<byte>)
    ensures |s| == ENTRY_FIXED + |e.meta.name|
  {
    EncodeFields(e.key, e.meta) + LE(|e.meta.name|, 2) + e.meta.name
  }

  lemma MetaNumbersFit(ns: seq<nat>)
    requires |ns| == 9 && forall i | 0 <= i < 9 :: ns[i] < Pow256(META_WIDTHS[i])
    ensures ns[0] < TWO32 && ns[1] < TWO32 && ns[2] < TWO32 && ns[3] < 0x1_0000 && ns[4] < 0x1_0000
    ensures ns[5] < TWO32 && ns[6] < 0x100 && ns[7] < 0x100 && ns[8] < 0x100
  {
    Widths();
    assert META_WIDTHS[0] == META_WIDTHS[1] == META_WIDTHS[2] == META_WIDTHS[5] == 4;
    assert META_WIDTHS[3] == META_WIDTHS[4] == 2;
    assert META_WIDTHS[6] == META_WIDTHS[7] == META_WIDTHS[8] == 1;
  }

  function DecodeFields(r: seq<byte>, name: seq<byte>): Meta<seq<byte>>
    requires |r| == ENTRY_FIXED - 2
  {
    MetaWidths();
    var ns := DecodeNumbers(r[16..], META_WIDTHS);
    MetaNumbersFit(ns);
    Meta(name, ns[0], ns[1], ns[2], ns[3], ns[4], ns[5], ns[6], ns[7], ns[8])
  }

  lemma FieldsRoundTrip(key: Hash, m: Meta<seq<byte>>, name: seq<byte>)
    ensures EncodeFields(key, m)[..16] == key
    ensures DecodeFields(EncodeFields(key, m), name) == m.(name := name)
  {
    Widths();
    MetaWidths();
    assert EncodeFields(key, m)[16..] == EncodeNumbers(MetaNumbers(m), META_WIDTHS);
    NumbersRoundTrip(MetaNumbers(m), META_WIDTHS);
  }

  /** The next trailer entry, if both its fixed part and its whole name are there. */
  function EntryAt(rest: seq<byte>): Option<(Entry, seq<byte>)> {
    if |rest| < ENTRY_FIXED then None
    else
      var length := NumberAt(rest[ENTRY_FIXED - 2..], 2);
      var tail := rest[ENTRY_FIXED..];
      if |tail| < length then None
      else Some((Entry(rest[..16], DecodeFields(rest[..ENTRY_FIXED - 2], tail[..length])), tail[length..]))
  }

  predicate NameFits(e: Entry) {
    |e.meta.name| < 0x1_0000
  }

  lemma EntryPrefix(e: Entry, more: seq<byte>)
    requires NameFits(e)
    ensures var s := EncodeEntry(e) + more;
            && NumberAt(s[ENTRY_FIXED - 2..], 2) == |e.meta.name|
            && s[..ENTRY_FIXED - 2] == EncodeFields(e.key, e.meta)
            && s[ENTRY_FIXED..] == e.meta.name + more
  {
    Widths();
    var s := EncodeEntry(e) + more;
    assert s[ENTRY_FIXED - 2..] == LE(|e.meta.name|, 2) + (e.meta.name + more);
    ReadNumber(|e.meta.name|, 2, e.meta.name + more);
  }

  lemma EntryDecodes(e: Entry, more: seq<byte>)
    requires NameFits(e)
    ensures EntryAt(EncodeEntry(e) + more) == Some((e, more))
  {
    EntryPrefix(e, more);
    FieldsRoundTrip(e.key, e.meta, e.meta.name);
    ReadBytes(e.meta.name, more);
    var s := EncodeEntry(e) + more;
    assert s[..16] == s[..ENTRY_FIXED - 2][..16];
  }

  lemma CutEntryDoesNot(e: Entry, cut: nat)
    requires NameFits(e) && cut < |EncodeEntry(e)|
    ensures EntryAt(EncodeEntry(e)[..cut]) == None
  {
    EntryPrefix(e, []);
    var s := EncodeEntry(e);
    assert s + [] == s;
    if ENTRY_FIXED <= cut {
      assert s[..cut][ENTRY_FIXED - 2..][..2] == s[ENTRY_FIXED - 2..][..2];
    }
  }

  const ENTRY := Codec(EncodeEntry, EntryAt, NameFits)

  lemma EntryCodec()
    ensures Inverts(ENTRY)
  {
    forall e: Entry, more: seq<byte> | NameFits(e) ensures EntryAt(EncodeEntry(e) + more) == Some((e, more)) {
      EntryDecodes(e, more);
    }
    forall e: Entry, cut: nat | NameFits(e) && cut < |EncodeEntry(e)| ensures EntryAt(EncodeEntry(e)[..cut]) == None {
      CutEntryDoesNot(e, cut);
    }
  }

  // ----- Where everything lies -----

  /** Two and four bytes as a number, the least significant first. */
  function Half(s: seq<byte>, at: nat): nat
    requires at + 2 <= |s|
  {
    s[at] as int + 0x100 * s[at + 1] as int
  }

  function Word(s: seq<byte>, at: nat): nat
    requires at + 4 <= |s|
  {
    s[at] as int + 0x100 * s[at + 1] as int + 0x1_0000 * s[at + 2] as int + 0x100_0000 * s[at + 3] as int
  }

  lemma LEIs(n: nat)
    ensures n < 0x100 ==> LE(n, 1)[0] == n
    ensures n < 0x1_0000 ==> Half(LE(n, 2), 0) == n
    ensures n < TWO32 ==> Word(LE(n, 4), 0) == n
  {
    assert LE(n, 1)[0] == n % 256;
    assert LE(n / 256, 1)[0] == n / 256 % 256;
    assert LE(n, 2)[1] == LE(n / 256, 1)[0];
    assert LE(n, 4)[1..] == LE(n / 256, 3) && LE(n / 256, 3)[1..] == LE(n / 256 / 256, 2);
    assert LE(n / 256 / 256, 2)[1..] == LE(n / 256 / 256 / 256, 1);
    assert LE(n / 256 / 256 / 256, 1)[0] == n / 256 / 256 / 256 % 256;
  }

  /** Where the `i`th of some numbers begins. */
  function Offset(widths: seq<nat>, i: nat): nat
    requires i <= |widths|
  {
    if i == 0 then 0 else Offset(widths, i - 1) + widths[i - 1]
  }

  lemma {:induction false} OffsetShifts(widths: seq<nat>, i: nat)
    requires 0 < i <= |widths|
    ensures Offset(widths, i) == widths[0] + Offset(widths[1..], i - 1)
  {
    if i > 1 {
      OffsetShifts(widths, i - 1);
    }
  }

  lemma {:induction false} NumberLies(ns: seq<nat>, widths: seq<nat>, i: nat)
    requires |ns| == |widths| && i < |ns|
    ensures var at := Offset(widths, i);
            at + widths[i] <= Total(widths) && EncodeNumbers(ns, widths)[at..at + widths[i]] == LE(ns[i], widths[i])
    decreases i
  {
    var first, more := LE(ns[0], widths[0]), EncodeNumbers(ns[1..], widths[1..]);
    if i > 0 {
      NumberLies(ns[1..], widths[1..], i - 1);
      OffsetShifts(widths, i);
      LaterSlice(first, more, Offset(widths[1..], i - 1), widths[i]);
    } else {
      assert (first + more)[..widths[0]] == first;
    }
  }

  lemma LaterSlice(first: seq<byte>, more: seq<byte>, at: nat, n: nat)
    requires at + n <= |more|
    ensures (first + more)[|first| + at..|first| + at + n] == more[at..at + n]
  {}

  /** A number of this width lies there. */
  predicate Lies(s: seq<byte>, at: nat, width: nat, n: nat) {
    && at + width <= |s|
    && (width == 1 ==> s[at] == n) && (width == 2 ==> Half(s, at) == n) && (width == 4 ==> Word(s, at) == n)
  }

  ghost predicate Fit(ns: seq<nat>, widths: seq<nat>) {
    |ns| == |widths| && forall i | 0 <= i < |ns| :: ns[i] < Pow256(widths[i])
  }

  lemma SliceLies(s: seq<byte>, at: nat, width: nat, n: nat)
    requires n < Pow256(width) && at + width <= |s| && s[at..at + width] == LE(n, width)
    ensures Lies(s, at, width, n)
  {
    Widths();
    LEIs(n);
    assert forall j | 0 <= j < width :: s[at + j] == LE(n, width)[j];
  }

  lemma LiesBehind(key: Hash, body: seq<byte>, more: seq<byte>, at: nat, width: nat, n: nat)
    requires n < Pow256(width) && at + width <= |body| && body[at..at + width] == LE(n, width)
    ensures Lies(key + body + more, 16 + at, width, n)
  {
    LaterSlice(key, body + more, at, width);
    assert key + body + more == key + (body + more) && (body + more)[at..at + width] == body[at..at + width];
    SliceLies(key + body + more, 16 + at, width, n);
  }

  /** Where each number of a record lies, behind the key. */
  lemma NumbersLie(key: Hash, ns: seq<nat>, widths: seq<nat>, i: nat, more: seq<byte>)
    requires |ns| == |widths| && i < |ns| && ns[i] < Pow256(widths[i])
    ensures Lies(key + EncodeNumbers(ns, widths) + more, 16 + Offset(widths, i), widths[i], ns[i])
  {
    NumberLies(ns, widths, i);
    LiesBehind(key, EncodeNumbers(ns, widths), more, Offset(widths, i), widths[i], ns[i]);
  }

  lemma CreditNumbersFit(c: Credit)
    ensures Fit(CreditNumbers(c), CREDIT_WIDTHS)
  {
    Widths();
  }

  lemma CreditOffsets()
    ensures Offset(CREDIT_WIDTHS, 0) == 0 && Offset(CREDIT_WIDTHS, 1) == 4 && Offset(CREDIT_WIDTHS, 2) == 8
    ensures Offset(CREDIT_WIDTHS, 3) == 12 && Offset(CREDIT_WIDTHS, 4) == 16 && Offset(CREDIT_WIDTHS, 5) == 20
    ensures Offset(CREDIT_WIDTHS, 6) == 22
  {
    assert Offset(CREDIT_WIDTHS, 2) == 8 && Offset(CREDIT_WIDTHS, 4) == 16;
  }

  /** A credit record, byte by byte: the totals lie split, their low words before and their high words after the time
      the client was last seen. */
  lemma CreditLies(c: Credit)
    ensures var s := EncodeCredit(c);
            && s[..16] == c.key
            && Word(s, 16) + TWO32 * Word(s, 28) == c.uploaded
            && Word(s, 20) + TWO32 * Word(s, 32) == c.downloaded
            && Word(s, 24) == c.lastSeen
            && Half(s, 36) == c.reserved
            && s[38] == c.keySize
            && s[39..] == c.secureIdent
  {
    var s, ns := EncodeCredit(c), CreditNumbers(c);
    CreditWidths();
    CreditNumbersFit(c);
    CreditOffsets();
    forall i: nat | i < |ns| ensures Lies(s, 16 + Offset(CREDIT_WIDTHS, i), CREDIT_WIDTHS[i], ns[i]) {
      NumbersLie(c.key, ns, CREDIT_WIDTHS, i, c.secureIdent);
    }
    assert Lies(s, 16, 4, Low(c.uploaded)) && Lies(s, 28, 4, High(c.uploaded));
    assert Lies(s, 20, 4, Low(c.downloaded)) && Lies(s, 32, 4, High(c.downloaded));
    assert Lies(s, 24, 4, c.lastSeen) && Lies(s, 36, 2, c.reserved) && Lies(s, 38, 1, c.keySize);
  }

  lemma MetaNumbersFitThere(m: Meta<seq<byte>>)
    ensures Fit(MetaNumbers(m), META_WIDTHS)
  {
    Widths();
  }

  lemma MetaOffsets()
    ensures Offset(META_WIDTHS, 0) == 0 && Offset(META_WIDTHS, 1) == 4 && Offset(META_WIDTHS, 2) == 8
    ensures Offset(META_WIDTHS, 3) == 12 && Offset(META_WIDTHS, 4) == 14 && Offset(META_WIDTHS, 5) == 16
    ensures Offset(META_WIDTHS, 6) == 20 && Offset(META_WIDTHS, 7) == 21 && Offset(META_WIDTHS, 8) == 22
  {
    assert Offset(META_WIDTHS, 2) == 8 && Offset(META_WIDTHS, 4) == 14 && Offset(META_WIDTHS, 6) == 20;
  }

  /** A metadata entry, byte by byte. */
  lemma EntryLies(e: Entry)
    requires NameFits(e)
    ensures var s, m := EncodeEntry(e), e.meta;
            && s[..16] == e.key
            && Word(s, 16) == m.firstSeen && Word(s, 20) == m.sessions && Word(s, 24) == m.lastIP
            && Half(s, 28) == m.lastPort && Half(s, 30) == m.kadPort && Word(s, 32) == m.version
            && s[36] == m.clientSoft && s[37] == m.sourceFrom && s[38] == m.obfuscation
            && Half(s, 39) == |m.name| && s[41..] == m.name
  {
    NameLies(e);
    FieldsLie(e, EncodeEntry(e), LE(|e.meta.name|, 2) + e.meta.name);
  }

  lemma NameLies(e: Entry)
    requires NameFits(e)
    ensures var s := EncodeEntry(e); s[..16] == e.key && Half(s, 39) == |e.meta.name| && s[41..] == e.meta.name
  {
    LEIs(|e.meta.name|);
    var s := EncodeEntry(e);
    assert s[39..41] == LE(|e.meta.name|, 2);
    assert s[39] == LE(|e.meta.name|, 2)[0] && s[40] == LE(|e.meta.name|, 2)[1];
  }

  lemma FieldsLie(e: Entry, s: seq<byte>, more: seq<byte>)
    requires s == EncodeFields(e.key, e.meta) + more
    ensures var m := e.meta;
            && Word(s, 16) == m.firstSeen && Word(s, 20) == m.sessions && Word(s, 24) == m.lastIP
            && Half(s, 28) == m.lastPort && Half(s, 30) == m.kadPort && Word(s, 32) == m.version
            && s[36] == m.clientSoft && s[37] == m.sourceFrom && s[38] == m.obfuscation
  {
    var m, ns := e.meta, MetaNumbers(e.meta);
    MetaNumbersFitThere(m);
    MetaOffsets();
    forall i: nat | i < |ns| ensures Lies(s, 16 + Offset(META_WIDTHS, i), META_WIDTHS[i], ns[i]) {
      NumbersLie(e.key, ns, META_WIDTHS, i, more);
    }
    assert Lies(s, 16, 4, m.firstSeen) && Lies(s, 20, 4, m.sessions) && Lies(s, 24, 4, m.lastIP);
    assert Lies(s, 28, 2, m.lastPort) && Lies(s, 30, 2, m.kadPort) && Lies(s, 32, 4, m.version);
    assert Lies(s, 36, 1, m.clientSoft) && Lies(s, 37, 1, m.sourceFrom) && Lies(s, 38, 1, m.obfuscation);
  }

  /** The file begins with its version and the count of its records; the trailer with "AMULEMD1", its version and the
      count of its entries. */
  lemma HeadsLie(n: nat)
    requires n < TWO32
    ensures EncodePreamble(n)[0] == 0x12 && Word(EncodePreamble(n), 1) == n
    ensures EncodeHeader(n)[..8] == [0x41, 0x4D, 0x55, 0x4C, 0x45, 0x4D, 0x44, 0x31]
    ensures EncodeHeader(n)[8] == 1 && Word(EncodeHeader(n), 9) == n
  {
    Widths();
    assert EncodePreamble(n)[1..5] == LE(n, 4);
    SliceLies(EncodePreamble(n), 1, 4, n);
    assert EncodeHeader(n)[9..13] == LE(n, 4);
    SliceLies(EncodeHeader(n), 9, 4, n);
  }

  // ----- What a save writes -----

  /** `order` is some walk over the whole store. */
  ghost predicate Enumerates(order: seq<Hash>, m: Clients) {
    && (forall k | k in m :: k in order)
    && (forall k | k in order :: k in m)
  }

  ghost predicate KeysMatch(m: Clients) {
    forall k | k in m :: m[k].credit.key == k
  }

  function KeptCredits(m: Clients, order: seq<Hash>): seq<Credit>
    requires forall k | k in order :: k in m
  {
    if order == [] then []
    else
      var k := order[|order| - 1];
      KeptCredits(m, order[..|order| - 1]) + (if HasTraffic(m[k]) then [m[k].credit] else [])
  }

  function KeptEntries(m: Clients, order: seq<Hash>): seq<Entry>
    requires forall k | k in order :: k in m
  {
    if order == [] then []
    else
      var k := order[|order| - 1];
      KeptEntries(m, order[..|order| - 1])
      + (if HasMeta(m[k]) && HasTraffic(m[k]) then [Entry(k, Stored(m[k].meta))] else [])
  }

  // ----- The two counts -----

  predicate Fits32(n: nat) {
    n < TWO32
  }

  const PREAMBLE_SIZE: nat := 5

  function EncodePreamble(count: nat): (s: seq<byte>)
    ensures |s| == PREAMBLE_SIZE
  {
    [CREDITFILE_VERSION] + LE(count % TWO32, 4)
  }

  /** The record count, from a file of the version this program knows. */
  function PreambleAt(bytes: seq<byte>): Option<(nat, seq<byte>)> {
    if |bytes| < PREAMBLE_SIZE || bytes[0] != CREDITFILE_VERSION then None
    else Some((NumberAt(bytes[1..], 4), bytes[PREAMBLE_SIZE..]))
  }

  const PREAMBLE := Codec(EncodePreamble, PreambleAt, Fits32)

  lemma PreambleDecodes(n: nat, more: seq<byte>)
    requires Fits32(n)
    ensures PreambleAt(EncodePreamble(n) + more) == Some((n, more))
  {
    Widths();
    var bytes := EncodePreamble(n) + more;
    assert bytes[1..] == LE(n, 4) + more;
    ReadNumber(n, 4, more);
    assert bytes[PREAMBLE_SIZE..] == more;
  }

  lemma PreambleCodec()
    ensures Inverts(PREAMBLE)
  {
    forall n: nat, more: seq<byte> | Fits32(n) ensures PreambleAt(EncodePreamble(n) + more) == Some((n, more)) {
      PreambleDecodes(n, more);
    }
  }

  const TRAILER_HEADER: nat := 13

  function EncodeHeader(entries: nat): (s: seq<byte>)
    ensures |s| == TRAILER_HEADER
  {
    META_MAGIC + ([META_VERSION] + LE(entries % TWO32, 4))
  }

  /** The entry count, from a trailer with the right magic and version. */
  function HeaderAt(rest: seq<byte>): Option<(nat, seq<byte>)> {
    if |rest| < TRAILER_HEADER || rest[..8] != META_MAGIC || rest[8] != META_VERSION then None
    else Some((NumberAt(rest[9..], 4), rest[TRAILER_HEADER..]))
  }

  const HEADER := Codec(EncodeHeader, HeaderAt, Fits32)

  lemma HeaderDecodes(n: nat, more: seq<byte>)
    requires Fits32(n)
    ensures HeaderAt(EncodeHeader(n) + more) == Some((n, more))
  {
    Widths();
    var count := LE(n, 4) + more;
    var rest := EncodeHeader(n) + more;
    assert rest == META_MAGIC + ([META_VERSION] + count);
    ReadBytes(META_MAGIC, [META_VERSION] + count);
    assert rest[9..] == rest[8..][1..] == count && rest[TRAILER_HEADER..] == count[4..];
    ReadNumber(n, 4, more);
  }

  lemma HeaderCodec()
    ensures Inverts(HEADER)
  {
    forall n: nat, more: seq<byte> | Fits32(n) ensures HeaderAt(EncodeHeader(n) + more) == Some((n, more)) {
      HeaderDecodes(n, more);
    }
  }

  // ----- The whole file -----

  /** The four kinds of record a credit file is made of. */
  datatype Format = Format(preamble: Codec<nat>, credit: Codec<Credit>, header: Codec<nat>, entry: Codec<Entry>)

  const CLIENTS_MET := Format(PREAMBLE, CREDIT, HEADER, ENTRY)

  /** All that is known about a format below: its four codecs are sound and represent what they have to. */
  ghost predicate Sound(f: Format) {
    && Inverts(f.preamble) && Inverts(f.credit) && Inverts(f.header) && Inverts(f.entry)
    && (forall n: nat | n < TWO32 :: f.preamble.ok(n) && f.header.ok(n))
    && (forall c: Credit :: f.credit.ok(c))
    && (forall e: Entry | |e.meta.name| <= META_NAME_BYTES :: f.entry.ok(e))
  }

  lemma ClientsMetIsSound()
    ensures Sound(CLIENTS_MET)
  {
    PreambleCodec();
    CreditCodec();
    HeaderCodec();
    EntryCodec();
  }

  /** Nothing at all when no client carries metadata, so such a file is what older builds always wrote. */
  function Trailer(f: Format, es: seq<Entry>): seq<byte> {
    if es == [] then [] else f.header.enc(|es|) + EncodeAll(f.entry.enc, es)
  }

  /** Everything up to the trailer. */
  function Records(f: Format, cs: seq<Credit>): seq<byte> {
    f.preamble.enc(|cs|) + EncodeAll(f.credit.enc, cs)
  }

  // ----- What a load makes of some bytes -----

  function Learn(m: Clients, c: Credit, expired: uint32): Clients {
    if c.lastSeen < expired then m else m[c.key := Client(c, NO_META)]
  }

  function Learned(m: Clients, cs: seq<Credit>, expired: uint32): Clients {
    if cs == [] then m else Learn(Learned(m, cs[..|cs| - 1], expired), cs[|cs| - 1], expired)
  }

  /** An entry whose credit record is gone describes a client no longer tracked. */
  function Attach(m: Clients, e: Entry): Clients {
    if e.key in m then m[e.key := m[e.key].(meta := Restored(e.meta))] else m
  }

  function Attached(m: Clients, es: seq<Entry>): Clients {
    if es == [] then m else Attach(Attached(m, es[..|es| - 1]), es[|es| - 1])
  }

  predicate KeyFits(c: Credit) {
    c.keySize <= MAX_PUBKEY_SIZE
  }

  ghost predicate KeysFit(cs: seq<Credit>) {
    forall i | 0 <= i < |cs| :: KeyFits(cs[i])
  }

  ghost function LoadTrailer(f: Format, rest: seq<byte>, m: Clients): Clients {
    match f.header.dec(rest)
    case None => m
    case Some((entries, body)) => Attached(m, DecodeUpTo(f.entry.dec, body, entries).0)
  }

  lemma AttachedSnoc(m: Clients, es: seq<Entry>, e: Entry)
    ensures Attached(m, es + [e]) == Attach(Attached(m, es), e)
  {
    assert (es + [e])[..|es|] == es;
  }

  lemma {:induction false} AttachedKeepsCredits(m: Clients, es: seq<Entry>)
    ensures Attached(m, es).Keys == m.Keys
    ensures forall k | k in m :: Attached(m, es)[k].credit == m[k].credit
    decreases |es|
  {
    if es != [] {
      AttachedKeepsCredits(m, es[..|es| - 1]);
    }
  }

  /** Whatever bytes follow the records, reading them as a trailer costs no client and no credit. */
  lemma TrailerKeepsCredits(f: Format, rest: seq<byte>, m: Clients)
    ensures LoadTrailer(f, rest, m).Keys == m.Keys
    ensures forall k | k in m :: LoadTrailer(f, rest, m)[k].credit == m[k].credit
  {
    match f.header.dec(rest)
    case None =>
    case Some((entries, body)) => AttachedKeepsCredits(m, DecodeUpTo(f.entry.dec, body, entries).0);
  }

  /** One record with an impossible key size discards everything; records cut off by the end of the file do
      not, but then there is no trailer to look at. */
  ghost function LoadRecords(f: Format, rest: seq<byte>, count: nat, expired: uint32): Clients {
    var (cs, left) := DecodeUpTo(f.credit.dec, rest, count);
    if !KeysFit(cs) then map[]
    else if left.None? then Learned(map[], cs, expired)
    else LoadTrailer(f, left.value, Learned(map[], cs, expired))
  }

  ghost function Load(f: Format, bytes: seq<byte>, expired: uint32): Clients {
    match f.preamble.dec(bytes)
    case None => map[]
    case Some((count, rest)) => LoadRecords(f, rest, count, expired)
  }

  // ----- What a load gives back, said without encodings -----

  /** The credits worth keeping and not expired, with the metadata of the peers in `shown`. */
  ghost function Surviving(m: Clients, expired: uint32, shown: set<Hash>): Clients {
    map k | k in m && HasTraffic(m[k]) && m[k].credit.lastSeen >= expired ::
      Client(m[k].credit, if HasMeta(m[k]) && k in shown then Cut(m[k].meta) else NO_META)
  }

  /** The same, for the clients in `keys` only and without any metadata yet. */
  ghost function SurvivingCredits(m: Clients, keys: set<Hash>, expired: uint32): Clients {
    map k | k in keys && k in m && HasTraffic(m[k]) && m[k].credit.lastSeen >= expired :: Client(m[k].credit, NO_META)
  }

  ghost function Walked(order: seq<Hash>): set<Hash> {
    set k | k in order
  }

  lemma LearnedSnoc(m: Clients, cs: seq<Credit>, c: Credit, expired: uint32)
    ensures Learned(m, cs + [c], expired) == Learn(Learned(m, cs, expired), c, expired)
  {}

  lemma SurvivingStep(m: Clients, before: set<Hash>, k: Hash, expired: uint32)
    requires KeysMatch(m) && k in m
    ensures SurvivingCredits(m, before + {k}, expired) ==
            if HasTraffic(m[k]) then Learn(SurvivingCredits(m, before, expired), m[k].credit, expired)
            else SurvivingCredits(m, before, expired)
  {}

  lemma {:induction false} LearnedIsSurviving(m: Clients, order: seq<Hash>, expired: uint32)
    requires KeysMatch(m) && forall k | k in order :: k in m
    ensures Learned(map[], KeptCredits(m, order), expired) == SurvivingCredits(m, Walked(order), expired)
    decreases |order|
  {
    if order == [] {
      assert SurvivingCredits(m, Walked([]), expired) == map[];
    } else {
      var before, k := order[..|order| - 1], order[|order| - 1];
      var cs := KeptCredits(m, before);
      LearnedIsSurviving(m, before, expired);
      LearnedSnoc(map[], cs, m[k].credit, expired);
      SurvivingStep(m, Walked(before), k, expired);
      assert order == before + [k] && cs + [] == cs;
      assert Walked(order) == Walked(before) + {k};
    }
  }

  ghost function KeysOf(es: seq<Entry>): set<Hash> {
    set e | e in es :: e.key
  }

  /** The entries a save writes for the clients of `m`. */
  ghost predicate Describe(es: seq<Entry>, m: Clients) {
    forall e | e in es ::
      e.key in m && HasMeta(m[e.key]) && e.meta == Stored(m[e.key].meta) && |e.meta.name| <= META_NAME_BYTES
  }

  lemma {:induction false} AttachedPointwise(base: Clients, es: seq<Entry>, m: Clients)
    requires Describe(es, m)
    ensures Attached(base, es).Keys == base.Keys
    ensures forall k | k in base :: Attached(base, es)[k] ==
              if k in KeysOf(es) then base[k].(meta := Cut(m[k].meta)) else base[k]
    decreases |es|
  {
    if es != [] {
      var before, e := es[..|es| - 1], es[|es| - 1];
      assert es == before + [e];
      AttachedPointwise(base, before, m);
      CutComesBack(m[e.key].meta);
      assert KeysOf(es) == KeysOf(before) + {e.key};
    }
  }

  lemma {:induction false} FewAreKept(m: Clients, order: seq<Hash>)
    requires forall k | k in order :: k in m
    ensures |KeptEntries(m, order)| <= |order| && |KeptCredits(m, order)| <= |order|
    decreases |order|
  {
    if order != [] {
      FewAreKept(m, order[..|order| - 1]);
    }
  }

  lemma {:induction false} EntriesDescribe(m: Clients, order: seq<Hash>)
    requires forall k | k in order :: k in m
    ensures Describe(KeptEntries(m, order), m)
    decreases |order|
  {
    if order != [] {
      var before, k := order[..|order| - 1], order[|order| - 1];
      EntriesDescribe(m, before);
      CutComesBack(m[k].meta);
      assert forall e | e in KeptEntries(m, order) :: e in KeptEntries(m, before) || e == Entry(k, Stored(m[k].meta));
    }
  }

  /** Whoever is walked over and has both has an entry. */
  lemma {:induction false} HasAnEntry(m: Clients, order: seq<Hash>, k: Hash)
    requires (forall j | j in order :: j in m) && k in order && HasMeta(m[k]) && HasTraffic(m[k])
    ensures Entry(k, Stored(m[k].meta)) in KeptEntries(m, order)
    decreases |order|
  {
    if k != order[|order| - 1] {
      HasAnEntry(m, order[..|order| - 1], k);
    }
  }

  /** How many metadata entries survive a trailer cut to `cut` bytes. */
  function EntriesBefore(f: Format, es: seq<Entry>, cut: nat): (j: nat)
    ensures j <= |es|
    ensures cut >= |Trailer(f, es)| ==> j == |es|
  {
    var head := |f.header.enc(|es|)|;
    if cut < head then 0 else Whole(f.entry.enc, es, cut - head)
  }

  lemma TrailerOf(f: Format, rest: seq<byte>, n: nat, body: seq<byte>, es: seq<Entry>, m: Clients)
    requires f.header.dec(rest) == Some((n, body)) && DecodeUpTo(f.entry.dec, body, n).0 == es
    ensures LoadTrailer(f, rest, m) == Attached(m, es)
  {}

  lemma LoadsCutHeader(f: Format, es: seq<Entry>, cut: nat, m: Clients)
    requires Inverts(f.header) && f.header.ok(|es|)
    requires es != [] && cut < |f.header.enc(|es|)|
    ensures LoadTrailer(f, Trailer(f, es)[..cut], m) == m
  {
    var head := f.header.enc(|es|);
    assert Trailer(f, es)[..cut] == head[..cut];
    assert f.header.dec(head[..cut]) == None;
  }

  lemma LoadsEntries(f: Format, es: seq<Entry>, k: nat, m: Clients)
    requires Inverts(f.header) && Inverts(f.entry) && f.header.ok(|es|) && AllOk(f.entry, es)
    requires es != [] && k <= |EncodeAll(f.entry.enc, es)|
    ensures var cut := |f.header.enc(|es|)| + k;
            LoadTrailer(f, Trailer(f, es)[..cut], m) == Attached(m, es[..Whole(f.entry.enc, es, k)])
  {
    var head, body := f.header.enc(|es|), EncodeAll(f.entry.enc, es);
    var rest := Trailer(f, es)[..|head| + k];
    assert rest == head + body[..k];
    DecodesPrefix(f.entry, es, k);
    TrailerOf(f, rest, |es|, body[..k], es[..Whole(f.entry.enc, es, k)], m);
  }

  lemma EntriesAreOk(f: Format, es: seq<Entry>, m: Clients)
    requires Sound(f) && |es| < TWO32 && Describe(es, m)
    ensures f.header.ok(|es|) && AllOk(f.entry, es)
  {
    forall i | 0 <= i < |es| ensures f.entry.ok(es[i]) {
      assert es[i] in es;
    }
  }

  lemma LoadsTrailer(f: Format, es: seq<Entry>, cut: nat, m: Clients)
    requires Inverts(f.header) && Inverts(f.entry) && f.header.ok(|es|) && AllOk(f.entry, es)
    requires cut <= |Trailer(f, es)| && f.header.dec([]) == None
    ensures LoadTrailer(f, Trailer(f, es)[..cut], m) == Attached(m, es[..EntriesBefore(f, es, cut)])
  {
    if es != [] {
      var head := |f.header.enc(|es|)|;
      if cut < head {
        LoadsCutHeader(f, es, cut, m);
        assert es[..0] == [];
      } else {
        LoadsEntries(f, es, cut - head, m);
      }
    }
  }

  lemma LoadsRecords(f: Format, cs: seq<Credit>, tail: seq<byte>, expired: uint32)
    requires Sound(f) && |cs| < TWO32
    ensures Load(f, Records(f, cs) + tail, expired) ==
            if KeysFit(cs) then LoadTrailer(f, tail, Learned(map[], cs, expired)) else map[]
  {
    var body := EncodeAll(f.credit.enc, cs);
    assert Records(f, cs) + tail == f.preamble.enc(|cs|) + (body + tail);
    DecodesAll(f.credit, cs, tail);
  }

  lemma AttachedSurvives(m: Clients, es: seq<Entry>, expired: uint32)
    requires Describe(es, m)
    ensures Attached(SurvivingCredits(m, m.Keys, expired), es) == Surviving(m, expired, KeysOf(es))
  {
    var base := SurvivingCredits(m, m.Keys, expired);
    AttachedPointwise(base, es, m);
    assert base.Keys == Surviving(m, expired, KeysOf(es)).Keys;
    forall k | k in base ensures Attached(base, es)[k] == Surviving(m, expired, KeysOf(es))[k] {
      if k in KeysOf(es) {
        var e :| e in es && e.key == k;
      }
    }
  }

  lemma DescribePrefix(es: seq<Entry>, j: nat, m: Clients)
    requires Describe(es, m) && j <= |es|
    ensures Describe(es[..j], m)
  {
    assert forall e | e in es[..j] :: e in es;
  }

  lemma LoadsPrefix(f: Format, m: Clients, order: seq<Hash>, expired: uint32, cut: nat)
    requires Sound(f) && f.header.dec([]) == None
    requires KeysMatch(m) && Enumerates(order, m) && |order| < TWO32
    requires cut <= |Trailer(f, KeptEntries(m, order))|
    ensures var cs, es := KeptCredits(m, order), KeptEntries(m, order);
            Load(f, Records(f, cs) + Trailer(f, es)[..cut], expired) ==
            if KeysFit(cs) then Surviving(m, expired, KeysOf(es[..EntriesBefore(f, es, cut)])) else map[]
  {
    var cs, es := KeptCredits(m, order), KeptEntries(m, order);
    FewAreKept(m, order);
    EntriesDescribe(m, order);
    LoadsRecords(f, cs, Trailer(f, es)[..cut], expired);
    if KeysFit(cs) {
      LearnedIsSurviving(m, order, expired);
      assert Walked(order) == m.Keys;
      EntriesAreOk(f, es, m);
      LoadsTrailer(f, es, cut, SurvivingCredits(m, m.Keys, expired));
      DescribePrefix(es, EntriesBefore(f, es, cut), m);
      AttachedSurvives(m, es[..EntriesBefore(f, es, cut)], expired);
    }
  }

  /** Loading a file whose trailer has been cut to any length gives back every credit that had traffic and has
      not expired, all 64 bits of its totals included, and the metadata of the peers whose entry lies before
      the cut. Only a record with an impossible key size spoils it: then nothing at all is loaded. */
  lemma LoadOfSave(m: Clients, order: seq<Hash>, expired: uint32, cut: nat)
    requires KeysMatch(m) && Enumerates(order, m) && |order| < TWO32
    requires cut <= |Trailer(CLIENTS_MET, KeptEntries(m, order))|
    ensures var f, cs, es := CLIENTS_MET, KeptCredits(m, order), KeptEntries(m, order);
            Load(f, Records(f, cs) + Trailer(f, es)[..cut], expired) ==
            if KeysFit(cs) then Surviving(m, expired, KeysOf(es[..EntriesBefore(f, es, cut)])) else map[]
  {
    ClientsMetIsSound();
    LoadsPrefix(CLIENTS_MET, m, order, expired, cut);
  }

  /** The clients the records of `cs` are about. */
  ghost function Recorded(cs: seq<Credit>): set<Hash> {
    set c | c in cs :: c.key
  }

  lemma {:induction false} LearnedAreRecorded(m: Clients, cs: seq<Credit>, expired: uint32)
    requires forall c | c in cs :: c.key in m && m[c.key].credit == c && HasTraffic(m[c.key])
    ensures Learned(map[], cs, expired) == SurvivingCredits(m, Recorded(cs), expired)
    decreases |cs|
  {
    if cs != [] {
      var before, c := cs[..|cs| - 1], cs[|cs| - 1];
      assert cs == before + [c];
      LearnedAreRecorded(m, before, expired);
      assert Recorded(cs) == Recorded(before) + {c.key};
      var base := SurvivingCredits(m, Recorded(before), expired);
      assert Learned(map[], cs, expired) == Learn(base, c, expired);
    }
  }

  lemma {:induction false} CreditsAreTrue(m: Clients, order: seq<Hash>)
    requires KeysMatch(m) && forall k | k in order :: k in m
    ensures forall c | c in KeptCredits(m, order) :: c.key in m && m[c.key].credit == c && HasTraffic(m[c.key])
    decreases |order|
  {
    if order != [] {
      CreditsAreTrue(m, order[..|order| - 1]);
    }
  }

  /** How many credit records lie wholly before a cut inside the records. */
  function CreditsBefore(f: Format, cs: seq<Credit>, cut: nat): (j: nat)
    ensures j <= |cs|
  {
    var head := |f.preamble.enc(|cs|)|;
    if cut < head then 0 else Whole(f.credit.enc, cs, cut - head)
  }

  lemma LearnsCut(f: Format, cs: seq<Credit>, expired: uint32, cut: nat)
    requires Sound(f) && |cs| < TWO32 && cut < |Records(f, cs)|
    ensures var whole := cs[..CreditsBefore(f, cs, cut)];
            Load(f, Records(f, cs)[..cut], expired) == if KeysFit(whole) then Learned(map[], whole, expired) else map[]
  {
    var head, body := f.preamble.enc(|cs|), EncodeAll(f.credit.enc, cs);
    if cut < |head| {
      assert (head + body)[..cut] == head[..cut];
    } else {
      assert (head + body)[..cut] == head + body[..cut - |head|];
      DecodesPrefix(f.credit, cs, cut - |head|);
    }
  }

  lemma LoadsCut(f: Format, m: Clients, order: seq<Hash>, expired: uint32, cut: nat)
    requires Sound(f) && KeysMatch(m) && Enumerates(order, m) && |order| < TWO32
    requires cut < |Records(f, KeptCredits(m, order))|
    ensures var cs := KeptCredits(m, order);
            var whole := cs[..CreditsBefore(f, cs, cut)];
            Load(f, Records(f, cs)[..cut], expired) ==
            if KeysFit(whole) then SurvivingCredits(m, Recorded(whole), expired) else map[]
  {
    var cs := KeptCredits(m, order);
    var whole := cs[..CreditsBefore(f, cs, cut)];
    FewAreKept(m, order);
    CreditsAreTrue(m, order);
    LearnsCut(f, cs, expired, cut);
    assert forall c | c in whole :: c in cs;
    LearnedAreRecorded(m, whole, expired);
  }

  /** Cut inside the records, the file gives back the credits of the records that are whole, without metadata. */
  lemma LoadOfCutSave(m: Clients, order: seq<Hash>, expired: uint32, cut: nat)
    requires KeysMatch(m) && Enumerates(order, m) && |order| < TWO32
    requires cut < |Records(CLIENTS_MET, KeptCredits(m, order))|
    ensures var f, cs := CLIENTS_MET, KeptCredits(m, order);
            var whole := cs[..CreditsBefore(f, cs, cut)];
            Load(f, Records(f, cs)[..cut], expired) ==
            if KeysFit(whole) then SurvivingCredits(m, Recorded(whole), expired) else map[]
  {
    ClientsMetIsSound();
    LoadsCut(CLIENTS_MET, m, order, expired, cut);
  }

  lemma ShowingAllOfIt(m: Clients, expired: uint32, shown: set<Hash>)
    requires forall k | k in m && HasMeta(m[k]) && HasTraffic(m[k]) :: k in shown
    ensures Surviving(m, expired, shown) == Surviving(m, expired, m.Keys)
  {}

  lemma AllKeysKept(m: Clients, order: seq<Hash>)
    requires Enumerates(order, m)
    ensures forall k | k in m && HasMeta(m[k]) && HasTraffic(m[k]) :: k in KeysOf(KeptEntries(m, order))
  {
    forall k | k in m && HasMeta(m[k]) && HasTraffic(m[k]) ensures k in KeysOf(KeptEntries(m, order)) {
      HasAnEntry(m, order, k);
    }
  }

  lemma LoadsWhole(f: Format, m: Clients, order: seq<Hash>, expired: uint32)
    requires Sound(f) && f.header.dec([]) == None
    requires KeysMatch(m) && Enumerates(order, m) && |order| < TWO32
    requires KeysFit(KeptCredits(m, order))
    ensures Load(f, Records(f, KeptCredits(m, order)) + Trailer(f, KeptEntries(m, order)), expired)
            == Surviving(m, expired, m.Keys)
  {
    var es := KeptEntries(m, order);
    var n := |Trailer(f, es)|;
    LoadsPrefix(f, m, order, expired, n);
    assert Trailer(f, es)[..n] == Trailer(f, es);
    assert es[..EntriesBefore(f, es, n)] == es;
    AllKeysKept(m, order);
    ShowingAllOfIt(m, expired, KeysOf(es));
  }

  /** The whole file, uncut: every client with metadata gets it back, its name cut to 64 characters. */
  lemma RoundTrip(m: Clients, order: seq<Hash>, expired: uint32)
    requires KeysMatch(m) && Enumerates(order, m) && |order| < TWO32
    requires KeysFit(KeptCredits(m, order))
    ensures var f := CLIENTS_MET;
            Load(f, Records(f, KeptCredits(m, order)) + Trailer(f, KeptEntries(m, order)), expired)
            == Surviving(m, expired, m.Keys)
  {
    ClientsMetIsSound();
    LoadsWhole(CLIENTS_MET, m, order, expired);
  }

  // ----- The same, field by field -----

  /** What a later load finds of the clients `m`: those with traffic either way that have not expired, their
      credits as they were, and the metadata of those that have a first-seen time. */
  ghost predicate GivesBack(m: Clients, after: Clients, expired: uint32) {
    && (forall k: Hash :: k in after <==>
          && k in m && (m[k].credit.uploaded != 0 || m[k].credit.downloaded != 0)
          && m[k].credit.lastSeen >= expired)
    && (forall k | k in after :: after[k].credit == m[k].credit)
    && (forall k | k in after ::
          var name := m[k].meta.name;
          after[k].meta == if m[k].meta.firstSeen == 0 then NO_META
                           else m[k].meta.(name := Kept(if |name| <= 64 then name else name[..64])))
  }

  /** No client with traffic has a key that is too long for its record. */
  ghost predicate KeysInBounds(m: Clients) {
    forall k | k in m && (m[k].credit.uploaded != 0 || m[k].credit.downloaded != 0) :: m[k].credit.keySize <= 80
  }

  lemma {:induction false} KeysInBoundsFit(m: Clients, order: seq<Hash>)
    requires KeysInBounds(m) && forall k | k in order :: k in m
    ensures KeysFit(KeptCredits(m, order))
    decreases |order|
  {
    if order != [] {
      KeysInBoundsFit(m, order[..|order| - 1]);
    }
  }

  /** Everything worth keeping, unless one key is too long: then nothing at all. */
  ghost predicate ComesBack(m: Clients, after: Clients, expired: uint32) {
    if KeysInBounds(m) then GivesBack(m, after, expired) else after == map[]
  }

  lemma SavedComesBack(m: Clients, order: seq<Hash>, expired: uint32)
    requires KeysMatch(m) && Enumerates(order, m) && |order| < TWO32
    ensures var f := CLIENTS_MET;
            var bytes := Records(f, KeptCredits(m, order)) + Trailer(f, KeptEntries(m, order));
            ComesBack(m, Load(f, bytes, expired), expired)
  {
    if KeysInBounds(m) {
      KeysInBoundsFit(m, order);
      RoundTrip(m, order, expired);
    } else {
      OneBadKeySpoilsAll(m, order, expired);
    }
  }

  lemma OneBadKeySpoilsAll(m: Clients, order: seq<Hash>, expired: uint32)
    requires KeysMatch(m) && Enumerates(order, m) && |order| < TWO32 && !KeysInBounds(m)
    ensures var f := CLIENTS_MET;
            Load(f, Records(f, KeptCredits(m, order)) + Trailer(f, KeptEntries(m, order)), expired) == map[]
  {
    var k :| k in m && (m[k].credit.uploaded != 0 || m[k].credit.downloaded != 0) && m[k].credit.keySize > 80;
    HasARecord(m, order, k);
    var es := KeptEntries(m, order);
    LoadOfSave(m, order, expired, |Trailer(CLIENTS_MET, es)|);
    assert Trailer(CLIENTS_MET, es)[..|Trailer(CLIENTS_MET, es)|] == Trailer(CLIENTS_MET, es);
  }

  lemma {:induction false} HasARecord(m: Clients, order: seq<Hash>, k: Hash)
    requires (forall j | j in order :: j in m) && k in order
    requires m[k].credit.uploaded != 0 || m[k].credit.downloaded != 0
    ensures m[k].credit in KeptCredits(m, order)
    decreases |order|
  {
    if k != order[|order| - 1] {
      HasARecord(m, order[..|order| - 1], k);
    }
  }

  ghost function WithTraffic(m: Clients, keys: set<Hash>): set<Hash> {
    set k | k in keys && k in m && (m[k].credit.uploaded != 0 || m[k].credit.downloaded != 0)
  }

  lemma {:induction false} OneRecordEach(m: Clients, order: seq<Hash>)
    requires NoDuplicates(order) && forall k | k in order :: k in m
    ensures |KeptCredits(m, order)| == |WithTraffic(m, Walked(order))|
    decreases |order|
  {
    if order == [] {
      assert WithTraffic(m, Walked(order)) == {};
    } else {
      var before, k := order[..|order| - 1], order[|order| - 1];
      OneRecordEach(m, before);
      assert order == before + [k] && k !in before;
      assert Walked(order) == Walked(before) + {k};
      OneMoreWithTraffic(m, Walked(before), k);
    }
  }

  lemma OneMoreWithTraffic(m: Clients, keys: set<Hash>, k: Hash)
    requires k in m && k !in keys
    ensures |WithTraffic(m, keys + {k})| ==
            |WithTraffic(m, keys)| + if m[k].credit.uploaded != 0 || m[k].credit.downloaded != 0 then 1 else 0
  {
    if m[k].credit.uploaded != 0 || m[k].credit.downloaded != 0 {
      assert WithTraffic(m, keys + {k}) == WithTraffic(m, keys) + {k};
    } else {
      assert WithTraffic(m, keys + {k}) == WithTraffic(m, keys);
    }
  }

  // ----- The list itself -----

  /** Credits expire after 150 days; the subtraction is done in 32 bits. */
  function Expiry(now: nat): uint32 {
    (now - 12960000) % TWO32
  }

  /** While seconds fit in 32 bits, expired means not seen for more than 150 days. */
  lemma ExpiryIsADate(now: nat, lastSeen: uint32)
    requires 150 * 24 * 60 * 60 <= now < TWO32
    ensures lastSeen >= Expiry(now) <==> now - lastSeen <= 150 * 24 * 60 * 60
  {}

  /** Going back to patch the count leaves everything else alone. */
  lemma PatchCount(count: nat, body: seq<byte>, f: File)
    requires f.bytes == EncodePreamble(0) + body && f.pos == 1 && !f.append
    ensures Written(f, LE(count % TWO32, 4)).bytes == EncodePreamble(count) + body
  {}

  lemma KeptStep(m: Clients, order: seq<Hash>, i: nat)
    requires i < |order| && forall k | k in order :: k in m
    ensures var c := m[order[i]];
            && KeptCredits(m, order[..i + 1]) ==
               (if HasTraffic(c) then KeptCredits(m, order[..i]) + [c.credit] else KeptCredits(m, order[..i]))
            && KeptEntries(m, order[..i + 1]) ==
               (if HasMeta(c) && HasTraffic(c) then KeptEntries(m, order[..i]) + [Entry(order[i], Stored(c.meta))]
                else KeptEntries(m, order[..i]))
  {
    assert order[..i + 1][..i] == order[..i];
  }

  class ClientCreditsList {
    const format: Format
    var clients: Clients

    constructor ()
      ensures format == CLIENTS_MET && clients == map[]
    {
      format := CLIENTS_MET;
      clients := map[];
    }

    /** `order` is the walk over the map that this save happens to make. */
    method SaveList(order: seq<Hash>) returns (file: File)
      requires format == CLIENTS_MET && Enumerates(order, clients)
      ensures file.bytes == Records(format, KeptCredits(clients, order)) + Trailer(format, KeptEntries(clients, order))
      ensures KeysMatch(clients) && |order| < TWO32 ==>
                forall expired: uint32 :: ComesBack(clients, Load(format, file.bytes, expired), expired)
    {
      file := Append(File([], 0, false, true, false), [CREDITFILE_VERSION]);
      file := Append(file, LE(0, 4));
      assert file.bytes == EncodePreamble(0);
      var count;
      file, count := SaveRecords(file, order);
      ghost var kept := KeptCredits(clients, order);
      file := file.(pos := 1);
      PatchCount(|kept|, EncodeAll(format.credit.enc, kept), file);
      file := Written(file, LE(count % TWO32, 4));
      file := file.(pos := |file.bytes|);
      file := SaveMetaTrailer(file, order);
      if KeysMatch(clients) && |order| < TWO32 {
        forall expired: uint32 ensures ComesBack(clients, Load(format, file.bytes, expired), expired) {
          SavedComesBack(clients, order, expired);
        }
      }
    }

    /** The counter is a 32-bit one, but only its value modulo 2^32 is ever used. */
    method SaveRecords(start: File, order: seq<Hash>) returns (file: File, count: nat)
      requires Enumerates(order, clients) && AtEnd(start)
      ensures AtEnd(file) && file.bytes == start.bytes + EncodeAll(format.credit.enc, KeptCredits(clients, order))
      ensures count == |KeptCredits(clients, order)|
      ensures NoDuplicates(order) ==>
                count == |set k | k in clients &&
                                  (clients[k].credit.uploaded != 0 || clients[k].credit.downloaded != 0)|
    {
      file, count := start, 0;
      assert EncodeAll(format.credit.enc, []) == [];
      for i := 0 to |order|
        invariant AtEnd(file)
        invariant file.bytes == start.bytes + EncodeAll(format.credit.enc, KeptCredits(clients, order[..i]))
        invariant count == |KeptCredits(clients, order[..i])|
      {
        var cur := clients[order[i]];
        KeptStep(clients, order, i);
        if HasTraffic(cur) {
          OneMoreRecord(start.bytes, format.credit.enc, KeptCredits(clients, order[..i]), cur.credit);
          file := Append(file, format.credit.enc(cur.credit));
          count := count + 1;
        }
      }
      assert order[..|order|] == order;
      if NoDuplicates(order) {
        OneRecordEach(clients, order);
        assert WithTraffic(clients, Walked(order)) ==
               set k | k in clients && (clients[k].credit.uploaded != 0 || clients[k].credit.downloaded != 0);
      }
    }

    /** Nothing is written when no client carries metadata. */
    method SaveMetaTrailer(start: File, order: seq<Hash>) returns (file: File)
      requires Enumerates(order, clients) && AtEnd(start)
      ensures file.bytes == start.bytes + Trailer(format, KeptEntries(clients, order))
    {
      file := start;
      var entries := CountEntries(order);
      if entries == 0 {
        return;
      }
      file := Append(file, format.header.enc(entries));
      file := SaveEntries(file, order);
    }

    method CountEntries(order: seq<Hash>) returns (entries: nat)
      requires Enumerates(order, clients)
      ensures entries == |KeptEntries(clients, order)|
    {
      entries := 0;
      for i := 0 to |order|
        invariant entries == |KeptEntries(clients, order[..i])|
      {
        KeptStep(clients, order, i);
        if HasMeta(clients[order[i]]) && HasTraffic(clients[order[i]]) {
          entries := entries + 1;
        }
      }
      assert order[..|order|] == order;
    }

    method SaveEntries(start: File, order: seq<Hash>) returns (file: File)
      requires Enumerates(order, clients) && AtEnd(start)
      ensures file.bytes == start.bytes + EncodeAll(format.entry.enc, KeptEntries(clients, order))
    {
      file := start;
      assert EncodeAll(format.entry.enc, []) == [];
      for i := 0 to |order|
        invariant AtEnd(file)
        invariant file.bytes == start.bytes + EncodeAll(format.entry.enc, KeptEntries(clients, order[..i]))
      {
        var cur := clients[order[i]];
        KeptStep(clients, order, i);
        if HasMeta(cur) && HasTraffic(cur) {
          var e := Entry(order[i], Stored(cur.meta));
          OneMoreRecord(start.bytes, format.entry.enc, KeptEntries(clients, order[..i]), e);
          file := Append(file, format.entry.enc(e));
        }
      }
      assert order[..|order|] == order;
    }

    /** What was saved, read back into an empty list. */
    method LoadSaved(saved: ClientCreditsList, order: seq<Hash>, now: nat)
      requires clients == map[] && saved != this && format == saved.format == CLIENTS_MET
      requires KeysMatch(saved.clients) && Enumerates(order, saved.clients) && |order| < TWO32
      modifies this
      ensures ComesBack(saved.clients, clients, Expiry(now))
    {
      var file := saved.SaveList(order);
      LoadList(file.bytes, now);
    }

    /** Called once, on an empty list. */
    method LoadList(bytes: seq<byte>, now: nat)
      requires clients == map[]
      modifies this
      ensures clients == Load(format, bytes, Expiry(now))
    {
      var preamble := format.preamble.dec(bytes);
      if preamble.None? {
        return;
      }
      var (count, start) := preamble.value;
      var expired := Expiry(now);
      var rest := start;
      ghost var all := DecodeUpTo(format.credit.dec, start, count);
      ghost var seen: seq<Credit> := [];
      for i := 0 to count
        invariant all.0 == seen + DecodeUpTo(format.credit.dec, rest, count - i).0
        invariant all.1 == DecodeUpTo(format.credit.dec, rest, count - i).1
        invariant KeysFit(seen) && clients == Learned(map[], seen, expired)
      {
        DecodeStep(format.credit.dec, rest, count - i, seen);
        var record: Option<(Credit, seq<byte>)> := format.credit.dec(rest);
        if record == None {
          return;
        }
        var (credit, after) := record.value;
        if credit.keySize > MAX_PUBKEY_SIZE {
          clients := map[];
          assert !KeyFits(all.0[|seen|]);
          return;
        }
        LearnedSnoc(map[], seen, credit, expired);
        if credit.lastSeen >= expired {
          clients := clients[credit.key := Client(credit, NO_META)];
        }
        seen := seen + [credit];
        rest := after;
      }
      DecodeStep(format.credit.dec, rest, 0, seen);
      LoadMetaTrailer(rest);
    }

    method LoadMetaTrailer(bytes: seq<byte>)
      modifies this
      ensures clients == LoadTrailer(format, bytes, old(clients))
      ensures clients.Keys == old(clients).Keys
      ensures forall k | k in clients :: clients[k].credit == old(clients)[k].credit
    {
      TrailerKeepsCredits(format, bytes, clients);
      var header := format.header.dec(bytes);
      if header.Some? {
        RestoreEntries(header.value.1, header.value.0);
      }
    }

    method RestoreEntries(body: seq<byte>, entries: nat)
      modifies this
      ensures clients == Attached(old(clients), DecodeUpTo(format.entry.dec, body, entries).0)
    {
      var rest := body;
      ghost var all := DecodeUpTo(format.entry.dec, rest, entries).0;
      ghost var seen: seq<Entry> := [];
      for i := 0 to entries
        invariant all == seen + DecodeUpTo(format.entry.dec, rest, entries - i).0
        invariant clients == Attached(old(clients), seen)
      {
        DecodeStep(format.entry.dec, rest, entries - i, seen);
        var entry: Option<(Entry, seq<byte>)> := format.entry.dec(rest);
        if entry == None {
          return;
        }
        var (e, after) := entry.value;
        AttachedSnoc(old(clients), seen, e);
        clients := Attach(clients, e);
        seen := seen + [e];
        rest := after;
      }
      DecodeStep(format.entry.dec, rest, 0, seen);
    }
  }
}
