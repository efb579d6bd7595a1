/** The packed bit vector of src/BitVector.h, with its tri-state memory of whether every bit is set. */
module BitVector {
  // ----- One byte -----

  function PosMask(k: nat): bv8
    requires k < 8
  {
    match k
    case 0 => 0x01 case 1 => 0x02 case 2 => 0x04 case 3 => 0x08
    case 4 => 0x10 case 5 => 0x20 case 6 => 0x40 case _ => 0x80
  }

  function NegMask(k: nat): bv8
    requires k < 8
  {
    match k
    case 0 => 0xFE case 1 => 0xFD case 2 => 0xFB case 3 => 0xF7
    case 4 => 0xEF case 5 => 0xDF case 6 => 0xBF case _ => 0x7F
  }

  predicate Bit(b: bv8, k: nat)
    requires k < 8
  {
    b & PosMask(k) != 0
  }

  lemma BitSet(b: bv8, k: nat, j: nat)
    requires k < 8 && j < 8
    ensures Bit(b | PosMask(k), j) == (j == k || Bit(b, j))
  {}

  lemma MasksApart(k: nat, j: nat)
    requires k < 8 && j < 8
    ensures PosMask(k) & PosMask(j) == if j == k then PosMask(k) else 0
    ensures NegMask(k) & PosMask(j) == if j == k then 0 else PosMask(j)
    ensures PosMask(k) != 0
  {
  }

  lemma BitCleared(b: bv8, k: nat, j: nat)
    requires k < 8 && j < 8
    ensures Bit(b & NegMask(k), j) == (j != k && Bit(b, j))
  {
    MasksApart(k, j);
    assert (b & NegMask(k)) & PosMask(j) == b & (NegMask(k) & PosMask(j));
  }

  /** A byte is all ones iff each of its bits is. */
  lemma FullByte(b: bv8)
    ensures b == 0xFF <==> forall k: nat | k < 8 :: Bit(b, k)
  {
    if forall k: nat | k < 8 :: Bit(b, k) {
      assert Bit(b, 0) && Bit(b, 1) && Bit(b, 2) && Bit(b, 3) && Bit(b, 4) && Bit(b, 5) && Bit(b, 6) && Bit(b, 7);
      EightBits(b);
    }
  }

  lemma EightBits(b: bv8)
    requires b & 0x01 != 0 && b & 0x02 != 0 && b & 0x04 != 0 && b & 0x08 != 0
    requires b & 0x10 != 0 && b & 0x20 != 0 && b & 0x40 != 0 && b & 0x80 != 0
    ensures b == 0xFF
  {
  }

  // ----- The vector as a sequence of booleans -----

  datatype Cache = No | Yes | Unknown

  /** What the vector stands for, and what it believes about itself. */
  datatype Bits = Bits(value: seq<bool>, cache: Cache)

  datatype Op =
    | Put(idx: nat, value: bool)
    | Clear
    | Resize(size: nat, value: bool)
    | Ask
    | Fill
    | Load(loaded: seq<bool>)

  ghost predicate All(value: seq<bool>) {
    forall i | 0 <= i < |value| :: value[i]
  }

  ghost function Next(b: Bits, op: Op): Bits {
    match op
    case Put(idx, value) =>
      if idx >= |b.value| then b
      else Bits(b.value[idx := value], if !value then No else if b.cache == No then Unknown else b.cache)
    case Clear => Bits([], No)
    case Resize(size, value) =>
      if size == 0 then Bits([], No) else Bits(seq(size, _ => value), if value then Yes else No)
    case Ask => if b.cache == Unknown then b.(cache := if All(b.value) then Yes else No) else b
    case Fill => b.(value := seq(|b.value|, _ => true))
    case Load(value) => Bits(value, Unknown)
  }

  /** A definite belief about a vector that is not empty is right. */
  ghost predicate Truthful(b: Bits) {
    b.value != [] ==> (b.cache == Yes ==> All(b.value)) && (b.cache == No ==> !All(b.value))
  }

  /** Only setting everything while the cache says no makes it lie; setting it again bit by bit does not. */
  lemma NextTruthful(b: Bits, op: Op)
    requires Truthful(b)
    ensures Truthful(Next(b, op)) <==> !(op == Fill && b.cache == No && b.value != [])
  {
    match op {
      case Put(idx, value) =>
        if idx < |b.value| && !value {
          assert !b.value[idx := value][idx];
        }
      case Fill =>
        assert All(Next(b, op).value);
      case Resize(size, value) =>
        assert size > 0 && !value ==> !Next(b, op).value[0];
      case _ =>
    }
  }

  ghost function Run(ops: seq<Op>): Bits {
    if ops == [] then Bits([], No) else Next(Run(ops[..|ops| - 1]), ops[|ops| - 1])
  }

  /** A vector was filled in one go while it believed it had a false bit, and nothing has been put, sized or loaded
      since that made it look again. */
  ghost predicate Lying(ops: seq<Op>) {
    ops != [] &&
    var before, op := ops[..|ops| - 1], ops[|ops| - 1];
    match op
    case Fill => Lying(before) || (Run(before).cache == No && Run(before).value != [])
    case Put(idx, _) => idx >= |Run(before).value| && Lying(before)
    case Ask => Lying(before)
    case _ => false
  }

  /** A vector that lies has every bit set and says no. */
  lemma {:induction false} LyingIsDenying(ops: seq<Op>)
    requires Lying(ops)
    ensures Run(ops).value != [] && Run(ops).cache == No && All(Run(ops).value)
    decreases |ops|
  {
    var before, op := ops[..|ops| - 1], ops[|ops| - 1];
    if Lying(before) {
      LyingIsDenying(before);
    }
  }

  /** In every run, asking a vector that is not empty gets the truth exactly if it does not lie. */
  lemma {:induction false} RunTruthful(ops: seq<Op>)
    ensures Truthful(Run(ops)) <==> !Lying(ops)
    ensures Run(ops).value != [] ==> ((Next(Run(ops), Ask).cache == Yes <==> All(Run(ops).value)) <==> !Lying(ops))
    decreases |ops|
  {
    if Lying(ops) {
      LyingIsDenying(ops);
    } else if ops != [] {
      var before, op := ops[..|ops| - 1], ops[|ops| - 1];
      RunTruthful(before);
      if Lying(before) {
        LyingIsDenying(before);
        RepairedByLookingAgain(Run(before), op);
      } else {
        NextTruthful(Run(before), op);
      }
    }
  }

  /** What makes a lying vector look again makes it truthful. */
  lemma RepairedByLookingAgain(b: Bits, op: Op)
    requires All(b.value) && b.cache == No
    requires op != Ask && op != Fill && (op.Put? ==> op.idx < |b.value|)
    ensures Truthful(Next(b, op))
  {
    if op.Put? {
      assert op.value ==> b.value[op.idx := true] == b.value;
      assert !op.value ==> !b.value[op.idx := false][op.idx];
    } else if op.Resize? && op.size > 0 {
      assert !op.value ==> !Next(b, op).value[0];
    }
  }

  /** A new vector filled in one go has every bit set, and denies it when asked. */
  lemma FilledUnseenLies()
    ensures All(Run([Resize(1, false), Fill]).value) && Run([Resize(1, false), Fill]).value == [true]
    ensures Next(Run([Resize(1, false), Fill]), Ask).cache == No
  {
    assert [Resize(1, false), Fill][..1] == [Resize(1, false)] && [Resize(1, false)][..0] == [];
    assert Run([Resize(1, false)]) == Next(Run([]), Resize(1, false));
  }

  /** What was last done to the size or to all the bytes of the vector was loading them. */
  predicate LoadedLast(ops: seq<Op>) {
    ops != [] &&
    var before, op := ops[..|ops| - 1], ops[|ops| - 1];
    match op
    case Load(_) => true
    case Clear => false
    case Resize(_, _) => false
    case _ => LoadedLast(before)
  }

  /** In every run, an empty vector answers yes exactly if that is so. */
  lemma {:induction false} EmptyDependsOnHistory(ops: seq<Op>)
    requires Run(ops).value == []
    ensures Next(Run(ops), Ask).cache == Yes <==> LoadedLast(ops)
    ensures Run(ops).cache == No <==> !LoadedLast(ops)
    decreases |ops|
  {
    if ops != [] && (ops[|ops| - 1].Put? || ops[|ops| - 1].Ask? || ops[|ops| - 1].Fill?) {
      EmptyDependsOnHistory(ops[..|ops| - 1]);
    }
  }

  // ----- The packed form -----

  function Bytes(bits: nat): nat {
    bits / 8 + if bits % 8 != 0 then 1 else 0
  }

  /** One byte with one bit set or cleared. */
  function StoredBit(b: bv8, k: nat, value: bool): bv8
    requires k < 8
  {
    if value then b | PosMask(k) else b & NegMask(k)
  }

  predicate BitAt(bytes: seq<bv8>, i: nat)
    requires i / 8 < |bytes|
  {
    Bit(bytes[i / 8], i % 8)
  }

  ghost function Unpacked(bytes: seq<bv8>, bits: nat): (value: seq<bool>)
    requires |bytes| == Bytes(bits)
    ensures |value| == bits && forall i {:trigger value[i]} | 0 <= i < bits :: value[i] == BitAt(bytes, i)
  {
    seq(bits, i requires 0 <= i < bits => BitAt(bytes, i))
  }

  class BitVector {
    var bits: nat
    var bytes: nat
    var vector: array?<bv8>
    var allTrue: Cache

    ghost predicate Valid()
      reads this
    {
      bytes == Bytes(bits) && if bits == 0 then vector == null else vector != null && vector.Length == bytes
    }

    ghost function Storage(): set<object>
      reads `vector
    {
      if vector != null then {vector} else {}
    }

    ghost function Value(): (value: seq<bool>)
      requires Valid()
      reads this, Storage()
      ensures |value| == bits
    {
      if vector == null then [] else Unpacked(vector[..], bits)
    }

    ghost function Contents(): Bits
      requires Valid()
      reads this, Storage()
    {
      Bits(Value(), allTrue)
    }

    constructor ()
      ensures Valid() && Contents() == Bits([], No)
    {
      bits, bytes, vector, allTrue := 0, 0, null, No;
    }

    /** Out of range reads as false. */
    method Get(idx: nat) returns (bit: bool)
      requires Valid()
      ensures bit == (idx < bits && Value()[idx])
    {
      if idx >= bits {
        return false;
      }
      return vector[idx / 8] & PosMask(idx % 8) != 0;
    }

    method Set(idx: nat, value: bool)
      requires Valid()
      modifies this, Storage()
      ensures Valid() && vector == old(vector) && Contents() == Next(old(Contents()), Put(idx, value))
    {
      if idx >= bits {
        return;
      }
      StoreBit(idx, value);
      if value {
        if allTrue == No {
          allTrue := Unknown;
        }
      } else {
        allTrue := No;
      }
    }

    method StoreBit(idx: nat, value: bool)
      requires Valid() && idx < bits
      modifies Storage()
      ensures Valid() && Value() == old(Value())[idx := value]
    {
      var bidx := idx / 8;
      ghost var before := vector[..];
      vector[bidx] := StoredBit(vector[bidx], idx % 8, value);
      OneBit(before, vector[..], bits, idx, value);
    }

    method Clear()
      requires Valid()
      modifies this
      ensures Valid() && Contents() == Bits([], No)
    {
      bits, bytes, allTrue, vector := 0, 0, No, null;
    }

    method SetSize(newSize: nat, value: bool)
      requires Valid()
      modifies this
      ensures Valid() && (vector == null || fresh(vector))
              && Contents() == Next(old(Contents()), Resize(newSize, value))
    {
      if newSize == 0 {
        Clear();
        return;
      }
      bits, bytes := newSize, newSize / 8;
      if newSize % 8 != 0 {
        bytes := bytes + 1;
      }
      vector := new bv8[bytes](_ => if value then 0xFF else 0);
      allTrue := if value then Yes else No;
      Uniform(vector[..], bits, value);
    }

    /** Looks, if it does not know, at the odd bits and then at whole bytes; the padding is never looked at. */
    method AllTrue() returns (all: bool)
      requires Valid()
      modifies `allTrue
      ensures Valid() && vector == old(vector) && Contents() == Next(old(Contents()), Ask) && all == (allTrue == Yes)
    {
      if allTrue == Unknown {
        var foundFalse, lastByte := false, bytes;
        if bits % 8 != 0 {
          lastByte := lastByte - 1;
          foundFalse := BitIsFalse(bits - bits % 8);
        }
        if !foundFalse {
          foundFalse := ByteIsNotFull(lastByte);
        }
        allTrue := if foundFalse then No else Yes;
      }
      return allTrue == Yes;
    }

    method BitIsFalse(start: nat) returns (found: bool)
      requires Valid() && start <= bits
      ensures found <==> exists j :: start <= j < bits && !Value()[j]
    {
      ghost var value := Value();
      for i := start to bits
        invariant AllBetween(value, start, i)
      {
        var bit := Get(i);
        if !bit {
          return true;
        }
        OneFurther(value, start, i);
      }
      return false;
    }

    method ByteIsNotFull(lastByte: nat) returns (found: bool)
      requires Valid() && lastByte == bits / 8 && forall j | bits - bits % 8 <= j < bits :: Value()[j]
      ensures found <==> !All(Value())
    {
      for i := 0 to lastByte
        invariant forall j | 0 <= j < i :: vector[j] == 0xFF
      {
        if vector[i] != 0xFF {
          ByteNotFull(vector[..], bits, i);
          return true;
        }
      }
      if bits > 0 {
        assert Value() == Unpacked(vector[..], bits);
        BytesFull(vector[..], bits);
      }
      return false;
    }

    /** The cache is left as it was. */
    method SetAllTrue()
      requires Valid()
      modifies Storage()
      ensures Valid() && Contents() == Next(old(Contents()), Fill)
    {
      if bytes != 0 {
        forall i | 0 <= i < vector.Length {
          vector[i] := 0xFF;
        }
        Uniform(vector[..], bits, true);
      }
    }

    method SetBuffer(src: seq<bv8>)
      requires Valid() && |src| == bytes
      modifies this`allTrue, Storage()
      ensures Valid() && Contents() == Next(old(Contents()), Load(Unpacked(src, bits)))
      ensures bits > 0 ==> vector[..] == src
    {
      if bytes != 0 {
        forall i | 0 <= i < vector.Length {
          vector[i] := src[i];
        }
        assert vector[..] == src;
      }
      allTrue := Unknown;
    }

    method GetBuffer() returns (buffer: seq<bv8>)
      requires Valid()
      ensures |buffer| == bytes && Value() == Unpacked(buffer, bits)
    {
      return if vector == null then [] else vector[..];
    }
  }

  ghost predicate AllBetween(value: seq<bool>, start: nat, end: nat)
    requires end <= |value|
  {
    forall j | start <= j < end :: value[j]
  }

  lemma OneFurther(value: seq<bool>, start: nat, end: nat)
    requires end < |value| && AllBetween(value, start, end) && value[end]
    ensures AllBetween(value, start, end + 1)
  {
  }

  lemma OneBit(before: seq<bv8>, after: seq<bv8>, bits: nat, idx: nat, value: bool)
    requires |before| == Bytes(bits) && idx < bits
    requires after == before[idx / 8 := StoredBit(before[idx / 8], idx % 8, value)]
    ensures Unpacked(after, bits) == Unpacked(before, bits)[idx := value]
  {
    forall i | 0 <= i < bits ensures Bit(after[i / 8], i % 8) == if i == idx then value else Bit(before[i / 8], i % 8) {
      OnePlace(before[idx / 8], after[idx / 8], idx, value, i);
    }
  }

  lemma OnePlace(before: bv8, after: bv8, idx: nat, value: bool, i: nat)
    requires after == StoredBit(before, idx % 8, value)
    ensures i / 8 == idx / 8 ==> Bit(after, i % 8) == if i == idx then value else Bit(before, i % 8)
  {
    assert i == i / 8 * 8 + i % 8 && idx == idx / 8 * 8 + idx % 8;
    BitSet(before, idx % 8, i % 8);
    BitCleared(before, idx % 8, i % 8);
  }

  lemma Uniform(bytes: seq<bv8>, bits: nat, value: bool)
    requires |bytes| == Bytes(bits) && forall i | 0 <= i < |bytes| :: bytes[i] == if value then 0xFF else 0
    ensures Unpacked(bytes, bits) == seq(bits, _ => value)
  {}

  lemma ByteNotFull(bytes: seq<bv8>, bits: nat, i: nat)
    requires |bytes| == Bytes(bits) && 8 * i + 8 <= bits && bytes[i] != 0xFF
    ensures !All(Unpacked(bytes, bits))
  {
    FullByte(bytes[i]);
    var k: nat :| k < 8 && !Bit(bytes[i], k);
    assert (8 * i + k) / 8 == i && (8 * i + k) % 8 == k;
    assert !Unpacked(bytes, bits)[8 * i + k];
  }

  lemma BytesFull(bytes: seq<bv8>, bits: nat)
    requires |bytes| == Bytes(bits) && forall j | 0 <= j < bits / 8 :: bytes[j] == 0xFF
    requires forall j | bits - bits % 8 <= j < bits :: Unpacked(bytes, bits)[j]
    ensures All(Unpacked(bytes, bits))
  {}
}
