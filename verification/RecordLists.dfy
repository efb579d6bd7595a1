/** Runs of encoded records, for any record format: reading back what was written, and what a file that was
    cut short still yields. */
module RecordLists {
  import opened Common
  import opened FileModel

  type Encoder<!T> = T -> seq<byte>

  /** Reads one record off the front; nothing if the bytes run out inside it. */
  type Decoder<!T> = seq<byte> -> Option<(T, seq<byte>)>

  /** A record format, and the records it can represent. */
  datatype Codec<!T> = Codec(enc: Encoder<T>, dec: Decoder<T>, ok: T -> bool)

  /** The decoder undoes the encoder on every record that is `ok`, and is not fooled by part of one. */
  ghost predicate Inverts<T(!new)>(c: Codec<T>) {
    && (forall t, more | c.ok(t) :: c.dec(c.enc(t) + more) == Some((t, more)))
    && (forall t, cut: nat | c.ok(t) && cut < |c.enc(t)| :: c.dec(c.enc(t)[..cut]) == None)
  }

  ghost predicate AllOk<T>(c: Codec<T>, ts: seq<T>) {
    forall i | 0 <= i < |ts| :: c.ok(ts[i])
  }

  function EncodeAll<T>(enc: Encoder<T>, ts: seq<T>): seq<byte> {
    if ts == [] then [] else enc(ts[0]) + EncodeAll(enc, ts[1..])
  }

  lemma {:induction false} EncodeAllSnoc<T>(enc: Encoder<T>, ts: seq<T>, t: T)
    ensures EncodeAll(enc, ts + [t]) == EncodeAll(enc, ts) + enc(t)
    decreases |ts|
  {
    if ts == [] {
      assert [] + [t] == [t] && [t][1..] == [];
      assert EncodeAll(enc, [t]) == enc(t) + EncodeAll(enc, []);
    } else {
      assert (ts + [t])[1..] == ts[1..] + [t];
      EncodeAllSnoc(enc, ts[1..], t);
    }
  }

  /** A writer at the end of its file. */
  ghost predicate AtEnd(f: File) {
    f.pos == |f.bytes| && !f.append
  }

  /** A write where the file ends. */
  method Append(f: File, data: seq<byte>) returns (g: File)
    requires AtEnd(f)
    ensures AtEnd(g) && g.bytes == f.bytes + data
  {
    WrittenAtEnd(f, data);
    g := Written(f, data);
  }

  lemma OneMoreRecord<T>(head: seq<byte>, enc: Encoder<T>, ts: seq<T>, t: T)
    ensures head + EncodeAll(enc, ts) + enc(t) == head + EncodeAll(enc, ts + [t])
  {
    EncodeAllSnoc(enc, ts, t);
    assert head + EncodeAll(enc, ts) + enc(t) == head + (EncodeAll(enc, ts) + enc(t));
  }

  /** Up to `n` records, and what follows them unless the bytes ran out first. */
  function DecodeUpTo<T>(dec: Decoder<T>, rest: seq<byte>, n: nat): (seq<T>, Option<seq<byte>>)
    decreases n
  {
    if n == 0 then ([], Some(rest))
    else match dec(rest)
      case None => ([], None)
      case Some((t, after)) =>
        var (ts, left) := DecodeUpTo(dec, after, n - 1);
        ([t] + ts, left)
  }

  lemma {:induction false} DecodesAll<T(!new)>(c: Codec<T>, ts: seq<T>, more: seq<byte>)
    requires Inverts(c) && AllOk(c, ts)
    ensures DecodeUpTo(c.dec, EncodeAll(c.enc, ts) + more, |ts|) == (ts, Some(more))
    decreases |ts|
  {
    if ts == [] {
      assert [] + more == more;
    } else {
      var after := EncodeAll(c.enc, ts[1..]) + more;
      assert EncodeAll(c.enc, ts) + more == c.enc(ts[0]) + after;
      DecodesAll(c, ts[1..], more);
      assert [ts[0]] + ts[1..] == ts;
    }
  }

  /** How many records lie wholly within the first `cut` bytes. */
  function Whole<T>(enc: Encoder<T>, ts: seq<T>, cut: nat): (j: nat)
    ensures j <= |ts|
    ensures cut >= |EncodeAll(enc, ts)| ==> j == |ts|
  {
    if ts == [] || cut < |enc(ts[0])| then 0 else 1 + Whole(enc, ts[1..], cut - |enc(ts[0])|)
  }

  /** Bytes cut short anywhere give back exactly the records that lie wholly before the cut. */
  lemma {:induction false} DecodesPrefix<T(!new)>(c: Codec<T>, ts: seq<T>, cut: nat)
    requires Inverts(c) && AllOk(c, ts)
    requires cut <= |EncodeAll(c.enc, ts)|
    ensures DecodeUpTo(c.dec, EncodeAll(c.enc, ts)[..cut], |ts|).0 == ts[..Whole(c.enc, ts, cut)]
    ensures cut < |EncodeAll(c.enc, ts)| ==> DecodeUpTo(c.dec, EncodeAll(c.enc, ts)[..cut], |ts|).1 == None
    decreases |ts|
  {
    if ts != [] {
      var first, more := c.enc(ts[0]), EncodeAll(c.enc, ts[1..]);
      if cut < |first| {
        assert (first + more)[..cut] == first[..cut];
      } else {
        assert (first + more)[..cut] == first + more[..cut - |first|];
        DecodesPrefix(c, ts[1..], cut - |first|);
        var j := Whole(c.enc, ts[1..], cut - |first|);
        assert [ts[0]] + ts[1..][..j] == ts[..j + 1];
      }
    }
  }

  /** One turn of a reading loop: what was read so far and what is still ahead make up the whole. */
  lemma DecodeStep<T>(dec: Decoder<T>, rest: seq<byte>, n: nat, seen: seq<T>)
    ensures n == 0 ==> seen + DecodeUpTo(dec, rest, n).0 == seen
    ensures n > 0 && dec(rest).None? ==> seen + DecodeUpTo(dec, rest, n).0 == seen
    ensures n > 0 && dec(rest).Some? ==>
              var (t, after) := dec(rest).value;
              && seen + DecodeUpTo(dec, rest, n).0 == (seen + [t]) + DecodeUpTo(dec, after, n - 1).0
              && DecodeUpTo(dec, rest, n).1 == DecodeUpTo(dec, after, n - 1).1
  {}
}
