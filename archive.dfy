/** The resource archive `pack_resources` writes: a u32-LE entry count,
    then per entry a u32-LE name length, the UTF-8 name, a u32-LE data
    length and the data. `struct.pack("<I", ...)` raises on a value of 2^32
    or more, which stops the writing with whatever was already written left
    in the file. */
module Archive {
  import opened Wrappers
  import opened Bytes
  import Utf8

  /** One packed file: its normalised relative path and its encrypted,
      compressed contents. */
  datatype Entry = Entry(name: string, data: seq<byte>)

  /** What the writer put into the output stream, and whether it got to the
      end without a `struct.error`. */
  datatype Written = Written(bytes: seq<byte>, complete: bool)

  /** Both length fields of the entry fit in 32 bits. */
  predicate EntryFits(e: Entry)
  {
    |Utf8.Encode(e.name)| < U32_LIMIT && |e.data| < U32_LIMIT
  }

  /** The count and every length field fit in 32 bits. */
  predicate ArchiveFits(es: seq<Entry>)
  {
    |es| < U32_LIMIT && forall i :: 0 <= i < |es| ==> EntryFits(es[i])
  }

  /** The four writes of one entry. */
  function EntryBytes(e: Entry): seq<byte>
    requires EntryFits(e)
  {
    var nb := Utf8.Encode(e.name);
    U32LE(|nb|) + nb + U32LE(|e.data|) + e.data
  }

  /** The writes of one entry, in order, stopping at the first length that
      `struct.pack` rejects: a name too long writes nothing of the entry,
      data too long leaves the entry's name length and name behind. */
  function EntryWrites(e: Entry): (w: Written)
    ensures w.complete <==> EntryFits(e)
  {
    var nb := Utf8.Encode(e.name);
    if |nb| >= U32_LIMIT then Written([], false)
    else if |e.data| >= U32_LIMIT then Written(U32LE(|nb|) + nb, false)
    else Written(EntryBytes(e), true)
  }

  /** The writes of the entry loop: the entries in order, up to and
      including the one whose length field does not fit. */
  function EmitEntries(es: seq<Entry>): Written
  {
    if es == [] then Written([], true)
    else
      var first := EntryWrites(es[0]);
      if !first.complete then first
      else
        var rest := EmitEntries(es[1..]);
        Written(first.bytes + rest.bytes, rest.complete)
  }

  /** Everything the archive writer puts into the stream: the count, then
      the entries. */
  function Emit(es: seq<Entry>): Written
  {
    if |es| >= U32_LIMIT then Written([], false)
    else
      var body := EmitEntries(es);
      Written(U32LE(|es|) + body.bytes, body.complete)
  }

  /** The size an archive of these entries has: four bytes of count, and
      per entry eight bytes of lengths, the name and the data. */
  function ArchiveSize(es: seq<Entry>): nat
  {
    4 + EntriesSize(es)
  }

  function EntriesSize(es: seq<Entry>): nat
  {
    if es == [] then 0 else 8 + |Utf8.Encode(es[0].name)| + |es[0].data| + EntriesSize(es[1..])
  }

  /** A one-entry archive named "a" holding the byte 0x5A: count 1, name
      length 1, the byte of 'a', data length 1, the data. */
  lemma ExampleArchive()
    ensures Emit([Entry("a", [0x5A])]) == Written([1, 0, 0, 0, 1, 0, 0, 0, 97, 1, 0, 0, 0, 0x5A], true)
  {
    var e := Entry("a", [0x5A]);
    assert Utf8.EncodeChar('a') == [97];
    assert Utf8.Encode("a") == [97] + Utf8.Encode([]);
    assert U32LE(1) == [1, 0, 0, 0];
    assert EntryBytes(e) == [1, 0, 0, 0, 97, 1, 0, 0, 0, 0x5A];
    EmitEntriesUnfold([e]);
    assert [e][1..] == [];
  }

  // ---------------------------------------------------------------------
  // The reader's side: the engine's loader reads this layout back.

  /** Reads one entry off the front of `bs` and says how many bytes it took;
      None when the bytes run out or the name is not UTF-8. */
  function DecodeEntry(bs: seq<byte>): (r: Option<(Entry, nat)>)
    ensures r.Some? ==> 8 <= r.value.1 <= |bs|
  {
    if |bs| < 4 then None
    else
      var nl := DecodeU32(bs[..4]);
      if |bs| < 8 + nl then None
      else
        var dl := DecodeU32(bs[4 + nl..8 + nl]);
        if |bs| < 8 + nl + dl then None
        else match Utf8.Decode(bs[4..4 + nl])
          case None => None
          case Some(name) => Some((Entry(name, bs[8 + nl..8 + nl + dl]), 8 + nl + dl))
  }

  /** Reads exactly `count` entries that fill `bs` completely. */
  function DecodeEntries(count: nat, bs: seq<byte>): (r: Option<seq<Entry>>)
    ensures r.Some? ==> |r.value| == count
    decreases count
  {
    if count == 0 then (if bs == [] then Some([]) else None)
    else match DecodeEntry(bs)
      case None => None
      case Some((e, n)) =>
        match DecodeEntries(count - 1, bs[n..])
        case None => None
        case Some(rest) => Some([e] + rest)
  }

  /** Reads a whole archive; None for anything the writer cannot produce. */
  function DecodeArchive(bs: seq<byte>): Option<seq<Entry>>
  {
    if |bs| < 4 then None else DecodeEntries(DecodeU32(bs[..4]), bs[4..])
  }

  // ---------------------------------------------------------------------
  // Properties of the layout.

  /** The writer completes exactly when the count and every length fit in
      32 bits. */
  lemma {:induction false} EmitEntriesCompleteIff(es: seq<Entry>)
    ensures EmitEntries(es).complete <==> forall i :: 0 <= i < |es| ==> EntryFits(es[i])
  {
    if es != [] {
      EmitEntriesCompleteIff(es[1..]);
      assert forall i :: 1 <= i < |es| ==> es[i] == es[1..][i - 1];
    }
  }

  lemma EmitCompleteIff(es: seq<Entry>)
    ensures Emit(es).complete <==> ArchiveFits(es)
  {
    EmitEntriesCompleteIff(es);
  }

  /** Whenever the count fits, the archive starts with it as u32-LE, even
      if a later length field stops the writing. */
  lemma EmitHeader(es: seq<Entry>)
    requires |es| < U32_LIMIT
    ensures |Emit(es).bytes| >= 4
    ensures Emit(es).bytes[..4] == U32LE(|es|)
    ensures DecodeU32(Emit(es).bytes[..4]) == |es|
  {
    assert |es| < U32_LIMIT;
    DecodeEncodeU32(|es|);
  }

  /** A completed archive is exactly as long as the layout says. */
  lemma {:induction false} EmitEntriesSize(es: seq<Entry>)
    requires EmitEntries(es).complete
    ensures |EmitEntries(es).bytes| == EntriesSize(es)
  {
    if es != [] {
      EmitEntriesSize(es[1..]);
    }
  }

  lemma EmitSize(es: seq<Entry>)
    requires Emit(es).complete
    ensures |Emit(es).bytes| == ArchiveSize(es)
  {
    EmitEntriesSize(es);
  }

  /** One step of the entry loop: a fitting first entry is written in full
      before the rest. */
  lemma EmitEntriesUnfold(es: seq<Entry>)
    requires es != [] && EntryFits(es[0])
    ensures EmitEntries(es) == Written(EntryBytes(es[0]) + EmitEntries(es[1..]).bytes,
                                       EmitEntries(es[1..]).complete)
  {
  }

  /** A completed write had a fitting first entry. */
  lemma EmitEntriesFirstFits(es: seq<Entry>)
    requires es != [] && EmitEntries(es).complete
    ensures EntryFits(es[0])
  {
  }

  /** The entry loop writes the entries one after another: what it writes
      for a + b is what it writes for a followed by what it writes for b,
      as long as a completed. */
  lemma {:induction false} EmitEntriesAppend(a: seq<Entry>, b: seq<Entry>)
    requires EmitEntries(a).complete
    ensures EmitEntries(a + b) == Written(EmitEntries(a).bytes + EmitEntries(b).bytes,
                                          EmitEntries(b).complete)
  {
    if a == [] {
      assert a + b == b;
    } else {
      EmitEntriesFirstFits(a);
      EmitEntriesUnfold(a);
      EmitEntriesAppend(a[1..], b);
      var ab := a + b;
      assert ab[0] == a[0] && ab[1..] == a[1..] + b;
      EmitEntriesUnfold(ab);
      var x, y, z := EntryBytes(a[0]), EmitEntries(a[1..]).bytes, EmitEntries(b).bytes;
      ConcatAssoc(x, y, z);
    }
  }

  /** One more fitting entry adds its bytes at the end. */
  lemma EmitEntriesSnoc(es: seq<Entry>, k: nat)
    requires k < |es|
    requires forall j :: 0 <= j <= k ==> EntryFits(es[j])
    ensures EmitEntries(es[..k + 1]) == Written(EmitEntries(es[..k]).bytes + EntryWrites(es[k]).bytes, true)
  {
    assert es[..k + 1] == es[..k] + [es[k]];
    EmitEntriesCompleteIff(es[..k]);
    EmitEntriesAppend(es[..k], [es[k]]);
    EmitEntriesUnfold([es[k]]);
    assert [es[k]][1..] == [];
  }

  /** When an entry's length field overflows, the entry loop has written
      every earlier entry in full, then whatever of that entry came before
      the overflowing field, and nothing after that. */
  lemma EmitEntriesStopsAt(es: seq<Entry>, k: nat)
    requires k < |es| && !EntryFits(es[k])
    requires forall j :: 0 <= j < k ==> EntryFits(es[j])
    ensures EmitEntries(es) == Written(EmitEntries(es[..k]).bytes + EntryWrites(es[k]).bytes, false)
  {
    EmitEntriesCompleteIff(es[..k]);
    assert es == es[..k] + es[k..];
    EmitEntriesAppend(es[..k], es[k..]);
    assert es[k..][0] == es[k];
  }

  /** The same for the whole archive, spelled out: the count, every earlier
      entry, and the name length and name of the offending entry when only
      its data length overflowed. */
  lemma EmitStopsAt(es: seq<Entry>, k: nat)
    requires |es| < U32_LIMIT
    requires k < |es| && !EntryFits(es[k])
    requires forall j :: 0 <= j < k ==> EntryFits(es[j])
    ensures !Emit(es).complete
    ensures var nb := Utf8.Encode(es[k].name);
            Emit(es).bytes == U32LE(|es|) + EmitEntries(es[..k]).bytes
                              + (if |nb| < U32_LIMIT then U32LE(|nb|) + nb else [])
  {
    EmitEntriesStopsAt(es, k);
  }

  /** The reader takes one entry's bytes off the front, whatever follows. */
  lemma DecodeEntryBytes(e: Entry, tail: seq<byte>)
    requires EntryFits(e)
    ensures DecodeEntry(EntryBytes(e) + tail) == Some((e, |EntryBytes(e)|))
  {
    var nb := Utf8.Encode(e.name);
    var nl, dl := |nb|, |e.data|;
    SlicesOfFive(U32LE(nl), nb, U32LE(dl), e.data, tail);
    DecodeEncodeU32(nl);
    DecodeEncodeU32(dl);
    Utf8.DecodeEncode(e.name);
  }

  /** Where the pieces of an entry followed by more bytes sit. */
  lemma SlicesOfFive(p0: seq<byte>, p1: seq<byte>, p2: seq<byte>, p3: seq<byte>, t: seq<byte>)
    requires |p0| == 4 && |p2| == 4
    ensures var s, n1, n3 := p0 + p1 + p2 + p3 + t, |p1|, |p3|;
            s[..4] == p0 && s[4..4 + n1] == p1 && s[4 + n1..8 + n1] == p2 &&
            s[8 + n1..8 + n1 + n3] == p3 && s[8 + n1 + n3..] == t
  {
  }

  /** What the reader accepts as one entry is that entry's bytes. */
  lemma DecodeEntryExact(bs: seq<byte>)
    requires DecodeEntry(bs).Some?
    ensures var (e, n) := DecodeEntry(bs).value;
            EntryFits(e) && n == |EntryBytes(e)| && bs[..n] == EntryBytes(e)
  {
    var nl := DecodeU32(bs[..4]);
    var dl := DecodeU32(bs[4 + nl..8 + nl]);
    var n := 8 + nl + dl;
    DecodeEntryFields(bs);
    var e := DecodeEntry(bs).value.0;
    EntryBytesFromFields(e, bs[..4], bs[4..4 + nl], bs[4 + nl..8 + nl]);
    SliceFour(bs, 4, 4 + nl, 8 + nl, n);
  }

  /** The fields an accepted entry was read from. */
  lemma DecodeEntryFields(bs: seq<byte>)
    requires DecodeEntry(bs).Some?
    ensures var nl := DecodeU32(bs[..4]);
            var dl := DecodeU32(bs[4 + nl..8 + nl]);
            8 + nl + dl <= |bs| && Utf8.Decode(bs[4..4 + nl]).Some? &&
            DecodeEntry(bs).value
            == (Entry(Utf8.Decode(bs[4..4 + nl]).value, bs[8 + nl..8 + nl + dl]), 8 + nl + dl)
  {
  }

  /** An entry whose name encodes to the given name bytes and whose lengths
      decode from the given length fields has exactly those fields as its
      bytes. */
  lemma EntryBytesFromFields(e: Entry, nameLen: seq<byte>, nameBytes: seq<byte>, dataLen: seq<byte>)
    requires |nameLen| == 4 && |dataLen| == 4
    requires DecodeU32(nameLen) == |nameBytes| && DecodeU32(dataLen) == |e.data|
    requires Utf8.Decode(nameBytes) == Some(e.name)
    ensures EntryFits(e)
    ensures EntryBytes(e) == nameLen + nameBytes + dataLen + e.data
  {
    Utf8.EncodeDecode(nameBytes);
    EncodeDecodeU32(nameLen);
    EncodeDecodeU32(dataLen);
  }

  /** A byte string's prefix cut at three points is the four pieces put
      together. */
  lemma SliceFour(s: seq<byte>, i: nat, j: nat, k: nat, n: nat)
    requires i <= j <= k <= n <= |s|
    ensures s[..n] == s[..i] + s[i..j] + s[j..k] + s[k..n]
  {
  }

  /** Reading back what the writer produced gives the same entries in the
      same order. */
  lemma {:induction false} DecodeEmitEntries(es: seq<Entry>)
    requires EmitEntries(es).complete
    ensures DecodeEntries(|es|, EmitEntries(es).bytes) == Some(es)
  {
    if es != [] {
      EmitEntriesFirstFits(es);
      EmitEntriesUnfold(es);
      DecodeEmitEntries(es[1..]);
      DecodeEntriesCons(es[0], EmitEntries(es[1..]).bytes, |es| - 1, es[1..]);
      assert [es[0]] + es[1..] == es;
    }
  }

  /** The reader reads an entry's bytes followed by further entries as
      that entry followed by those entries. */
  lemma DecodeEntriesCons(e: Entry, tail: seq<byte>, count: nat, rest: seq<Entry>)
    requires EntryFits(e) && DecodeEntries(count, tail) == Some(rest)
    ensures DecodeEntries(count + 1, EntryBytes(e) + tail) == Some([e] + rest)
  {
    DecodeEntryBytes(e, tail);
    assert (EntryBytes(e) + tail)[|EntryBytes(e)|..] == tail;
  }

  lemma DecodeEmit(es: seq<Entry>)
    requires Emit(es).complete
    ensures DecodeArchive(Emit(es).bytes) == Some(es)
  {
    var bs := Emit(es).bytes;
    assert bs[..4] == U32LE(|es|) && bs[4..] == EmitEntries(es).bytes;
    DecodeEncodeU32(|es|);
    DecodeEmitEntries(es);
  }

  /** Conversely, whatever the reader accepts is exactly what the writer
      produces for the entries read: the layout has one spelling per list of
      entries. */
  lemma {:induction false} EmitDecodeEntries(count: nat, bs: seq<byte>)
    requires DecodeEntries(count, bs).Some?
    ensures var es := DecodeEntries(count, bs).value;
            |es| == count && EmitEntries(es) == Written(bs, true)
  {
    if count == 0 {
      assert bs == [];
    } else {
      var es := DecodeEntries(count, bs).value;
      var (e, n) := DecodeEntry(bs).value;
      DecodeEntryExact(bs);
      var tail := bs[n..];
      EmitDecodeEntries(count - 1, tail);
      assert es == [e] + DecodeEntries(count - 1, tail).value;
      assert es[0] == e && es[1..] == DecodeEntries(count - 1, tail).value;
      EmitEntriesUnfold(es);
      assert bs == bs[..n] + tail;
    }
  }

  lemma EmitDecode(bs: seq<byte>)
    requires DecodeArchive(bs).Some?
    ensures Emit(DecodeArchive(bs).value) == Written(bs, true)
  {
    EmitDecodeEntries(DecodeU32(bs[..4]), bs[4..]);
    EncodeDecodeU32(bs[..4]);
    assert bs == bs[..4] + bs[4..];
  }

  // ---------------------------------------------------------------------
  // The writer itself, over the output file opened with "wb".

  /** The output file: its bytes so far. */
  class Sink {
    var bytes: seq<byte>

    /** A file just opened for writing in binary mode is empty. */
    constructor ()
      ensures bytes == []
    {
      bytes := [];
    }

    /** `out.write(data)` appends to the file. */
    method Write(data: seq<byte>)
      modifies this
      ensures bytes == old(bytes) + data
    {
      bytes := bytes + data;
    }
  }

  /** The four writes of one entry, stopping at a length that does not fit
      in 32 bits. */
  method WriteEntry(out: Sink, e: Entry) returns (ok: bool)
    modifies out
    ensures out.bytes == old(out.bytes) + EntryWrites(e).bytes
    ensures ok == EntryWrites(e).complete
  {
    ghost var start := out.bytes;
    var nameBytes := Utf8.Encode(e.name);
    if |nameBytes| >= U32_LIMIT {
      return false;
    }
    var nameLen := U32LE(|nameBytes|);
    out.Write(nameLen);
    out.Write(nameBytes);
    ConcatAssoc(start, nameLen, nameBytes);
    if |e.data| >= U32_LIMIT {
      return false;
    }
    var dataLen := U32LE(|e.data|);
    out.Write(dataLen);
    out.Write(e.data);
    ConcatAssoc(start, nameLen + nameBytes, dataLen);
    ConcatAssoc(start, nameLen + nameBytes + dataLen, e.data);
    return true;
  }

  /** The entry loop of `pack_resources`: each entry in order, until a
      length does not fit. */
  method WriteEntries(out: Sink, files: seq<Entry>) returns (complete: bool)
    modifies out
    ensures out.bytes == old(out.bytes) + EmitEntries(files).bytes
    ensures complete == EmitEntries(files).complete
  {
    var i := 0;
    while i < |files|
      invariant 0 <= i <= |files|
      invariant forall j :: 0 <= j < i ==> EntryFits(files[j])
      invariant out.bytes == old(out.bytes) + EmitEntries(files[..i]).bytes
    {
      ghost var done := EmitEntries(files[..i]).bytes;
      var ok := WriteEntry(out, files[i]);
      ConcatAssoc(old(out.bytes), done, EntryWrites(files[i]).bytes);
      if !ok {
        EmitEntriesStopsAt(files, i);
        return false;
      }
      EmitEntriesSnoc(files, i);
      i := i + 1;
    }
    assert files[..i] == files;
    EmitEntriesCompleteIff(files);
    return true;
  }

  /** The writing part of `pack_resources`: the count, then the entries. */
  method WriteArchive(out: Sink, files: seq<Entry>) returns (complete: bool)
    modifies out
    ensures out.bytes == old(out.bytes) + Emit(files).bytes
    ensures complete == Emit(files).complete
  {
    if |files| >= U32_LIMIT {
      return false;
    }
    out.Write(U32LE(|files|));
    complete := WriteEntries(out, files);
  }
}
