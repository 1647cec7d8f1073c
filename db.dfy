/**
 * The storage engine of db/db.go: an append-only log file, held here as the
 * sequence of its bytes, and the in-memory index `hmap` from each key to the
 * offset of its most recent record in the log.
 *
 * The index invariant (`IndexValid`) says that every offset in `hmap` lies
 * inside the log and that a whole record starts there whose key is the key
 * that maps to it. `Contents` reads the key-value map the store holds off
 * the log through the index; `Set` and `Get` are specified against it.
 */
module Store {
  import opened Binary
  import opened Record

  /** The errors the engine passes back from the file. */
  datatype Error = SeekError | WriteError | SyncError | ReadError | EOF

  datatype Result<T> = Success(value: T) | Failure(error: Error)

  /**
   * What the file system does to one `Set`: nothing goes wrong, seeking to
   * the end fails, writing fails after `written` bytes reached the file, or
   * the write succeeds and the sync fails.
   */
  datatype Fault = NoFault | SeekFault | WriteFault(written: nat) | SyncFault

  /**
   * What the file system does to one `Get`: every read succeeds, or the
   * read of the key length, of the value length or of the value fails.
   */
  datatype ReadFault = NoReadFault | KeyLengthReadFault | ValueLengthReadFault | ValueReadFault

  function Min(a: int, b: int): int {
    if a <= b then a else b
  }

  /** The record that starts at byte `off` of the log, if a whole one does. */
  function RecordAt(log: seq<byte>, off: int): Option<(Entry, nat)>
    requires 0 <= off <= |log|
  {
    DecodeRecord(log[off..])
  }

  /** A whole record with key `k` starts at byte `off` of the log. */
  ghost predicate IndexedAt(log: seq<byte>, off: int, k: seq<byte>) {
    && 0 <= off < |log|
    && RecordAt(log, off).Some?
    && RecordAt(log, off).value.0.key == k
  }

  /** The value of the record that starts at byte `off`, if a whole one does. */
  ghost function ValueAt(log: seq<byte>, off: int): seq<byte> {
    if 0 <= off <= |log| && RecordAt(log, off).Some? then RecordAt(log, off).value.0.value else []
  }

  /**
   * The index invariant: each key's offset lies inside the log and a whole
   * record starts there whose key is that key.
   */
  ghost predicate IndexValid(log: seq<byte>, hmap: map<seq<byte>, int>) {
    forall k | k in hmap :: IndexedAt(log, hmap[k], k)
  }

  /** The key-value map the store holds: each indexed key's record value. */
  ghost function Contents(log: seq<byte>, hmap: map<seq<byte>, int>): (m: map<seq<byte>, seq<byte>>)
    ensures m.Keys == hmap.Keys
  {
    map k | k in hmap :: ValueAt(log, hmap[k])
  }

  /**
   * Bytes appended to the log, a whole record or a torn one, leave every
   * indexed record where it was and as it was.
   */
  lemma AppendKeepsIndex(log: seq<byte>, hmap: map<seq<byte>, int>, tail: seq<byte>)
    requires IndexValid(log, hmap)
    ensures IndexValid(log + tail, hmap)
    ensures Contents(log + tail, hmap) == Contents(log, hmap)
  {
    forall k | k in hmap
      ensures IndexedAt(log + tail, hmap[k], k)
      ensures ValueAt(log + tail, hmap[k]) == ValueAt(log, hmap[k])
    {
      var off := hmap[k];
      assert (log + tail)[off..] == log[off..] + tail;
      RecordExtend(log[off..], tail);
    }
    SameValuesSameContents(log, log + tail, hmap);
  }

  /** Two logs with the same values at the indexed offsets hold the same contents. */
  lemma SameValuesSameContents(log: seq<byte>, log': seq<byte>, hmap: map<seq<byte>, int>)
    requires forall k | k in hmap :: ValueAt(log', hmap[k]) == ValueAt(log, hmap[k])
    ensures Contents(log', hmap) == Contents(log, hmap)
  {
    var before, after := Contents(log, hmap), Contents(log', hmap);
    assert forall k | k in hmap :: after[k] == before[k];
  }

  /**
   * Pointing `k` at an offset where a whole record with key `k` starts keeps
   * the index valid, makes `k` hold that record's value and leaves every
   * other key's value unchanged.
   */
  lemma PointKeyKeepsIndex(log: seq<byte>, hmap: map<seq<byte>, int>, k: seq<byte>, off: int)
    requires IndexValid(log, hmap)
    requires IndexedAt(log, off, k)
    ensures IndexValid(log, hmap[k := off])
    ensures Contents(log, hmap[k := off]) == Contents(log, hmap)[k := ValueAt(log, off)]
  {
    var hmap' := hmap[k := off];
    var value := ValueAt(log, off);
    var before, after := Contents(log, hmap), Contents(log, hmap');
    forall key | key in hmap'
      ensures after[key] == before[k := value][key]
    {
      if key != k {
        assert hmap'[key] == hmap[key];
      }
    }
  }

  /**
   * Appending the record of `(k, v)` at the end of the log and pointing `k`
   * at its first byte keeps the index valid, makes `k` hold `v` and leaves
   * every other key's value unchanged.
   */
  lemma AppendRecordIndex(log: seq<byte>, hmap: map<seq<byte>, int>, k: seq<byte>, v: seq<byte>)
    requires IndexValid(log, hmap)
    requires |k| <= MaxInt64 && |v| <= MaxInt64
    ensures IndexValid(log + EncodeRecord(k, v), hmap[k := |log|])
    ensures Contents(log + EncodeRecord(k, v), hmap[k := |log|]) == Contents(log, hmap)[k := v]
  {
    var rec := EncodeRecord(k, v);
    AppendKeepsIndex(log, hmap, rec);
    RecordRoundTrip(k, v, []);
    assert (log + rec)[|log|..] == rec + [];
    assert RecordAt(log + rec, |log|) == Some((Entry(k, v), |rec|));
    PointKeyKeepsIndex(log + rec, hmap, k, |log|);
  }

  /**
   * A buffer that holds the first `n` bytes the log has at `off`, where `n`
   * covers the whole varint that starts there, decodes as that varint does.
   */
  lemma WindowVarint(log: seq<byte>, off: nat, buf: seq<byte>, n: nat)
    requires off <= |log| && Varint(log[off..]).1 > 0
    requires Varint(log[off..]).1 <= n <= |buf| && off + n <= |log|
    requires buf[..n] == log[off..off + n]
    ensures Varint(buf) == Varint(log[off..])
  {
    var m := Varint(log[off..]).1;
    assert buf[..m] == buf[..n][..m] == log[off..off + n][..m] == log[off..][..m];
    VarintPrefix(log[off..], buf);
  }

  /** The varint at byte `off` of the log, as `binary.Varint` reads it. */
  ghost function LengthAt(log: seq<byte>, off: nat): (int, int)
    requires off <= |log|
  {
    Varint(log[off..])
  }

  /**
   * The layout of a whole record at `start`: a varint of `keyWidth` bytes
   * holding the key length `keyLen`, the key, a varint of `valueWidth`
   * bytes holding the value length `valueLen`, and the value.
   */
  lemma RecordLayout(log: seq<byte>, start: nat) returns (keyLen: nat, keyWidth: nat, valueLen: nat, valueWidth: nat)
    requires start < |log| && RecordAt(log, start).Some?
    ensures 0 < keyWidth && LengthAt(log, start) == (keyLen, keyWidth)
    ensures start + keyWidth + keyLen <= |log|
    ensures log[start + keyWidth..start + keyWidth + keyLen] == RecordAt(log, start).value.0.key
    ensures var valueStart := start + keyWidth + keyLen;
      && valueStart < |log|
      && 0 < valueWidth && LengthAt(log, valueStart) == (valueLen, valueWidth)
      && valueStart + valueWidth + valueLen <= |log|
      && log[valueStart + valueWidth..valueStart + valueWidth + valueLen] == ValueAt(log, start)
  {
    var s := log[start..];
    var (key, n) := DecodeString(s).value;
    keyLen, keyWidth := |key|, n - |key|;
    var valueStart := start + keyWidth + keyLen;
    assert log[valueStart..] == s[n..];
    var (value, m) := DecodeString(s[n..]).value;
    valueLen, valueWidth := |value|, m - |value|;
    assert log[valueStart + valueWidth..valueStart + valueWidth + valueLen] == s[n..][valueWidth..m];
  }

  /** The `db` struct: the log file's bytes and the index. */
  class DB {
    var log: seq<byte>
    var hmap: map<seq<byte>, int>

    ghost predicate Valid()
      reads this
    {
      IndexValid(log, hmap)
    }

    /** The key-value map the store holds. */
    ghost function Values(): map<seq<byte>, seq<byte>>
      reads this
      requires Valid()
    {
      Contents(log, hmap)
    }

    /**
     * `NewDB` over a log file that already holds `existing`: the index
     * starts empty, since no index is read back from disk.
     */
    constructor (existing: seq<byte>)
      ensures Valid()
      ensures log == existing && hmap == map[]
    {
      log := existing;
      hmap := map[];
    }

    /**
     * `File.ReadAt` into a fresh zero-filled buffer of `size` bytes: the
     * bytes of the log from `off` on, as many as there are up to `size`, and
     * their count. A count below `size` comes with `io.EOF`; a read that
     * `fails` reads nothing and reports a read error.
     */
    method ReadAt(off: nat, size: nat, fails: bool) returns (buf: seq<byte>, n: nat, err: Option<Error>)
      ensures fails ==> n == 0 && err == Some(ReadError)
      ensures !fails ==> n == (if off >= |log| then 0 else Min(size, |log| - off))
      ensures !fails ==> err == (if n < size then Some(EOF) else None)
      ensures |buf| == size && (n > 0 ==> buf[..n] == log[off..off + n])
      ensures forall i | n <= i < size :: buf[i] == 0
    {
      var zeros: seq<byte> := seq(size, _ => 0);
      if fails {
        return zeros, 0, Some(ReadError);
      }
      if off >= |log| {
        n := 0;
        buf := zeros;
      } else {
        n := Min(size, |log| - off);
        buf := log[off..off + n] + zeros[n..];
      }
      err := if n < size then Some(EOF) else None;
    }

    /**
     * One length prefix as `Get` reads it: `MaxVarintLen64` bytes of the log
     * from `off` on, where an `io.EOF` is tolerated as long as some bytes
     * were read, then `binary.Varint` of the buffer. Where a whole varint
     * starts at `off`, that is the varint the log holds there.
     */
    method ReadVarint(off: nat, fails: bool) returns (r: Result<(int, int)>)
      ensures fails ==> r == Failure(ReadError)
      ensures !fails ==> (off >= |log| <==> r == Failure(EOF))
      ensures !fails && off < |log| ==> r.Success?
      ensures !fails && off < |log| && LengthAt(log, off).1 > 0 ==> r == Success(LengthAt(log, off))
    {
      var buf, n, err := ReadAt(off, MaxVarintLen64, fails);
      match err {
        case Some(e) =>
          if e != EOF || n <= 0 {
            return Failure(e);
          }
        case None =>
      }
      if LengthAt(log, off).1 > 0 {
        WindowVarint(log, off, buf, n);
      }
      r := Success(Varint(buf));
    }

    /**
     * `Set`: the record is appended at the old end of the log, and only when
     * both the write and the sync succeed does `k` point at it.
     */
    method Set(k: seq<byte>, v: seq<byte>, fault: Fault) returns (err: Option<Error>)
      requires Valid()
      requires |k| <= MaxInt64 && |v| <= MaxInt64
      modifies this
      ensures Valid()
      ensures |old(log)| <= |log| && log[..|old(log)|] == old(log)
      ensures fault.NoFault? ==> err == None
      ensures fault.SeekFault? ==> err == Some(SeekError) && log == old(log)
      ensures fault.WriteFault? ==> err == Some(WriteError)
      ensures fault.WriteFault? ==>
        log == old(log) + EncodeRecord(k, v)[..Min(fault.written, |EncodeRecord(k, v)|)]
      ensures fault.SyncFault? ==> err == Some(SyncError) && log == old(log) + EncodeRecord(k, v)
      ensures err == None ==>
        && log == old(log) + EncodeRecord(k, v)
        && hmap == old(hmap)[k := |old(log)|]
        && Values() == old(Values())[k := v]
        && forall key | key in old(hmap) :: old(hmap)[key] < hmap[k]
      ensures err != None ==> hmap == old(hmap) && Values() == old(Values())
    {
      if fault.SeekFault? {
        return Some(SeekError);
      }
      var offset := |log|;

      var buf: seq<byte> := [];
      buf := buf + EncodeVarint(|k|);
      buf := buf + k;
      buf := buf + EncodeVarint(|v|);
      buf := buf + v;
      assert buf == EncodeRecord(k, v);

      if fault.WriteFault? {
        var written := Min(fault.written, |buf|);
        AppendKeepsIndex(log, hmap, buf[..written]);
        log := log + buf[..written];
        return Some(WriteError);
      }
      AppendKeepsIndex(log, hmap, buf);
      AppendRecordIndex(log, hmap, k, v);
      log := log + buf;
      if fault.SyncFault? {
        return Some(SyncError);
      }
      hmap := hmap[k := offset];
      err := None;
    }

    /**
     * `Get`: the empty value for a key the index does not hold, the error
     * of a read that fails, and otherwise the value of the key's most recent
     * record, read by decoding the key length, skipping the key, decoding
     * the value length and reading that many bytes.
     */
    method Get(k: seq<byte>, fault: ReadFault) returns (r: Result<seq<byte>>)
      requires Valid()
      ensures k !in hmap ==> r == Success([])
      ensures k in hmap && fault.NoReadFault? ==> r == Success(Values()[k])
      ensures k in hmap && !fault.NoReadFault? ==> r == Failure(ReadError)
    {
      if k !in hmap {
        return Success([]);
      }
      assert IndexedAt(log, hmap[k], k);
      r := ReadValue(hmap[k], fault);
    }

    /**
     * The read path of `Get` from the offset the index gives: decode the key
     * length, skip the key, decode the value length and read that many
     * bytes. Where a whole record starts, the result is its value unless
     * one of the reads fails.
     */
    method ReadValue(start: nat, fault: ReadFault) returns (r: Result<seq<byte>>)
      requires start < |log| && RecordAt(log, start).Some?
      ensures fault.NoReadFault? ==> r == Success(ValueAt(log, start))
      ensures !fault.NoReadFault? ==> r == Failure(ReadError)
    {
      ghost var keyLen, keyWidth, valueLen, valueWidth := RecordLayout(log, start);
      var offset := start;

      var rk := ReadVarint(offset, fault.KeyLengthReadFault?);
      match rk {
        case Failure(e) => return Failure(e);
        case Success(_) =>
      }
      assert rk == Success((keyLen, keyWidth));
      var (lenK, nK) := rk.value;
      offset := offset + lenK + nK;

      var rv := ReadVarint(offset, fault.ValueLengthReadFault?);
      match rv {
        case Failure(e) => return Failure(e);
        case Success(_) =>
      }
      assert rv == Success((valueLen, valueWidth));
      var (lenV, nV) := rv.value;
      offset := offset + nV;

      var buf, n, err := ReadAt(offset, lenV, fault.ValueReadFault?);
      match err {
        case Some(e) => return Failure(e);
        case None =>
      }
      assert buf == buf[..n] == log[offset..offset + n];
      return Success(buf);
    }
  }

  /** A successful write is what the next read of its key returns. */
  method SetThenGet(db: DB, k: seq<byte>, v: seq<byte>) returns (r: Result<seq<byte>>)
    requires db.Valid()
    requires |k| <= MaxInt64 && |v| <= MaxInt64
    modifies db
    ensures r == Success(v)
  {
    var err := db.Set(k, v, NoFault);
    r := db.Get(k, NoReadFault);
  }

  /** Two writes of one key: a later `Get` sees the second value. */
  method LastWriteWins(db: DB, k: seq<byte>, v1: seq<byte>, v2: seq<byte>) returns (r: Result<seq<byte>>)
    requires db.Valid()
    requires |k| <= MaxInt64 && |v1| <= MaxInt64 && |v2| <= MaxInt64
    modifies db
    ensures r == Success(v2)
  {
    var err1 := db.Set(k, v1, NoFault);
    var err2 := db.Set(k, v2, NoFault);
    r := db.Get(k, NoReadFault);
  }

  /** A write that fails leaves the value of the key readable as it was. */
  method FailedSetKeepsValue(db: DB, k: seq<byte>, v1: seq<byte>, v2: seq<byte>, fault: Fault)
    returns (r: Result<seq<byte>>)
    requires db.Valid()
    requires |k| <= MaxInt64 && |v1| <= MaxInt64 && |v2| <= MaxInt64
    requires !fault.NoFault?
    modifies db
    ensures r == Success(v1)
  {
    var err1 := db.Set(k, v1, NoFault);
    var err2 := db.Set(k, v2, fault);
    r := db.Get(k, NoReadFault);
  }

  /** Writing one key leaves another key's value readable as it was. */
  method OtherKeyUnaffected(db: DB, a: seq<byte>, b: seq<byte>, va: seq<byte>, vb: seq<byte>)
    returns (r: Result<seq<byte>>)
    requires db.Valid() && a != b
    requires |a| <= MaxInt64 && |b| <= MaxInt64 && |va| <= MaxInt64 && |vb| <= MaxInt64
    modifies db
    ensures r == Success(va)
  {
    var e := db.Set(a, va, NoFault);
    ghost var before := db.Values();
    e := db.Set(b, vb, NoFault);
    assert db.Values()[a] == before[a] == va;
    r := db.Get(a, NoReadFault);
  }

  /**
   * A fresh store after `Set("a", "1")` and `Set("b", "22")`: `a` lands at
   * offset 0 and `b` right after its four bytes.
   */
  method ScenarioWrites() returns (db: DB)
    ensures fresh(db) && db.Valid()
    ensures db.hmap == map[[97] := 0, [98] := 4] && |db.log| == 9
    ensures db.Values() == map[[97] := [49], [98] := [50, 50]]
  {
    db := new DB([]);
    assert db.Values() == map[];
    assert EncodeRecord([97], [49]) == [2, 97, 2, 49];
    var e := db.Set([97], [49], NoFault);
    assert db.hmap == map[[97] := 0] && |db.log| == 4;
    assert db.Values() == map[[97] := [49]];
    assert EncodeRecord([98], [50, 50]) == [2, 98, 4, 50, 50];
    e := db.Set([98], [50, 50], NoFault);
  }

  /** Both values of the scenario read back, and `c`, never written, reads as empty. */
  method Scenario() {
    var db := ScenarioWrites();
    var ra := db.Get([97], NoReadFault);
    assert ra == Success([49]);
    var rb := db.Get([98], NoReadFault);
    assert rb == Success([50, 50]);
    var rc := db.Get([99], NoReadFault);
    assert rc == Success([]);
  }
}
