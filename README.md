# simple-db storage engine, modelled in Dafny

simple-db keeps its data in two places:

- an append-only log file, `log.db`;
- an in-memory hash index `hmap`, which maps each key to the byte offset of that key's most recent record in the log.

A record is the key and then the value. Each one is written as its length, in Go's signed varint form (`encoding/binary.PutVarint`: zig-zag, then base-128 groups with a continuation bit), followed by its bytes.

- `Set` seeks to the end of the file and builds the record in a buffer. It writes the record and syncs the file. Only then does it point the key at the old end of the file.
- `Get` returns the empty string, with no error, for a key the index does not hold. Otherwise it reads:
  1. a 10-byte window at the key's offset, and decodes the key length;
  2. a second window after the key, and decodes the value length;
  3. that many value bytes.

The model has three modules.

- `Binary` (binary.dfy): `PutVarint` and `Varint` of Go's `encoding/binary`, including its overflow rules, as pure functions.
- `Record` (record.dfy):
  - `putVarintString`;
  - the record layout `EncodeRecord`;
  - `DecodeString` and `DecodeRecord`, strict reference readers of that layout.
- `Store` (db.dfy):
  - the class `DB`. Its `log: seq<byte>` stands for the file's bytes and its `hmap` is the index;
  - `ReadAt`, a model of `File.ReadAt`;
  - the `Set` and `Get` methods;
  - the index invariant `IndexValid` and the key-value view `Contents` that they are specified against.

I/O failures are parameters. For `Set`, a `Fault` says what goes wrong. Seeking can fail. Writing can fail after some number of bytes reached the file. Syncing can fail after the whole record was written. For `Get`, a `ReadFault` says which of the three reads fails, if any. A failing read's error is passed back as `Get`'s error.

The code does not rebuild or reload its index on startup, and it does not report an absent key distinctly. The model follows the code:

- The model's constructor starts with an empty index over whatever bytes the log already holds. No index is read back.
- `Get` of an absent key returns the empty value, just as `Get` of a key whose value is empty does.

## Model

| member | source | states |
|---|---|---|
| Binary.ZigZag | db/db.go:56 | the zig-zag image of a 64-bit length fits in the 64 bits the varint groups can carry, and is even exactly for non-negative values |
| Binary.EncodeVarint | db/db.go:56-59 | `binary.PutVarint` writes 1 to `MaxVarintLen64` bytes, every byte but the last with its continuation bit set; that it reads back is Binary.VarintRoundTrip |
| Binary.Varint | db/db.go:89 | `binary.Varint` reports a byte count of at most `MaxVarintLen64` and at most the buffer's length on success, and a zero value on failure |
| Binary.UvarintRoundTrip | db/db.go:56 | the unsigned groups written for a value that fits decode back to that value, stopping right after the groups, whatever follows |
| Binary.ZigZagRoundTrip | db/db.go:56 | undoing the zig-zag gives back the signed length |
| Binary.VarintRoundTrip | db/db.go:56-60 | `PutVarint` writes 1 to `MaxVarintLen64` bytes, and `Varint` reads back the same value and byte count whatever bytes follow |
| Binary.UvarintPrefix | db/db.go:83-89 | a successful unsigned decode depends only on the bytes it consumed |
| Binary.VarintPrefix | db/db.go:83-89 | a buffer that agrees with a decodable one on the consumed bytes decodes to the same value and count; this is why `Get`'s fixed 10-byte window decodes as the log does |
| Record.PutVarintString | db/db.go:122-127 | `putVarintString` writes more than the string and at most `MaxVarintLen64` bytes more, ending with the string itself; that it reads back is Record.StringRoundTrip |
| Record.EncodeRecord | db/db.go:51-61 | the buffer `Set` builds holds both strings plus two length prefixes of 1 to `MaxVarintLen64` bytes each; that it reads back as the key and value is Record.RecordRoundTrip |
| Record.StringRoundTrip | db/db.go:122-127 | `putVarintString` output is longer than the string by at most `MaxVarintLen64` bytes and reads back as the string, whatever follows |
| Record.RecordRoundTrip | db/db.go:51-61 | the buffer `Set` builds decodes back to exactly the key and the value, with its own length as the record length |
| Record.StringExtend | db/db.go:63-65 | appending bytes after a decodable string does not change how it decodes |
| Record.RecordExtend | db/db.go:63-65 | appending bytes after a decodable record does not change how it decodes |
| Store.AppendKeepsIndex | db/db.go:63-68 | appending any bytes to the log, a whole record or a torn write, keeps the index invariant and every key's value |
| Store.PointKeyKeepsIndex | db/db.go:69 | overwriting `hmap[k]` with an offset holding a record for `k` keeps the invariant, gives `k` that record's value and leaves every other key's value unchanged |
| Store.AppendRecordIndex | db/db.go:63-69 | appending the record of `(k, v)` and pointing `k` at the old end keeps the invariant and updates the contents to `[k := v]` |
| Store.WindowVarint | db/db.go:83-89 | a read buffer that holds the bytes of a whole varint at an offset decodes as the log does there |
| Store.RecordLayout | db/db.go:79-104 | a record at an offset is a varint key length, the record's key, a varint value length and the record's value, in that order, all inside the log |
| Store.DB.constructor | db/db.go:26-38 | `NewDB` opens the log as it stands, with an empty index, which is valid |
| Store.DB.ReadAt | db/db.go:83 | `File.ReadAt` fills the buffer with as many log bytes from the offset as there are, up to its size, reports their count with `io.EOF` when it falls short, and leaves the rest zero; a failing read reports a read error |
| Store.DB.ReadVarint | db/db.go:83-89 | a failing read's error is returned. Otherwise a length prefix fails with `io.EOF` exactly when the offset is at or past the end of the log, and succeeds otherwise. Where a whole varint starts at the offset, the result is that varint |
| Store.DB.Set | db/db.go:45-71 | the log only grows. On a seek failure nothing is written. On a write failure a prefix of the record is appended; on a sync failure the whole record is. Either way an error is returned and the index and contents are unchanged. On success the log is the old log plus `EncodeRecord(k, v)`, `hmap[k]` is the old log length, greater than every earlier offset, and the contents become old contents `[k := v]` |
| Store.DB.Get | db/db.go:73-108 | an absent key yields the empty value and no error; a present key yields its value in the contents, or the read error when one of its reads fails |
| Store.DB.ReadValue | db/db.go:79-107 | the three reads from a record's offset (key length, skip the key, value length, value) return that record's value, or the error of the read that fails |
| Store.SetThenGet | db/db.go:69 | after a successful `Set(k, v)`, `Get(k)` returns `v` |
| Store.LastWriteWins | db/db.go:69 | after `Set(k, v1)` and `Set(k, v2)`, `Get(k)` returns `v2` |
| Store.FailedSetKeepsValue | db/db.go:63-68 | a `Set` that fails in seek, write or sync leaves the key's earlier value readable |
| Store.OtherKeyUnaffected | db/db.go:69 | a `Set` of one key leaves another key's value readable as it was |
| Store.ScenarioWrites | db/db.go:45-71 | on a fresh store, `Set("a", "1")` puts `a` at offset 0 and `Set("b", "22")` puts `b` at offset 4, after the four bytes of the first record |

## Left out

- `readHashIndex`, `writeHashIndex` and the index-saving half of `Close` (db/db.go:110-135) are not modelled. These functions are incomplete and do not compile, so there is no defined snapshot format or reload behaviour. As a result, the model's constructor always starts with an empty index, and a reopened store forgets its keys.
- Closing the file in `Close` is not modelled: there is no file handle in the model.
- The HTTP handlers and process startup in `main.go` are not part of this model. Neither is their unsynchronised concurrent use of the store.
- Creating and opening the log file, permissions and open errors (db/db.go:27-30) are left out. The constructor takes the file's existing bytes as a parameter.
- Seek, write and sync failures are reduced to the `Fault` parameter of `Set`.
  - Which failures happen is not modelled.
  - A sync failure is modelled as the record having reached the file.
  - Nothing is claimed about crash recovery of torn tails, since the code has none.
- Store.DB.Get requires the index invariant. The code does not check the `n <= 0` error results of `binary.Varint` (db/db.go:89, db/db.go:98). With an index that points at malformed bytes it would read from a wrong offset or ask for a negative-length buffer. That behaviour is not given a meaning here.
- Store.DB.Set requires key and value lengths up to `MaxInt64`, the range of Go's `len` converted to `int64`. File offsets are unbounded integers rather than `int64`.
- Store.DB.ReadAt: a failing read is modelled as reading no bytes and reporting one read error. Which OS errors occur, and partial reads that end in an error other than `io.EOF`, are not modelled. `Get` returns such an error at once in either case.
- Store.DB.ReadAt models Go's `io.EOF` short-read result as a count below the requested size. `Get` tolerates it for the two 10-byte windows when at least one byte was read. It fails the final read when that read is short. This follows db/db.go:83-88 and db/db.go:92-97.
- Non-canonical varints, such as padded groups, are accepted by `Varint` as Go accepts them. The index invariant allows a record whose length prefix is padded. `Set` writes only canonical varints and the constructor starts with an empty index, so a store built by them never indexes such a record. `Get`'s contract holds for any record that decodes anyway, because `ReadValue` requires only that a whole record starts at the offset.
