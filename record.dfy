/**
 * The on-disk layout of one log record in db/db.go: the key and then the
 * value, each written as its length in signed varint form followed by its
 * bytes. `PutVarintString` is the layout of one length-prefixed string;
 * `DecodeString` and `DecodeRecord` are the strict readers of that layout,
 * which reject a malformed or negative length and a string that runs past
 * the end of the bytes.
 */
module Record {
  import opened Binary

  datatype Option<T> = None | Some(value: T)

  /** One key-value record of the log. */
  datatype Entry = Entry(key: seq<byte>, value: seq<byte>)

  /** `putVarintString`: the length of `s` as a varint, then `s` itself. */
  function PutVarintString(s: seq<byte>): (r: seq<byte>)
    requires |s| <= MaxInt64
    ensures |s| < |r| <= |s| + MaxVarintLen64
    ensures r[|r| - |s|..] == s
  {
    EncodeVarint(|s|) + s
  }

  /** The bytes `Set` appends to the log for the pair `(k, v)`. */
  function EncodeRecord(k: seq<byte>, v: seq<byte>): (r: seq<byte>)
    requires |k| <= MaxInt64 && |v| <= MaxInt64
    ensures |k| + |v| + 2 <= |r| <= |k| + |v| + 2 * MaxVarintLen64
  {
    PutVarintString(k) + PutVarintString(v)
  }

  /**
   * Reads one length-prefixed string at the start of `s`: the string and the
   * number of bytes it occupies, prefix included.
   */
  function DecodeString(s: seq<byte>): (r: Option<(seq<byte>, nat)>)
    ensures r.Some? ==> |r.value.0| < r.value.1 <= |s|
    ensures r.Some? ==> s[r.value.1 - |r.value.0|..r.value.1] == r.value.0
  {
    var (len, n) := Varint(s);
    if n <= 0 || len < 0 || |s| - n < len then None
    else Some((s[n..n + len], n + len))
  }

  /** Reads one record at the start of `s`: the entry and its byte length. */
  function DecodeRecord(s: seq<byte>): (r: Option<(Entry, nat)>)
    ensures r.Some? ==> r.value.1 <= |s|
  {
    match DecodeString(s)
    case None => None
    case Some((k, n)) =>
      match DecodeString(s[n..])
      case None => None
      case Some((v, m)) => Some((Entry(k, v), n + m))
  }

  /**
   * The string `putVarintString` writes occupies more than `s` and at most
   * `MaxVarintLen64` bytes more, and reads back as `s` whatever follows it.
   */
  lemma StringRoundTrip(s: seq<byte>, rest: seq<byte>)
    requires |s| <= MaxInt64
    ensures |s| < |PutVarintString(s)| <= |s| + MaxVarintLen64
    ensures DecodeString(PutVarintString(s) + rest) == Some((s, |PutVarintString(s)|))
  {
    var e := EncodeVarint(|s|);
    VarintRoundTrip(|s|, s + rest);
    assert PutVarintString(s) + rest == e + (s + rest);
    assert (e + (s + rest))[|e|..|e| + |s|] == s;
  }

  /**
   * A record decodes back to the key and the value it was encoded from, and
   * its byte length is that of the encoding, whatever follows it.
   */
  lemma RecordRoundTrip(k: seq<byte>, v: seq<byte>, rest: seq<byte>)
    requires |k| <= MaxInt64 && |v| <= MaxInt64
    ensures DecodeRecord(EncodeRecord(k, v) + rest) == Some((Entry(k, v), |EncodeRecord(k, v)|))
  {
    var ek, ev := PutVarintString(k), PutVarintString(v);
    var s := EncodeRecord(k, v) + rest;
    assert s == ek + (ev + rest);
    StringRoundTrip(k, ev + rest);
    assert s[|ek|..] == ev + rest;
    StringRoundTrip(v, rest);
  }

  /** A string that decodes keeps decoding the same once more bytes follow it. */
  lemma StringExtend(s: seq<byte>, t: seq<byte>)
    requires DecodeString(s).Some?
    ensures DecodeString(s + t) == DecodeString(s)
  {
    var n := Varint(s).1;
    assert s[..n] == (s + t)[..n];
    VarintPrefix(s, s + t);
    var len := Varint(s).0;
    assert (s + t)[n..n + len] == s[n..n + len];
  }

  /** A record that decodes keeps decoding the same once more bytes follow it. */
  lemma RecordExtend(s: seq<byte>, t: seq<byte>)
    requires DecodeRecord(s).Some?
    ensures DecodeRecord(s + t) == DecodeRecord(s)
  {
    StringExtend(s, t);
    var n := DecodeString(s).value.1;
    assert (s + t)[n..] == s[n..] + t;
    StringExtend(s[n..], t);
  }
}
