/**
 * The seekable byte source both tools read from (`BufReader<File>` in the HAB
 * reader and the texture converter's raw file, `Cursor<Vec<u8>>` for the
 * texture-bank header): the file contents as a byte sequence plus a cursor.
 * Seeking beyond the end is allowed, as it is for files; reading there
 * yields nothing.
 */
module Stream {
  import opened Bytes

  /** The failures the two parsers can report. */
  datatype Error =
    | UnexpectedEof   // `read_exact` ran out of bytes
    | BadMagic        // the container does not start with `HAB0`
    | InvalidUtf8     // `String::from_utf8` rejected a name
    | InvalidIndex    // `get_file_by_index` past the last entry
    | BufferTooSmall  // `RgbaImage::from_vec` got fewer bytes than the image needs

  datatype Result<T> = Ok(value: T) | Err(error: Error) {
    predicate IsFailure() { Err? }
    function PropagateFailure<U>(): Result<U>
      requires Err?
    {
      Err(error)
    }
    function Extract(): T
      requires Ok?
    {
      value
    }
  }

  /**
   * The bytes a bounded read of at most `n` bytes starting at `at` obtains:
   * the next bytes of the source, as many as asked for unless the source
   * ends first.
   */
  function Available(data: seq<Byte>, at: nat, n: nat): seq<Byte>
  {
    if at >= |data| then [] else data[at..Min(at + n, |data|)]
  }

  /** A bounded read never exceeds its bound, falls short only at the end of the source, and reads in place. */
  lemma AvailableBounds(data: seq<Byte>, at: nat, n: nat)
    ensures |Available(data, at, n)| <= n
    ensures at + n <= |data| ==> Available(data, at, n) == data[at..at + n]
    ensures |Available(data, at, n)| < n ==> at + |Available(data, at, n)| >= |data|
  {
  }

  /** Reading `k` bytes and then at most `n - k` more obtains the same as reading at most `n`. */
  lemma AvailableSplit(data: seq<Byte>, at: nat, n: nat, k: nat)
    requires 0 < k <= |Available(data, at, n)|
    ensures Available(data, at, n) == data[at..at + k] + Available(data, at + k, n - k)
  {
    var r, rest := Available(data, at, n), Available(data, at + k, n - k);
    assert |r| == k + |rest|;
    assert forall i :: 0 <= i < |r| ==> r[i] == (data[at..at + k] + rest)[i];
  }

  /**
   * One read of at most `max` bytes from a bounded view with `limit` bytes
   * left: within both bounds, empty (with a non-empty buffer) only when the
   * view has nothing more to give, and otherwise the head of what the view
   * has left.
   */
  lemma BoundedReadStep(data: seq<Byte>, at: nat, limit: nat, max: nat)
    ensures |Available(data, at, Min(max, limit))| <= Min(max, limit)
    ensures Available(data, at, Min(max, limit)) == [] && max > 0 ==> Available(data, at, limit) == []
    ensures var r := Available(data, at, Min(max, limit));
      r != [] ==> Available(data, at, limit) == r + Available(data, at + |r|, limit - |r|)
  {
    var r := Available(data, at, Min(max, limit));
    AvailableBounds(data, at, Min(max, limit));
    if r != [] {
      AvailableSplit(data, at, limit, |r|);
    }
  }

  /**
   * The bytes `read_until(delim)` consumes from position `at`: everything up to
   * and including the first `delim`, or up to the end of the source when
   * there is none.
   */
  function ReadUntil(data: seq<Byte>, at: nat, delim: Byte): seq<Byte>
    decreases |data| - at
  {
    if at >= |data| then []
    else if data[at] == delim then [data[at]]
    else [data[at]] + ReadUntil(data, at + 1, delim)
  }

  /** What `read_until` consumed is the source from `at` on, and nothing only when `at` is at or past the end. */
  lemma {:induction false} ReadUntilInPlace(data: seq<Byte>, at: nat, delim: Byte)
    ensures at + |ReadUntil(data, at, delim)| <= Max(at, |data|)
    ensures ReadUntil(data, at, delim) == [] <==> at >= |data|
    ensures at < |data| ==> ReadUntil(data, at, delim) == data[at..at + |ReadUntil(data, at, delim)|]
    decreases |data| - at
  {
    if at < |data| && data[at] != delim {
      ReadUntilInPlace(data, at + 1, delim);
      var rest := ReadUntil(data, at + 1, delim);
      if rest != [] {
        assert data[at..at + 1 + |rest|] == [data[at]] + data[at + 1..at + 1 + |rest|];
      }
    }
  }

  /**
   * Only the last byte `read_until` consumed can be the delimiter, and when
   * the last byte is not the delimiter the source has been read to its end.
   */
  lemma {:induction false} ReadUntilStops(data: seq<Byte>, at: nat, delim: Byte)
    ensures forall k :: 0 <= k < |ReadUntil(data, at, delim)| - 1 ==> ReadUntil(data, at, delim)[k] != delim
    ensures var r := ReadUntil(data, at, delim);
      r != [] && r[|r| - 1] != delim ==> at + |r| == |data|
    decreases |data| - at
  {
    if at < |data| && data[at] != delim {
      ReadUntilStops(data, at + 1, delim);
      var rest := ReadUntil(data, at + 1, delim);
      var r := ReadUntil(data, at, delim);
      assert r == [data[at]] + rest;
      forall k | 0 <= k < |r| - 1
        ensures r[k] != delim
      {
        if k > 0 {
          assert r[k] == rest[k - 1];
        }
      }
    }
  }

  /** When `delim` occurs at `j` and not before, `read_until` consumes exactly `data[at..j]` and the delimiter. */
  lemma {:induction false} ReadUntilStopsAtFirst(data: seq<Byte>, at: nat, delim: Byte, j: nat)
    requires at <= j < |data| && data[j] == delim
    requires forall i :: at <= i < j ==> data[i] != delim
    ensures ReadUntil(data, at, delim) == data[at..j + 1]
    decreases j - at
  {
    if at < j {
      ReadUntilStopsAtFirst(data, at + 1, delim, j);
    }
  }

  /** When `delim` does not occur from `at` on, `read_until` consumes the rest of the source. */
  lemma {:induction false} ReadUntilToEnd(data: seq<Byte>, at: nat, delim: Byte)
    requires at <= |data|
    requires forall i :: at <= i < |data| ==> data[i] != delim
    ensures ReadUntil(data, at, delim) == data[at..]
    decreases |data| - at
  {
    if at < |data| {
      ReadUntilToEnd(data, at + 1, delim);
    }
  }

  /** `read_until` looks at nothing before `at`: sources agreeing from `at` on give the same bytes. */
  lemma {:induction false} ReadUntilLocal(data: seq<Byte>, other: seq<Byte>, at: nat, delim: Byte)
    requires |data| == |other|
    requires forall i :: at <= i < |data| ==> data[i] == other[i]
    ensures ReadUntil(data, at, delim) == ReadUntil(other, at, delim)
    decreases |data| - at
  {
    if at < |data| {
      ReadUntilLocal(data, other, at + 1, delim);
    }
  }

  /** `Vec::pop` with its result discarded: drop the last element, if any. */
  function Pop(s: seq<Byte>): seq<Byte>
  {
    if s == [] then [] else s[..|s| - 1]
  }

  /** Popping and pushing back the last element restores the sequence; popping nothing leaves nothing. */
  lemma PopPush(s: seq<Byte>)
    ensures s == [] ==> Pop(s) == []
    ensures s != [] ==> Pop(s) + [s[|s| - 1]] == s
  {
  }

  /** A seekable, readable source: constant contents and a movable cursor. */
  class ByteReader {
    const data: seq<Byte>
    var pos: nat

    constructor (contents: seq<Byte>)
      ensures data == contents && pos == 0
    {
      data := contents;
      pos := 0;
    }

    /**
     * `read_exact`: exactly `n` bytes or `UnexpectedEof`. On failure the
     * bytes that were there have been consumed, as the default
     * `read_exact` does.
     */
    method ReadExact(n: nat) returns (r: Result<seq<Byte>>)
      modifies this
      ensures old(pos) + n <= |data| ==> r == Ok(data[old(pos)..old(pos) + n]) && pos == old(pos) + n
      ensures old(pos) + n > |data| ==> r == Err(UnexpectedEof) && pos == Max(old(pos), |data|)
    {
      if pos + n <= |data| {
        r := Ok(data[pos..pos + n]);
        pos := pos + n;
      } else {
        r := Err(UnexpectedEof);
        if pos < |data| {
          pos := |data|;
        }
      }
    }

    /** `read_u8`: one byte, by `read_exact`. */
    method ReadU8() returns (r: Result<Byte>)
      modifies this
      ensures old(pos) < |data| ==> r == Ok(data[old(pos)]) && pos == old(pos) + 1
      ensures old(pos) >= |data| ==> r == Err(UnexpectedEof) && pos == old(pos)
    {
      var b :- ReadExact(1);
      r := Ok(b[0]);
    }

    /** `read_u16` (little-endian): the next two bytes as a `u16`. */
    method ReadU16() returns (r: Result<U16>)
      modifies this
      ensures old(pos) + 2 <= |data| ==> r == Ok(LeU16(data[old(pos)..old(pos) + 2])) && pos == old(pos) + 2
      ensures old(pos) + 2 > |data| ==> r == Err(UnexpectedEof) && pos == Max(old(pos), |data|)
    {
      var b :- ReadExact(2);
      r := Ok(LeU16(b));
    }

    /** `read_u32` (little-endian): the next four bytes as a `u32`. */
    method ReadU32() returns (r: Result<U32>)
      modifies this
      ensures old(pos) + 4 <= |data| ==> r == Ok(LeU32(data[old(pos)..old(pos) + 4])) && pos == old(pos) + 4
      ensures old(pos) + 4 > |data| ==> r == Err(UnexpectedEof) && pos == Max(old(pos), |data|)
    {
      var b :- ReadExact(4);
      r := Ok(LeU32(b));
    }

    /** `read_until(delim, &mut buf)` into an empty `buf`. */
    method ReadUntilDelim(delim: Byte) returns (r: seq<Byte>)
      modifies this
      ensures r == ReadUntil(data, old(pos), delim)
      ensures pos == old(pos) + |r|
    {
      ghost var start := pos;
      r := [];
      while pos < |data|
        invariant pos == start + |r|
        invariant ReadUntil(data, start, delim) == r + ReadUntil(data, pos, delim)
        decreases |data| - pos
      {
        var b := data[pos];
        r := r + [b];
        pos := pos + 1;
        if b == delim {
          return;
        }
      }
    }

    /** `seek(SeekFrom::Start(p))`. */
    method Seek(p: nat)
      modifies this
      ensures pos == p
    {
      pos := p;
    }

    /** `seek(SeekFrom::End(0))`: moves to the end and reports the length. */
    method SeekEnd() returns (size: nat)
      modifies this
      ensures size == |data| && pos == |data|
    {
      pos := |data|;
      size := pos;
    }

    /** `read` into a buffer of `max` bytes: whatever is there, up to `max`. */
    method Read(max: nat) returns (r: seq<Byte>)
      modifies this
      ensures r == Available(data, old(pos), max)
      ensures pos == old(pos) + |r|
    {
      r := Available(data, pos, max);
      pos := pos + |r|;
    }
  }
}
