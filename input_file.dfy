/** The binary `ifstream` behind the source: a byte sequence and a read
    position. A `read` of `n` bytes transfers `min(n, remaining)` bytes and
    `gcount()` reports that number. */
module InputFile {
  import opened Base

  function Read(file: seq<byte>, cursor: nat, n: nat): (r: seq<byte>)
    requires cursor <= |file|
    ensures |r| == Min(n, |file| - cursor)
    ensures r <= file[cursor..]
    ensures r == [] <==> n == 0 || cursor == |file|
  {
    file[cursor..cursor + Min(n, |file| - cursor)]
  }

  function Sum(sizes: seq<nat>): nat
  {
    if sizes == [] then 0 else sizes[0] + Sum(sizes[1..])
  }

  /** The bytes of successive reads of the given sizes, starting at `cursor`,
      each read continuing where the previous one stopped. */
  function Reads(file: seq<byte>, cursor: nat, sizes: seq<nat>): seq<byte>
    requires cursor <= |file|
    decreases |sizes|
  {
    if sizes == [] then []
    else
      var chunk := Read(file, cursor, sizes[0]);
      chunk + Reads(file, cursor + |chunk|, sizes[1..])
  }

  /** Successive reads deliver the file's bytes contiguously: neither a gap nor
      a repeated byte, however the sizes are chosen. */
  lemma {:induction false} ReadsAreContiguous(file: seq<byte>, cursor: nat, sizes: seq<nat>)
    requires cursor <= |file|
    ensures Reads(file, cursor, sizes) == file[cursor..cursor + Min(Sum(sizes), |file| - cursor)]
    decreases |sizes|
  {
    if sizes != [] {
      var chunk := Read(file, cursor, sizes[0]);
      var next := cursor + |chunk|;
      ReadsAreContiguous(file, next, sizes[1..]);
      if sizes[0] < |file| - cursor {
        assert next == cursor + sizes[0];
        assert file[cursor..next + Min(Sum(sizes[1..]), |file| - next)]
            == chunk + file[next..next + Min(Sum(sizes[1..]), |file| - next)];
      } else {
        assert next == |file|;
        assert chunk == file[cursor..];
      }
    }
  }

  /** Reading until a non-empty read request comes back empty (end of stream)
      yields exactly the rest of the file. */
  lemma ReadsToEndOfStream(file: seq<byte>, cursor: nat, sizes: seq<nat>, n: nat)
    requires cursor <= |file|
    requires 0 < n
    requires cursor + |Reads(file, cursor, sizes)| <= |file|
    requires Read(file, cursor + |Reads(file, cursor, sizes)|, n) == []
    ensures Reads(file, cursor, sizes) == file[cursor..]
  {
    ReadsAreContiguous(file, cursor, sizes);
    assert cursor + |Reads(file, cursor, sizes)| == |file|;
  }
}
