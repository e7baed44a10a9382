/** The checksum engine: a file's content is read in fixed-size blocks and
    every block is fed to a streaming SHA-256 hasher. SHA-256 itself is not
    modelled; a `Hasher` stands for "the hex digest of these bytes", and a
    streaming hasher's digest is the digest of everything fed to it. */
module Checksum {
  import opened Common

  /** The file system at the level the importer sees it: path to content. */
  type FileStore = map<string, seq<byte>>

  /** The hex digest of a byte string (`hashlib.sha256(...).hexdigest()`). */
  type Hasher = seq<byte> -> string

  /** The default `blocksize` of `checksum`. */
  const BlockSize: int := 65536

  /** The digest of a file's whole content, the identity the importer
      deduplicates by; opening a missing file raises. */
  function FileChecksum(fs: FileStore, path: string, hash: Hasher): Result<string> {
    if path in fs then Success(hash(fs[path])) else Failure(IOError(path))
  }

  /** `f.read(n)` at offset `pos`: a negative size reads to the end, zero
      reads nothing, otherwise at most `n` bytes. */
  function Read(content: seq<byte>, pos: nat, n: int): (r: seq<byte>)
    requires pos <= |content|
    ensures pos + |r| <= |content| && r == content[pos..pos + |r|]
    ensures n > 0 ==> |r| <= n && (|r| == 0 <==> pos == |content|)
    ensures n < 0 ==> pos + |r| == |content|
    ensures n == 0 ==> r == []
  {
    if n < 0 then content[pos..]
    else if pos + n <= |content| then content[pos..pos + n]
    else content[pos..]
  }

  function Concat(blocks: seq<seq<byte>>): seq<byte>
    decreases |blocks|
  {
    if |blocks| == 0 then [] else Concat(blocks[..|blocks| - 1]) + blocks[|blocks| - 1]
  }

  /** `checksum(file_path, blocksize)`: opening a missing file raises; the
      blocks handed to the hasher are non-empty, no longer than the block
      size, and concatenate to the file's content, so the digest is that of
      the whole content. A zero block size reads nothing at all, and the
      digest is that of the empty string. */
  method Checksum(fs: FileStore, path: string, hash: Hasher, blockSize: int)
    returns (r: Result<string>, blocks: seq<seq<byte>>)
    ensures path !in fs ==> r == Failure(IOError(path)) && blocks == []
    ensures path in fs && blockSize != 0 ==>
      r == Success(hash(fs[path])) && Concat(blocks) == fs[path]
    ensures path in fs && blockSize == 0 ==> r == Success(hash([])) && blocks == []
    ensures forall i :: 0 <= i < |blocks| ==>
      |blocks[i]| > 0 && (blockSize > 0 ==> |blocks[i]| <= blockSize)
    ensures blockSize != 0 ==> r == FileChecksum(fs, path, hash)
  {
    if path !in fs {
      return Failure(IOError(path)), [];
    }
    var content := fs[path];
    var fed: seq<byte> := [];
    var pos: nat := 0;
    blocks := [];
    var buf := Read(content, pos, blockSize);
    while |buf| > 0
      invariant pos <= |content|
      invariant fed == content[..pos] == Concat(blocks)
      invariant pos + |buf| <= |content| && buf == content[pos..pos + |buf|]
      invariant blockSize > 0 ==> |buf| <= blockSize && (|buf| == 0 <==> pos == |content|)
      invariant blockSize < 0 ==> pos + |buf| == |content|
      invariant blockSize == 0 ==> buf == [] && pos == 0
      invariant forall i :: 0 <= i < |blocks| ==>
        |blocks[i]| > 0 && (blockSize > 0 ==> |blocks[i]| <= blockSize)
      decreases |content| - pos
    {
      assert Concat(blocks + [buf]) == Concat(blocks) + buf by {
        assert (blocks + [buf])[..|blocks|] == blocks;
      }
      assert content[..pos + |buf|] == content[..pos] + buf;
      fed := fed + buf;
      blocks := blocks + [buf];
      pos := pos + |buf|;
      buf := Read(content, pos, blockSize);
    }
    assert blockSize != 0 ==> pos == |content|;
    assert content[..|content|] == content;
    r := Success(hash(fed));
  }

  /** `checksum(file_path)` with its default block size: streaming the file
      through the hasher gives the digest of the whole content, and a
      missing file raises. */
  method DefaultChecksum(fs: FileStore, path: string, hash: Hasher) returns (r: Result<string>)
    ensures r == FileChecksum(fs, path, hash)
    ensures r.Success? <==> path in fs
  {
    var blocks: seq<seq<byte>>;
    r, blocks := Checksum(fs, path, hash, BlockSize);
  }
}
