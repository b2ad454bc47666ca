/** The environment: files with positional reads and writes that succeed, a record
    of how much of each is on the device, and the two names a store uses. */
module FileSystem {
  import opened Bytes
  import opened Errors

  /** `bytes` written over `data` from `at`, growing it with zeros as needed. */
  function Overwritten(data: seq<byte>, bytes: seq<byte>, at: nat): seq<byte> {
    if at > |data| then data + seq(at - |data|, _ => 0) + bytes
    else if at + |bytes| >= |data| then data[..at] + bytes
    else data[..at] + bytes + data[at + |bytes|..]
  }

  class File {
    var data: seq<byte>
    /** Length of the prefix known to be on the device. */
    var synced: nat

    constructor ()
      ensures data == [] && synced == 0
    {
      data, synced := [], 0;
    }

    method ReadExactAt(offset: nat, n: nat) returns (r: Result<seq<byte>>)
      ensures r == if offset + n <= |data| then Success(data[offset..offset + n]) else Failure(Io)
    {
      if offset + n > |data| {
        return Failure(Io);
      }
      return Success(data[offset..offset + n]);
    }

    method WriteAllAt(bytes: seq<byte>, offset: nat)
      modifies this
      ensures data == Overwritten(old(data), bytes, offset)
      ensures synced == if offset < old(synced) then offset else old(synced)
    {
      data := Overwritten(data, bytes, offset);
      if offset < synced {
        synced := offset;
      }
    }

    method SyncAll()
      modifies this
      ensures data == old(data) && synced == |data|
    {
      synced := |data|;
    }

    method SetLen(n: nat)
      requires n <= |data|
      modifies this
      ensures data == old(data)[..n]
      ensures synced == if n < old(synced) then n else old(synced)
    {
      data := data[..n];
      if n < synced {
        synced := n;
      }
    }
  }

  /** The store's path and its compaction sibling. */
  class Folder {
    var store: File?
    var temp: File?

    constructor ()
      ensures store == null && temp == null
    {
      store, temp := null, null;
    }
  }
}
