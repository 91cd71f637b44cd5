/**
 * An open file or raw-device handle: a fixed-size byte buffer with a write
 * position, a count of `fsync` calls and an open/closed state.  The desktop
 * wipe engine and the five raw-device writers all write through it.
 */
module Storage {
  import opened Common

  /** `content` with `block` written over it at offset `pos`. */
  function Splice(content: seq<Byte>, pos: nat, block: seq<Byte>): (r: seq<Byte>)
    requires pos + |block| <= |content|
    ensures |r| == |content|
  {
    content[..pos] + block + content[pos + |block|..]
  }

  class Handle {
    var data: array<Byte>
    var pos: nat
    var syncs: nat
    var isOpen: bool

    /** Opens a regular file whose current content is `content` (mode "r+b"). */
    constructor Open(content: seq<Byte>)
      ensures fresh(data) && data[..] == content
      ensures pos == 0 && syncs == 0 && isOpen
    {
      data := new Byte[|content|](i requires 0 <= i < |content| => content[i]);
      pos, syncs, isOpen := 0, 0, true;
    }

    /** Opens a raw device whose media is the buffer `media`. */
    constructor OpenDevice(media: array<Byte>)
      ensures data == media && pos == 0 && syncs == 0 && isOpen
    {
      data := media;
      pos, syncs, isOpen := 0, 0, true;
    }

    /** Seeks to offset 0 (`f.seek(0)`, `lseek(fd, 0, SEEK_SET)`, `SetFilePointer(h, 0, FILE_BEGIN)`). */
    method Rewind()
      modifies this`pos
      ensures pos == 0
    {
      pos := 0;
    }

    /** Writes `block` at the current position and advances past it. */
    method Write(block: seq<Byte>)
      requires isOpen && pos + |block| <= data.Length
      modifies this`pos, data
      ensures data[..] == Splice(old(data[..]), old(pos), block)
      ensures pos == old(pos) + |block|
    {
      forall k | 0 <= k < |block| {
        data[pos + k] := block[k];
      }
      assert data[..] == Splice(old(data[..]), old(pos), block);
      pos := pos + |block|;
    }

    /**
     * A write to a device that fails, changing nothing, when the block does
     * not fit between the position and the end of the media.
     */
    method TryWrite(block: seq<Byte>) returns (ok: bool)
      requires isOpen
      modifies this`pos, data
      ensures ok <==> old(pos) + |block| <= data.Length
      ensures ok ==> data[..] == Splice(old(data[..]), old(pos), block) && pos == old(pos) + |block|
      ensures !ok ==> data[..] == old(data[..]) && pos == old(pos)
    {
      ok := pos + |block| <= data.Length;
      if ok {
        Write(block);
      }
    }

    /** `os.fsync`: forces the written blocks to the media. */
    method Sync()
      modifies this`syncs
      ensures syncs == old(syncs) + 1
    {
      syncs := syncs + 1;
    }

    method Close()
      modifies this`isOpen
      ensures !isOpen
    {
      isOpen := false;
    }
  }
}
