/**
 * RKC_MEMORY: a heap block and its size, allocated with GlobalAlloc.
 *
 * The block is an array (null when nothing is allocated) and `size` the
 * DWORD the object records. Whether GlobalAlloc succeeds is a parameter of
 * `Allocation`, since the model has no allocator that can fail.
 */
module RkcMemory {
  import opened Bytes

  /**
   * The bounds test of `Copy` as written: `size - start` is computed in
   * DWORD arithmetic, so a start past the end of the block wraps to a huge
   * room and passes.
   */
  function CopyAcceptsAsWritten(size: u32, sizeToCopy: i32, start: i32): (accepted: bool)
    ensures accepted ==> sizeToCopy > 0
    ensures 0 <= start <= size ==> (accepted <==> 0 < sizeToCopy && start + sizeToCopy <= size)
  {
    sizeToCopy > 0 && !((size - start) % 0x1_0000_0000 < sizeToCopy)
  }

  /** The copy lies inside the block: a positive count that ends at or before the end. */
  predicate CopyFits(size: u32, sizeToCopy: i32, start: i32) {
    0 < sizeToCopy && 0 <= start && start + sizeToCopy <= size
  }

  /** A 4-byte block accepts a 1-byte copy at offset 8, which would write past its end. */
  lemma CopyPastEndAccepted()
    ensures CopyAcceptsAsWritten(4, 1, 8)
    ensures !CopyFits(4, 1, 8)
  {
    assert (4 - 8) % 0x1_0000_0000 == 0xFFFF_FFFC;
  }

  class Memory {
    var size: u32
    var block: array?<byte>

    /** The recorded size is the block's length, and 0 without a block. */
    predicate Valid()
      reads this
    {
      (block == null ==> size == 0) && (block != null ==> block.Length == size)
    }

    /** Nothing allocated. */
    constructor()
      ensures size == 0 && block == null && Valid()
    {
      size := 0;
      block := null;
    }

    /** Frees the block, if any, and records size 0; releasing again changes nothing. */
    method Release()
      modifies this
      ensures size == 0 && block == null && Valid()
    {
      if block != null {
        block := null;
      }
      size := 0;
    }

    /**
     * Releases the current block and asks for a new one of `bytesToAllocate`
     * bytes (a negative count is a huge SIZE_T request). On success the size
     * is the count and, with `zeroInit`, every byte is 0; on failure the
     * object is empty.
     */
    method Allocation(bytesToAllocate: i32, zeroInit: bool, succeeds: bool) returns (result: array?<byte>)
      modifies this
      ensures Valid() && result == block
      ensures succeeds && bytesToAllocate >= 0 ==>
                result != null && fresh(result) && size == bytesToAllocate
                && (zeroInit ==> forall i :: 0 <= i < result.Length ==> result[i] == 0)
      ensures !(succeeds && bytesToAllocate >= 0) ==> result == null && size == 0
    {
      Release();
      if succeeds && bytesToAllocate >= 0 {
        if zeroInit {
          block := new byte[bytesToAllocate](_ => 0);
        } else {
          block := new byte[bytesToAllocate];
        }
        size := bytesToAllocate;
      }
      result := block;
    }

    /** The recorded size as a LONG. */
    function GetSize(): (r: i32)
      reads this
      ensures size < 0x8000_0000 ==> r == size
    {
      ToSigned(size)
    }

    /**
     * Copies `sizeToCopy` bytes of `data` to offset `start` of the block.
     * Returns 0 and changes nothing for a count that is not positive or a
     * copy that does not fit; otherwise writes exactly `[start, start + n)`
     * and returns 1. The test here also turns away a start past the end of
     * the block, which the unsigned subtraction of the original lets through.
     */
    method Copy(data: seq<byte>, sizeToCopy: i32, start: i32) returns (r: i32)
      requires Valid() && 0 <= start && sizeToCopy <= |data|
      modifies block
      ensures r == 1 <==> CopyFits(size, sizeToCopy, start)
      ensures r == 0 || r == 1
      ensures r == 0 ==> block == null || block[..] == old(block[..])
      ensures r == 1 ==> block != null
                         && block[..] == old(block[..start]) + data[..sizeToCopy] + old(block[start + sizeToCopy..])
    {
      if sizeToCopy <= 0 {
        return 0;
      }
      if start > size || size - start < sizeToCopy {
        return 0;
      }
      var b := block;
      forall i | 0 <= i < sizeToCopy {
        b[start + i] := data[i];
      }
      assert b[..] == old(b[..start]) + data[..sizeToCopy] + old(b[start + sizeToCopy..]);
      return 1;
    }

    /** Not implemented by the library: always 0, and nothing changes. */
    method Clear(data: seq<byte>, sz: i32, start: i32) returns (r: i32)
      ensures r == 0
    {
      return 0;
    }
  }
}
