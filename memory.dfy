/**
 * The growable, zero-filled byte memory of src/evm/memory.rs. Callers grow
 * it with Resize before they access it; the accessors demand that the bytes
 * they touch exist (the source panics on an out-of-range index otherwise).
 */
module EvmMemory {
  import opened Words

  function Zeros(n: nat): (z: seq<Byte>)
    ensures |z| == n
    ensures forall i :: 0 <= i < n ==> z[i] == 0
  {
    seq(n, _ => 0)
  }

  class Memory {
    var data: seq<Byte>

    /** `Memory::new`: an empty buffer. */
    constructor ()
      ensures data == []
    {
      data := [];
    }

    /**
     * `resize`: grow to newSize, zero-filling the new bytes; never shrinks,
     * so asking for a size the buffer already has changes nothing.
     */
    method Resize(newSize: nat)
      modifies this
      ensures |data| == if old(|data|) < newSize then newSize else old(|data|)
      ensures data[..old(|data|)] == old(data)
      ensures forall i :: old(|data|) <= i < |data| ==> data[i] == 0
      ensures newSize <= old(|data|) ==> data == old(data)
    {
      if |data| < newSize {
        data := data + Zeros(newSize - |data|);
      }
    }

    /** `get_word`: the word whose 32-byte big-endian encoding is the bytes at addr. */
    function GetWord(addr: nat): (w: Word)
      reads this
      requires addr + WORD_BYTES <= |data|
      ensures ToBigEndian(w, WORD_BYTES) == data[addr..addr + WORD_BYTES]
    {
      var bytes := data[addr..addr + WORD_BYTES];
      WordFits(bytes);
      ToFromBigEndian(bytes);
      FromBigEndian(bytes)
    }

    /** `set_byte`: overwrite the byte at addr; nothing else changes. */
    method SetByte(addr: nat, b: Byte)
      requires addr < |data|
      modifies this
      ensures data == old(data)[addr := b]
    {
      data := data[addr := b];
    }

    /**
     * `set_word`: write the 32-byte big-endian encoding of w at addr, one
     * byte at a time; no other byte and not the length changes, and reading
     * the word back gives w.
     */
    method SetWord(addr: nat, w: Word)
      requires addr + WORD_BYTES <= |data|
      modifies this
      ensures |data| == old(|data|)
      ensures data[addr..addr + WORD_BYTES] == ToBigEndian(w, WORD_BYTES)
      ensures forall i :: 0 <= i < |data| && !(addr <= i < addr + WORD_BYTES) ==> data[i] == old(data)[i]
      ensures GetWord(addr) == w
    {
      var bytes := ToBigEndian(w, WORD_BYTES);
      for i := 0 to |bytes|
        invariant |data| == old(|data|)
        invariant forall j :: 0 <= j < i ==> data[addr + j] == bytes[j]
        invariant forall j :: 0 <= j < |data| && !(addr <= j < addr + i) ==> data[j] == old(data)[j]
      {
        data := data[i + addr := bytes[i]];
      }
      assert data[addr..addr + WORD_BYTES] == bytes;
      WordRoundTrip(w);
      ToFromBigEndian(bytes);
    }
  }
}
