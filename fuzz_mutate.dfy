/**
 * The standalone fuzzer's in-place mutator: one of five byte-level edits of
 * a fixed-capacity buffer holding `size` live bytes, chosen and placed by
 * successive rand() values.
 */
module FuzzMutate {
  /** The fuzz target's buffer, passed as max_size. */
  const BufferLen: nat := 10240

  /** The mask 1 << k of one bit of a byte. */
  function Bit(k: nat): (b: bv8)
    requires k < 8
    ensures b != 0 && b & (b - 1) == 0
  {
    (1 as bv8) << k
  }

  /** A buffer's contents and its live size. */
  datatype Buffer = Buffer(bytes: seq<bv8>, size: nat)

  /** memmove(data + p + 1, data + p, size - p), then data[p] = b. */
  function Insert(buf: seq<bv8>, size: nat, p: nat, b: bv8): seq<bv8>
    requires p <= size < |buf|
  {
    buf[..p] + [b] + buf[p..size] + buf[size + 1..]
  }

  /** memmove(data + p, data + p + 1, size - p - 1): the last live byte stays behind as a stale copy. */
  function Delete(buf: seq<bv8>, size: nat, p: nat): seq<bv8>
    requires p < size <= |buf|
  {
    buf[..p] + buf[p + 1..size] + buf[size - 1..]
  }

  /**
   * mutate_buffer: `choice` picks the edit (rand() % 10), `r1` the position
   * and `r2` the bit or the new byte. Choices 5 to 9 do nothing, and so does
   * an edit whose size guard fails.
   */
  function Mutate(buf: seq<bv8>, size: nat, maxSize: nat, choice: nat, r1: nat, r2: nat): Buffer
    requires size <= |buf| && 1 <= maxSize <= |buf|
  {
    var kind := choice % 10;
    if kind == 0 && size > 0 then
      var p := r1 % size;
      Buffer(buf[p := buf[p] ^ Bit(r2 % 8)], size)
    else if kind == 1 && size > 0 then
      var p := r1 % size;
      Buffer(buf[p := buf[p] ^ 0xFF], size)
    else if kind == 2 && size < maxSize - 1 then
      Buffer(Insert(buf, size, r1 % (size + 1), (r2 % 256) as bv8), size + 1)
    else if kind == 3 && size > 1 then
      Buffer(Delete(buf, size, r1 % size), size - 1)
    else if kind == 4 && size > 0 then
      Buffer(buf[r1 % size := (r2 % 256) as bv8], size)
    else Buffer(buf, size)
  }

  /** Every edit keeps the buffer's capacity, and a size in [1, max_size - 1] stays there. */
  lemma MutateSize(buf: seq<bv8>, size: nat, maxSize: nat, choice: nat, r1: nat, r2: nat)
    requires size <= |buf| && 1 <= maxSize <= |buf|
    ensures |Mutate(buf, size, maxSize, choice, r1, r2).bytes| == |buf|
    ensures 1 <= size <= maxSize - 1 ==> 1 <= Mutate(buf, size, maxSize, choice, r1, r2).size <= maxSize - 1
  {
  }

  /** The bit flip changes exactly one bit of one live byte and keeps the size. */
  lemma BitFlip(buf: seq<bv8>, size: nat, maxSize: nat, choice: nat, r1: nat, r2: nat)
    requires size <= |buf| && 1 <= maxSize <= |buf|
    requires choice % 10 == 0 && size > 0
    ensures var m := Mutate(buf, size, maxSize, choice, r1, r2);
      var p := r1 % size;
      var d := m.bytes[p] ^ buf[p];
      m.size == size && |m.bytes| == |buf| && d != 0 && d & (d - 1) == 0 &&
      forall i :: 0 <= i < |buf| && i != p ==> m.bytes[i] == buf[i]
  {
    var p := r1 % size;
    var b := Bit(r2 % 8);
    assert (buf[p] ^ b) ^ buf[p] == b;
  }

  /** The byte flip inverts one live byte and keeps the size. */
  lemma ByteFlip(buf: seq<bv8>, size: nat, maxSize: nat, choice: nat, r1: nat, r2: nat)
    requires size <= |buf| && 1 <= maxSize <= |buf|
    requires choice % 10 == 1 && size > 0
    ensures var m := Mutate(buf, size, maxSize, choice, r1, r2);
      var p := r1 % size;
      m.size == size && |m.bytes| == |buf| && m.bytes[p] == !buf[p] &&
      forall i :: 0 <= i < |buf| && i != p ==> m.bytes[i] == buf[i]
  {
    var p := r1 % size;
    assert buf[p] ^ 0xFF == !buf[p];
  }

  /** The replacement sets at most one live byte, to rand() % 256, and keeps the size. */
  lemma Replace(buf: seq<bv8>, size: nat, maxSize: nat, choice: nat, r1: nat, r2: nat)
    requires size <= |buf| && 1 <= maxSize <= |buf|
    requires choice % 10 == 4 && size > 0
    ensures var m := Mutate(buf, size, maxSize, choice, r1, r2);
      var p := r1 % size;
      m.size == size && |m.bytes| == |buf| && m.bytes[p] == (r2 % 256) as bv8 &&
      forall i :: 0 <= i < |buf| && i != p ==> m.bytes[i] == buf[i]
  {
  }

  /** The insertion: the bytes before the position stay, the new byte lands there, the rest moves up by one. */
  lemma InsertShape(buf: seq<bv8>, size: nat, p: nat, b: bv8)
    requires p <= size < |buf|
    ensures var r := Insert(buf, size, p, b);
      |r| == |buf| && r[p] == b &&
      (forall i :: 0 <= i < p ==> r[i] == buf[i]) &&
      (forall i :: p <= i < size ==> r[i + 1] == buf[i]) &&
      (forall i :: size + 1 <= i < |buf| ==> r[i] == buf[i])
  {
  }

  /** The deletion: the bytes before the position stay and the live bytes after it move down by one. */
  lemma DeleteShape(buf: seq<bv8>, size: nat, p: nat)
    requires p < size <= |buf|
    ensures var r := Delete(buf, size, p);
      |r| == |buf| &&
      (forall i :: 0 <= i < p ==> r[i] == buf[i]) &&
      (forall i :: p < i < size ==> r[i - 1] == buf[i]) &&
      (forall i :: size - 1 <= i < |buf| ==> r[i] == buf[i])
  {
  }

  /** Deleting at the position of an insertion gives back the live bytes. */
  lemma DeleteUndoesInsert(buf: seq<bv8>, size: nat, p: nat, b: bv8)
    requires p <= size < |buf|
    ensures Delete(Insert(buf, size, p, b), size + 1, p)[..size] == buf[..size]
  {
    InsertShape(buf, size, p, b);
    DeleteShape(Insert(buf, size, p, b), size + 1, p);
  }

  /** Choices 5 to 9, and an edit whose guard fails, leave buffer and size alone. */
  lemma NoEdit(buf: seq<bv8>, size: nat, maxSize: nat, choice: nat, r1: nat, r2: nat)
    requires size <= |buf| && 1 <= maxSize <= |buf|
    requires choice % 10 >= 5 ||
             (choice % 10 in {0, 1, 4} && size == 0) ||
             (choice % 10 == 2 && size >= maxSize - 1) ||
             (choice % 10 == 3 && size <= 1)
    ensures Mutate(buf, size, maxSize, choice, r1, r2) == Buffer(buf, size)
  {
  }

  /**
   * mutate_buffer on the array itself: the insertion and deletion shift the
   * bytes one at a time as memmove does, and the new size is returned.
   */
  method MutateBuffer(data: array<bv8>, size: nat, maxSize: nat, choice: nat, r1: nat, r2: nat) returns (newSize: nat)
    requires size <= data.Length && 1 <= maxSize <= data.Length
    modifies data
    ensures Buffer(data[..], newSize) == Mutate(old(data[..]), size, maxSize, choice, r1, r2)
  {
    var kind := choice % 10;
    newSize := size;
    if kind == 0 && size > 0 {
      var p := r1 % size;
      data[p] := data[p] ^ Bit(r2 % 8);
    } else if kind == 1 && size > 0 {
      var p := r1 % size;
      data[p] := data[p] ^ 0xFF;
    } else if kind == 2 && size < maxSize - 1 {
      InsertByte(data, size, r1 % (size + 1), (r2 % 256) as bv8);
      newSize := size + 1;
    } else if kind == 3 && size > 1 {
      DeleteByte(data, size, r1 % size);
      newSize := size - 1;
    } else if kind == 4 && size > 0 {
      data[r1 % size] := (r2 % 256) as bv8;
    }
  }

  /** The insertion branch: open a gap at `p` and put the new byte there. */
  method InsertByte(data: array<bv8>, size: nat, p: nat, b: bv8)
    requires p <= size < data.Length
    modifies data
    ensures data[..] == Insert(old(data[..]), size, p, b)
  {
    ShiftUp(data, size, p);
    data[p] := b;
  }

  /** The deletion branch: close the gap at `p`. */
  method DeleteByte(data: array<bv8>, size: nat, p: nat)
    requires p < size <= data.Length
    modifies data
    ensures data[..] == Delete(old(data[..]), size, p)
  {
    ShiftDown(data, size, p);
  }

  /** memmove(data + p + 1, data + p, size - p), copying from the top down. */
  method ShiftUp(data: array<bv8>, size: nat, p: nat)
    requires p <= size < data.Length
    modifies data
    ensures forall i :: 0 <= i <= p ==> data[i] == old(data[i])
    ensures forall i :: p < i <= size ==> data[i] == old(data[i - 1])
    ensures forall i :: size < i < data.Length ==> data[i] == old(data[i])
  {
    var k := size;
    while k > p
      invariant p <= k <= size
      invariant forall i :: 0 <= i <= k ==> data[i] == old(data[i])
      invariant forall i :: k < i <= size ==> data[i] == old(data[i - 1])
      invariant forall i :: size < i < data.Length ==> data[i] == old(data[i])
    {
      data[k] := data[k - 1];
      k := k - 1;
    }
  }

  /** memmove(data + p, data + p + 1, size - p - 1), copying from the bottom up. */
  method ShiftDown(data: array<bv8>, size: nat, p: nat)
    requires p < size <= data.Length
    modifies data
    ensures forall i :: 0 <= i < p ==> data[i] == old(data[i])
    ensures forall i :: p <= i < size - 1 ==> data[i] == old(data[i + 1])
    ensures forall i :: size - 1 <= i < data.Length ==> data[i] == old(data[i])
  {
    var k := p;
    while k < size - 1
      invariant p <= k <= size - 1
      invariant forall i :: 0 <= i < p ==> data[i] == old(data[i])
      invariant forall i :: p <= i < k ==> data[i] == old(data[i + 1])
      invariant forall i :: k <= i < data.Length ==> data[i] == old(data[i])
    {
      data[k] := data[k + 1];
      k := k + 1;
    }
  }
}
