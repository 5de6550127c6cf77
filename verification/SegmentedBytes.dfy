/** The byte store of MicroBitCircularBuffer: segments of 2000 bytes, allocated as the ring grows. */
module SegmentedBytes {
  import opened Promotion

  const MAX_DATA_BUFFERS := 50
  const MAX_SINGLE_ALLOCATION := 2000

  /** What a ring of a given size can hold in the end if the heap never refuses a segment. */
  function Limit(size: int): int {
    if size == -1 || size > 100_000 then 100_000 else size
  }

  /** The heap grants every segment there is room for. */
  ghost predicate HeapLasts(granted: nat -> bool) {
    forall k | 0 < k < MAX_DATA_BUFFERS :: granted(k)
  }

  class SegmentedBytes {
    /** The number of bytes asked for, or -1, and whether the heap grants the allocation of each further segment. */
    const size: int
    const granted: nat -> bool

    var initialized: bool
    var dataBuffers: seq<array<Byte>>
    var currentByteMax: int
    var maxBufferSize: int

    /** The segments laid end to end. */
    ghost var flat: seq<Byte>

    /** At most `size` bytes; -1 for as many as 50 segments hold. */
    constructor (size: int, granted: nat -> bool)
      requires size == -1 || size >= 7
      ensures Valid() && !initialized && currentByteMax == 0 && fresh(Repr()) && this.size == size && this.granted == granted
    {
      this.size, this.granted := size, granted;
      initialized, dataBuffers, currentByteMax, maxBufferSize, flat := false, [], 0, size, [];
    }

    ghost function Repr(): set<object>
      reads this`dataBuffers
    {
      {this} + (set b | b in dataBuffers :: b as object)
    }

    ghost predicate Valid()
      reads this, dataBuffers
    {
      Laid() && Sized()
    }

    /** Byte i of the flat ring is byte i % 2000 of segment i / 2000; every segment but the last is full. */
    ghost predicate Laid()
      reads this`flat, this`dataBuffers, this`currentByteMax, dataBuffers
    {
      && |flat| == currentByteMax
      && |dataBuffers| <= MAX_DATA_BUFFERS
      && (forall k, m | 0 <= k < m < |dataBuffers| :: dataBuffers[k] != dataBuffers[m])
      && (forall k | 0 <= k < |dataBuffers| - 1 :: dataBuffers[k].Length == MAX_SINGLE_ALLOCATION)
      && (if dataBuffers == [] then currentByteMax == 0
          else 0 < currentByteMax - MAX_SINGLE_ALLOCATION * (|dataBuffers| - 1) == dataBuffers[|dataBuffers| - 1].Length
               <= MAX_SINGLE_ALLOCATION)
      && (forall k, j {:trigger dataBuffers[k][j]} | 0 <= k < |dataBuffers| && 0 <= j < dataBuffers[k].Length ::
            MAX_SINGLE_ALLOCATION * k + j < |flat| && dataBuffers[k][j] == flat[MAX_SINGLE_ALLOCATION * k + j])
    }

    /** The ring ends within its limit, and stops growing there or when no more memory is to be had. */
    ghost predicate Sized()
      reads this`initialized, this`dataBuffers, this`currentByteMax, this`maxBufferSize
    {
      && initialized == (dataBuffers != [])
      && (initialized ==> 7 <= currentByteMax)
      && (size == -1 || size >= 7) && (maxBufferSize == -1 || (7 <= maxBufferSize && currentByteMax <= maxBufferSize))
      && (maxBufferSize == size || (initialized && currentByteMax == maxBufferSize && Stuck()))
      && (size != -1 ==> currentByteMax <= size)
      && (currentByteMax == MAX_SINGLE_ALLOCATION * |dataBuffers| || currentByteMax == size)
      && (CanGrow() && initialized ==>
            |dataBuffers| < MAX_DATA_BUFFERS && currentByteMax == MAX_SINGLE_ALLOCATION * |dataBuffers|)
    }

    /** No more memory is to be had: all segments are in use, or the heap has refused the next one. */
    predicate Stuck()
      reads this`dataBuffers
    {
      |dataBuffers| == MAX_DATA_BUFFERS || !granted(|dataBuffers|)
    }

    predicate CanGrow()
      reads this`currentByteMax, this`maxBufferSize
    {
      maxBufferSize != currentByteMax
    }

    /** Allocation of n bytes for segment k; the heap may be exhausted. */
    method Malloc(n: nat, k: nat) returns (p: array?<Byte>)
      ensures p != null <==> granted(k)
      ensures p != null ==> fresh(p) && p.Length == n
    {
      if granted(k) {
        p := new Byte[n](_ => 0);
      } else {
        p := null;
      }
    }

    method InsertElement(index: int, data: seq<Byte>)
      requires Valid() && initialized
      requires 0 < |data| <= 4 && 0 <= index && index + |data| <= currentByteMax
      modifies this, dataBuffers
      ensures Valid() && initialized && fresh(Repr() - old(Repr()))
      ensures currentByteMax >= old(currentByteMax)
      ensures !old(CanGrow()) ==> !CanGrow() && currentByteMax == old(currentByteMax)
      ensures CanGrow() ==> index + 8 <= currentByteMax
      ensures flat[..old(currentByteMax)] == old(flat[..index] + data + flat[index + |data|..])
      ensures !(old(CanGrow()) && index + 8 > old(currentByteMax)) ==>
                currentByteMax == old(currentByteMax) && dataBuffers == old(dataBuffers)
    {
      if maxBufferSize != currentByteMax && index + 8 > currentByteMax {
        ghost var before := flat;
        Grow();
        assert forall b | b in dataBuffers :: b in Repr() && b != this as object;
        assert before[..index] + data + before[index + |data|..]
            == (flat[..index] + data + flat[index + |data|..])[..|before|] by { WrittenPart(before, flat, index, data); }
      }
      WriteBytes(index, data);
    }

    lemma WrittenPart(before: seq<Byte>, now: seq<Byte>, index: nat, data: seq<Byte>)
      requires index + |data| <= |before| <= |now| && now[..|before|] == before
      ensures (now[..index] + data + now[index + |data|..])[..|before|] == before[..index] + data + before[index + |data|..]
    {
      assert before[..index] == now[..index] && before[index + |data|..] == now[index + |data|..|before|];
    }

    /** Copies the bytes to their segment, or to two segments when they straddle a boundary. */
    method WriteBytes(index: int, data: seq<Byte>)
      requires Valid() && 0 < |data| <= 4 && 0 <= index && index + |data| <= currentByteMax
      requires initialized
      modifies this`flat, dataBuffers
      ensures Valid()
      ensures flat == old(flat[..index] + data + flat[index + |data|..])
    {
      var bufferToUse := index / MAX_SINGLE_ALLOCATION;
      var indexInBuffer := index % MAX_SINGLE_ALLOCATION;
      var spaceInBuffer := MAX_SINGLE_ALLOCATION - indexInBuffer;
      assert index == MAX_SINGLE_ALLOCATION * bufferToUse + indexInBuffer;
      assert currentByteMax <= MAX_SINGLE_ALLOCATION * |dataBuffers|;
      assert bufferToUse < |dataBuffers| && dataBuffers[bufferToUse] in dataBuffers;
      if spaceInBuffer < |data| {
        assert bufferToUse < |dataBuffers| - 1;
        WriteSegment(bufferToUse, indexInBuffer, data[..spaceInBuffer]);
        WriteSegment(bufferToUse + 1, 0, data[spaceInBuffer..]);
      } else {
        WriteSegment(bufferToUse, indexInBuffer, data);
      }
    }

    /** memcpy into one segment. */
    method WriteSegment(k: nat, at: nat, data: seq<Byte>)
      requires Valid() && k < |dataBuffers|
      requires at + |data| <= dataBuffers[k].Length
      requires MAX_SINGLE_ALLOCATION * k + at + |data| <= |flat|
      modifies this`flat, dataBuffers[k]
      ensures Valid()
      ensures var from := MAX_SINGLE_ALLOCATION * k + at;
              flat == old(flat[..from] + data + flat[from + |data|..])
    {
      hide SegmentedBytes.Sized;
      var b := dataBuffers[k];
      forall j | 0 <= j < |data| {
        b[at + j] := data[j];
      }
      ghost var from := MAX_SINGLE_ALLOCATION * k + at;
      flat := flat[..from] + data + flat[from + |data|..];
    }

    /** Adds a segment of 2000 bytes, or of as many as are left up to the limit, or gives up growing when the heap
        refuses it. After the last segment the limit is where the ring has got to. */
    method Grow()
      requires Valid() && initialized && CanGrow()
      modifies this
      ensures Valid() && initialized && fresh(Repr() - old(Repr()))
      ensures old(currentByteMax) <= currentByteMax && flat[..old(currentByteMax)] == old(flat)
      ensures if granted(|old(dataBuffers)|) then
                && |dataBuffers| == |old(dataBuffers)| + 1 && dataBuffers[..|old(dataBuffers)|] == old(dataBuffers)
                && currentByteMax == old(currentByteMax)
                   + (if old(maxBufferSize) != -1 && old(maxBufferSize) - old(currentByteMax) < MAX_SINGLE_ALLOCATION
                      then old(maxBufferSize) - old(currentByteMax) else MAX_SINGLE_ALLOCATION)
                && maxBufferSize == if |dataBuffers| == MAX_DATA_BUFFERS then currentByteMax else old(maxBufferSize)
              else
                dataBuffers == old(dataBuffers) && maxBufferSize == currentByteMax == old(currentByteMax)
    {
      var toAlloc := MAX_SINGLE_ALLOCATION;
      if maxBufferSize != -1 && maxBufferSize - currentByteMax < toAlloc {
        toAlloc := maxBufferSize - currentByteMax;
      }
      var b := Malloc(toAlloc, |dataBuffers|);
      if b != null {
        AddSegment(b);
      } else {
        maxBufferSize := currentByteMax;
      }
    }

    lemma WithinLimit()
      requires Valid() && initialized
      ensures currentByteMax <= Limit(size)
    {
    }

    /** A ring that has stopped growing has got to its limit, or the heap has refused a segment. */
    lemma StopsAtLimit()
      requires Valid() && initialized && !CanGrow()
      ensures currentByteMax == Limit(size) || (|dataBuffers| < MAX_DATA_BUFFERS && !granted(|dataBuffers|))
      ensures HeapLasts(granted) ==> currentByteMax == Limit(size)
    {
    }

    method AddSegment(b: array<Byte>)
      requires Valid() && initialized && CanGrow() && b !in dataBuffers
      requires 0 < b.Length <= MAX_SINGLE_ALLOCATION
      requires maxBufferSize == -1 || currentByteMax + b.Length <= maxBufferSize
      requires b.Length < MAX_SINGLE_ALLOCATION ==> currentByteMax + b.Length == maxBufferSize
      modifies this
      ensures Valid() && initialized
      ensures dataBuffers == old(dataBuffers) + [b]
      ensures flat == old(flat) + b[..] && currentByteMax == old(currentByteMax) + b.Length
      ensures maxBufferSize == if |dataBuffers| == MAX_DATA_BUFFERS then currentByteMax else old(maxBufferSize)
    {
      ghost var n := |dataBuffers|;
      assert |flat| == MAX_SINGLE_ALLOCATION * n;
      hide SegmentedBytes.Sized;
      dataBuffers := dataBuffers + [b];
      flat := flat + b[..];
      forall k, j | 0 <= k <= n && 0 <= j < dataBuffers[k].Length
        ensures MAX_SINGLE_ALLOCATION * k + j < |flat| && dataBuffers[k][j] == flat[MAX_SINGLE_ALLOCATION * k + j]
      {
        if k < n {
          assert dataBuffers[k] == old(dataBuffers)[k];
          assert flat[MAX_SINGLE_ALLOCATION * k + j] == old(flat)[MAX_SINGLE_ALLOCATION * k + j];
        }
      }
      currentByteMax := currentByteMax + b.Length;
      assert Laid();
      if |dataBuffers| == MAX_DATA_BUFFERS {
        maxBufferSize := currentByteMax;
      }
    }

    /** The size of the ring when the next value is written; the first segment is allocated on first use. */
    ghost function PushCapacity(): (cap: int)
      reads this`initialized, this`currentByteMax, this`maxBufferSize
    {
      if initialized then currentByteMax
      else if maxBufferSize == -1 || maxBufferSize > MAX_SINGLE_ALLOCATION then MAX_SINGLE_ALLOCATION
      else maxBufferSize
    }

    /** The first allocation is taken to succeed. */
    method Init()
      requires Valid()
      modifies this
      ensures Valid() && initialized && fresh(Repr() - old(Repr()))
      ensures currentByteMax == old(PushCapacity()) && maxBufferSize == old(maxBufferSize)
      ensures old(initialized) ==> flat == old(flat) && dataBuffers == old(dataBuffers)
    {
      if initialized {
        return;
      }
      var toAlloc := MAX_SINGLE_ALLOCATION;
      if maxBufferSize != -1 && maxBufferSize < toAlloc {
        toAlloc := maxBufferSize;
      }
      var b := new Byte[toAlloc](_ => 0);
      dataBuffers := [b];
      flat := b[..];
      currentByteMax := toAlloc;
      initialized := true;
    }

    /** Reads bytes one by one, each from its own segment. */
    method Read(index: int, n: nat) returns (data: seq<Byte>)
      requires Valid() && 0 <= index && index + n <= currentByteMax
      ensures data == flat[index..index + n]
    {
      data := [];
      for i := 0 to n
        invariant data == flat[index..index + i]
      {
        var cur := index + i;
        var bufferToUse := cur / MAX_SINGLE_ALLOCATION;
        var indexInBuffer := cur % MAX_SINGLE_ALLOCATION;
        assert cur == MAX_SINGLE_ALLOCATION * bufferToUse + indexInBuffer;
        assert currentByteMax <= MAX_SINGLE_ALLOCATION * |dataBuffers|;
        data := data + [dataBuffers[bufferToUse][indexInBuffer]];
      }
    }
  }
}
