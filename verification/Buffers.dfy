/** A pool of fixed-size buffers with its free list, and arrays of leased buffers that store what is written to them. */
module BufferPools {
  import opened Wrappers
  import opened Sequences
  import opened BlobFraming

  /** From position `used` on, the free list names every buffer that is not leased, once; what is before it means
      nothing. */
  ghost predicate FreeList(avail: seq<nat>, used: nat, leased: set<nat>) {
    && used <= |avail| && |leased| == used && (forall x | x in leased :: x < |avail|)
    && (forall k | used <= k < |avail| :: avail[k] < |avail| && avail[k] !in leased)
    && (forall j, k | used <= j < k < |avail| :: avail[j] != avail[k])
  }

  lemma LeaseNext(avail: seq<nat>, used: nat, leased: set<nat>)
    requires FreeList(avail, used, leased) && used < |avail|
    ensures avail[used] !in leased && FreeList(avail, used + 1, leased + {avail[used]})
  {
  }

  lemma ReturnOne(avail: seq<nat>, used: nat, leased: set<nat>, i: nat)
    requires FreeList(avail, used, leased) && i in leased
    ensures used > 0 && i < |avail| && FreeList(avail[used - 1 := i], used - 1, leased - {i})
  {
    assert |leased - {i}| == |leased| - 1;
  }

  function Below(n: nat): set<nat> {
    if n == 0 then {} else Below(n - 1) + {n - 1}
  }

  lemma {:induction false} BelowSize(n: nat)
    ensures |Below(n)| == n && forall x :: x in Below(n) <==> 0 <= x < n
  {
    if n > 0 { BelowSize(n - 1); }
  }

  lemma {:induction false} DistinctSize(s: seq<nat>)
    requires Distinct(s)
    ensures |AsSet(s)| == |s|
  {
    if s != [] {
      var front := s[..|s| - 1];
      DistinctSize(front);
      AppendedSet(front, s[|s| - 1]);
      assert s == front + [s[|s| - 1]];
      assert s[|s| - 1] !in AsSet(front);
    }
  }

  lemma {:induction false} SameSizeSubset(a: set<nat>, b: set<nat>)
    requires a <= b && |a| == |b|
    ensures a == b
  {
    assert |b - a| == |b| - |a|;
  }

  /** Free and leased buffers make up the whole pool. */
  lemma WholePool(avail: seq<nat>, used: nat, leased: set<nat>)
    requires FreeList(avail, used, leased)
    ensures leased !! AsSet(avail[used..]) && leased + AsSet(avail[used..]) == Below(|avail|)
  {
    var free := avail[used..];
    DistinctSize(free);
    BelowSize(|avail|);
    assert |leased + AsSet(free)| == |leased| + |AsSet(free)|;
    SameSizeSubset(leased + AsSet(free), Below(|avail|));
  }

  function Patched(buffer: Bytes, at: nat, input: Bytes): Bytes
    requires at + |input| <= |buffer|
  {
    buffer[..at] + input + buffer[at + |input|..]
  }

  class FixedSizeBufferPool {
    const bufferSize: nat
    const buffers: seq<array<Byte>>
    const availableIndexes: array<nat>
    var numberOfUsedBuffers: nat
    ghost var leased: set<nat>

    constructor (bufferSize: nat, maxBufferCount: nat)
      requires bufferSize > 0
      ensures Valid() && leased == {} && this.bufferSize == bufferSize && |buffers| == maxBufferCount
      ensures fresh(availableIndexes) && forall b | b in buffers :: fresh(b)
    {
      var all: seq<array<Byte>> := [];
      for i := 0 to maxBufferCount
        invariant |all| == i && (forall k | 0 <= k < i :: fresh(all[k]) && all[k].Length == bufferSize)
        invariant forall j, k | 0 <= j < k < i :: all[j] != all[k]
      {
        var buffer := new Byte[bufferSize](_ => 0);
        all := all + [buffer];
      }
      var indexes := new nat[maxBufferCount];
      for i := 0 to maxBufferCount
        invariant forall k | 0 <= k < i :: indexes[k] == k
      {
        indexes[i] := i;
      }
      this.bufferSize, buffers, availableIndexes, numberOfUsedBuffers, leased := bufferSize, all, indexes, 0, {};
    }

    ghost function Arrays(): set<array<Byte>> {
      set i | 0 <= i < |buffers| :: buffers[i]
    }

    ghost predicate Valid()
      reads this, availableIndexes
    {
      && |buffers| == availableIndexes.Length && FreeList(availableIndexes[..], numberOfUsedBuffers, leased)
      && bufferSize > 0 && (forall k | 0 <= k < |buffers| :: buffers[k].Length == bufferSize)
      && (forall j, k | 0 <= j < k < |buffers| :: buffers[j] != buffers[k])
    }

    /** What all buffers hold. */
    ghost function Data(): (d: seq<Bytes>)
      reads Arrays()
      ensures |d| == |buffers| && forall i | 0 <= i < |d| :: |d[i]| == buffers[i].Length
    {
      seq(|buffers|, i requires 0 <= i < |buffers| reads Arrays() => buffers[i][..])
    }

    method LeaseBuffer() returns (result: Option<nat>)
      requires Valid()
      modifies `numberOfUsedBuffers, `leased
      ensures Valid() && Data() == old(Data()) && (result.None? <==> old(numberOfUsedBuffers) == |buffers|)
      ensures result.Some? ==> result.value < |buffers| && result.value !in old(leased)
      ensures leased == old(leased) + if result.Some? then {result.value} else {}
      ensures numberOfUsedBuffers == old(numberOfUsedBuffers) + if result.Some? then 1 else 0
    {
      if numberOfUsedBuffers >= |buffers| { return None; }
      LeaseNext(availableIndexes[..], numberOfUsedBuffers, leased);
      var index := availableIndexes[numberOfUsedBuffers];
      numberOfUsedBuffers, leased := numberOfUsedBuffers + 1, leased + {index};
      return Some(index);
    }

    method ReturnBuffer(index: nat)
      requires Valid() && (index < |buffers| ==> index in leased)
      modifies `numberOfUsedBuffers, `leased, availableIndexes
      ensures Valid() && leased == old(leased) - {index} && Data() == old(Data())
      ensures numberOfUsedBuffers == old(numberOfUsedBuffers) - if index < |buffers| then 1 else 0
    {
      if index >= |buffers| { return; }
      ReturnOne(availableIndexes[..], numberOfUsedBuffers, leased, index);
      numberOfUsedBuffers, leased := numberOfUsedBuffers - 1, leased - {index};
      availableIndexes[numberOfUsedBuffers] := index;
      assert availableIndexes[..] == old(availableIndexes[..])[numberOfUsedBuffers := index];
    }

    /** Copies bytes into one buffer; no other buffer changes. */
    method Copy(input: Bytes, index: nat, at: nat)
      requires Valid() && index < |buffers| && at + |input| <= bufferSize
      modifies buffers[index]
      ensures Data() == old(Data())[index := Patched(old(Data())[index], at, input)]
    {
      for i := 0 to |input|
        invariant buffers[index][..at + i] == old(buffers[index][..at]) + input[..i]
        invariant buffers[index][at + i..] == old(buffers[index][..])[at + i..]
      {
        buffers[index][at + i] := input[i];
      }
      assert input[..|input|] == input;
      assert buffers[index][..] == Patched(old(buffers[index][..]), at, input);
      assert forall k | 0 <= k < |buffers| && k != index :: buffers[k][..] == old(buffers[k][..]);
    }
  }

  ghost predicate Within(held: seq<nat>, count: nat) {
    forall k | 0 <= k < |held| :: held[k] < count
  }

  ghost predicate Sized(data: seq<Bytes>, size: nat) {
    forall i | 0 <= i < |data| :: |data[i]| == size
  }

  function Upto(s: Bytes, n: nat): Bytes {
    if n <= |s| then s[..n] else s
  }

  /** The whole contents of the listed buffers, one after the other. */
  ghost function Full(data: seq<Bytes>, held: seq<nat>): Bytes
    requires Within(held, |data|)
  {
    if held == [] then [] else Full(data, held[..|held| - 1]) + data[held[|held| - 1]]
  }

  /** What the const buffer sequence shows: full buffers, then the used part of the latest one. */
  ghost function Stored(data: seq<Bytes>, held: seq<nat>, used: nat): Bytes
    requires Within(held, |data|)
  {
    if held == [] then [] else Full(data, held[..|held| - 1]) + Upto(data[held[|held| - 1]], used)
  }

  lemma {:induction false} FullFrame(data: seq<Bytes>, data': seq<Bytes>, held: seq<nat>)
    requires |data| == |data'| && Within(held, |data|) && forall k | 0 <= k < |held| :: data[held[k]] == data'[held[k]]
    ensures Full(data, held) == Full(data', held)
  {
    if held != [] { FullFrame(data, data', held[..|held| - 1]); }
  }

  lemma StoredFrame(data: seq<Bytes>, data': seq<Bytes>, held: seq<nat>, used: nat)
    requires |data| == |data'| && Within(held, |data|) && forall k | 0 <= k < |held| :: data[held[k]] == data'[held[k]]
    ensures Stored(data, held, used) == Stored(data', held, used)
  {
    if held != [] { FullFrame(data, data', held[..|held| - 1]); }
  }

  /** Writing behind the used part of the latest buffer appends. */
  lemma StoredAppend(data: seq<Bytes>, held: seq<nat>, used: nat, chunk: Bytes, size: nat)
    requires held != [] && Distinct(held) && Within(held, |data|) && Sized(data, size) && used + |chunk| <= size
    ensures var last := held[|held| - 1]; var data' := data[last := Patched(data[last], used, chunk)];
      Sized(data', size) && Stored(data', held, used + |chunk|) == Stored(data, held, used) + chunk
  {
    var front, last := held[..|held| - 1], held[|held| - 1];
    var data' := data[last := Patched(data[last], used, chunk)];
    FullFrame(data, data', front);
    assert data'[last][..used + |chunk|] == data[last][..used] + chunk;
  }

  /** A new buffer starts out empty, behind a buffer that is full. */
  lemma StoredNewBuffer(data: seq<Bytes>, held: seq<nat>, used: nat, size: nat, next: nat)
    requires Within(held, |data|) && Sized(data, size) && next < |data| && (held != [] ==> used == size)
    ensures Within(held + [next], |data|) && Stored(data, held + [next], 0) == Stored(data, held, used)
  {
    assert (held + [next])[..|held|] == held;
    if held != [] {
      var last := held[|held| - 1];
      assert data[last][..used] == data[last];
    }
    assert data[next][..0] == [];
  }

  lemma HeldNext(held: seq<nat>, leased: set<nat>, next: nat)
    requires Distinct(held) && next !in leased && forall k | 0 <= k < |held| :: held[k] in leased
    ensures Distinct(held + [next]) && forall k | 0 <= k <= |held| :: (held + [next])[k] in leased + {next}
  {
  }

  /** What somebody else holds stays apart from buffers leased later, and keeps its bytes. */
  lemma StaysApart(before: seq<nat>, held: seq<nat>, leased: set<nat>, other: seq<nat>, data: seq<Bytes>,
      data': seq<Bytes>)
    requires before <= held && forall k | |before| <= k < |held| :: held[k] !in leased
    requires (forall k | 0 <= k < |other| :: other[k] in leased) && AsSet(before) !! AsSet(other)
    requires |data| == |data'| && Within(other, |data|)
    requires forall i | 0 <= i < |data| && i !in held :: data'[i] == data[i]
    ensures AsSet(held) !! AsSet(other) && forall k | 0 <= k < |other| :: data[other[k]] == data'[other[k]]
  {
    forall k | 0 <= k < |held| ensures held[k] !in AsSet(other) {
      if k < |before| {
        assert before[k] in AsSet(before);
        assert held[k] == before[k];
      }
    }
    forall k | 0 <= k < |other| ensures data[other[k]] == data'[other[k]] {
      assert other[k] in AsSet(other) && other[k] !in AsSet(held);
    }
  }

  lemma StaysLeased(returned: seq<nat>, other: seq<nat>, leased: set<nat>)
    requires AsSet(returned) !! AsSet(other) && forall k | 0 <= k < |other| :: other[k] in leased
    ensures forall k | 0 <= k < |other| :: other[k] in leased - AsSet(returned)
    ensures AsSet([]) !! AsSet(other)
  {
    assert forall k | 0 <= k < |other| :: other[k] in AsSet(other);
  }

  lemma NaturalProduct(a: nat, b: nat)
    ensures a * b >= 0
  {
  }

  function Least(a: nat, b: nat): nat {
    if a < b then a else b
  }

  /** How many more bytes fit: into the latest buffer, and into buffers that can still be leased. */
  function RoomLeft(held: nat, used: nat, size: nat, maxHeld: nat, free: nat): nat
    requires held <= maxHeld && used <= size
  {
    NaturalProduct(Least(free, maxHeld - held), size);
    (if held == 0 then 0 else size - used) + Least(free, maxHeld - held) * size
  }

  lemma RoomStep(held: nat, used: nat, size: nat, maxHeld: nat, free: nat)
    requires held <= maxHeld && size > 0 && used <= size && (held == 0 || used == size)
    ensures RoomLeft(held, used, size, maxHeld, free) > 0 <==> held < maxHeld && free > 0
    ensures held < maxHeld && free > 0
      ==> RoomLeft(held + 1, 0, size, maxHeld, free - 1) == RoomLeft(held, used, size, maxHeld, free)
  {
    var n := Least(free, maxHeld - held);
    if n > 0 {
      assert n * size == (n - 1) * size + size;
      NaturalProduct(n - 1, size);
    }
  }

  lemma RoomUsed(held: nat, used: nat, size: nat, maxHeld: nat, free: nat, more: nat)
    requires 0 < held <= maxHeld && used + more <= size
    ensures RoomLeft(held, used + more, size, maxHeld, free) == RoomLeft(held, used, size, maxHeld, free) - more
  {
  }

  class ReadWriteBufferArray {
    const maxNrOfBuffers: nat
    const pool: FixedSizeBufferPool
    /** The leased buffers up to the latest one. */
    var held: seq<nat>
    var usedBytesInLatestBuffer: nat
    var notEnoughRoom: bool

    constructor (pool: FixedSizeBufferPool, maxNrOfBuffers: nat)
      requires pool.Valid()
      ensures Valid() && Contents() == [] && held == [] && !notEnoughRoom
      ensures this.pool == pool && this.maxNrOfBuffers == maxNrOfBuffers
    {
      this.pool, this.maxNrOfBuffers := pool, maxNrOfBuffers;
      held, usedBytesInLatestBuffer, notEnoughRoom := [], 0, false;
    }

    ghost predicate Valid()
      reads this, pool, pool.availableIndexes
    {
      && pool.Valid() && |held| <= maxNrOfBuffers && usedBytesInLatestBuffer <= pool.bufferSize
      && (held == [] ==> usedBytesInLatestBuffer == 0)
      && Distinct(held) && Within(held, |pool.buffers|) && forall k | 0 <= k < |held| :: held[k] in pool.leased
    }

    ghost function Contents(): Bytes
      requires Valid()
      reads this, pool, pool.availableIndexes, pool.Arrays()
    {
      Stored(pool.Data(), held, usedBytesInLatestBuffer)
    }

    ghost function Room(): nat
      requires Valid()
      reads this, pool, pool.availableIndexes
    {
      RoomLeft(|held|, usedBytesInLatestBuffer, pool.bufferSize, maxNrOfBuffers,
        |pool.buffers| - pool.numberOfUsedBuffers)
    }

    method Size() returns (size: nat)
      requires Valid()
      ensures size == |Contents()|
    {
      if held == [] { return 0; }
      FullSize(pool.Data(), held[..|held| - 1], pool.bufferSize);
      NaturalProduct(|held| - 1, pool.bufferSize);
      size := (|held| - 1) * pool.bufferSize + usedBytesInLatestBuffer;
    }

    method FillCurrent(chunk: Bytes)
      requires Valid() && held != [] && usedBytesInLatestBuffer + |chunk| <= pool.bufferSize
      modifies `usedBytesInLatestBuffer, pool.Arrays()
      ensures Valid() && Contents() == old(Contents()) + chunk && Room() == old(Room()) - |chunk|
      ensures usedBytesInLatestBuffer == old(usedBytesInLatestBuffer) + |chunk|
      ensures pool.Data() == old(pool.Data())[held[|held| - 1] := pool.Data()[held[|held| - 1]]]
    {
      StoredAppend(pool.Data(), held, usedBytesInLatestBuffer, chunk, pool.bufferSize);
      RoomUsed(|held|, usedBytesInLatestBuffer, pool.bufferSize, maxNrOfBuffers,
        |pool.buffers| - pool.numberOfUsedBuffers, |chunk|);
      hide Stored, RoomLeft, Patched, Distinct;
      pool.Copy(chunk, held[|held| - 1], usedBytesInLatestBuffer);
      usedBytesInLatestBuffer := usedBytesInLatestBuffer + |chunk|;
    }

    method RequestNewBuffer() returns (ok: bool)
      requires Valid() && (held == [] || usedBytesInLatestBuffer == pool.bufferSize)
      modifies `held, `usedBytesInLatestBuffer, pool`numberOfUsedBuffers, pool`leased
      ensures Valid() && Contents() == old(Contents()) && Room() == old(Room()) && ok == (old(Room()) > 0)
      ensures !ok ==>
        && held == old(held) && usedBytesInLatestBuffer == old(usedBytesInLatestBuffer)
        && pool.leased == old(pool.leased)
      ensures ok ==> usedBytesInLatestBuffer == 0 && held != [] && held == old(held) + [held[|held| - 1]]
      ensures ok ==> held[|held| - 1] !in old(pool.leased) && pool.leased == old(pool.leased) + {held[|held| - 1]}
    {
      hide RoomLeft, Stored, Distinct, Within;
      RoomStep(|held|, usedBytesInLatestBuffer, pool.bufferSize, maxNrOfBuffers,
        |pool.buffers| - pool.numberOfUsedBuffers);
      hide FreeList;
      if |held| + 1 > maxNrOfBuffers { return false; }
      var buffer := pool.LeaseBuffer();
      if buffer.None? { return false; }
      StoredNewBuffer(pool.Data(), held, usedBytesInLatestBuffer, pool.bufferSize, buffer.value);
      HeldNext(held, old(pool.leased), buffer.value);
      ghost var data := pool.Data();
      held := held + [buffer.value];
      usedBytesInLatestBuffer := 0;
      assert pool.Data() == data;
      return true;
    }

    /** What writing may do to the pool: new buffers come from outside the leased ones, others keep their bytes. */
    ghost predicate Grown(heldBefore: seq<nat>, leasedBefore: set<nat>, dataBefore: seq<Bytes>)
      reads this, pool, pool.Arrays()
    {
      && heldBefore <= held && (forall k | |heldBefore| <= k < |held| :: held[k] !in leasedBefore)
      && leasedBefore <= pool.leased && (forall h | h in pool.leased :: h in leasedBefore || h in held)
      && |dataBefore| == |pool.Data()|
      && forall i | 0 <= i < |dataBefore| && i !in held :: pool.Data()[i] == dataBefore[i]
    }

    /** After `done` bytes, compared with the state at the start. */
    ghost predicate Progress(input: Bytes, done: nat, contents: Bytes, room: nat)
      requires done <= |input|
      reads this, pool, pool.availableIndexes, pool.Arrays()
    {
      Valid() && Contents() == contents + input[..done] && Room() == room - done
    }

    /** The latest buffer takes more bytes. */
    method FillMore(input: Bytes, done: nat, size: nat, ghost contents: Bytes, ghost room: nat,
        ghost heldBefore: seq<nat>, ghost leasedBefore: set<nat>, ghost dataBefore: seq<Bytes>)
      requires done + size <= |input| && Progress(input, done, contents, room) && held != []
      requires usedBytesInLatestBuffer + size <= pool.bufferSize && Grown(heldBefore, leasedBefore, dataBefore)
      modifies `usedBytesInLatestBuffer, pool.Arrays()
      ensures Progress(input, done + size, contents, room) && Grown(heldBefore, leasedBefore, dataBefore)
    {
      hide RoomLeft, Stored, Distinct, FreeList, Within;
      FillCurrent(input[done..done + size]);
      assert input[..done + size] == input[..done] + input[done..done + size];
    }

    /** One round of the write loop; `stop` is set when no buffer can be had. */
    method WriteSome(input: Bytes, done: nat, ghost contents: Bytes, ghost room: nat,
        ghost heldBefore: seq<nat>, ghost leasedBefore: set<nat>, ghost dataBefore: seq<Bytes>)
        returns (written: nat, stop: bool)
      requires done < |input| && Progress(input, done, contents, room) && Grown(heldBefore, leasedBefore, dataBefore)
      modifies `held, `usedBytesInLatestBuffer, pool`numberOfUsedBuffers, pool`leased, pool.Arrays()
      ensures done <= written <= |input| && Progress(input, written, contents, room)
      ensures Grown(heldBefore, leasedBefore, dataBefore)
      ensures if stop then written == done == room else done < written
    {
      hide RoomLeft, Stored, Distinct, FreeList, Within;
      var size := |input| - done;
      var remaining := pool.bufferSize - usedBytesInLatestBuffer;
      if held != [] && remaining >= size {
        FillMore(input, done, size, contents, room, heldBefore, leasedBefore, dataBefore);
        return |input|, false;
      }
      if held == [] || remaining < 1 {
        var more := RequestNewBuffer();
        if !more { return done, true; }
        remaining := pool.bufferSize;
      }
      var toCopy := if remaining < size then remaining else size;
      FillMore(input, done, toCopy, contents, room, heldBefore, leasedBefore, dataBefore);
      return done + toCopy, false;
    }

    lemma NothingWritten(input: Bytes)
      requires Valid()
      ensures Progress(input, 0, Contents(), Room()) && Grown(held, pool.leased, pool.Data())
    {
    }

    method RunOutOfRoom(ghost input: Bytes, ghost done: nat, ghost contents: Bytes, ghost room: nat,
        ghost heldBefore: seq<nat>, ghost leasedBefore: set<nat>, ghost dataBefore: seq<Bytes>)
      requires done <= |input| && Progress(input, done, contents, room) && Grown(heldBefore, leasedBefore, dataBefore)
      modifies `notEnoughRoom
      ensures Progress(input, done, contents, room) && Grown(heldBefore, leasedBefore, dataBefore) && notEnoughRoom
    {
      hide Stored, RoomLeft, Distinct, FreeList, Within;
      assert Progress(input, done, contents, room);
      ghost var data := pool.Data();
      notEnoughRoom := true;
      assert pool.Data() == data;
    }

    /** Everything that fits is stored; the result says whether that was everything. */
    method Write(input: Bytes) returns (ok: bool)
      requires Valid()
      modifies this, pool`numberOfUsedBuffers, pool`leased, pool.Arrays()
      ensures Valid() && ok == (|input| <= old(Room())) && notEnoughRoom == (old(notEnoughRoom) || !ok)
      ensures Contents() == old(Contents()) + if ok then input else input[..old(Room())]
      ensures Grown(old(held), old(pool.leased), old(pool.Data()))
    {
      hide Grown, Stored, RoomLeft, Distinct, FreeList, Within;
      NothingWritten(input);
      var done := 0;
      while done < |input|
        invariant done <= |input| && Progress(input, done, old(Contents()), old(Room()))
        invariant Grown(old(held), old(pool.leased), old(pool.Data())) && notEnoughRoom == old(notEnoughRoom)
        decreases |input| - done
      {
        var written, stop := WriteSome(input, done, old(Contents()), old(Room()), old(held), old(pool.leased),
          old(pool.Data()));
        done := written;
        if stop {
          RunOutOfRoom(input, done, old(Contents()), old(Room()), old(held), old(pool.leased), old(pool.Data()));
          return false;
        }
      }
      assert input[..done] == input;
      return true;
    }

    /** Every buffer goes back to the pool. */
    method Reset()
      requires Valid()
      modifies this, pool`numberOfUsedBuffers, pool`leased, pool.availableIndexes
      ensures Valid() && Contents() == [] && held == [] && !notEnoughRoom && pool.Data() == old(pool.Data())
      ensures pool.leased == old(pool.leased) - AsSet(old(held))
    {
      hide FreeList;
      for i := 0 to |held|
        invariant pool.Valid() && held == old(held) && usedBytesInLatestBuffer == old(usedBytesInLatestBuffer)
        invariant pool.leased == old(pool.leased) - AsSet(held[..i]) && pool.Data() == old(pool.Data())
      {
        assert held[..i + 1] == held[..i] + [held[i]];
        pool.ReturnBuffer(held[i]);
      }
      assert held[..|held|] == held;
      held, usedBytesInLatestBuffer, notEnoughRoom := [], 0, false;
    }
  }

  lemma {:induction false} FullSize(data: seq<Bytes>, held: seq<nat>, size: nat)
    requires Within(held, |data|) && Sized(data, size)
    ensures |Full(data, held)| == |held| * size
  {
    if held != [] {
      FullSize(data, held[..|held| - 1], size);
      assert |held| * size == (|held| - 1) * size + size;
    }
  }

  /** Every array on the pool is in order. */
  ghost predicate AllValid(pool: FixedSizeBufferPool, arrays: set<ReadWriteBufferArray>)
    reads pool, pool.availableIndexes, arrays
  {
    forall a | a in arrays :: a.pool == pool && a.Valid()
  }

  ghost predicate Separate(held: seq<nat>, other: seq<nat>) {
    AsSet(held) !! AsSet(other)
  }

  /** No buffer is with two of the arrays. */
  ghost predicate NoneShared(arrays: set<ReadWriteBufferArray>)
    reads arrays
  {
    forall a, b | a in arrays && b in arrays && a != b :: Separate(a.held, b.held)
  }

  ghost predicate HeldBySome(arrays: set<ReadWriteBufferArray>, h: nat)
    reads arrays
  {
    exists a :: a in arrays && h in a.held
  }

  /** Every leased buffer is with one of the arrays. */
  ghost predicate Covered(pool: FixedSizeBufferPool, arrays: set<ReadWriteBufferArray>)
    reads pool, arrays
  {
    forall h | h in pool.leased :: HeldBySome(arrays, h)
  }

  ghost predicate Sharing(pool: FixedSizeBufferPool, arrays: set<ReadWriteBufferArray>)
    reads pool, pool.availableIndexes, arrays
  {
    AllValid(pool, arrays) && NoneShared(arrays) && Covered(pool, arrays)
  }

  /** Writing through one array keeps the sharing and everybody else's contents. */
  method WriteTo(a: ReadWriteBufferArray, input: Bytes, ghost arrays: set<ReadWriteBufferArray>) returns (ok: bool)
    requires Sharing(a.pool, arrays) && a in arrays
    modifies a, a.pool`numberOfUsedBuffers, a.pool`leased, a.pool.Arrays()
    ensures Sharing(a.pool, arrays) && ok == (|input| <= old(a.Room()))
    ensures a.Contents() == old(a.Contents()) + if ok then input else input[..old(a.Room())]
    ensures forall b | b in arrays && b != a :: b.Contents() == old(b.Contents())
  {
    hide Stored, RoomLeft, FreeList, Distinct, Within;
    ok := a.Write(input);
    forall b | b in arrays && b != a
      ensures b.Valid() && b.Contents() == old(b.Contents()) && Separate(a.held, b.held) && Separate(b.held, a.held)
    {
      hide Covered, HeldBySome;
      assert Separate(old(a.held), b.held);
      StaysApart(old(a.held), a.held, old(a.pool.leased), b.held, old(a.pool.Data()), a.pool.Data());
      StoredFrame(old(a.pool.Data()), a.pool.Data(), b.held, b.usedBytesInLatestBuffer);
    }
    hide Separate;
    assert Covered(a.pool, arrays) by {
      hide AllValid, NoneShared;
      StillHeld(old(a.held), a.held);
      assert forall h | h in a.pool.leased :: h in a.held || old(HeldBySome(arrays, h));
    }
  }

  lemma StillHeld(before: seq<nat>, held: seq<nat>)
    requires before <= held
    ensures forall h | h in before :: h in held
  {
    assert forall k | 0 <= k < |before| :: held[k] == before[k];
  }

  method ResetApart(a: ReadWriteBufferArray, ghost arrays: set<ReadWriteBufferArray>)
    requires AllValid(a.pool, arrays) && NoneShared(arrays) && a in arrays
    modifies a, a.pool`numberOfUsedBuffers, a.pool`leased, a.pool.availableIndexes
    ensures AllValid(a.pool, arrays) && NoneShared(arrays) && a.Contents() == [] && a.held == []
    ensures a.pool.leased == old(a.pool.leased) - AsSet(old(a.held))
    ensures forall b | b in arrays && b != a :: b.Contents() == old(b.Contents())
  {
    hide Stored, RoomLeft, FreeList, Distinct, Full;
    a.Reset();
    forall b | b in arrays && b != a
      ensures b.Valid() && b.Contents() == old(b.Contents()) && Separate([], b.held) && Separate(b.held, [])
    {
      assert Separate(old(a.held), b.held);
      StaysLeased(old(a.held), b.held, old(a.pool.leased));
    }
    hide Separate;
  }

  /** Resetting one array returns its buffers and leaves the others alone. */
  method ResetOne(a: ReadWriteBufferArray, ghost arrays: set<ReadWriteBufferArray>)
    requires Sharing(a.pool, arrays) && a in arrays
    modifies a, a.pool`numberOfUsedBuffers, a.pool`leased, a.pool.availableIndexes
    ensures Sharing(a.pool, arrays) && a.Contents() == []
    ensures forall b | b in arrays && b != a :: b.Contents() == old(b.Contents())
  {
    hide Stored, RoomLeft, FreeList, Distinct, Full, Separate, NoneShared;
    ResetApart(a, arrays);
    assert Covered(a.pool, arrays) by {
      assert forall h | h in a.pool.leased :: old(HeldBySome(arrays, h)) && h !in AsSet(old(a.held));
    }
  }

  /** Once all arrays are reset, the whole pool is free again. */
  lemma AllReturned(pool: FixedSizeBufferPool, arrays: set<ReadWriteBufferArray>)
    requires pool.Valid() && Covered(pool, arrays) && forall a | a in arrays :: a.held == []
    ensures pool.numberOfUsedBuffers == 0 && AsSet(pool.availableIndexes[..]) == Below(|pool.buffers|)
  {
    BelowSize(|pool.buffers|);
    assert pool.leased == {};
    WholePool(pool.availableIndexes[..], 0, {});
    assert pool.availableIndexes[..][0..] == pool.availableIndexes[..];
  }
}
