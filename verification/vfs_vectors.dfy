/** `writev` and `readv` against one write and one read. */
module VfsVectors {
  import opened Wrappers
  import opened VfsPath
  import opened VfsNodes
  import opened VfsDescriptors

  function Flatten(buffers: seq<Bytes>): Bytes {
    if buffers == [] then [] else buffers[0] + Flatten(buffers[1..])
  }

  function TotalLength(requests: seq<ReadRequest>): nat {
    if requests == [] then 0 else requests[0].length + TotalLength(requests[1..])
  }

  predicate OpenMemory(s: State, descriptor: nat) {
    descriptor in s.descriptors
    && var node := s.descriptors[descriptor].node;
    node.File? && node.file.MemoryFile? && node.file.id < |s.fs.files| && |s.fs.files[node.file.id]| <= MAX_FILE_SIZE
  }

  /** Writing `a` and then `b` right behind it is writing both at once. */
  lemma OverwriteConcat(data: Bytes, start: nat, a: Bytes, b: Bytes)
    ensures Overwrite(Overwrite(data, start, a), start + |a|, b) == Overwrite(data, start, a + b)
  {
  }

  /** The one file behind a descriptor, its bytes and where the next write through it starts. */
  function OpenId(s: State, descriptor: nat): nat
    requires OpenMemory(s, descriptor)
  {
    s.descriptors[descriptor].node.file.id
  }

  function StartOf(s: State, descriptor: nat, position: Option<u64>): nat
    requires OpenMemory(s, descriptor)
  {
    var file := s.descriptors[descriptor];
    if file.append then |s.fs.files[file.node.file.id]|
    else if position.Some? then position.value else file.position
  }

  /** The state a write leaves: the bytes in place, the cursor behind them unless a position was given. */
  function Written(s: State, descriptor: nat, data: Bytes, position: Option<u64>): State
    requires OpenMemory(s, descriptor) && StartOf(s, descriptor, position) + |data| <= MAX_FILE_SIZE
  {
    var start, id := StartOf(s, descriptor, position), OpenId(s, descriptor);
    State(s.fs.(files := s.fs.files[id := Overwrite(s.fs.files[id], start, data)]),
          if position.Some? then s.descriptors
          else s.descriptors[descriptor := s.descriptors[descriptor].(position := start + |data|)],
          s.next)
  }

  /** A write through a descriptor on a memory file, in one equation. */
  lemma WriteOpen(s: State, descriptor: nat, data: Bytes, position: Option<u64>)
    requires OpenMemory(s, descriptor) && s.descriptors[descriptor].write
    ensures var start := StartOf(s, descriptor, position);
            Write(s, descriptor, data, position)
            == if start + |data| > MAX_FILE_SIZE then (s, Err(FileTooLarge))
               else (Written(s, descriptor, data, position), Ok(|data|))
  {
    var start := StartOf(s, descriptor, position);
    if start + |data| <= MAX_FILE_SIZE && position.Some? {
      assert s.descriptors[descriptor := s.descriptors[descriptor]] == s.descriptors;
    }
  }

  /** Afterwards the same file is open, and the next write starts behind this one. */
  lemma WrittenOpen(s: State, descriptor: nat, data: Bytes, position: Option<u64>)
    requires OpenMemory(s, descriptor) && s.descriptors[descriptor].write
    requires StartOf(s, descriptor, position) + |data| <= MAX_FILE_SIZE
    ensures var start, after := StartOf(s, descriptor, position), Written(s, descriptor, data, position);
            && OpenMemory(after, descriptor) && after.descriptors[descriptor].write
            && OpenId(after, descriptor) == OpenId(s, descriptor)
            && StartOf(after, descriptor, Advance(position, |data|)) == start + |data|
  {
  }

  lemma UpdateTwice<T>(s: seq<T>, i: nat, x: T, y: T)
    requires i < |s|
    ensures s[i := x][i := y] == s[i := y]
  {
  }

  lemma WrittenTwice(s: State, descriptor: nat, a: Bytes, b: Bytes, position: Option<u64>)
    requires OpenMemory(s, descriptor) && s.descriptors[descriptor].write
    requires StartOf(s, descriptor, position) + |a| + |b| <= MAX_FILE_SIZE
    ensures var after := Written(s, descriptor, a, position);
            && OpenMemory(after, descriptor)
            && StartOf(after, descriptor, Advance(position, |a|)) + |b| <= MAX_FILE_SIZE
            && Written(after, descriptor, b, Advance(position, |a|)) == Written(s, descriptor, a + b, position)
  {
    var start, id := StartOf(s, descriptor, position), OpenId(s, descriptor);
    WrittenOpen(s, descriptor, a, position);
    OverwriteConcat(s.fs.files[id], start, a, b);
    UpdateTwice(s.fs.files, id, Overwrite(s.fs.files[id], start, a), Overwrite(s.fs.files[id], start, a + b));
  }

  lemma WriteTwice(s: State, descriptor: nat, a: Bytes, b: Bytes, position: Option<u64>)
    requires OpenMemory(s, descriptor) && s.descriptors[descriptor].write
    requires Write(s, descriptor, a, position).1.Ok?
    ensures var after := Write(s, descriptor, a, position).0;
            var both := Write(s, descriptor, a + b, position);
            var second := Write(after, descriptor, b, Advance(position, |a|));
            && (both.1.Ok? <==> second.1.Ok?)
            && (both.1.Ok? ==> both.0 == second.0 && both.1.value == |a| + second.1.value)
  {
    WriteOpen(s, descriptor, a, position);
    WriteOpen(s, descriptor, a + b, position);
    WrittenOpen(s, descriptor, a, position);
    WriteOpen(Written(s, descriptor, a, position), descriptor, b, Advance(position, |a|));
    if StartOf(s, descriptor, position) + |a| + |b| <= MAX_FILE_SIZE {
      WrittenTwice(s, descriptor, a, b, position);
    }
  }

  /** A write that succeeds leaves the file open for the next; one that fails fails with more data too. */
  lemma WriteGoesOn(s: State, descriptor: nat, data: Bytes, more: Bytes, position: Option<u64>)
    requires OpenMemory(s, descriptor) && s.descriptors[descriptor].write
    ensures var (after, result) := Write(s, descriptor, data, position);
            && (result.Ok? ==>
                  OpenMemory(after, descriptor) && after.descriptors[descriptor].write && result.value == |data|)
            && (result.Err? ==> Write(s, descriptor, data + more, position).1.Err?)
  {
    WriteOpen(s, descriptor, data, position);
    WriteOpen(s, descriptor, data + more, position);
    if StartOf(s, descriptor, position) + |data| <= MAX_FILE_SIZE {
      WrittenOpen(s, descriptor, data, position);
    }
  }

  lemma WriteEachOne(s: State, descriptor: nat, buffer: Bytes, position: Option<u64>)
    ensures var single := Write(s, descriptor, buffer, position);
            WriteEach(s, descriptor, [buffer], position) == single
  {
    assert [buffer][1..] == [];
  }

  /** Two outcomes count as the same when both fail, or both succeed and agree on everything. */
  predicate SameWrite(a: (State, Result<nat, ErrorKind>), b: (State, Result<nat, ErrorKind>)) {
    (a.1.Ok? <==> b.1.Ok?) && (b.1.Ok? ==> a == b)
  }

  /** An outcome as the rest of a vectored write whose first part wrote `count` bytes. */
  function After(count: nat, rest: (State, Result<nat, ErrorKind>)): (State, Result<nat, ErrorKind>) {
    if rest.1.Ok? then (rest.0, Ok(count + rest.1.value)) else rest
  }

  lemma WriteEachStep(s: State, descriptor: nat, buffers: seq<Bytes>, position: Option<u64>)
    requires buffers != []
    ensures var first := Write(s, descriptor, buffers[0], position);
            WriteEach(s, descriptor, buffers, position)
            == if first.1.Err? then first
               else After(first.1.value,
                          WriteEach(first.0, descriptor, buffers[1..], Advance(position, first.1.value)))
  {
  }

  lemma WriteBoth(s: State, descriptor: nat, a: Bytes, b: Bytes, position: Option<u64>)
    requires OpenMemory(s, descriptor) && s.descriptors[descriptor].write
    ensures var first := Write(s, descriptor, a, position);
            SameWrite(if first.1.Err? then first
                      else After(first.1.value, Write(first.0, descriptor, b, Advance(position, first.1.value))),
                      Write(s, descriptor, a + b, position))
  {
    WriteGoesOn(s, descriptor, a, b, position);
    if Write(s, descriptor, a, position).1.Ok? {
      WriteTwice(s, descriptor, a, b, position);
    }
  }

  lemma {:induction false} WriteEachIsWrite(s: State, descriptor: nat, buffers: seq<Bytes>, position: Option<u64>)
    requires OpenMemory(s, descriptor) && s.descriptors[descriptor].write && buffers != []
    ensures SameWrite(WriteEach(s, descriptor, buffers, position), Write(s, descriptor, Flatten(buffers), position))
    decreases |buffers|
  {
    if |buffers| == 1 {
      assert buffers == [buffers[0]] && buffers[1..] == [];
      assert Flatten(buffers) == buffers[0];
      WriteEachOne(s, descriptor, buffers[0], position);
    } else {
      var rest := Flatten(buffers[1..]);
      var first := Write(s, descriptor, buffers[0], position);
      WriteEachStep(s, descriptor, buffers, position);
      WriteBoth(s, descriptor, buffers[0], rest, position);
      if first.1.Ok? {
        WriteGoesOn(s, descriptor, buffers[0], rest, position);
        WriteEachIsWrite(first.0, descriptor, buffers[1..], Advance(position, first.1.value));
      }
    }
  }

  /**
   * On a memory file and a non-empty buffer list, `writev` succeeds exactly when one `write` of the
   * concatenation does, and then leaves the same bytes, cursor and count in every mode.
   */
  lemma WriteVIsWrite(s: State, descriptor: nat, buffers: seq<Bytes>, position: Option<u64>)
    requires OpenMemory(s, descriptor) && buffers != []
    ensures var vectored := WriteV(s, descriptor, buffers, position);
            var single := Write(s, descriptor, Flatten(buffers), position);
            && (vectored.1.Ok? <==> single.1.Ok?)
            && (single.1.Ok? ==> vectored == single)
  {
    if s.descriptors[descriptor].write {
      WriteEachIsWrite(s, descriptor, buffers, position);
    }
  }

  /**
   * The empty list is different, in every mode: it changes nothing, while an empty write behind the
   * end grows the file, and an empty append moves a cursor that is not at the end.
   */
  lemma WriteVEmpty(s: State, descriptor: nat, position: Option<u64>)
    requires OpenMemory(s, descriptor) && s.descriptors[descriptor].write
    ensures var file, size := s.descriptors[descriptor], |s.fs.files[OpenId(s, descriptor)]|;
            WriteV(s, descriptor, [], position) == Write(s, descriptor, [], position)
            <==> StartOf(s, descriptor, position) <= size
                 && (position.None? && file.append ==> file.position == size)
  {
    var id, start, file := OpenId(s, descriptor), StartOf(s, descriptor, position), s.descriptors[descriptor];
    var data := s.fs.files[id];
    WriteOpen(s, descriptor, [], position);
    if start <= |data| {
      assert Overwrite(data, start, []) == data;
      assert s.fs.files[id := data] == s.fs.files;
      if position.None? {
        var moved := file.(position := start);
        assert Written(s, descriptor, [], position).descriptors[descriptor] == moved;
        assert start == file.position ==> s.descriptors[descriptor := moved] == s.descriptors;
      }
    } else if start <= MAX_FILE_SIZE {
      assert Written(s, descriptor, [], position).fs.files[id] == Overwrite(data, start, []);
    }
  }

  lemma SlicesJoin(data: Bytes, i: nat, j: nat, k: nat)
    requires i <= j <= k <= |data|
    ensures data[i..j] + data[j..k] == data[i..k]
  {
  }

  lemma ReadBytesConcat(data: Bytes, offset: u64, a: u64, b: u64)
    requires |data| <= MAX_FILE_SIZE && a + b <= U64_MAX
    ensures var first := ReadBytes(data, offset, a);
            ReadBytes(data, offset, a + b) == first + ReadBytes(data, SaturatingAdd(offset, |first|), b)
  {
    if offset < |data| {
      var end := SaturatingAdd(offset, a + b);
      var last := if end < |data| then end else |data|;
      var middle := offset + |ReadBytes(data, offset, a)|;
      SlicesJoin(data, offset, middle, last);
      assert middle == |data| ==> data[middle..last] == [];
    }
  }

  /** Where the next read through a descriptor starts. */
  function OffsetOf(s: State, descriptor: nat, position: Option<u64>): u64
    requires OpenMemory(s, descriptor)
  {
    if position.Some? then position.value else s.descriptors[descriptor].position
  }

  /** The bytes a read delivers. */
  function Seen(s: State, descriptor: nat, length: u64, position: Option<u64>): Bytes
    requires OpenMemory(s, descriptor)
  {
    ReadBytes(s.fs.files[OpenId(s, descriptor)], OffsetOf(s, descriptor, position), length)
  }

  /** The cursor moves on, unless a position was given. */
  function Moved(s: State, descriptor: nat, count: nat, position: Option<u64>): State
    requires OpenMemory(s, descriptor)
  {
    if position.Some? then s
    else
      var file := s.descriptors[descriptor];
      s.(descriptors := s.descriptors[descriptor := file.(position := SaturatingAdd(file.position, count))])
  }

  /** A read through a descriptor on a memory file, in one equation. */
  lemma ReadOpen(s: State, descriptor: nat, request: ReadRequest, position: Option<u64>)
    requires OpenMemory(s, descriptor) && s.descriptors[descriptor].read
    ensures var bytes := Seen(s, descriptor, request.length, position);
            Read(s, descriptor, request, position) == (Moved(s, descriptor, |bytes|, position), Ok(bytes))
  {
  }

  lemma MovedOpen(s: State, descriptor: nat, count: nat, position: Option<u64>)
    requires OpenMemory(s, descriptor) && s.descriptors[descriptor].read
    ensures var after := Moved(s, descriptor, count, position);
            && OpenMemory(after, descriptor) && after.descriptors[descriptor].read && after.fs == s.fs
            && OpenId(after, descriptor) == OpenId(s, descriptor)
            && OffsetOf(after, descriptor, Advance(position, count))
               == SaturatingAdd(OffsetOf(s, descriptor, position), count)
  {
  }

  lemma MovedTwice(s: State, descriptor: nat, a: nat, b: nat, position: Option<u64>)
    requires OpenMemory(s, descriptor) && OpenMemory(Moved(s, descriptor, a, position), descriptor)
    ensures Moved(Moved(s, descriptor, a, position), descriptor, b, Advance(position, a))
         == Moved(s, descriptor, a + b, position)
  {
    if position.None? {
      var file := s.descriptors[descriptor];
      var once := file.(position := SaturatingAdd(file.position, a));
      var twice := file.(position := SaturatingAdd(file.position, a + b));
      assert s.descriptors[descriptor := once][descriptor := twice] == s.descriptors[descriptor := twice];
    }
  }

  lemma ReadTwice(s: State, descriptor: nat, a: ReadRequest, b: ReadRequest, both: ReadRequest, position: Option<u64>)
    requires OpenMemory(s, descriptor) && s.descriptors[descriptor].read && a.length + b.length == both.length
    ensures var (after, first) := Read(s, descriptor, a, position);
            && first.Ok? && OpenMemory(after, descriptor) && after.descriptors[descriptor].read
            && var (final, second) := Read(after, descriptor, b, Advance(position, |first.value|));
            second.Ok? && Read(s, descriptor, both, position) == (final, Ok(first.value + second.value))
  {
    var first := Seen(s, descriptor, a.length, position);
    var after := Moved(s, descriptor, |first|, position);
    ReadOpen(s, descriptor, a, position);
    ReadOpen(s, descriptor, both, position);
    MovedOpen(s, descriptor, |first|, position);
    ReadOpen(after, descriptor, b, Advance(position, |first|));
    ReadBytesConcat(s.fs.files[OpenId(s, descriptor)], OffsetOf(s, descriptor, position), a.length, b.length);
    MovedTwice(s, descriptor, |first|, |Seen(after, descriptor, b.length, Advance(position, |first|))|, position);
  }

  lemma {:induction false} ReadEachIsRead(
    s: State, descriptor: nat, requests: seq<ReadRequest>, position: Option<u64>, whole: ReadRequest)
    requires OpenMemory(s, descriptor) && s.descriptors[descriptor].read
    requires TotalLength(requests) == whole.length
    ensures ReadEach(s, descriptor, requests, position).1.Ok? && Read(s, descriptor, whole, position).1.Ok?
    ensures ReadEach(s, descriptor, requests, position).0 == Read(s, descriptor, whole, position).0
    ensures Flatten(ReadEach(s, descriptor, requests, position).1.value) == Read(s, descriptor, whole, position).1.value
    decreases |requests|
  {
    if requests == [] {
      ReadOpen(s, descriptor, whole, position);
      var file := s.descriptors[descriptor];
      assert s.descriptors[descriptor := file] == s.descriptors;
    } else {
      var rest := ReadRequest(TotalLength(requests[1..]), []);
      ReadTwice(s, descriptor, requests[0], rest, whole, position);
      var (after, first) := Read(s, descriptor, requests[0], position);
      ReadEachIsRead(after, descriptor, requests[1..], Advance(position, |first.value|), rest);
      var tail := ReadEach(after, descriptor, requests[1..], Advance(position, |first.value|)).1.value;
      assert ReadEach(s, descriptor, requests, position).1.value == [first.value] + tail;
      assert ([first.value] + tail)[1..] == tail;
    }
  }

  /** On a memory file the pieces `readv` returns concatenate to one `read` of the summed length. */
  lemma ReadVIsRead(s: State, descriptor: nat, requests: seq<ReadRequest>, position: Option<u64>, whole: ReadRequest)
    requires OpenMemory(s, descriptor) && s.descriptors[descriptor].read
    requires TotalLength(requests) == whole.length
    ensures ReadV(s, descriptor, requests, position).1.Ok? && Read(s, descriptor, whole, position).1.Ok?
    ensures ReadV(s, descriptor, requests, position).0 == Read(s, descriptor, whole, position).0
    ensures Flatten(ReadV(s, descriptor, requests, position).1.value) == Read(s, descriptor, whole, position).1.value
  {
    ReadEachIsRead(s, descriptor, requests, position, whole);
  }

  /** The buffers are written one behind another: those before a refused one stay written. */
  lemma {:induction false} WriteVStops(s: State, descriptor: nat, done: seq<Bytes>, next: Bytes, rest: seq<Bytes>,
                                       position: Option<u64>)
    requires descriptor in s.descriptors && WriteEach(s, descriptor, done, position).1.Ok?
    requires var (after, count) := WriteEach(s, descriptor, done, position);
             Write(after, descriptor, next, Advance(position, count.value)).1.Err?
    ensures var (after, count) := WriteEach(s, descriptor, done, position);
            var refused := Write(after, descriptor, next, Advance(position, count.value));
            WriteV(s, descriptor, done + [next] + rest, position) == (refused.0, Err(refused.1.error))
    decreases |done|
  {
    var all := done + [next] + rest;
    if done == [] {
      assert all[0] == next;
      AdvanceNothing(position);
    } else {
      assert all[0] == done[0] && all[1..] == done[1..] + [next] + rest;
      var (after, count) := Write(s, descriptor, done[0], position);
      var later := Advance(position, count.value);
      AdvanceTwice(position, count.value, WriteEach(after, descriptor, done[1..], later).1.value);
      WriteStays(s, descriptor, done[0], position);
      WriteVStops(after, descriptor, done[1..], next, rest, later);
    }
  }

  lemma AdvanceNothing(position: Option<u64>)
    ensures Advance(position, 0) == position
  {
  }

  lemma AdvanceTwice(position: Option<u64>, a: nat, b: nat)
    ensures Advance(Advance(position, a), b) == Advance(position, a + b)
  {
  }

  lemma WriteStays(s: State, descriptor: nat, data: Bytes, position: Option<u64>)
    requires descriptor in s.descriptors
    ensures descriptor in Write(s, descriptor, data, position).0.descriptors
  {
  }
}
