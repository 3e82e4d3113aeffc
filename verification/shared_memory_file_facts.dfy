/** Properties that relate several SharedMemoryFile operations: what a
    write leaves for a later read, what a second CreateOrOpen sees, what
    Dispose frees, and what Resize keeps. */
module SharedMemoryFileFacts {
  import opened Bytes
  import opened Results
  import opened SharedMemoryFile

  /** Bytes written at a position inside the file are read back unchanged
      from that position, into any part of any caller array. */
  lemma WriteThenReadAt(
    store: Store, h: Handle, position: nat, src: seq<byte>, offset: nat, count: nat,
    dest: seq<byte>, destOffset: nat)
    requires Live(store, h)
    requires offset + count <= |src| && destOffset + count <= |dest|
    requires position + count <= store[h.name].size
    ensures
      var w := WriteAt(store, h, position, src, offset, count);
      && w.Ok?
      && var r := ReadAt(w.value.0, h, position, dest, destOffset, count);
      && r.Ok?
      && r.value[destOffset..destOffset + count] == src[offset..offset + count]
  {
    var w := WriteAt(store, h, position, src, offset, count);
    var d := w.value.0[h.name].data;
    assert d[position..position + count] == src[offset..offset + count] by {
      forall i | position <= i < position + count
        ensures d[i] == src[offset + i - position]
      {
      }
    }
  }

  /** `Write(buffer)` on a file of size S: when the buffer is longer than S
      only its first S bytes are kept, otherwise the buffer replaces the
      file's first bytes and the rest stay as they were. The size is S
      either way, and reading the file back returns those bytes. */
  lemma WriteKeepsAtMostSizeBytes(store: Store, h: Handle, data: seq<byte>)
    requires InSync(store, h)
    ensures
      var w := WriteAt(store, h, 0, data, 0, |data|);
      && w.Ok?
      && var f := w.value.0[h.name];
      && f.size == h.size
      && (|data| >= h.size ==> f.data == data[..h.size])
      && (|data| < h.size ==> f.data == data + store[h.name].data[|data|..])
      && var r := ReadInto(w.value.0, h, Zeros(h.size));
      && r.Ok? && r.value == f.data
  {
    var w := WriteAt(store, h, 0, data, 0, |data|);
    var f := w.value.0[h.name];
    if |data| >= h.size {
      assert f.data == data[..h.size] by {
        forall i | 0 <= i < h.size ensures f.data[i] == data[..h.size][i] { }
      }
    } else {
      assert f.data == data + store[h.name].data[|data|..] by {
        forall i | 0 <= i < h.size ensures f.data[i] == (data + store[h.name].data[|data|..])[i] { }
      }
    }
    var r := ReadInto(w.value.0, h, Zeros(h.size));
    assert r.value == r.value[..h.size];
  }

  /** A second `CreateOrOpen` of a name that is in use opens the existing
      file: the store does not change, the handle reports the first size,
      and bytes written through the first handle are read through the
      second. */
  lemma SecondCreateOrOpenSeesFirst(store: Store, name: string, size1: nat, size2: nat, data: seq<byte>)
    requires name !in store
    requires |data| <= size1
    ensures
      var (st1, h1) := CreateOrOpen(store, name, size1);
      var w := WriteAt(st1, h1, 0, data, 0, |data|);
      && w.Ok?
      && var (st2, h2) := CreateOrOpen(w.value.0, name, size2);
      && st2 == w.value.0
      && h2.size == size1
      && var r := ReadAt(st2, h2, 0, Zeros(size1), 0, |data|);
      && r.Ok? && r.value[..|data|] == data
  {
    var (st1, h1) := CreateOrOpen(store, name, size1);
    var w := WriteAt(st1, h1, 0, data, 0, |data|);
    var (st2, h2) := CreateOrOpen(w.value.0, name, size2);
    WriteThenReadAt(st1, h1, 0, data, 0, |data|, Zeros(size1), 0);
    assert ReadAt(st2, h2, 0, Zeros(size1), 0, |data|) == ReadAt(w.value.0, h1, 0, Zeros(size1), 0, |data|);
  }

  /** Dispose runs once: calling it again on the disposed handle changes
      neither the store nor the handle. */
  lemma DisposeIsIdempotent(store: Store, h: Handle)
    ensures
      var (st, h') := Dispose(store, h);
      Dispose(st, h') == (st, h')
  {
  }

  /** Dispose frees the name: a later `CreateOrOpen` under it allocates a
      fresh zero-filled file of the requested size, whatever was there. */
  lemma DisposeFreesName(store: Store, h: Handle, size: nat)
    requires Live(store, h)
    ensures
      var (freed, _) := Dispose(store, h);
      && h.name !in freed
      && var (st, h2) := CreateOrOpen(freed, h.name, size);
      && h2.size == size && st[h.name].data == Zeros(size)
  {
  }

  /** Growing a file and shrinking it back to its old size gives back the
      store exactly as it was. */
  lemma GrowThenShrinkRestores(store: Store, h: Handle, newSize: nat)
    requires InSync(store, h)
    requires newSize >= h.size
    ensures
      var r1 := Resize(store, h, newSize);
      && r1.Ok?
      && var r2 := Resize(r1.value.0, r1.value.1, h.size);
      && r2.Ok?
      && r2.value.0 == store
      && r2.value.1.size == h.size
  {
    var r1 := Resize(store, h, newSize);
    var r2 := Resize(r1.value.0, r1.value.1, h.size);
    var st := r2.value.0;
    var before := store[h.name];
    assert st[h.name].data == before.data[..h.size];
    assert before.data[..h.size] == before.data;
    assert st[h.name] == before;
    assert st.Keys == store.Keys by {
      assert st.Keys - {h.name} == store.Keys - {h.name};
    }
  }

  /** The file written out in SharedMemoryFile.cs: a fresh `Create` followed
      by `Read()` returns exactly Size bytes, all zero, and `Create` refuses
      the same name a second time. */
  lemma CreateThenReadAllGivesSizeBytes(store: Store, name: string, size: nat, size2: nat)
    requires name != "" && size > 0 && name !in store
    ensures
      var c := Create(store, name, size);
      && c.Ok?
      && var r := ReadAll(c.value.0, c.value.1);
      && r.Ok? && |r.value| == size && r.value == Zeros(size)
      && (size2 > 0 ==> Create(c.value.0, name, size2) == Err(AlreadyExists(name)))
  {
  }

  /** The file written out in SharedMemoryFile.cs: `Write(data)` then
      `Read()` through a handle of the file's size returns `data` followed
      by the bytes that were beyond it. */
  lemma WriteAllThenReadAll(store: Store, h: Handle, data: seq<byte>)
    requires InSync(store, h)
    requires |data| <= h.size
    ensures
      var w := WriteAll(store, h, data);
      && w.Ok?
      && var r := ReadAll(w.value, h);
      && r.Ok? && r.value[..|data|] == data && r.value[|data|..] == store[h.name].data[|data|..]
  {
    var w := WriteAll(store, h, data);
    assert w.value[h.name].data[..h.size] == w.value[h.name].data;
  }

  /** The other process's view in SharedMemoryFile.cs: after `Create` and
      `Write(data)` through one object, a second object from
      `Open(name, size)` of the same size reads `data` followed by the zeros
      the mapping was created with. A missing name cannot be opened. */
  lemma CreateWriteOpenSizedReadAll(store: Store, name: string, size: nat, data: seq<byte>)
    requires name != "" && size > 0 && name !in store
    requires |data| <= size
    ensures
      && OpenSized(store, name, size) == Err(FileNotFound(name))
      && var c := Create(store, name, size);
      && c.Ok?
      && var w := WriteAll(c.value.0, c.value.1, data);
      && w.Ok?
      && var o := OpenSized(w.value, name, size);
      && o.Ok?
      && var r := ReadAll(w.value, o.value);
      && r.Ok? && r.value == data + Zeros(size - |data|)
  {
    var c := Create(store, name, size);
    var w := WriteAll(c.value.0, c.value.1, data);
    var o := OpenSized(w.value, name, size);
    var d := w.value[name].data;
    assert d[|data|..] == Zeros(size - |data|);
    assert d[..size] == d;
  }

  /** An object opened with a larger size than the mapping's reads the whole
      mapping (here `data` written over a fresh one, then the zeros it was
      created with) followed by zeros up to its own size, instead of failing. */
  lemma OpenLargerReadsZeroTail(store: Store, name: string, size: nat, larger: nat, data: seq<byte>)
    requires name != "" && size > 0 && name !in store
    requires larger >= size && |data| <= size
    ensures
      var c := Create(store, name, size);
      && c.Ok?
      && var w := WriteAll(c.value.0, c.value.1, data);
      && w.Ok?
      && var o := OpenSized(w.value, name, larger);
      && o.Ok?
      && ReadAll(w.value, o.value) == Ok(data + Zeros(larger - |data|))
  {
    var c := Create(store, name, size);
    var w := WriteAll(c.value.0, c.value.1, data);
    var o := OpenSized(w.value, name, larger);
    var d := w.value[name].data;
    var r := ReadAll(w.value, o.value).value;
    var expected := data + Zeros(larger - |data|);
    assert r == expected by {
      forall i | 0 <= i < larger ensures r[i] == expected[i] {
        if i < size {
          assert r[i] == r[..size][i] == d[..size][i] == d[i];
          if i >= |data| {
            assert d[i] == d[|data|..][i - |data|];
          }
        } else {
          assert r[i] == r[size..][i - size];
        }
      }
    }
  }
}
