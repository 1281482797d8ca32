/**
 * The per-process file-descriptor table of kern/vfs/filetable.c: 64 slots,
 * each NULL or a file handle; one handle may occupy several slots (and
 * several tables), and its reference count is kept in step with them.
 */
module FileTables {
  import opened KernTypes
  import opened FileHandles

  /** The table size, fixed in the source. */
  const TABLE_SIZE: nat := 64

  /** The handles that occupy some slot of `s`. */
  ghost function Handles(s: seq<FileHandle?>): set<FileHandle> {
    set h: FileHandle | h in s
  }

  /** How many slots of `s` hold `h`. */
  ghost function Occurrences(s: seq<FileHandle?>, h: FileHandle): nat {
    multiset(s)[h]
  }

  /**
   * The handle a system call reaches through descriptor `fd`: NULL when
   * `fd` is outside `[0, maxFiles)` (`maxFiles` being MAX_FILES) or the slot
   * is empty.
   */
  function Lookup(t: FileTable, fd: int, maxFiles: int): FileHandle?
    reads t.slots
  {
    if 0 <= fd < maxFiles && fd < t.slots.Length then t.slots[fd] else null
  }

  /** The handle `Lookup` reaches, as a frame. */
  ghost function HandleAt(t: FileTable, fd: int, maxFiles: int): set<FileHandle>
    reads t.slots
  {
    var h := Lookup(t, fd, maxFiles);
    if h == null then {} else {h}
  }

  /** The lowest empty slot of `s`, or -1 when every slot is occupied. */
  function FirstEmpty(s: seq<FileHandle?>): (r: int)
    ensures -1 <= r < |s|
    ensures r == -1 <==> null !in s
    ensures r >= 0 ==> s[r] == null && forall j :: 0 <= j < r ==> s[j] != null
  {
    if s == [] then -1
    else if s[0] == null then 0
    else
      var r := FirstEmpty(s[1..]);
      assert forall j :: 0 <= j < |s| - 1 ==> s[1..][j] == s[j + 1];
      assert s == [s[0]] + s[1..];
      if r == -1 then -1 else r + 1
  }

  /** A file-descriptor table. */
  class FileTable {
    const slots: array<FileHandle?>

    ghost predicate Valid()
      reads this
    {
      slots.Length == TABLE_SIZE
    }

    /** `filetable_create`: 64 empty slots. */
    constructor Create()
      ensures Valid() && fresh(slots)
      ensures forall k :: 0 <= k < TABLE_SIZE ==> slots[k] == null
    {
      var a := new FileHandle?[TABLE_SIZE];
      var i := 0;
      while i < TABLE_SIZE
        invariant 0 <= i <= TABLE_SIZE
        invariant forall k :: 0 <= k < i ==> a[k] == null
      {
        a[i] := null;
        i := i + 1;
      }
      slots := a;
    }

    /**
     * `filetable_createcopy`: a new table equal to `src` slot for slot; each
     * handle's reference count rises once for every slot it occupies.
     */
    static method CreateCopy(src: FileTable) returns (t: FileTable)
      requires src.Valid()
      modifies Handles(src.slots[..])`refcount
      ensures t.Valid() && fresh(t) && fresh(t.slots)
      ensures t.slots[..] == src.slots[..]
      ensures forall h :: h in Handles(src.slots[..]) ==>
        h.refcount == old(h.refcount) + Occurrences(src.slots[..], h)
    {
      t := new FileTable.Create();
      ghost var hs := Handles(src.slots[..]);
      var i := 0;
      while i < TABLE_SIZE
        invariant 0 <= i <= TABLE_SIZE
        invariant t.slots[..i] == src.slots[..i]
        invariant forall h :: h in hs ==> h.refcount == old(h.refcount) + multiset(src.slots[..i])[h]
      {
        assert src.slots[..i + 1] == src.slots[..i] + [src.slots[i]];
        t.slots[i] := src.slots[i];
        if t.slots[i] != null {
          t.slots[i].refcount := t.slots[i].refcount + 1;
        }
        i := i + 1;
      }
      assert src.slots[..i] == src.slots[..];
      assert t.slots[..i] == t.slots[..];
    }

    /**
     * `filetable_add`: the handle goes into the lowest empty slot, whose
     * index is returned, and gains a reference; on a full table the result
     * is -1 and nothing changes.
     */
    method Add(fh: FileHandle) returns (fd: int)
      requires Valid()
      modifies slots, fh
      ensures fd == FirstEmpty(old(slots[..]))
      ensures fd >= 0 ==> slots[..] == old(slots[..])[fd := fh] && fh.refcount == old(fh.refcount) + 1
      ensures fd == -1 ==> slots[..] == old(slots[..]) && fh.refcount == old(fh.refcount)
      ensures fh.name == old(fh.name) && fh.flag == old(fh.flag) && fh.offset == old(fh.offset)
      ensures fh.fileobj == old(fh.fileobj)
    {
      var i := 0;
      while i < TABLE_SIZE
        invariant 0 <= i <= TABLE_SIZE
        invariant forall j :: 0 <= j < i ==> slots[j] != null
      {
        if slots[i] == null {
          slots[i] := fh;
          fh.refcount := fh.refcount + 1;
          assert FirstEmpty(old(slots[..])) == i;
          return i;
        }
        i := i + 1;
      }
      assert null !in slots[..];
      fd := -1;
    }

    /**
     * `filetable_remove`: the slot's handle loses exactly one reference (and
     * is released if that was the last), then the slot becomes empty.
     */
    method Remove(fd: int) returns (released: bool)
      requires Valid() && 0 <= fd < TABLE_SIZE && slots[fd] != null
      modifies slots, {slots[fd]}`refcount
      ensures slots[..] == old(slots[..])[fd := null]
      ensures old(slots[fd]).refcount == old(slots[fd].refcount) - 1
      ensures released == (old(slots[fd].refcount) == 1)
    {
      var h := slots[fd];
      h.refcount := h.refcount - 1;
      released := Destroy(h);
      slots[fd] := null;
    }

    /**
     * `filetable_destroy`: every occupied slot is removed, so every slot
     * ends up empty and each handle loses one reference per slot it held.
     */
    method DestroyAll()
      requires Valid()
      modifies slots, Handles(slots[..])`refcount
      ensures forall k :: 0 <= k < TABLE_SIZE ==> slots[k] == null
      ensures forall h :: h in old(Handles(slots[..])) ==>
        h.refcount == old(h.refcount) - old(Occurrences(slots[..], h))
    {
      ghost var s := slots[..];
      ghost var hs := Handles(s);
      var i := 0;
      while i < TABLE_SIZE
        invariant 0 <= i <= TABLE_SIZE
        invariant forall k :: 0 <= k < i ==> slots[k] == null
        invariant forall k :: i <= k < TABLE_SIZE ==> slots[k] == s[k]
        invariant forall h :: h in hs ==> h.refcount == old(h.refcount) - multiset(s[..i])[h]
      {
        assert s[..i + 1] == s[..i] + [s[i]];
        if slots[i] != null {
          assert slots[i] in hs;
          var _ := Remove(i);
        }
        i := i + 1;
      }
      assert s[..i] == s;
    }
  }
}
