/** The reference table as the program keeps it: two arrays and two counters updated in place. */
module GlobalRefStore {
  import opened Bytes
  import opened GlobalRefs
  import opened GlobalRefImage
  import Crc32

  class RefTable {
    const base: array<bv32>
    var ext: array?<bv32>
    var capacity: nat
    var count: nat

    ghost predicate Valid()
      reads this, base, ext
    {
      base.Length == BASE_REFS && (ext != null ==> ext.Length == MAX_REFS - BASE_REFS && ext != base)
    }

    ghost function Model(): (t: Table)
      requires Valid()
      reads this, base, ext
      ensures Sized(t)
    {
      Table(base[..], if ext == null then None else Some(ext[..]), capacity, count)
    }

    constructor ()
      ensures Valid() && Model() == Initial() && fresh(base) && ext == null
    {
      base := new bv32[BASE_REFS](_ => INVALID_ENTRY);
      ext, capacity, count := null, BASE_REFS, 0;
      new;
      assert base[..] == Blank(BASE_REFS);
    }

    method FindFreeSlot() returns (r: int)
      requires Valid()
      ensures r == FirstFree(Model(), 0)
    {
      for i := 0 to capacity
        invariant FirstFree(Model(), 0) == FirstFree(Model(), i)
      {
        hide Live;
        if i < BASE_REFS {
          if !Live(base[i]) {
            return i;
          }
        } else {
          if ext == null || i >= MAX_REFS {
            return -1;
          }
          if !Live(ext[i - BASE_REFS]) {
            return i;
          }
        }
      }
      return -1;
    }

    method Put(i: nat, e: bv32)
      requires Valid() && Present(Model(), i)
      modifies base, ext
      ensures Valid() && Model() == SetEntry(old(Model()), i, e)
    {
      if i < BASE_REFS {
        base[i] := e;
      } else {
        ext[i - BASE_REFS] := e;
      }
    }

    /** Grows the capacity by one step, allocating the extension the first time; `saved` is the outcome of the save. */
    method Grow(saved: bool) returns (ok: bool)
      requires Valid() && Operable(Model())
      modifies this`ext, this`capacity
      ensures Valid() && (Model(), ok) == Expand(old(Model()), saved)
      ensures ext == old(ext) || fresh(ext)
    {
      if capacity >= MAX_REFS {
        return false;
      }
      var newCapacity := capacity + GROWTH_STEP;
      if newCapacity > MAX_REFS {
        newCapacity := MAX_REFS;
      }
      if ext == null {
        ext := new bv32[MAX_REFS - BASE_REFS](_ => INVALID_ENTRY);
        assert ext[..] == Blank(MAX_REFS - BASE_REFS);
      }
      capacity := newCapacity;
      return saved;
    }

    /**
     * A new reference; a full table is grown first. `fault` is a null pointer followed to a slot of a missing
     * extension, with the count already raised.
     */
    method CreateRef(address: bv32, owner: byte, saved: bool) returns (r: Option<int>, fault: bool)
      requires Valid() && Operable(Model())
      modifies this`ext, this`capacity, this`count, base, ext
      ensures Valid() && fault == FollowsNull(old(Model()))
      ensures fault ==> Model() == old(Model()).(count := old(count) + 1) && r == None
      ensures !fault ==> (Model(), r) == Create(old(Model()), address, owner, saved)
    {
      hide Live;
      hide Pack;
      hide SetEntry;
      hide FirstFree;
      var index := FindFreeSlot();
      if index == -1 {
        if count >= capacity {
          var ok := Grow(saved);
          if !ok {
            return None, false;
          }
          index := FindFreeSlot();
        }
        if index == -1 {
          index := count;
          if index >= BASE_REFS && ext == null {
            count := count + 1;
            return None, true;
          }
          Put(index, Pack(address, owner));
          count := count + 1;
          return Some(index), false;
        }
      }
      Put(index, Pack(address, owner));
      return Some(index), false;
    }

    method ResolveAddress(compact: int) returns (r: Option<bv32>)
      requires Valid() && 0 <= compact < 0x1_0000
      ensures r == Resolve(Model(), compact)
    {
      if compact < 0x8000 {
        return Some(compact as bv32);
      }
      var i := compact - 0x8000;
      if i >= count {
        return None;
      }
      var e;
      if i < BASE_REFS {
        e := base[i];
      } else {
        if ext == null || i >= MAX_REFS {
          return None;
        }
        e := ext[i - BASE_REFS];
      }
      hide Address;
      hide Owner;
      if !Live(e) {
        return None;
      }
      return Some(Address(e));
    }

    /** Invalidates every entry of a module; the result is what is then written to flash, if there was such an entry. */
    method DeleteModuleRefs(owner: byte) returns (image: Option<seq<byte>>)
      requires Valid() && Operable(Model())
      modifies base, ext
      ensures Valid() && Model() == DeleteModule(old(Model()), owner)
      ensures image == if Model() != old(Model()) then Some(Save(Model())) else None
    {
      hide Save;
      hide Recycled;
      var recycled := RecycleArray(base, BASE_REFS, owner);
      if ext != null {
        var more := RecycleArray(ext, capacity - BASE_REFS, owner);
        recycled := recycled + more;
      }
      hide DeleteModule;
      if recycled > 0 {
        var saved := SaveImage();
        return Some(saved);
      }
      return None;
    }

    /** The bytes written to flash. */
    method SaveImage() returns (image: seq<byte>)
      requires Valid() && Saveable(Model())
      ensures image == Save(Model())
    {
      hide Crc32.Crc;
      hide U16Le;
      image := MAGIC + U16Le(count) + U16Le(capacity);
      var baseSize := if count < BASE_REFS then count else BASE_REFS;
      var entries := base[..baseSize];
      if count > BASE_REFS {
        entries := entries + ext[..count - BASE_REFS];
      }
      assert entries == Entries(Model(), count);
      image := image + EncodeEntries(entries);
      var crc := Crc32.Calculate(image);
      image := image + Crc32.WordLe(crc);
    }

    /** Takes the table over from flash that starts with these bytes; a bad image changes nothing. */
    method LoadImage(image: seq<byte>) returns (ok: bool)
      requires Valid()
      modifies this, base, ext
      ensures Valid() && (Model(), ok) == Load(old(Model()), image)
    {
      hide Crc32.Crc;
      hide DecodeEntries;
      hide ReadU16Le;
      if |image| < HEADER || image[..4] != MAGIC {
        return false;
      }
      var n := ReadU16Le(image[4..]);
      if n > MAX_REFS || |image| < Size(n) {
        return false;
      }
      var sealed := HEADER + 4 * n;
      var crc := Crc32.Calculate(image[..sealed]);
      if ReadWord(image[sealed..sealed + 4]) != crc {
        return false;
      }
      count, capacity := n, ReadU16Le(image[6..]);
      var es := DecodeEntries(image[HEADER..sealed], n);
      ghost var before := old(Model());
      FillTables(es, n);
      assert Model() == Restore(before, es, capacity);
      return true;
    }

    /** Writes the first entries, across the split between the base and the extension. */
    method FillTables(es: seq<bv32>, n: nat)
      requires Valid() && |es| == n <= MAX_REFS
      modifies this`ext, base, ext
      ensures Valid() && (ext == old(ext) || fresh(ext))
      ensures var c := old(Model()); Model() == Restore(c, es, c.capacity).(count := c.count)
    {
      CopyInto(base, es[..if n < BASE_REFS then n else BASE_REFS]);
      if n > BASE_REFS {
        if ext == null {
          ext := new bv32[MAX_REFS - BASE_REFS](_ => INVALID_ENTRY);
          assert ext[..] == Blank(MAX_REFS - BASE_REFS);
        }
        CopyInto(ext, es[BASE_REFS..]);
      } else {
        assert es[..n] == es;
      }
    }
  }

  method RecycleArray(a: array<bv32>, n: nat, owner: byte) returns (count: nat)
    requires n <= a.Length
    modifies a
    ensures a[..] == Recycled(old(a[..]), owner, n) && (count > 0 <==> a[..] != old(a[..]))
  {
    count := 0;
    for i := 0 to n
      invariant forall k :: 0 <= k < i ==> a[k] == Recycled(old(a[..]), owner, n)[k]
      invariant forall k :: i <= k < a.Length ==> a[k] == old(a[k])
      invariant count > 0 <==> exists k :: 0 <= k < i && a[k] != old(a[k])
    {
      InvalidIsDead();
      hide Live;
      hide Owner;
      if Live(a[i]) && Owner(a[i]) == owner {
        a[i] := INVALID_ENTRY;
        count := count + 1;
      }
    }
    assert a[..] == Recycled(old(a[..]), owner, n);
    assert count > 0 <==> exists k :: 0 <= k < a.Length && a[..][k] != old(a[..])[k];
  }

  method CopyInto(a: array<bv32>, s: seq<bv32>)
    requires |s| <= a.Length
    modifies a
    ensures a[..] == s + old(a[..])[|s|..]
  {
    for i := 0 to |s|
      invariant forall k :: 0 <= k < i ==> a[k] == s[k]
      invariant forall k :: i <= k < a.Length ==> a[k] == old(a[k])
    {
      a[i] := s[i];
    }
  }
}
