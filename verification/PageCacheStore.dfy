/** The page cache as the program keeps it: an array of slots updated in place over a flash device. */
module PageCacheStore {
  import opened Bytes
  import opened PageCache

  /** The flash translation layer: reads return what was last written, and any call may fail. */
  class Device {
    var ftl: Ftl

    constructor (f: Ftl)
      ensures ftl == f
    {
      ftl := f;
    }

    method ReadLogical(at: u32) returns (page: Option<seq<byte>>)
      modifies this
      ensures (ftl, page) == FtlRead(old(ftl), at)
    {
      var r := FtlRead(ftl, at);
      ftl, page := r.0, r.1;
    }

    method WriteLogical(at: u32, data: seq<byte>) returns (ok: bool)
      requires |data| == PAGE_SIZE
      modifies this
      ensures (ftl, ok) == FtlWrite(old(ftl), at, data)
    {
      var r := FtlWrite(ftl, at, data);
      ftl, ok := r.0, r.1;
    }
  }

  class Store {
    const device: Device
    const slots: array<Slot>

    ghost predicate Valid()
      reads this, slots, device
    {
      slots.Length == SLOTS && Shaped(Model())
    }

    ghost function Model(): Cache
      reads this, slots, device
    {
      Cache(slots[..], device.ftl)
    }

    constructor (d: Device)
      ensures Valid() && device == d && fresh(slots)
      ensures Model() == NewCache(d.ftl)
    {
      device := d;
      slots := new Slot[SLOTS](_ => EMPTY);
      new;
      assert slots[..] == [EMPTY, EMPTY, EMPTY, EMPTY];
    }

    method FindCached(lpn: u32) returns (r: int)
      requires Valid()
      ensures r == Cached(slots[..], lpn, 0)
    {
      for i := 0 to SLOTS
        invariant Cached(slots[..], lpn, 0) == Cached(slots[..], lpn, i)
      {
        if slots[i].valid && slots[i].lpn == lpn {
          return i;
        }
      }
      return -1;
    }

    method FindEmpty() returns (r: int)
      requires Valid()
      ensures r == Empty(slots[..], 0)
    {
      for i := 0 to SLOTS
        invariant Empty(slots[..], 0) == Empty(slots[..], i)
      {
        if !slots[i].valid {
          return i;
        }
      }
      return -1;
    }

    method FindVictim() returns (r: nat)
      requires Valid()
      ensures r == Victim(slots[..], 0)
    {
      for i := 0 to SLOTS
        invariant Victim(slots[..], 0) == Victim(slots[..], i)
      {
        if slots[i].valid && !slots[i].dirty {
          return i;
        }
      }
      return 0;
    }

    /** A slot for a new page, after writing back a dirty page that has to go; -1 when that fails. */
    method TakeSlot() returns (r: int)
      requires Valid()
      modifies device
      ensures Valid() && slots[..] == old(slots[..]) && (Model(), r) == MakeRoom(old(Model()))
    {
      r := FindEmpty();
      if r >= 0 {
        return;
      }
      r := FindVictim();
      if slots[r].dirty {
        var ok := device.WriteLogical(slots[r].lpn, slots[r].data);
        if !ok {
          return -1;
        }
      }
    }

    method ReadPage(lpn: u32) returns (page: Option<seq<byte>>)
      requires Valid()
      modifies slots, device
      ensures Valid() && (Model(), page) == Read(old(Model()), lpn)
    {
      var hit := FindCached(lpn);
      if hit >= 0 {
        return Some(slots[hit].data);
      }
      page := device.ReadLogical(lpn);
      if page.None? {
        return;
      }
      var slot := TakeSlot();
      if slot < 0 {
        return None;
      }
      slots[slot] := Slot(lpn, page.value, false, true);
    }

    method WritePage(lpn: u32, data: seq<byte>) returns (ok: bool)
      requires Valid() && |data| == PAGE_SIZE
      modifies slots, device
      ensures Valid() && (Model(), ok) == Write(old(Model()), lpn, data)
    {
      var slot := FindCached(lpn);
      if slot < 0 {
        slot := TakeSlot();
        if slot < 0 {
          return false;
        }
        slots[slot] := slots[slot].(lpn := lpn, valid := true);
      }
      slots[slot] := slots[slot].(data := data, dirty := true);
      assert slots[..] == old(slots[..])[slot := Slot(lpn, data, true, true)];
      return true;
    }

    method InvalidatePage(lpn: u32)
      requires Valid()
      modifies slots
      ensures Valid() && Model() == Invalidate(old(Model()), lpn)
    {
      var slot := FindCached(lpn);
      if slot >= 0 {
        slots[slot] := EMPTY;
      }
    }

    method FlushAll() returns (ok: bool)
      requires Valid()
      modifies slots, device
      ensures Valid() && (Model(), ok) == Flush(old(Model()), 0)
    {
      for i := 0 to SLOTS
        invariant Valid() && Flush(old(Model()), 0) == Flush(Model(), i)
      {
        if slots[i].valid && slots[i].dirty {
          ghost var before := Model();
          ok := device.WriteLogical(slots[i].lpn, slots[i].data);
          if !ok {
            return;
          }
          slots[i] := slots[i].(dirty := false);
          assert slots[..] == before.slots[i := before.slots[i].(dirty := false)];
        }
      }
      return true;
    }
  }
}
