/** The buffer caches of kernel/fs/fscache/fscache.c and the FAT buffer of kernel/fs/fat/fat.c
    as the code keeps them: an array of buffers, a clock hand, and the device behind. */
module BlockCaches {
  import opened SectorCache

  class BlockCache {
    const slots: array<Slot>
    var head: nat
    var dev: map<nat, Data>
    const mirror: nat // distance to the second copy of each block, 0 if there is none

    ghost predicate Valid()
      reads this, slots
    {
      head < slots.Length
    }

    ghost function State(): Cache
      reads this, slots
    {
      Cache(slots[..], head, dev, mirror)
    }

    /** init_fat_buf, init_dir_buf and the buffer initialisation of fs_open */
    constructor (size: nat, device: map<nat, Data>, mirror: nat)
      requires size > 0
      ensures Valid() && fresh(slots) && dev == device && this.mirror == mirror
      ensures slots.Length == size && forall i :: 0 <= i < size ==> slots[i] == Slot([], NO_SECTOR, false, false)
    {
      slots := new Slot[size](_ => Slot([], NO_SECTOR, false, false));
      head := 0;
      dev := device;
      this.mirror := mirror;
    }

    method Advance()
      requires Valid()
      modifies this`head
      ensures head == Next(old(head), slots.Length) < slots.Length
    {
      head := head + 1;
      if head >= slots.Length {
        head := 0;
      }
    }

    /** fs_victim_512 */
    method PickVictim() returns (index: nat)
      requires Valid()
      modifies this`head, slots
      ensures Valid() && index < slots.Length
      ensures var v := ChooseVictim(old(slots[..]), old(head));
        slots[..] == v.slots && head == v.head && index == v.index
    {
      var size := slots.Length;
      var i := 0;
      while i < size
        invariant Valid() && i <= size
        invariant Sweep1(slots[..], head, size - i) == Sweep1(old(slots[..]), old(head), size)
      {
        if !slots[head].referenced {
          if !slots[head].dirty {
            index := head;
            Advance();
            return;
          }
        } else {
          slots[head] := slots[head].(referenced := false);
        }
        Advance();
        i := i + 1;
      }
      ghost var swept, hand := slots[..], head;
      assert Sweep1(old(slots[..]), old(head), size) == (swept, hand, false);
      i := 0;
      while i < size
        invariant Valid() && i <= size && slots[..] == swept
        invariant Sweep2(swept, head, size - i) == Sweep2(swept, hand, size)
      {
        if !slots[head].dirty {
          index := head;
          Advance();
          return;
        }
        Advance();
        i := i + 1;
      }
      index := head;
      Advance();
    }

    /** fs_write_512, fs_write_4k, write_fat_sector */
    method WriteSlot(index: nat)
      requires Valid() && index < slots.Length
      modifies this`dev, slots
      ensures Valid() && State() == WriteBack(old(State()), index)
    {
      var f := slots[index];
      if f.cur != NO_SECTOR && f.dirty {
        dev := dev[f.cur := f.data];
        dev := dev[f.cur + mirror := f.data];
        slots[index] := f.(dirty := false);
      }
    }

    /** fs_read_512, fs_read_4k and read_fat_sector without a handle: the slot that now holds
        block a. */
    method ReadBlock(a: nat) returns (index: nat)
      requires Valid() && a in dev
      modifies this`head, this`dev, slots
      ensures Valid() && index < slots.Length
      ensures (State(), index) == Read(old(State()), a)
    {
      index := 0;
      while index < slots.Length && slots[index].cur != a
        invariant index <= slots.Length
        invariant forall j :: 0 <= j < index ==> slots[j].cur != a
      {
        index := index + 1;
      }
      FindIs(slots[..], a, index);
      if index == slots.Length {
        EvictKeys(State());
        index := PickVictim();
        WriteSlot(index);
        slots[index] := Slot(dev[a], a, true, false);
      } else {
        slots[index] := slots[index].(referenced := true);
      }
    }

    /** fs_clr_512, fs_clr_4k */
    method ClearBlock(a: nat, zeros: Data)
      requires Valid()
      modifies this`head, this`dev, slots
      ensures Valid() && State() == Clear(old(State()), a, zeros)
    {
      var index := PickVictim();
      WriteSlot(index);
      slots[index] := Slot(zeros, a, false, false);
    }

    /** Setting a buffer's state to 3 and its bytes to data. */
    method PutSlot(index: nat, data: Data)
      requires Valid() && index < slots.Length
      modifies slots
      ensures Valid() && State() == Put(old(State()), index, data)
    {
      slots[index] := Slot(data, slots[index].cur, true, true);
    }

    /** The write-back loops of fs_fflush and fs_close. */
    method Flush()
      requires Valid()
      modifies this`dev, slots
      ensures Valid() && State() == FlushFrom(old(State()), 0)
    {
      var i := 0;
      while i < slots.Length
        invariant Valid() && i <= slots.Length
        invariant FlushFrom(State(), i) == FlushFrom(old(State()), 0)
      {
        WriteSlot(i);
        i := i + 1;
      }
    }
  }

  lemma {:induction false} FindIs(s: seq<Slot>, a: nat, i: nat)
    requires i <= |s| && (i < |s| ==> s[i].cur == a) && forall j :: 0 <= j < i ==> s[j].cur != a
    ensures Find(s, a) == i
  {
    if i > 0 { FindIs(s[1..], a, i - 1); }
  }
}
