/**
 pintos/src/filesys/bcache.c, called by one thread at a time: a write-back cache of sectors.
 */
module BufferCache {
  import opened Wrappers
  import opened Bytes

  const INT64_MAX := 0x7FFF_FFFF_FFFF_FFFF

  datatype Entry = Entry(inUse: bool, lastUse: int, sector: nat, data: Sector)

  // ---- what the cache means ----

  /** At most one entry in use for each sector, and all of them sectors of the device. */
  ghost predicate Coherent(entries: seq<Entry>, sectors: nat) {
    && (forall i | 0 <= i < |entries| && entries[i].inUse ::
                  entries[i].sector < sectors && entries[i].lastUse < INT64_MAX)
    && (forall i: nat, j: nat, s: nat | Holds(entries, s, i) && Holds(entries, s, j) :: i == j)
  }

  ghost predicate Holds(entries: seq<Entry>, s: nat, i: nat) {
    i < |entries| && entries[i].inUse && entries[i].sector == s
  }

  /** The sector as a reader must see it: the cached copy if there is one, else the device's. */
  ghost function SectorView(entries: seq<Entry>, device: seq<Sector>, s: nat): Sector
    requires s < |device|
  {
    if exists i: nat :: Holds(entries, s, i) then
      var i: nat :| Holds(entries, s, i); entries[i].data
    else device[s]
  }

  ghost function View(entries: seq<Entry>, device: seq<Sector>): (v: seq<Sector>)
    ensures |v| == |device|
    ensures forall s :: 0 <= s < |device| ==> v[s] == SectorView(entries, device, s)
  {
    seq(|device|, s requires 0 <= s < |device| => SectorView(entries, device, s))
  }

  lemma ViewAt(entries: seq<Entry>, device: seq<Sector>, s: nat)
    requires Coherent(entries, |device|) && s < |device|
    ensures forall i: nat | Holds(entries, s, i) :: View(entries, device)[s] == entries[i].data
    ensures (forall i: nat :: !Holds(entries, s, i)) ==> View(entries, device)[s] == device[s]
  {
  }

  // ---- bcache_entry_occupy ----

  /** Occupying an entry writes back what it held and reads the new sector. */
  lemma OccupyKeepsView(entries: seq<Entry>, device: seq<Sector>, i: nat, s: nat, now: int)
    requires Coherent(entries, |device|) && i < |entries| && s < |device| && now < INT64_MAX
    requires forall j: nat :: !Holds(entries, s, j)
    ensures var device' := if entries[i].inUse then device[entries[i].sector := entries[i].data] else device;
            var entries' := entries[i := Entry(true, now, s, device'[s])];
            Coherent(entries', |device'|) && View(entries', device') == View(entries, device)
  {
    var device' := if entries[i].inUse then device[entries[i].sector := entries[i].data] else device;
    var entries' := entries[i := Entry(true, now, s, device'[s])];
    assert forall j: nat, t: nat :: Holds(entries', t, j) <==> if j == i then t == s else Holds(entries, t, j);
    assert entries[i].inUse ==> Holds(entries, entries[i].sector, i);
    forall t: nat | t < |device| ensures SectorView(entries', device', t) == SectorView(entries, device, t) {
      ViewAt(entries, device, t);
      ViewAt(entries', device', t);
      if t == s {
        assert Holds(entries', s, i);
      } else if j: nat :| Holds(entries, t, j) {
        if j == i {
          assert forall k: nat :: !Holds(entries', t, k);
        } else {
          assert Holds(entries', t, j);
        }
      } else {
        assert forall k: nat :: Holds(entries', t, k) ==> Holds(entries, t, k);
        assert entries[i].inUse ==> entries[i].sector != t;
      }
    }
  }

  lemma TouchKeepsView(entries: seq<Entry>, device: seq<Sector>, i: nat, now: int)
    requires Coherent(entries, |device|) && i < |entries| && entries[i].inUse && now < INT64_MAX
    ensures var entries' := entries[i := entries[i].(lastUse := now)];
            Coherent(entries', |device|) && View(entries', device) == View(entries, device)
  {
    var entries' := entries[i := entries[i].(lastUse := now)];
    assert forall j: nat, t: nat :: Holds(entries', t, j) <==> Holds(entries, t, j);
    forall t: nat | t < |device| ensures SectorView(entries', device, t) == SectorView(entries, device, t) {
      ViewAt(entries, device, t);
      ViewAt(entries', device, t);
    }
  }

  lemma PatchView(entries: seq<Entry>, device: seq<Sector>, i: nat, data: Sector)
    requires Coherent(entries, |device|) && i < |entries| && entries[i].inUse
    ensures var entries' := entries[i := entries[i].(data := data)];
            Coherent(entries', |device|) && View(entries', device) == View(entries, device)[entries[i].sector := data]
  {
    var entries' := entries[i := entries[i].(data := data)];
    assert forall j: nat, t: nat :: Holds(entries', t, j) <==> Holds(entries, t, j);
    assert Holds(entries', entries[i].sector, i);
    forall t: nat | t < |device|
      ensures View(entries', device)[t] == View(entries, device)[entries[i].sector := data][t]
    {
      ViewAt(entries, device, t);
      ViewAt(entries', device, t);
    }
  }

  /** bcache_entry_release of one entry. */
  lemma ReleaseKeepsView(entries: seq<Entry>, device: seq<Sector>, i: nat)
    requires Coherent(entries, |device|) && i < |entries| && entries[i].inUse
    ensures var entries' := entries[i := entries[i].(inUse := false)];
            var device' := device[entries[i].sector := entries[i].data];
            Coherent(entries', |device'|) && View(entries', device') == View(entries, device)
  {
    var entries' := entries[i := entries[i].(inUse := false)];
    var device' := device[entries[i].sector := entries[i].data];
    assert forall j: nat, t: nat :: Holds(entries', t, j) <==> Holds(entries, t, j) && j != i;
    assert Holds(entries, entries[i].sector, i);
    forall t: nat | t < |device| ensures SectorView(entries', device', t) == SectorView(entries, device, t) {
      ViewAt(entries, device, t);
      ViewAt(entries', device', t);
      if t == entries[i].sector {
        assert forall j: nat :: !Holds(entries', t, j);
      } else if j: nat :| Holds(entries, t, j) {
        assert Holds(entries', t, j);
      }
    }
  }

  lemma UnusedViewIsDevice(entries: seq<Entry>, device: seq<Sector>)
    requires forall i :: 0 <= i < |entries| ==> !entries[i].inUse
    ensures View(entries, device) == device
  {
  }

  /** Where a lookup ends: at the entry of the sector, at the last free one, or at the least
      recently used one, the first of those that are equally old. */
  datatype Place = Hit(i: nat) | Unused(i: nat) | Oldest(i: nat)

  ghost predicate Found(entries: seq<Entry>, s: nat, p: Place) {
    match p
    case Hit(i) => Holds(entries, s, i)
    case Unused(i) =>
      && i < |entries| && !entries[i].inUse && (forall j: nat :: !Holds(entries, s, j))
      && (forall j :: i < j < |entries| ==> entries[j].inUse)
    case Oldest(i) =>
      && i < |entries| && (forall j: nat :: !Holds(entries, s, j))
      && (forall j :: 0 <= j < |entries| ==> entries[j].inUse && entries[i].lastUse <= entries[j].lastUse)
      && (forall j :: 0 <= j < i ==> entries[i].lastUse < entries[j].lastUse)
  }

  lemma FoundUnique(entries: seq<Entry>, s: nat, p: Place, q: Place, sectors: nat)
    requires Coherent(entries, sectors) && Found(entries, s, p) && Found(entries, s, q)
    ensures p == q
  {
    match (p, q)
    case (Hit(i), Hit(j)) => assert Holds(entries, s, i) && Holds(entries, s, j);
    case (Oldest(i), Oldest(j)) => assert entries[i].lastUse <= entries[j].lastUse <= entries[i].lastUse;
    case _ =>
  }

  class BufferCache {
    const device: array<Sector>
    const entries: array<Entry>

    ghost predicate Valid()
      reads entries
    {
      entries.Length > 0 && Coherent(entries[..], device.Length)
    }

    /** The disk as the file system sees it. */
    ghost function Current(): (v: seq<Sector>)
      reads entries, device
      ensures |v| == device.Length
    {
      View(entries[..], device[..])
    }

    constructor (device: array<Sector>, size: nat)
      requires size > 0
      ensures Valid() && this.device == device && fresh(entries) && Current() == device[..]
    {
      this.device := device;
      entries := new Entry[size](i => Entry(false, 0, 0, ZERO_SECTOR));
      new;
      UnusedViewIsDevice(entries[..], device[..]);
    }

    /** timer_ticks: any value that the clock may show; it never goes back. */
    method TimerTicks() returns (now: int)
      requires Valid()
      ensures now < INT64_MAX && forall j | 0 <= j < entries.Length && entries[j].inUse :: entries[j].lastUse <= now
    {
      assert forall j | 0 <= j < entries.Length && entries[j].inUse :: entries[j].lastUse <= INT64_MAX - 1;
      now :| now < INT64_MAX && forall j | 0 <= j < entries.Length && entries[j].inUse :: entries[j].lastUse <= now;
    }

    /** No entry was used after entry i. */
    ghost predicate Newest(i: nat)
      reads entries
    {
      && i < entries.Length && entries[i].inUse
      && forall j | 0 <= j < entries.Length && entries[j].inUse :: entries[j].lastUse <= entries[i].lastUse
    }

    /** Sector s is cached, and no other sector was used after it. */
    ghost predicate JustUsed(s: nat)
      reads entries
    {
      exists i | 0 <= i < entries.Length && entries[i].sector == s :: Newest(i)
    }

    ghost predicate Cached(s: nat)
      reads entries
    {
      exists i: nat :: Holds(entries[..], s, i)
    }

    /** The scan that reads and writes share. */
    method Lookup(s: nat) returns (p: Place)
      requires Valid()
      ensures Found(entries[..], s, p)
    {
      var minLastUse, lru, unused := INT64_MAX, 0, -1;
      var i := 0;
      while i < entries.Length
        invariant i <= entries.Length
        invariant forall j: nat | j < i :: !Holds(entries[..], s, j)
        invariant -1 <= unused < i && (unused >= 0 ==> !entries[unused].inUse)
        invariant forall j :: unused < j < i ==> entries[j].inUse
        invariant forall j :: 0 <= j < i && entries[j].inUse ==> minLastUse <= entries[j].lastUse
        invariant minLastUse < INT64_MAX ==> lru < i && entries[lru].inUse && entries[lru].lastUse == minLastUse
        invariant forall j :: 0 <= j < lru && j < i && entries[j].inUse && minLastUse < INT64_MAX ==>
                  minLastUse < entries[j].lastUse
        invariant unused == -1 && i > 0 ==> minLastUse < INT64_MAX
      {
        if entries[i].inUse && entries[i].sector == s {
          return Hit(i);
        }
        if entries[i].inUse && entries[i].lastUse < minLastUse {
          minLastUse, lru := entries[i].lastUse, i;
        } else if !entries[i].inUse {
          unused := i;
        }
        i := i + 1;
      }
      p := if unused == -1 then Oldest(lru) else Unused(unused);
    }

    /** bcache_entry_occupy. */
    method Occupy(i: nat, s: nat)
      requires Valid() && i < entries.Length && s < device.Length && forall j: nat :: !Holds(entries[..], s, j)
      modifies entries, device
      ensures Valid() && Current() == old(Current()) && Holds(entries[..], s, i)
      ensures entries[i].data == Current()[s] && Newest(i)
      // An entry in use is written back; no other sector of the device changes.
      ensures device[..] ==
              if old(entries[i].inUse) then old(device[..])[old(entries[i].sector) := old(entries[i].data)]
              else old(device[..])
      ensures forall j | 0 <= j < entries.Length && j != i :: entries[j] == old(entries[j])
    {
      ghost var was, disk := entries[..], device[..];
      if entries[i].inUse {
        device[entries[i].sector] := entries[i].data;
      }
      var now := TimerTicks();
      OccupyKeepsView(was, disk, i, s, now);
      hide Coherent, Holds;
      entries[i] := Entry(true, now, s, device[s]);
      assert entries[..] == was[i := Entry(true, now, s, device[s])];
      Occupied(i, s);
    }

    lemma Occupied(i: nat, s: nat)
      requires Valid() && i < entries.Length && entries[i].inUse && entries[i].sector == s && s < device.Length
      ensures Holds(entries[..], s, i) && entries[i].data == Current()[s]
    {
      assert Holds(entries[..], s, i);
      ViewAt(entries[..], device[..], s);
    }

    /** Makes sure that the sector is cached, and says where. */
    method Bring(s: nat) returns (i: nat)
      requires Valid() && s < device.Length
      modifies entries, device
      ensures Valid() && Current() == old(Current()) && i < entries.Length
      ensures exists p :: Found(old(entries[..]), s, p) && p.i == i
      ensures old(Cached(s)) ==> device[..] == old(device[..])
      ensures forall j | 0 <= j < entries.Length && j != i :: entries[j] == old(entries[j])
      ensures Newest(i) && entries[i].sector == s && entries[i].data == Current()[s]
    {
      var p := Lookup(s);
      i := p.i;
      if p.Hit? {
        var now := TimerTicks();
        TouchKeepsView(entries[..], device[..], i, now);
        ghost var was := entries[..];
        entries[i] := entries[i].(lastUse := now);
        assert entries[..] == was[i := was[i].(lastUse := now)];
        Occupied(i, s);
      } else {
        Occupy(i, s);
      }
    }

    /** bcache_read; the device is not touched when the sector is cached. */
    method Read(s: nat) returns (out: Sector)
      requires Valid() && s < device.Length
      modifies entries, device
      ensures Valid() && Current() == old(Current()) && JustUsed(s)
      ensures out == Current()[s]
      ensures old(Cached(s)) ==> device[..] == old(device[..])
    {
      var i := Bring(s);
      out := entries[i].data;
    }

    /** bcache_write_at; the device is written later. */
    method WriteAt(s: nat, data: seq<Byte>, offset: nat)
      requires Valid() && s < device.Length && offset + |data| <= SECTOR_SIZE
      modifies entries, device
      ensures Valid() && JustUsed(s)
      ensures Current() == old(Current())[s := Patch(old(Current())[s], offset, data)]
      ensures old(Cached(s)) ==> device[..] == old(device[..])
    {
      var i := Bring(s);
      var patched := Patch(entries[i].data, offset, data);
      PatchView(entries[..], device[..], i, patched);
      ghost var was := entries[..];
      hide Coherent;
      entries[i] := entries[i].(data := patched);
      assert entries[..] == was[i := was[i].(data := patched)];
    }

    /** bcache_sync: afterwards the device itself is what the file system sees. */
    method Sync()
      requires Valid()
      modifies entries, device
      ensures Valid() && Current() == old(Current())
      ensures device[..] == Current()
    {
      var i := 0;
      while i < entries.Length
        invariant i <= entries.Length && Valid() && Current() == old(Current())
        invariant forall j :: 0 <= j < i ==> !entries[j].inUse
      {
        if entries[i].inUse {
          ReleaseKeepsView(entries[..], device[..], i);
          ghost var was, disk := entries[..], device[..];
          entries[i] := entries[i].(inUse := false);
          device[entries[i].sector] := entries[i].data;
          assert entries[..] == was[i := was[i].(inUse := false)];
          assert device[..] == disk[was[i].sector := was[i].data];
        }
        i := i + 1;
      }
      UnusedViewIsDevice(entries[..], device[..]);
    }
  }
}
