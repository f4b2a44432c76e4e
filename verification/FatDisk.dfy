/** The block device below the file system: sectors that any transfer may fail to read or write. */
module FatDisk {
  import opened Bytes

  /** The sectors after storing `data` from sector `s` on. */
  function WriteSectors(sectors: seq<Sector>, s: nat, data: seq<byte>): (r: seq<Sector>)
    requires |data| % SECTOR_SIZE == 0
    ensures |r| == |sectors|
  {
    seq(|sectors|, i requires 0 <= i < |sectors| =>
      if s <= i < s + |data| / SECTOR_SIZE then data[SECTOR_SIZE * (i - s)..SECTOR_SIZE * (i - s) + SECTOR_SIZE]
      else sectors[i])
  }

  /** The sectors as seen through a one-sector write-back buffer: a dirty buffer hides the sector it belongs to. */
  function Overlay(sectors: seq<Sector>, dirty: bool, at: nat, buf: seq<byte>): (r: seq<Sector>)
    requires |buf| == 512
    ensures |r| == |sectors|
  {
    if dirty && at < |sectors| then sectors[at := buf] else sectors
  }

  lemma WriteOneSector(sectors: seq<Sector>, s: nat, data: seq<byte>)
    requires |data| == 512 && s < |sectors|
    ensures WriteSectors(sectors, s, data) == sectors[s := data]
  {
    assert data[0..512] == data;
  }

  class Disk {
    var sectors: seq<Sector>
    /** How many transfers have failed so far. */
    ghost var faults: nat

    constructor (sectors: seq<Sector>)
      ensures this.sectors == sectors && faults == 0
    {
      this.sectors := sectors;
      faults := 0;
    }

    /** `disk_read`: reads `count` sectors into `buf` from index `at` on; a failed read leaves junk there. */
    method Read(s: nat, count: nat, buf: array<byte>, at: nat) returns (ok: bool)
      requires at + SECTOR_SIZE * count <= buf.Length
      modifies buf, this`faults
      ensures forall k :: 0 <= k < at || at + SECTOR_SIZE * count <= k < buf.Length ==> buf[k] == old(buf[k])
      ensures ok ==> s + count <= |sectors| && faults == old(faults)
      ensures ok ==> forall k :: 0 <= k < SECTOR_SIZE * count ==>
                buf[at + k] == sectors[s + k / SECTOR_SIZE][k % SECTOR_SIZE]
      ensures !ok ==> faults > old(faults)
    {
      ok := *;
      if s + count > |sectors| {
        ok := false;
      }
      if ok {
        forall k | 0 <= k < SECTOR_SIZE * count {
          buf[at + k] := sectors[s + k / SECTOR_SIZE][k % SECTOR_SIZE];
        }
      } else {
        faults := faults + 1;
        var junk: seq<byte> := *;
        if |junk| == SECTOR_SIZE * count {
          forall k | 0 <= k < SECTOR_SIZE * count {
            buf[at + k] := junk[k];
          }
        }
      }
    }

    /** `disk_write`: stores `data` from sector `s` on; a failed write leaves junk in the addressed sectors. */
    method Write(s: nat, data: seq<byte>) returns (ok: bool)
      requires |data| % SECTOR_SIZE == 0
      modifies this
      ensures |sectors| == |old(sectors)|
      ensures ok ==> s + |data| / SECTOR_SIZE <= |sectors| && faults == old(faults)
      ensures ok ==> sectors == WriteSectors(old(sectors), s, data)
      ensures !ok ==> faults > old(faults)
      ensures !ok ==> forall i :: 0 <= i < |sectors| && !(s <= i < s + |data| / SECTOR_SIZE) ==>
                sectors[i] == old(sectors[i])
    {
      ok := *;
      if s + |data| / SECTOR_SIZE > |sectors| {
        ok := false;
      }
      if ok {
        sectors := WriteSectors(sectors, s, data);
      } else {
        faults := faults + 1;
        var junk: seq<byte> := *;
        if |junk| == |data| {
          sectors := WriteSectors(sectors, s, junk);
        }
      }
    }
  }
}
