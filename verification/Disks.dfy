/** A disk: 512-byte sectors by number. */
module Disks {
  import opened Words

  const SECTOR: nat := 512   // FS_SECTOR_SIZE

  type Sector = s: seq<u8> | |s| == 512 witness seq(512, _ => 0)
  type Disk = map<nat, Sector>

  function Read(d: Disk, lba: nat): Sector
  {
    if lba in d then d[lba] else seq(512, _ => 0)
  }

  // ----- words in a sector -----

  function Flat(ws: seq<u32>): (b: seq<u8>)
    ensures |b| == 4 * |ws|
  {
    if |ws| == 0 then [] else Store32(ws[0]) + Flat(ws[1..])
  }

  function WordAt(b: seq<u8>, i: nat): u32
    requires 4 * i + 4 <= |b|
  {
    assert Pow256(4) == 0x1_0000_0000;
    LEBound(b[4 * i..4 * i + 4]);
    LE(b[4 * i..4 * i + 4])
  }

  lemma {:induction false} WordOfFlat(ws: seq<u32>, i: nat)
    requires i < |ws|
    ensures WordAt(Flat(ws), i) == ws[i]
  {
    var b := Flat(ws);
    if i == 0 {
      assert b[0..4] == Store32(ws[0]);
    } else {
      WordOfFlat(ws[1..], i - 1);
      assert b[4 * i..4 * i + 4] == Flat(ws[1..])[4 * (i - 1)..4 * (i - 1) + 4];
    }
  }

  lemma {:induction false} FlatPrefix(ws: seq<u32>, n: nat)
    requires n <= |ws|
    ensures Flat(ws)[..4 * n] == Flat(ws[..n])
  {
    if n != 0 {
      FlatPrefix(ws[1..], n - 1);
      assert ws[..n][0] == ws[0] && ws[..n][1..] == ws[1..][..n - 1];
      assert Flat(ws)[..4 * n] == Store32(ws[0]) + Flat(ws[1..])[..4 * (n - 1)];
    }
  }
}
