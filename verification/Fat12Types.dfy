/** Integer widths, sizes and the disk geometry shared by the FAT12 modules. */
module Fat12Types {
  type Byte = x: int | 0 <= x < 0x100
  type Entry = x: int | 0 <= x < 0x1_0000

  const SECTOR_SIZE: nat := 512
  const TABLE_SIZE: nat := 3072
  const FAT_SECTORS: nat := 9
  const FAT_BYTES: nat := SECTOR_SIZE * FAT_SECTORS
  const LAST_SECTOR: Entry := 0xFFF

  type Sector = s: seq<Byte> | |s| == SECTOR_SIZE witness seq(SECTOR_SIZE, _ => 0)

  /** The logical table: one 16-bit entry per cluster, of which 12 bits are stored. */
  type Table = t: seq<Entry> | |t| == TABLE_SIZE witness seq(TABLE_SIZE, _ => 0)

  function ZeroSector(): Sector {
    seq(SECTOR_SIZE, _ => 0)
  }

  datatype Option<+T> = None | Some(value: T)

  /** The boot-sector fields that decide where things are on the disk. */
  datatype Geometry = Geometry(fatsCount: nat, sectorsPerFat: nat, rootEntries: nat) {
    /** The table buffers hold nine sectors, and the scan for a free cluster must not reach clusters 0 and 1. */
    predicate Valid() {
      fatsCount >= 1 && sectorsPerFat == FAT_SECTORS && RootSectors() >= 2
    }

    function RootSectors(): nat { rootEntries * 32 / SECTOR_SIZE }

    function DirStart(): nat { fatsCount * sectorsPerFat + 1 }

    /** Logical block of a cluster; cluster 2 is the first block after the root directory. */
    function Lba(cluster: nat): nat
      requires Valid()
    {
      DirStart() + RootSectors() - 2 + cluster
    }
  }
}
