/** The tree of names on a volume: what Get_Item finds when it scans the directory that starts at a sector. */
module VolumeTree {
  import opened Fat12Types
  import opened Chains
  import opened ItemData
  import opened Names
  import opened Directories
  import opened DirectoryItems
  import opened Paths

  /** The scan of one directory; a sector that starts no chain is no directory. */
  ghost function LookIn(g: Geometry, v: VolumeState, dir: Entry, name: Text): Option<DirEntry> {
    if !v.Valid(g) then None
    else if dir == 0 then Resolve(DirSlots(g, v, 0, []), name)
    else if HasChain(v.table, dir) then Resolve(DirSlots(g, v, dir, ChainOf(v.table, dir)), name)
    else None
  }

  ghost function LookOf(g: Geometry, v: VolumeState): Look {
    (dir: Entry, name: Text) => LookIn(g, v, dir, name)
  }

  lemma LookAt(g: Geometry, v: VolumeState, dir: Entry, c: seq<nat>, name: Text)
    requires v.Valid(g) && (dir != 0 ==> Chain(v.table, c) && c[0] == dir)
    ensures LookOf(g, v)(dir, name) == Resolve(DirSlots(g, v, dir, c), name)
  {
    if dir != 0 {
      ChainOfIs(v.table, c);
    }
  }
}
