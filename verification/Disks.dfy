/** The disks that are handed to every placement policy. */
module Disks {

  datatype Disk = Disk(id: nat, capacity: nat)

  ghost predicate DistinctIds(disks: seq<Disk>) {
    forall i, j | 0 <= i < j < |disks| :: disks[i].id != disks[j].id
  }

  function CapacitiesOf(disks: seq<Disk>): (r: seq<nat>)
    ensures |r| == |disks| && forall i | 0 <= i < |r| :: r[i] == disks[i].capacity
  {
    seq(|disks|, i requires 0 <= i < |disks| => disks[i].capacity)
  }

  /** The disks at the given places of a list. */
  method DisksAt(disks: seq<Disk>, places: seq<int>) returns (used: seq<Disk>)
    requires forall i | 0 <= i < |places| :: 0 <= places[i] < |disks|
    ensures |used| == |places| && forall i | 0 <= i < |used| :: used[i] == disks[places[i]]
  {
    used := [];
    for i := 0 to |places|
      invariant |used| == i && forall j | 0 <= j < i :: used[j] == disks[places[j]]
    {
      used := used + [disks[places[i]]];
    }
  }
}
