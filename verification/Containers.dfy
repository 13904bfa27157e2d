/** internal/types/container.go: what the daemon knows about a container. */
module Containers {
  /**
   `stopBefore`, `enabled` and `schedule` are the values that parsing the
   container's labels yields.
   */
  datatype Container = Container(
    id: string, name: string, project: string, service: string,
    enabled: bool, schedule: string, stopBefore: bool)

  function Ids(ctrs: seq<Container>): (ids: set<string>)
    ensures forall id :: id in ids <==> exists i :: 0 <= i < |ctrs| && ctrs[i].id == id
  {
    set c | c in ctrs :: c.id
  }

  /** Docker identifiers are unique in a listing. */
  ghost predicate DistinctIds(ctrs: seq<Container>) {
    forall i, j :: 0 <= i < j < |ctrs| ==> ctrs[i].id != ctrs[j].id
  }

  lemma SameIdSameContainer(all: seq<Container>, c: Container, d: Container)
    requires DistinctIds(all) && c in all && d in all && c.id == d.id
    ensures c == d
  {
    var i :| 0 <= i < |all| && all[i] == c;
    var j :| 0 <= j < |all| && all[j] == d;
    assert i == j;
  }
}
