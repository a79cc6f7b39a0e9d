/**
 The reader interface of src/reader/mod.rs: the interface list a reader fixes
 once, the per-interface counters it reports, and the default `index` lookup
 that maps a name to its position in that list.
 */
module Reader {
  import opened Types
  import opened Utils

  datatype InterfaceInfoItem = InterfaceInfoItem(name: string)

  /** Received and transmitted byte counters of one interface. */
  datatype InterfaceStat = InterfaceStat(rx: NumBytes, tx: NumBytes)

  /** One slot per entry of the reader's interface list, `None` when no counters
      were found for it. */
  type InterfaceStats = seq<Option<InterfaceStat>>

  /** `Read::index`: the position of the first item named `name`. Being a
      function of the list, it leaves the list unchanged. */
  function Index(info: seq<InterfaceInfoItem>, name: string): (r: Option<nat>)
    ensures r.Some? ==> r.value < |info| && info[r.value].name == name
    ensures r.Some? ==> forall j :: 0 <= j < r.value ==> info[j].name != name
    ensures r.None? <==> forall j :: 0 <= j < |info| ==> info[j].name != name
  {
    if |info| == 0 then None
    else if info[0].name == name then Some(0)
    else match Index(info[1..], name)
      case None => None
      case Some(i) => Some(i + 1)
  }

  /** The item at a position the name has first is found there. */
  lemma {:induction false} IndexOfFirstOccurrence(info: seq<InterfaceInfoItem>, i: nat)
    requires i < |info|
    requires forall j :: 0 <= j < i ==> info[j].name != info[i].name
    ensures Index(info, info[i].name) == Some(i)
  {
    var r := Index(info, info[i].name);
    if r.value < i {
      assert false;
    }
  }
}
