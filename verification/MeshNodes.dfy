/** The mesh nodes of the local host records. */
module MeshNodes {
  import opened Text
  import opened Order
  import opened HostRecords
  import Resolver
  import T = AlertTarget

  /** The name under which a section's node is listed: its node as attribution computes it, in lower case. */
  ghost function Listed(s: Section, net: Net): set<string> {
    var node := Resolver.NodeOf(s.originator, s.entries, net);
    match T.Parse(node, net.lower)
    case Some(name) => {name}
    case None => {}
  }

  ghost function AllListed(sections: seq<Section>, net: Net): set<string> {
    if sections == [] then {}
    else AllListed(sections[..|sections| - 1], net) + Listed(sections[|sections| - 1], net)
  }

  /** The first entry that can own a section is its node, whatever entries follow. */
  lemma {:induction false} FirstOwnerStays(originator: Bits, entries: seq<Entry>, j: nat, net: Net)
    requires j < |entries| && Resolver.NodeOf(originator, entries[..j], net) == ""
    requires entries[j].address == originator && Resolver.CanOwn(entries[j].name, net)
    ensures Resolver.NodeOf(originator, entries, net) == entries[j].name
    decreases |entries|
  {
    hide T.Parse;
    var front := entries[..|entries| - 1];
    if j < |front| {
      assert front[..j] == entries[..j];
      FirstOwnerStays(originator, front, j, net);
      NamesAreNotEmpty(entries[j].name, net);
    } else {
      assert front == entries[..j];
    }
  }

  lemma NamesAreNotEmpty(name: string, net: Net)
    requires Resolver.CanOwn(name, net)
    ensures name != ""
  {
  }

  lemma {:induction false} ListedCanOwn(originator: Bits, entries: seq<Entry>, net: Net)
    ensures var node := Resolver.NodeOf(originator, entries, net); node == "" || Resolver.CanOwn(node, net)
  {
    hide Resolver.CanOwn;
    if entries != [] {
      ListedCanOwn(originator, entries[..|entries| - 1], net);
    }
  }

  /** `NodesFromHostRecords`. */
  method NodesFromHostRecords(records: seq<string>, net: Net) returns (result: seq<string>)
    ensures StrictlyAscending(result)
    ensures Elements(result) == AllListed(Parse(records, net), net)
  {
    hide Listed, Parse, Elements, Distinct, StrictlyAscending, Sort;
    var sections := ParseRecords(records, net);
    var nodes := {};
    for i := 0 to |sections|
      invariant nodes == AllListed(sections[..i], net)
    {
      assert sections[..i + 1][..i] == sections[..i];
      var name := FirstNode(sections[i], net);
      if name.Some? {
        nodes := nodes + {name.value};
      }
    }
    assert sections[..|sections|] == sections;
    result := InAnyOrder(nodes);
    SortOfDistinct(result);
    result := Sort(result);
  }

  /** The inner loop: it leaves at the first name it can list. */
  method FirstNode(s: Section, net: Net) returns (found: Option<string>)
    ensures Listed(s, net) == if found.Some? then {found.value} else {}
    ensures found.Some? ==> T.IsTarget(found.value) && found.value != "all"
  {
    hide T.IsTarget, T.ToLower;
    found := None;
    for j := 0 to |s.entries|
      invariant found.None? && Resolver.NodeOf(s.originator, s.entries[..j], net) == ""
    {
      var entry := s.entries[j];
      assert s.entries[..j + 1][..j] == s.entries[..j];
      if entry.address != s.originator {
        continue;
      }
      var target := T.Parse(entry.name, net.lower);
      if target.None? {
        continue;
      }
      if target.value == "all" {
        continue;
      }
      FirstOwnerStays(s.originator, s.entries, j, net);
      found := target;
      return;
    }
    assert s.entries[..|s.entries|] == s.entries;
  }

  /** The two loops that compute the node of a section agree: the listed names are the lower-cased
      non-empty nodes of the sections that attribution uses. */
  lemma {:induction false} ListedIsAttributed(sections: seq<Section>, net: Net, name: string)
    ensures name in AllListed(sections, net)
       <==> exists h :: h in Resolver.HostSections(sections, net) && h.node != "" && T.Parse(h.node, net.lower) == Some(name)
  {
    hide Resolver.NodeOf, Resolver.CanOwn;
    if sections != [] {
      var front, last := sections[..|sections| - 1], sections[|sections| - 1];
      ListedIsAttributed(front, net, name);
      var h := Resolver.HostSectionOf(last, net);
      assert Resolver.HostSections(sections, net) == Resolver.HostSections(front, net) + [h];
      assert h in Resolver.HostSections(sections, net);
      assert forall g :: g in Resolver.HostSections(sections, net) <==> g in Resolver.HostSections(front, net) || g == h;
    }
  }

  /** A section with a node is always listed, under a valid target other than `all`. */
  lemma NodeIsListed(s: Section, net: Net)
    requires Resolver.NodeOf(s.originator, s.entries, net) != ""
    ensures exists name :: Listed(s, net) == {name} && T.IsTarget(name) && name != "all"
  {
    hide Resolver.NodeOf;
    ListedCanOwn(s.originator, s.entries, net);
    var name := T.Parse(Resolver.NodeOf(s.originator, s.entries, net), net.lower).value;
    assert Listed(s, net) == {name};
  }
}
