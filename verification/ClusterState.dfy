/**
 The cluster registry: which node owns each slot, kept twice, in the table here and in each node's own bitmap, and
 the routing decision that depends on the two agreeing.

 Valid is what every operation and every gossip message keeps: an owner named in the table is known and has the bit.
 Exact is the converse as well, which gossip can break.
 */
module ClusterState {
  import opened Bytes
  import opened ClusterNode
  import Crc16

  datatype SlotState = Stable | Migrating | Importing

  datatype SlotInfo = SlotInfo(ownerID: string, state: SlotState, peerID: string)

  const NO_OWNER := SlotInfo("", Stable, "")

  datatype Redirect = OK | Moved | Ask | CrossSlot | ClusterDown

  datatype Verdict = Verdict(redirect: Redirect, slot: int, addr: string)

  type Key = bytes

  class State {
    var enabled: bool
    var myself: Node?
    var nodes: map<string, Node>
    var slots: seq<SlotInfo>
    var currentEpoch: int

    constructor ()
      ensures Valid() && Exact() && !enabled && myself == null && nodes == map[]
      ensures forall s :: 0 <= s < SLOT_COUNT ==> slots[s] == NO_OWNER
    {
      enabled, myself, nodes, currentEpoch := false, null, map[], 0;
      slots := seq(SLOT_COUNT, _ => NO_OWNER);
    }

    /** The registry is keyed by its nodes' ids and lists this node; the table covers all slots. */
    ghost predicate Shaped()
      reads this, nodes.Values, myself
    {
      && |slots| == SLOT_COUNT && enabled == (myself != null)
      && (forall id :: id in nodes ==> id != "" && nodes[id].id == id)
      && (myself != null ==> myself.id in nodes && nodes[myself.id] == myself)
    }

    /** Who the table names as an owner is known and has the slot's bit. */
    ghost predicate OwnersHaveBits()
      reads this, nodes.Values
      requires |slots| == SLOT_COUNT
    {
      forall s :: 0 <= s < SLOT_COUNT && slots[s].ownerID != "" ==>
        slots[s].ownerID in nodes && nodes[slots[s].ownerID].Has(s)
    }

    ghost predicate Valid()
      reads this, nodes.Values, myself
    {
      Shaped() && OwnersHaveBits()
    }

    /** No known node has a bit for a slot the table gives to someone else, or to no one. */
    ghost predicate Exact()
      reads this, nodes.Values
      requires |slots| == SLOT_COUNT
    {
      forall id, s :: id in nodes && 0 <= s < SLOT_COUNT && nodes[id].Has(s) ==> slots[s].ownerID == id
    }

    /** Together: the table names a node as the owner exactly when that node's bitmap has the slot. */
    lemma TableMatchesBitmaps()
      requires Valid() && Exact()
      ensures forall id, s :: id in nodes && 0 <= s < SLOT_COUNT ==> (slots[s].ownerID == id <==> nodes[id].Has(s))
    {
      hide HasBit;
    }

    /** At most one known node has a slot's bit. */
    lemma OwnerIsUnique(a: string, b: string, s: int)
      requires Valid() && Exact() && 0 <= s < SLOT_COUNT
      requires a in nodes && b in nodes && nodes[a].Has(s) && nodes[b].Has(s)
      ensures a == b
    {
      assert slots[s].ownerID == a;
    }

    /**
     Turn cluster mode on with this node; a second call changes nothing. The node takes the place of any node on
     record under its id, and had better have whatever slots the table gives to that id.
     */
    method Enable(me: Node)
      requires Valid() && me.id != ""
      modifies this`enabled, this`myself, this`nodes
      ensures Shaped() && enabled && slots == old(slots)
      ensures Valid() <==>
        old(myself) != null || forall s :: 0 <= s < SLOT_COUNT && slots[s].ownerID == me.id ==> me.Has(s)
      ensures if old(myself) != null
        then myself == old(myself) && nodes == old(nodes)
        else myself == me && nodes == old(nodes)[me.id := me]
      ensures old(myself) != null ==> Exact() == old(Exact())
      ensures old(myself) == null && old(Exact()) ==>
        (Exact() <==> forall s :: 0 <= s < SLOT_COUNT && me.Has(s) ==> slots[s].ownerID == me.id)
    {
      hide HasBit;
      if myself != null {
        return;
      }
      myself := me;
      nodes := nodes[me.id := me];
      enabled := true;
    }

    /** Register a node; if its id is known, the node on record is kept and learns the new address. */
    method AddNode(n: Node) returns (r: Node)
      requires Valid() && n.id != ""
      modifies this`nodes, nodes.Values`host, nodes.Values`port, nodes.Values`busPort
      ensures Valid() && slots == old(slots) && r.id == n.id && nodes == old(nodes)[n.id := r]
      ensures if n.id in old(nodes) then r == old(nodes[n.id]) else r == n
      ensures n.id in old(nodes) ==>
        && r.host == old(if n.host != "" then n.host else nodes[n.id].host)
        && r.port == old(if n.port != "" then n.port else nodes[n.id].port)
        && r.busPort == old(if n.busPort != "" then n.busPort else nodes[n.id].busPort)
      ensures forall id :: id in old(nodes) && id != n.id ==> unchanged(nodes[id])
      ensures old(Exact()) ==> (Exact() <==> n.id in old(nodes) || forall s :: 0 <= s < SLOT_COUNT ==> !n.Has(s))
    {
      hide HasBit;
      if n.id in nodes {
        r := nodes[n.id];
        r.LearnAddress(n);
        return;
      }
      assert forall s :: 0 <= s < SLOT_COUNT ==> slots[s].ownerID != n.id;
      nodes := nodes[n.id := n];
      r := n;
      forall s | 0 <= s < SLOT_COUNT && n.Has(s) ensures !Exact() {
        assert n.id in nodes && nodes[n.id] == n && nodes[n.id].Has(s) && slots[s].ownerID != n.id;
      }
    }

    /** Drop a node and every slot it owned. */
    method ForgetNode(id: string) returns (ok: bool)
      requires Valid()
      modifies this`nodes, this`slots
      ensures Valid() && (old(Exact()) ==> Exact())
      ensures ok <==> id in old(nodes) && (myself == null || myself.id != id)
      ensures !ok ==> nodes == old(nodes) && slots == old(slots)
      ensures ok ==> nodes == old(nodes) - {id} && forall s :: 0 <= s < SLOT_COUNT ==>
        slots[s] == if old(slots[s].ownerID) == id then NO_OWNER else old(slots[s])
    {
      hide HasBit;
      if myself != null && myself.id == id {
        return false;
      }
      if id !in nodes {
        return false;
      }
      nodes := nodes - {id};
      var next := slots;
      for i := 0 to SLOT_COUNT
        invariant |next| == SLOT_COUNT
        invariant forall s :: 0 <= s < SLOT_COUNT ==>
          next[s] == if s < i && slots[s].ownerID == id then NO_OWNER else slots[s]
      {
        if next[i].ownerID == id {
          next := next[i := NO_OWNER];
        }
      }
      slots := next;
      return true;
    }

    /** Give a slot to a known node; any migration of it is over. The answer is the previous owner. */
    method AssignSlot(slot: int, ownerID: string) returns (ok: bool, prev: string)
      requires Valid()
      modifies this`slots, nodes.Values`slots
      ensures Valid() && (old(Exact()) ==> Exact())
      ensures ok <==> 0 <= slot < SLOT_COUNT && ownerID in nodes
      ensures slots == if ok then old(slots)[slot := SlotInfo(ownerID, Stable, "")] else old(slots)
      ensures ok ==> prev == old(slots[slot].ownerID)
      ensures ok && prev != "" && prev != ownerID ==> prev in nodes && !nodes[prev].Has(slot)
      ensures forall id, t :: id in nodes && (!ok || t != slot) ==> nodes[id].Has(t) == old(nodes[id].Has(t))
      ensures ok ==> forall id :: id in nodes && id != ownerID && id != prev ==>
        nodes[id].Has(slot) == old(nodes[id].Has(slot))
    {
      hide HasBit;
      if slot < 0 || slot >= SLOT_COUNT {
        return false, "";
      }
      if ownerID !in nodes {
        return false, "";
      }
      var owner := nodes[ownerID];
      prev := slots[slot].ownerID;
      slots := slots[slot := SlotInfo(ownerID, Stable, "")];
      if prev != ownerID {
        if prev in nodes {
          var changed := nodes[prev].DelSlot(slot);
        }
        var changed := owner.AddSlot(slot);
      }
      return true, prev;
    }

    /** Take a slot away from its owner. */
    method UnassignSlot(slot: int) returns (ok: bool)
      requires Valid()
      modifies this`slots, nodes.Values`slots
      ensures Valid() && (old(Exact()) ==> Exact())
      ensures ok <==> 0 <= slot < SLOT_COUNT
      ensures slots == if ok then old(slots)[slot := NO_OWNER] else old(slots)
      ensures ok && old(slots[slot].ownerID) != "" ==>
        old(slots[slot].ownerID) in nodes && !nodes[old(slots[slot].ownerID)].Has(slot)
      ensures forall id, t :: id in nodes && (!ok || t != slot || id != old(slots[slot].ownerID)) ==>
        nodes[id].Has(t) == old(nodes[id].Has(t))
    {
      hide HasBit;
      if slot < 0 || slot >= SLOT_COUNT {
        return false;
      }
      var prev := slots[slot].ownerID;
      slots := slots[slot := NO_OWNER];
      if prev != "" && prev in nodes {
        var changed := nodes[prev].DelSlot(slot);
      }
      return true;
    }

    /** Start or end a migration; ownership stays. */
    method SetSlotState(slot: int, state: SlotState, peerID: string) returns (ok: bool)
      requires Valid()
      modifies this`slots
      ensures Valid() && (old(Exact()) ==> Exact())
      ensures ok <==> 0 <= slot < SLOT_COUNT
      ensures slots == if ok
        then old(slots)[slot := SlotInfo(old(slots[slot].ownerID), state, peerID)] else old(slots)
    {
      hide HasBit;
      if slot < 0 || slot >= SLOT_COUNT {
        return false;
      }
      slots := slots[slot := slots[slot].(state := state, peerID := peerID)];
      return true;
    }

    /** Forget everything but this node, which keeps no slots and, if hard, gets a new id. */
    method Reset(hard: bool, minted: string)
      requires Valid() && minted != ""
      modifies this`nodes, this`slots, this`currentEpoch
      modifies (if myself == null then {} else {myself})`id, (if myself == null then {} else {myself})`slots
      ensures Valid() && Exact() && myself == old(myself) && currentEpoch == 0
      ensures forall s :: 0 <= s < SLOT_COUNT ==> slots[s] == NO_OWNER
      ensures nodes == if myself == null then map[] else map[myself.id := myself]
      ensures myself != null ==> myself.id == if hard then minted else old(myself.id)
    {
      hide HasBit;
      nodes := map[];
      if myself != null {
        if hard {
          myself.id := minted;
        }
        nodes := nodes[myself.id := myself];
        HasInRange(myself);
        for i := 0 to SLOT_COUNT
          invariant myself == old(myself) && nodes == map[myself.id := myself]
          invariant myself.id == if hard then minted else old(myself.id)
          invariant forall t :: myself.Has(t) ==> i <= t < SLOT_COUNT
        {
          var changed := myself.DelSlot(i);
        }
      }
      slots := seq(SLOT_COUNT, _ => NO_OWNER);
      currentEpoch := 0;
    }

    /** What gossip does with the runs a known peer claims: bits are added, the table is not consulted. */
    method MergeGossip(peer: Node, rs: seq<Range>)
      requires Valid() && peer.id in nodes && nodes[peer.id] == peer
      modifies peer`slots
      ensures Valid()
      ensures forall t :: peer.Has(t) <==> old(peer.Has(t)) || (0 <= t < SLOT_COUNT && InRanges(rs, t))
      ensures old(Exact()) ==>
        (Exact() <==> forall t :: 0 <= t < SLOT_COUNT && InRanges(rs, t) ==> slots[t].ownerID == peer.id)
    {
      hide HasBit, InRanges;
      peer.AddRanges(rs);
      assert forall id :: id in nodes && id != peer.id ==> nodes[id] != peer;
    }

    function OwnerOf(slot: int): string
      reads this`slots
      requires |slots| == SLOT_COUNT
    {
      if 0 <= slot < SLOT_COUNT then slots[slot].ownerID else ""
    }

    /** Where a command on these keys is to be served. */
    method Route(table: array<Crc16.Word>, keys: seq<Key>, asking: bool) returns (v: Verdict)
      requires Valid()
      requires table.Length == 256 && forall i :: 0 <= i < 256 ==> table[i] == Crc16.Cell(i)
      ensures !enabled || keys == [] ==> v == Verdict(OK, 0, "")
      ensures enabled && keys != [] ==>
        (v.redirect == CrossSlot <==> exists k :: k in keys && Crc16.Slot(k) != Crc16.Slot(keys[0]))
      ensures enabled && keys != [] && v.redirect != CrossSlot ==> v.slot == Crc16.Slot(keys[0])
      ensures v.redirect == ClusterDown ==> OwnerOf(v.slot) == ""
      ensures enabled && keys != [] && v.redirect == OK ==> OwnerOf(v.slot) == myself.id && myself.Has(v.slot)
      ensures enabled && keys != [] && v.redirect in {OK, Moved, Ask} ==> OwnerOf(v.slot) in nodes
      ensures enabled && keys != [] && v.redirect in {OK, Moved, Ask} && OwnerOf(v.slot) != myself.id ==>
        v.redirect == Moved && v.addr == nodes[OwnerOf(v.slot)].Addr() && nodes[OwnerOf(v.slot)].Has(v.slot)
      ensures enabled && keys != [] && v.redirect in {OK, Moved, Ask} && OwnerOf(v.slot) == myself.id ==>
        var slot, info := v.slot, slots[v.slot];
        && v == OwnVerdict(slot, asking)
        && (info.peerID in nodes && info.state == Migrating ==> v == Verdict(Ask, slot, nodes[info.peerID].Addr()))
        && (info.peerID in nodes && info.state == Importing && !asking ==>
             v == Verdict(Moved, slot, nodes[info.peerID].Addr()))
        && (info.peerID !in nodes || info.state == Stable || (info.state == Importing && asking) ==>
             v == Verdict(OK, slot, ""))
    {
      hide HasBit, Crc16.Slot, Crc16.Cell;
      if !enabled || keys == [] {
        return Verdict(OK, 0, "");
      }
      var slot := Crc16.KeySlot(table, keys[0]);
      for i := 1 to |keys|
        invariant forall j :: 0 <= j < i ==> Crc16.Slot(keys[j]) == slot
      {
        var other := Crc16.KeySlot(table, keys[i]);
        if other != slot {
          assert keys[i] in keys;
          return Verdict(CrossSlot, 0, "");
        }
      }
      var info := slots[slot];
      if info.ownerID == "" {
        return Verdict(ClusterDown, slot, "");
      }
      if info.ownerID != myself.id {
        if info.ownerID !in nodes {
          return Verdict(ClusterDown, slot, "");
        }
        return Verdict(Moved, slot, nodes[info.ownerID].Addr());
      }
      if info.state == Migrating && info.peerID != "" && info.peerID in nodes {
        return Verdict(Ask, slot, nodes[info.peerID].Addr());
      }
      if info.state == Importing && !asking && info.peerID in nodes {
        return Verdict(Moved, slot, nodes[info.peerID].Addr());
      }
      return Verdict(OK, slot, "");
    }

    /** For a slot of our own: serve it, unless a known peer is taking it over or still has it. */
    function OwnVerdict(slot: int, asking: bool): Verdict
      reads this, nodes.Values
      requires 0 <= slot < |slots|
    {
      var peer := slots[slot].peerID;
      if peer !in nodes || peer == "" then Verdict(OK, slot, "")
      else if slots[slot].state == Migrating then Verdict(Ask, slot, nodes[peer].Addr())
      else if slots[slot].state == Importing && !asking then Verdict(Moved, slot, nodes[peer].Addr())
      else Verdict(OK, slot, "")
    }

    /** Exactly when a slot of our own is said to have moved: it is being imported from a known node. */
    lemma OwnSlotMovedIff(slot: int, asking: bool)
      requires Valid() && 0 <= slot < SLOT_COUNT
      ensures OwnVerdict(slot, asking).redirect == Moved
        <==> slots[slot].state == Importing && !asking && slots[slot].peerID in nodes
    {
    }

    /** Exactly when a client is asked to try elsewhere: the slot is on its way to a known node. */
    lemma OwnSlotAskIff(slot: int, asking: bool)
      requires Valid() && 0 <= slot < SLOT_COUNT
      ensures OwnVerdict(slot, asking).redirect == Ask
        <==> slots[slot].state == Migrating && slots[slot].peerID in nodes
      ensures OwnVerdict(slot, asking).redirect == Ask ==>
        OwnVerdict(slot, asking).addr == nodes[slots[slot].peerID].Addr()
    {
    }

    /**
     And then the node named is another than the owner exactly when it is not ourselves: as long as table and bitmaps
     agree it does not have the slot.
     */
    lemma MovedAwayFromOwner(slot: int, asking: bool)
      requires Valid() && Exact() && 0 <= slot < SLOT_COUNT && myself != null && slots[slot].ownerID == myself.id
      requires OwnVerdict(slot, asking).redirect == Moved
      ensures OwnVerdict(slot, asking).addr == nodes[slots[slot].peerID].Addr()
      ensures nodes[slots[slot].peerID].Has(slot) <==> slots[slot].peerID == myself.id
    {
      hide HasBit;
    }

    /**
     While the table and the bitmaps agree, the node a foreign slot is said to have moved to is the only known node
     with the slot's bit.
     */
    lemma MovedNamesTheOwner(slot: int, id: string)
      requires Valid() && Exact() && 0 <= slot < SLOT_COUNT && slots[slot].ownerID != ""
      ensures slots[slot].ownerID in nodes
      ensures id in nodes && nodes[id].Has(slot) <==> id == slots[slot].ownerID
    {
      hide HasBit;
    }
  }

  lemma HasInRange(n: Node)
    ensures forall t :: n.Has(t) ==> 0 <= t < SLOT_COUNT
  {
  }

  /** Cluster mode turned on under an id that already owns a slot: the table then names a node without the bit. */
  method EnableOverKnownId() returns (s: State)
    ensures fresh(s) && s.Shaped() && !s.Valid() && s.slots[0].ownerID == "a"
  {
    hide HasBit;
    s := new State();
    var other := new Node("a", "h", "1", "2", Master, "x");
    var known := s.AddNode(other);
    var ok, prev := s.AssignSlot(0, "a");
    var me := new Node("a", "h", "1", "2", Master, "x");
    s.Enable(me);
    assert !me.Has(0);
  }

  /** Node "a" is us, node "b" another one, and neither has a slot. */
  method TwoNodes() returns (s: State)
    ensures fresh(s) && s.Valid() && s.Exact() && s.myself != null && s.myself.id == "a"
    ensures s.nodes.Keys == {"a", "b"} && s.nodes["b"].Addr() == "h:2"
    ensures forall i :: 0 <= i < SLOT_COUNT ==> s.slots[i] == NO_OWNER
    ensures forall n :: n in s.nodes.Values ==> fresh(n)
  {
    hide HasBit;
    s := new State();
    var me := new Node("a", "h", "1", "3", Master, "x");
    s.Enable(me);
    var peer := new Node("b", "h", "2", "4", Master, "x");
    var known := s.AddNode(peer);
    assert s.nodes["b"].Addr() == "h" + ":" + "2" == "h:2";
  }

  /** Node "a", which is us, owns the slot and is importing it from node "b". */
  method ImportingOwnSlot(slot: int) returns (s: State)
    requires 0 <= slot < SLOT_COUNT
    ensures fresh(s) && s.Valid() && s.Exact() && s.myself != null && s.myself.id == "a"
    ensures s.slots[slot] == SlotInfo("a", Importing, "b")
    ensures "b" in s.nodes && s.nodes["b"].Addr() == "h:2"
  {
    hide HasBit;
    s := TwoNodes();
    var ok, prev := s.AssignSlot(slot, "a");
    ok := s.SetSlotState(slot, Importing, "b");
  }

  /** A command on such a slot is sent to the peer, which does not have it. */
  method ImportingMovesToPeer(table: array<Crc16.Word>, key: Key) returns (s: State, v: Verdict)
    requires table.Length == 256 && forall i :: 0 <= i < 256 ==> table[i] == Crc16.Cell(i)
    ensures s.Valid() && s.Exact() && v == Verdict(Moved, Crc16.Slot(key), "h:2")
    ensures s.myself != null && s.OwnerOf(v.slot) == s.myself.id && s.myself.Has(v.slot)
    ensures "b" in s.nodes && s.nodes["b"].Addr() == v.addr && !s.nodes["b"].Has(v.slot)
  {
    hide HasBit, Crc16.Slot, Crc16.Cell;
    var slot := Crc16.KeySlot(table, key);
    s := ImportingOwnSlot(slot);
    v := s.Route(table, [key], false);
    s.MovedNamesTheOwner(slot, "b");
    s.MovedNamesTheOwner(slot, "a");
  }
}
