/**
  The in-flight publish registry of src/main.cpp: the global singly linked
  list `activeMessages` of `{id, topic, payload}` records (lines 8-27). A
  publish whose packet id the transport reports as nonzero is pushed onto the
  head of the list (`publishToMqtt`, lines 49-66); a publish acknowledgment
  unlinks every node that carries the acknowledged id (`onMqttPublish`,
  lines 106-126).

  The list is modelled with real nodes. `ActiveMessages.nodes` is the ghost
  sequence of the reachable nodes from the head on; `Contents()` is the
  sequence of records they carry, and `Retire` is the specification of what an
  acknowledgment does to it.
*/
module Registry {
  import opened Wrappers
  import opened Preview

  /** `uint16_t`, the width of an MQTT packet identifier. */
  type uint16 = x: int | 0 <= x < 0x1_0000

  /** One `MqttMessage` record (src/main.cpp:8-12). */
  datatype Msg = Msg(id: uint16, topic: CStr, payload: CStr)

  /**
    What `publishToMqtt` writes to the serial log. `tail` is `None` where the
    second `%.35s` reads from before the payload (see `TailAsWritten`).
  */
  datatype PublishLog =
    | PublishFailed(topic: CStr)
    | Published(topic: CStr, head: string, tail: Option<string>, id: uint16)

  // ---------------------------------------------------------------------------
  // Specification of an acknowledgment on the abstract list of records
  // ---------------------------------------------------------------------------

  /** The records of `s` whose id differs from `id`, in their original order. */
  function Retire(s: seq<Msg>, id: uint16): seq<Msg>
  {
    if s == [] then []
    else (if s[0].id == id then [] else [s[0]]) + Retire(s[1..], id)
  }

  /** Retiring distributes over concatenation, so relative order is kept. */
  lemma {:induction false} RetireConcat(a: seq<Msg>, b: seq<Msg>, id: uint16)
    ensures Retire(a + b, id) == Retire(a, id) + Retire(b, id)
  {
    if a == [] {
      assert a + b == b;
    } else {
      assert (a + b)[1..] == a[1..] + b;
      RetireConcat(a[1..], b, id);
    }
  }

  /** After an acknowledgment exactly the records with another id remain. */
  lemma {:induction false} RetireMembers(s: seq<Msg>, id: uint16)
    ensures forall m :: m in Retire(s, id) <==> m in s && m.id != id
  {
    if s != [] {
      RetireMembers(s[1..], id);
      assert s == [s[0]] + s[1..];
    }
  }

  /** Every record with another id keeps its multiplicity; the acknowledged ones are all gone. */
  lemma {:induction false} RetireCounts(s: seq<Msg>, id: uint16, m: Msg)
    ensures multiset(Retire(s, id))[m] == if m.id == id then 0 else multiset(s)[m]
  {
    if s != [] {
      RetireCounts(s[1..], id, m);
      assert s == [s[0]] + s[1..];
      assert multiset(s) == multiset([s[0]]) + multiset(s[1..]);
    }
  }

  /** Acknowledging an id that no record carries changes nothing. */
  lemma {:induction false} RetireAbsent(s: seq<Msg>, id: uint16)
    requires forall m :: m in s ==> m.id != id
    ensures Retire(s, id) == s
  {
    if s != [] {
      assert s[0] in s;
      RetireAbsent(s[1..], id);
      assert s == [s[0]] + s[1..];
    }
  }

  /** A second acknowledgment of the same id changes nothing. */
  lemma RetireIdempotent(s: seq<Msg>, id: uint16)
    ensures Retire(Retire(s, id), id) == Retire(s, id)
  {
    RetireMembers(s, id);
    RetireAbsent(Retire(s, id), id);
  }

  /** No two records share an id. */
  predicate UniqueIds(s: seq<Msg>)
  {
    forall j, k :: 0 <= j < k < |s| ==> s[j].id != s[k].id
  }

  /** Retiring keeps ids unique: it only drops records. */
  lemma {:induction false} RetirePreservesUniqueIds(s: seq<Msg>, id: uint16)
    requires UniqueIds(s)
    ensures UniqueIds(Retire(s, id))
  {
    if s != [] {
      RetirePreservesUniqueIds(s[1..], id);
      RetireMembers(s[1..], id);
      var r := Retire(s[1..], id);
      forall k | 0 <= k < |r|
        ensures r[k].id != s[0].id
      {
        assert r[k] in s[1..];
      }
    }
  }

  /**
    Acknowledging the id of a fresh publish undoes the publish, as long as no
    older record carries that id.
  */
  lemma AckUndoesPublish(s: seq<Msg>, m: Msg)
    requires forall x :: x in s ==> x.id != m.id
    ensures Retire([m] + s, m.id) == s
  {
    assert ([m] + s)[1..] == s;
    RetireAbsent(s, m.id);
  }

  /** The records carried by a sequence of nodes. */
  function Msgs(ns: seq<Node>): (r: seq<Msg>)
    ensures |r| == |ns|
    ensures forall k :: 0 <= k < |ns| ==> r[k] == ns[k].msg
  {
    seq(|ns|, k requires 0 <= k < |ns| => ns[k].msg)
  }

  // ---------------------------------------------------------------------------
  // The linked list
  // ---------------------------------------------------------------------------

  /** The node that follows `ns[k]` in `ns`, or null after the last one. */
  function Successor(ns: seq<Node>, k: nat): Node?
    requires k < |ns|
  {
    if k + 1 < |ns| then ns[k + 1] else null
  }

  /** No node occurs twice. */
  predicate Distinct(ns: seq<Node>)
  {
    ns == [] || (ns[0] !in ns[1..] && Distinct(ns[1..]))
  }

  /** In a sequence without repetitions, every other position holds another node. */
  lemma {:induction false} DistinctApart(ns: seq<Node>, i: nat)
    requires Distinct(ns) && i < |ns|
    ensures forall j :: 0 <= j < |ns| && j != i ==> ns[j] != ns[i]
  {
    if i == 0 {
      forall j | 0 < j < |ns|
        ensures ns[j] != ns[0]
      {
        assert ns[j] == ns[1..][j - 1];
      }
    } else {
      DistinctApart(ns[1..], i - 1);
      assert ns[i] == ns[1..][i - 1];
      forall j | 0 < j < |ns| && j != i
        ensures ns[j] != ns[i]
      {
        assert ns[j] == ns[1..][j - 1];
      }
    }
  }

  /** Removing one node keeps the others free of repetitions. */
  lemma {:induction false} DistinctRemove(ns: seq<Node>, p: nat)
    requires Distinct(ns) && p < |ns|
    ensures Distinct(ns[..p] + ns[p + 1..])
  {
    if p == 0 {
      assert ns[..p] + ns[p + 1..] == ns[1..];
    } else {
      DistinctRemove(ns[1..], p - 1);
      var rest := ns[1..][..p - 1] + ns[1..][p..];
      assert ns[..p] + ns[p + 1..] == [ns[0]] + rest;
      assert ([ns[0]] + rest)[1..] == rest;
      assert forall x :: x in rest ==> x in ns[1..];
    }
  }

  /** The nodes of `ns` that an acknowledgment of `id` leaves linked, in order. */
  function Keep(ns: seq<Node>, id: uint16): seq<Node>
  {
    if ns == [] then []
    else (if ns[0].msg.id == id then [] else [ns[0]]) + Keep(ns[1..], id)
  }

  /** A non-empty sequence of nodes is its first node followed by the others. */
  lemma Uncons(s: seq<Node>)
    requires s != []
    ensures s == [s[0]] + s[1..]
  {
  }

  /** The parts of `a + [x] + b` on either side of `x`. */
  lemma PartsAround(a: seq<Node>, x: Node, b: seq<Node>)
    ensures (a + ([x] + b))[..|a|] == a
    ensures (a + ([x] + b))[|a|] == x
    ensures (a + ([x] + b))[|a| + 1..] == b
    ensures a + ([x] + b) == (a + [x]) + b
    ensures |a + [x]| == |a| + 1 && (a + [x])[|a|] == x
  {
  }

  /** Filtering a node in front either drops it or keeps it in front. */
  lemma KeepCons(x: Node, s: seq<Node>, id: uint16)
    ensures x.msg.id == id ==> Keep([x] + s, id) == Keep(s, id)
    ensures x.msg.id != id ==> Keep([x] + s, id) == [x] + Keep(s, id)
  {
  }

  /** The nodes kept carry exactly the records that `Retire` keeps. */
  lemma {:induction false} KeepMsgs(ns: seq<Node>, id: uint16)
    ensures Msgs(Keep(ns, id)) == Retire(Msgs(ns), id)
  {
    if ns != [] {
      KeepMsgs(ns[1..], id);
      assert Msgs(ns)[1..] == Msgs(ns[1..]);
      var head := if ns[0].msg.id == id then [] else [ns[0]];
      assert Msgs(head + Keep(ns[1..], id)) == Msgs(head) + Msgs(Keep(ns[1..], id));
    }
  }

  /** The nodes kept are exactly those whose record carries another id. */
  lemma {:induction false} KeepMembers(ns: seq<Node>, id: uint16)
    ensures forall n :: n in Keep(ns, id) <==> n in ns && n.msg.id != id
  {
    if ns != [] {
      KeepMembers(ns[1..], id);
      assert ns == [ns[0]] + ns[1..];
    }
  }

  /** One `MqttMessageList` cell (src/main.cpp:14-17) together with its record. */
  class Node {
    const msg: Msg
    var next: Node?

    constructor (msg: Msg, next: Node?)
      ensures this.msg == msg && this.next == next
    {
      this.msg := msg;
      this.next := next;
    }
  }

  /** The global list `activeMessages` (src/main.cpp:27). */
  class ActiveMessages {
    var head: Node?
    ghost var nodes: seq<Node>
    ghost var Repr: set<object>

    /** `head` starts a null-terminated, acyclic chain through exactly `nodes`. */
    ghost predicate Valid()
      reads this, Repr
    {
      && this in Repr
      && (forall k :: 0 <= k < |nodes| ==> nodes[k] in Repr)
      && head == (if nodes == [] then null else nodes[0])
      && (forall k {:trigger nodes[k].next} :: 0 <= k < |nodes| ==>
            nodes[k].next == Successor(nodes, k))
      && Distinct(nodes)
    }

    /** The records in list order, head first. */
    ghost function Contents(): seq<Msg>
      reads this
    {
      Msgs(nodes)
    }

    /** `activeMessages = NULL`. */
    constructor ()
      ensures Valid() && fresh(Repr)
      ensures Contents() == []
    {
      head := null;
      nodes := [];
      Repr := {this};
    }

    /**
      `publishToMqtt(topic, payload)`, where `packetId` is what the transport's
      publish call returned. Id 0 means the publish failed and the list is left
      alone; otherwise a new node is pushed onto the head. The serial log
      output is returned as `log`.
    */
    method Publish(topic: CStr, payload: CStr, packetId: uint16) returns (log: PublishLog)
      requires Valid()
      modifies this
      ensures Valid() && fresh(Repr - old(Repr))
      ensures packetId == 0 ==> nodes == old(nodes) && log == PublishFailed(topic)
      ensures packetId != 0 ==>
                && |nodes| == |old(nodes)| + 1 && nodes[1..] == old(nodes) && fresh(nodes[0])
                && log == Published(topic, PreviewHead(payload), TailAsWritten(payload), packetId)
      ensures Contents() ==
                if packetId == 0 then old(Contents())
                else [Msg(packetId, topic, payload)] + old(Contents())
    {
      if packetId == 0 {
        log := PublishFailed(topic);
        return;
      }
      log := Published(topic, PreviewHead(payload), TailAsWritten(payload), packetId);
      var cell := new Node(Msg(packetId, topic, payload), head);
      head := cell;
      nodes := [cell] + nodes;
      Repr := Repr + {cell};
      assert forall k :: 1 <= k < |nodes| ==> nodes[k] == old(nodes)[k - 1];
    }

    /**
      Unlinks `item`, the node at position `p`: its predecessor `last` (or the
      head, when `p` is 0) is made to point past it. The unlinked node keeps
      its own `next` pointer, as it does in the source until it is freed.
    */
    method Unlink(last: Node?, item: Node, ghost p: nat)
      requires Valid()
      requires p < |nodes| && item == nodes[p]
      requires last == if p == 0 then null else nodes[p - 1]
      modifies this, last
      ensures Valid() && Repr == old(Repr)
      ensures nodes == old(nodes[..p] + nodes[p + 1..])
      ensures item.next == old(item.next)
    {
      if last == null {
        head := item.next;
      } else {
        last.next := item.next;
      }
      ghost var before := nodes;
      nodes := nodes[..p] + nodes[p + 1..];
      DistinctRemove(before, p);
      if p > 0 {
        DistinctApart(before, p - 1);
      }
      forall k | 0 <= k < |nodes|
        ensures nodes[k] in Repr
        ensures nodes[k].next == Successor(nodes, k)
      {
        var q := if k < p then k else k + 1;
        assert nodes[k] == before[q];
        if k + 1 < |nodes| {
          assert nodes[k + 1] == before[if k + 1 < p then k + 1 else k + 2];
        }
      }
    }

    /**
      `onMqttPublish(packetId)`: walks the list with the `last`/`item` pointers
      and unlinks every node whose id is `packetId`, relinking its
      predecessor's `next` (or the head) past it.
    */
    method OnPublish(packetId: uint16)
      requires Valid()
      modifies Repr
      ensures Valid() && Repr == old(Repr)
      ensures nodes == Keep(old(nodes), packetId)
      ensures Contents() == Retire(old(Contents()), packetId)
      ensures forall n :: n in nodes <==> n in old(nodes) && n.msg.id != packetId
    {
      ghost var rest := nodes;
      ghost var kept: seq<Node> := [];
      var last: Node? := null;
      var item := head;
      while item != null
        invariant Valid() && Repr == old(Repr)
        invariant Keep(old(nodes), packetId) == kept + Keep(rest, packetId)
        invariant nodes == kept + rest
        invariant item == if rest == [] then null else rest[0]
        invariant last == if kept == [] then null else kept[|kept| - 1]
        decreases |rest|
      {
        Uncons(rest);
        KeepCons(item, rest[1..], packetId);
        PartsAround(kept, item, rest[1..]);
        PartsAround(kept, item, Keep(rest[1..], packetId));
        if item.msg.id == packetId {
          Unlink(last, item, |kept|);
          item := item.next;
        } else {
          last := item;
          kept := kept + [item];
          item := item.next;
        }
        rest := rest[1..];
      }
      assert kept + [] == kept;
      KeepMsgs(old(nodes), packetId);
      KeepMembers(old(nodes), packetId);
    }
  }

  /** The acknowledgment scenario: publish id 7, acknowledge it twice. */
  method AckScenario()
  {
    var registry := new ActiveMessages();
    var log := registry.Publish("t/1", "payload-A", 7);
    assert registry.Contents() == [Msg(7, "t/1", "payload-A")];
    registry.OnPublish(7);
    assert registry.Contents() == [];
    registry.OnPublish(7);
    assert registry.Contents() == [];
  }
}
