/** The list of thread controls that a registry id is looked up in.

    A ThreadX thread and a cleanup message carry one word, so a control is named by a 32-bit id. */
module ThreadRegistry {
  import opened Errors
  import opened Lists

  const ID_MODULUS := 0x1_0000_0000

  /** The id after `id`: a 32-bit increment that skips 0. */
  function NextId(id: nat): (next: nat)
    requires 1 <= id < ID_MODULUS
    ensures 1 <= next < ID_MODULUS && next != id
  {
    if id + 1 == ID_MODULUS then 1 else id + 1
  }

  /** The ids handed out by `n` registrations after one that was given `id`. */
  function IdAfter(id: nat, n: nat): nat
    requires 1 <= id < ID_MODULUS
  {
    1 + (id - 1 + n) % (ID_MODULUS - 1)
  }

  /** Ids are handed out round robin: one comes back exactly every 2^32 - 1 registrations. */
  lemma {:induction false} IdsRepeatOnlyAfterAFullRound(id: nat, n: nat)
    requires 1 <= id < ID_MODULUS
    ensures 1 <= IdAfter(id, n) < ID_MODULUS
    ensures NextId(IdAfter(id, n)) == IdAfter(id, n + 1)
    ensures IdAfter(id, n) == id <==> n % (ID_MODULUS - 1) == 0
  {
    var m := ID_MODULUS - 1;
    var sum, next := id - 1 + n, id + n;
    assert sum == sum / m * m + sum % m && next == next / m * m + next % m;
    assert n == n / m * m + n % m;
  }

  function FirstIndex(ids: seq<nat>, id: nat): (found: Option<nat>)
    ensures found.Some? ==> found.value < |ids| && ids[found.value] == id && id !in ids[..found.value]
    ensures found.None? ==> id !in ids
  {
    if ids == [] then None
    else if ids[0] == id then Some(0)
    else
      match FirstIndex(ids[1..], id)
      case None => None
      case Some(i) => Some(i + 1)
  }

  lemma {:induction false} FirstIndexIs(ids: seq<nat>, id: nat, k: nat)
    requires k < |ids| && ids[k] == id && id !in ids[..k]
    ensures FirstIndex(ids, id) == Some(k)
    decreases k
  {
    if k > 0 {
      assert ids[..k] == [ids[0]] + ids[1..][..k - 1];
      FirstIndexIs(ids[1..], id, k - 1);
    }
  }

  /** A thread control as the registry sees it. */
  class Node {
    var id: nat
    var next: Node?

    constructor ()
    {
      id, next := 0, null;
    }
  }

  class Registry {
    var head: Node?
    var nextId: nat
    ghost var nodes: seq<Node>

    ghost predicate Valid()
      reads this, nodes
    {
      && 1 <= nextId < ID_MODULUS
      && IsDistinct(nodes)
      && head == At(0)
      && (nodes != [] ==> nodes[|nodes| - 1].next == null)
      && forall i, j | 0 <= i < |nodes| && 0 <= j < |nodes| && j == i + 1 :: nodes[i].next == nodes[j]
    }

    /** The node at a place of the list; behind the last one stands the null pointer. */
    ghost function At(i: nat): Node?
      reads this
    {
      if i < |nodes| then nodes[i] else null
    }

    ghost function Ids(): (ids: seq<nat>)
      reads this, nodes
      ensures |ids| == |nodes| && forall i | 0 <= i < |ids| :: ids[i] == nodes[i].id
    {
      seq(|nodes|, i requires 0 <= i < |nodes| reads this, nodes => nodes[i].id)
    }

    constructor ()
      ensures Valid() && nodes == [] && nextId == 1
    {
      head, nextId, nodes := null, 1, [];
    }

    /** `register_thread`: the next id, in front of the list. */
    method Register(control: Node)
      requires Valid() && control !in nodes
      modifies this, control
      ensures Valid() && nodes == [control] + old(nodes)
      ensures control.id == old(nextId) && nextId == NextId(old(nextId))
      ensures Ids() == [old(nextId)] + old(Ids())
    {
      control.id := nextId;
      nextId := (nextId + 1) % ID_MODULUS;
      if nextId == 0 {
        nextId := 1;
      }
      control.next := head;
      head := control;
      nodes := [control] + nodes;
    }

    /** `find_thread`: the first control with the id. */
    method Find(id: nat) returns (control: Node?)
      requires Valid()
      ensures control == match FirstIndex(Ids(), id) case None => null case Some(i) => nodes[i]
    {
      control := head;
      ghost var k := 0;
      while control != null && control.id != id
        invariant 0 <= k <= |nodes| && control == At(k)
        invariant id !in Ids()[..k]
        decreases |nodes| - k
      {
        control := control.next;
        k := k + 1;
      }
      assert Ids()[..|nodes|] == Ids();
      if control != null {
        FirstIndexIs(Ids(), id, k);
      }
    }

    /** The walk of `unregister_thread`; `previous == null` stands for the address of the list head. */
    method Locate(control: Node) returns (previous: Node?, current: Node?, ghost k: nat)
      requires Valid()
      ensures k <= |nodes| && current == At(k) && previous == (if k == 0 then null else nodes[k - 1])
      ensures control !in nodes[..k] && (current == null || current == control)
    {
      previous, current, k := null, head, 0;
      while current != null && current != control
        invariant k <= |nodes| && current == At(k)
        invariant previous == (if k == 0 then null else nodes[k - 1])
        invariant control !in nodes[..k]
        decreases |nodes| - k
      {
        previous, current := current, current.next;
        k := k + 1;
      }
    }

    /** `unregister_thread`: unlinks the control wherever it is; the others keep their order. */
    method Unregister(control: Node)
      requires Valid()
      modifies this, nodes
      ensures Valid() && nodes == Without(old(nodes), control)
      ensures forall node | node in old(nodes) :: node.id == old(node.id)
      ensures nextId == old(nextId)
    {
      hide Without;
      var previous, current, k := Locate(control);
      if current == null {
        assert nodes[..k] == nodes;
        WithoutAbsent(nodes, control);
        return;
      }
      if previous == null {
        head := control.next;
      } else {
        previous.next := control.next;
      }
      hide Without;
      WithoutSplit(nodes, k);
      nodes := nodes[..k] + nodes[k + 1..];
      assert forall i | 0 <= i < k :: nodes[i] == old(nodes)[i];
      assert forall i | k <= i < |nodes| :: nodes[i] == old(nodes)[i + 1];
    }
  }
}
