/** Host objects as 32-bit indices (the externref map of wasm_runtime_common.c). */
module ExternRefs {
  import opened Wrappers
  import opened WasmTypes

  /** A host object together with the module instance it was passed to. */
  datatype Node = Node(inst: nat, obj: nat)

  /** The pointer value that a host passes for "null". */
  const NULL_OBJECT: nat := 0xFFFF_FFFF_FFFF_FFFF

  /** wasm_externref_ref2obj: the object behind an index. */
  function Lookup(nodes: map<nat, Node>, id: nat): Option<nat>
  {
    if id == NULL_REF then Some(0) else if id in nodes then Some(nodes[id].obj) else None
  }

  /** What the object that went in through wasm_externref_obj2ref comes back as. */
  function Returned(obj: nat): nat
  {
    if obj == NULL_OBJECT then 0 else obj
  }

  ghost predicate ValidNodes(nodes: map<nat, Node>, nextId: nat)
  {
    && 1 <= nextId <= NULL_REF
    && (forall id :: id in nodes ==> 1 <= id < nextId)
    && forall id, id' :: id in nodes && id' in nodes && nodes[id] == nodes[id'] ==> id == id'
  }

  /** The map after looking up or entering a node. */
  ghost predicate Entered(nodes: map<nat, Node>, nextId: nat, nodes': map<nat, Node>, nextId': nat, id: nat, node: Node)
  {
    if node in nodes.Values then nodes' == nodes && nextId' == nextId && id in nodes && nodes[id] == node
    else nodes' == nodes[nextId := node] && nextId' == nextId + 1 && id == nextId
  }

  /** Whatever an object is entered as, its index leads back to it and every index handed out
      before leads where it did. */
  lemma EnteredLookup(nodes: map<nat, Node>, nextId: nat, nodes': map<nat, Node>, nextId': nat, id: nat, node: Node)
    requires ValidNodes(nodes, nextId) && Entered(nodes, nextId, nodes', nextId', id, node)
    ensures nextId' <= NULL_REF ==> ValidNodes(nodes', nextId')
    ensures nextId < NULL_REF || node in nodes.Values ==> Lookup(nodes', id) == Some(node.obj)
    ensures forall old_id: nat :: old_id < nextId || old_id == NULL_REF ==> Lookup(nodes', old_id) == Lookup(nodes, old_id)
  {
  }

  class ExternRefMap {
    var nodes: map<nat, Node>
    var nextId: nat

    ghost predicate Valid()
      reads this
    {
      ValidNodes(nodes, nextId)
    }

    constructor ()
      ensures Valid() && nodes == map[]
    {
      nodes := map[];
      nextId := 1;
    }

    /** wasm_externref_obj2ref. */
    method ObjToRef(inst: nat, obj: nat, allocates: bool) returns (r: Option<nat>)
      requires Valid()
      modifies this
      ensures Valid()
      ensures obj == NULL_OBJECT || r.None? ==> nodes == old(nodes) && nextId == old(nextId)
      ensures r.None? <==> obj != NULL_OBJECT && Node(inst, obj) !in old(nodes.Values) && (old(nextId) == NULL_REF || !allocates)
      ensures obj == NULL_OBJECT ==> r == Some(NULL_REF)
      ensures obj != NULL_OBJECT && r.Some? ==>
                Entered(old(nodes), old(nextId), nodes, nextId, r.value, Node(inst, obj)) && r.value < nextId
      ensures r.Some? ==> Lookup(nodes, r.value) == Some(Returned(obj))
    {
      if obj == NULL_OBJECT { return Some(NULL_REF); }
      var node := Node(inst, obj);
      if node in nodes.Values {
        var id :| id in nodes && nodes[id] == node;
        return Some(id);
      }
      if nextId == NULL_REF || nextId == 0 || !allocates { return None; }
      r := Some(nextId);
      nodes := nodes[nextId := node];
      nextId := nextId + 1;
    }

    /** wasm_externref_objdel. */
    method Delete(inst: nat, obj: nat) returns (found: bool)
      requires Valid()
      modifies `nodes
      ensures Valid() && found == (Node(inst, obj) in old(nodes.Values))
      ensures nodes == map id | id in old(nodes) && old(nodes)[id] != Node(inst, obj) :: old(nodes)[id]
    {
      var node := Node(inst, obj);
      found := node in nodes.Values;
      nodes := map id | id in nodes && nodes[id] != node :: nodes[id];
    }
  }
}
