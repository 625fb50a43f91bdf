/**
 * Walking a sibling chain along `next` pointers, as the resolver
 * (backend/database.py, `resolve_node`) and the append logic of
 * `add_child_to_node` (backend/routes/nodes.py) both do. Neither walk has a
 * cycle guard: reaching a node a second time means the source loops forever,
 * which these functions report instead.
 */
module Chains {
  import opened Wrappers
  import opened Values
  import opened NodeEntity
  import opened Database

  /** Visiting an unvisited node leaves fewer nodes to visit. */
  lemma VisitShrinks(keys: set<Id>, visited: set<Id>, id: Id)
    requires id in keys && id !in visited
    ensures |keys - (visited + {id})| < |keys - visited|
  {
    assert keys - visited == (keys - (visited + {id})) + {id};
  }

  /**
   * The ids a walk from `cur` visits, in order: it stops after a falsy
   * pointer or after an id with no node (that id is still visited), and is
   * None when it would come back to a node of `visited` — forever.
   */
  function ChainIds(s: Store, cur: Option<Id>, visited: set<Id>): (r: Option<seq<Id>>)
    ensures r.Some? ==> forall i | 0 <= i < |r.value| :: r.value[i] != 0 && r.value[i] !in visited
    ensures r.Some? ==> (|r.value| == 0 <==> !Truthy(cur))
    ensures r.Some? && Truthy(cur) ==> r.value[0] == cur.value
    ensures r.Some? ==> forall i | 0 <= i < |r.value| - 1 :: r.value[i] in s.nodes && s.nodes[r.value[i]].next == Some(r.value[i + 1])
    ensures r.Some? && |r.value| > 0 ==>
      var last := r.value[|r.value| - 1];
      last !in s.nodes || !Truthy(s.nodes[last].next)
    decreases |s.nodes.Keys - visited|
  {
    if !Truthy(cur) then Some([])
    else
      var id := cur.value;
      if id in visited then None
      else if id !in s.nodes then Some([id])
      else
        VisitShrinks(s.nodes.Keys, visited, id);
        match ChainIds(s, s.nodes[id].next, visited + {id})
        case None => None
        case Some(rest) => Some([id] + rest)
  }

  /**
   * The walk of `add_child_to_node` that finds where to append: from a
   * truthy id, stop at the first id that has no node or whose `next` is
   * falsy. None when the walk never ends.
   */
  function LastInChain(s: Store, cur: Id, visited: set<Id>): (r: Option<Id>)
    requires cur != 0
    ensures r.Some? ==> r.value != 0 && (r.value !in s.nodes || !Truthy(s.nodes[r.value].next))
    decreases |s.nodes.Keys - visited|
  {
    if cur in visited then None
    else if cur !in s.nodes || !Truthy(s.nodes[cur].next) then Some(cur)
    else
      VisitShrinks(s.nodes.Keys, visited, cur);
      LastInChain(s, s.nodes[cur].next.value, visited + {cur})
  }

  /** The append walk ends exactly at the last id of the chain, and loops exactly when the chain does. */
  lemma {:induction false} LastInChainIsChainEnd(s: Store, cur: Id, visited: set<Id>)
    requires cur != 0
    ensures LastInChain(s, cur, visited).Some? <==> ChainIds(s, Some(cur), visited).Some?
    ensures ChainIds(s, Some(cur), visited).Some? ==>
      var ids := ChainIds(s, Some(cur), visited).value;
      LastInChain(s, cur, visited) == Some(ids[|ids| - 1])
    decreases |s.nodes.Keys - visited|
  {
    if cur !in visited && cur in s.nodes && Truthy(s.nodes[cur].next) {
      VisitShrinks(s.nodes.Keys, visited, cur);
      LastInChainIsChainEnd(s, s.nodes[cur].next.value, visited + {cur});
    }
  }
}
