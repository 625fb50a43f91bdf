# Content-graph engine: a Dafny model

The backend stores a site as three kinds of JSON records, each under a
numeric id:

- a **node** is a position in the page tree. It has a `ref_id` plus `parent`,
  `previous` and `next` sibling pointers;
- a **reference** connects a node to a component. It may carry shallow
  config overrides;
- a **component** is one of 14 registered variants. The four containers
  (View, List, Inline, Style) carry `child_node_id`, the head of a
  doubly-linked chain of child nodes.

This project models that engine as pure functions over an immutable
`Store` of three maps. The record files become map entries. A component is
keyed by its (type tag, id) pair, because every type has its own directory.

Modules, in dependency order:

- `Wrappers`: `Option` and `Result`.
- `Values`: the JSON values, the typed `dict.get` accessors and Python
  truthiness of ids.
- `Components`, `Containers`, `Units`, `Media`, `Leaf`, `NodeEntity`,
  `ReferenceEntity` and `Registry`: the entity classes. Each has its
  `get_config`, `to_dict` and `from_dict`, and `Registry` adds the
  `component_from_dict` tag dispatch.
- `Database`: the store, its loads and saves, the first-hit component scan
  and the bookkeeping invariant `Counted`. `Counted` means every record sits
  under its own key, no component id is stored under two tags, and every
  `reference_count` equals the number of live references.
- `RefCounting`: the four functions that create and delete references and
  adjust counts, plus the component delete refusal.
- `NodeTree`: `delete_node`, `_delete_node_tree` and `move_node`, together
  with the sibling-symmetry invariant.
- `Chains`: the walk along `next` pointers.
- `Resolution`: `resolve_node`.
- `Integrity`: `validate_integrity` and `get_component_usages`.
- `NodeRoutes`: the graph logic of `add_child_to_node`, `create_node` and
  `update_node_endpoint`.
- `Transactions`: the rollback log `AtomicTransaction` and `atomic_write`.

Three things the code does, which the model follows:

- Every pointer test is a Python truthiness test, so an id of 0 acts like
  None.
- None of the walks has a cycle guard.
- The route handlers change the records through a sequence of independent
  saves.

The model keeps all three. Each fresh id, and each timestamp, is a
parameter of the operation that uses it.

## Model

| member | source | states |
|---|---|---|
| Components.HasChildren | backend/entities/component.py:86-88 | A container has children exactly when `child_node_id` is not None, so a child id of 0 counts. |
| Components.IncrementReferenceCount | backend/entities/component.py:41-45 | The count grows by exactly one. Id, body and creation time are kept, and the update time becomes the current time. |
| Components.DecrementReferenceCount | backend/entities/component.py:47-54 | A positive count drops by one. A count at or below zero leaves the component untouched, so a non-negative count never goes negative. |
| Components.BaseDict | backend/entities/component.py:32-39 | The base dictionary has exactly the keys comp_id, type, reference_count, created_at and updated_at, holding the component's id, class tag and count. |
| Components.MediaConfig | backend/entities/component.py:113-117 | The shared media config is exactly `{src}`. |
| Containers.ContainerConfig | backend/entities/containers.py:47-213 | Each container's config contains `child_node_id`, and has exactly the key set of its variant. |
| Containers.ParseViewContainer | backend/entities/containers.py:60-77 | Parsing succeeds exactly when each present field has its JSON type: strings for path, name, title and browser_title, string or null for description, a list of integers for tag_ids, integer or null for child. So an empty config parses, and the result defaults path, name, title and browser_title to '', description to None, tag_ids to [] and child to None. |
| Containers.ParseListContainer | backend/entities/containers.py:122-137 | Parsing succeeds exactly when each present field has its JSON type (strings, string or null for name, a boolean for show_name, integer or null for child). The result defaults list_type to 'View', display_mode to 'list', name to None, show_name to True and child to None. |
| Containers.ParseInlineContainer | backend/entities/containers.py:168-179 | Parsing succeeds exactly when `child_node_id` is absent, null or an integer. An absent child defaults to None. |
| Containers.ParseStyleContainer | backend/entities/containers.py:215-227 | Parsing succeeds exactly when `is_transparent` is absent or a boolean and `child_node_id` is absent, null or an integer. The defaults are False and None. |
| Containers.ContainerConfigRoundTrip | backend/entities/containers.py:38-77 | Every container, including its child pointer, parses back from its own config unchanged. This holds for all four variants (lines 102-137, 152-179 and 198-227 as well). |
| Units.UnitConfig | backend/entities/units.py:39-44 | Unit config keys: {text, level} for SectionUnit, {content} for PlainTextUnit and MarkdownUnit, {content, variant} for AlertUnit, {basic_link} for LinkUnit. |
| Units.ParseUnit | backend/entities/units.py:47-57 | For each of the five unit tags, parsing succeeds exactly when that tag's present fields have their JSON types; any other tag is a ValueError. A parsed unit carries the requested tag. Absent keys default to '' (text and content), 'h1' (level), 'info' (variant) and None (basic_link). |
| Units.UnitConfigRoundTrip | backend/entities/units.py:30-59 | Every unit variant parses back from its own config unchanged. |
| Media.MediaVariantConfig | backend/entities/media.py:40-46 | Each media config is `{src}` plus its variant's keys: alt and caption, autoplay, muted and controls, or title, height and display_title. |
| Media.ParseMedia | backend/entities/media.py:49-62 | For each of the three media tags, parsing succeeds exactly when that tag's present fields have their JSON types; any other tag is a ValueError. A parsed media unit carries the requested tag. The defaults are src '', autoplay False, muted False, controls True, height '600px' and display_title True; alt, caption and title default to None. |
| Media.MediaConfigRoundTrip | backend/entities/media.py:31-62 | Every media variant parses back from its own config unchanged. |
| Leaf.LeafConfig | backend/entities/leaf.py:47-56 | ExperienceComponent's config is exactly {position, company, start_date, end_date, image, content}; TagListComponent's is {custom_tags}. |
| Leaf.ParseLeaf | backend/entities/leaf.py:59-75 | For both leaf tags, parsing succeeds exactly when the present fields have their JSON types (custom_tags a list of strings); any other tag is a ValueError. A parsed leaf is not a container. Its strings default to '', image to None and custom_tags to []. |
| Leaf.LeafConfigRoundTrip | backend/entities/leaf.py:38-75 | Both leaf variants parse back from their own config unchanged. |
| NodeEntity.NodeToDict | backend/entities/node.py:35-44 | A node's dictionary has exactly the seven node keys, with its id and ref_id. |
| NodeEntity.NodeFromDict | backend/entities/node.py:49-61 | Reading succeeds exactly when node_id and ref_id are present integers, each pointer is absent, null or an integer, and each timestamp is absent or a string. So a missing node_id or ref_id is an error. Absent pointers default to None, and absent timestamps default to the current time. |
| NodeEntity.NodeRoundTrip | backend/entities/node.py:35-61 | Every node, with all seven fields, reads back from its own dictionary. |
| ReferenceEntity.ReferenceToDict | backend/entities/reference.py:33-44 | A reference's dictionary has exactly the six reference keys, and `overrides` is null when absent. |
| ReferenceEntity.ReferenceFromDict | backend/entities/reference.py:46-57 | Reading succeeds exactly when ref_id, node_id and comp_id are present integers, overrides is absent, null or an object, and each timestamp is absent or a string. The three ids are taken from the document. Absent overrides default to None. |
| ReferenceEntity.ReferenceRoundTrip | backend/entities/reference.py:33-57 | Every reference, including overrides and timestamps, reads back from its own dictionary. |
| ReferenceEntity.MergeConfig | backend/entities/reference.py:59-75 | No overrides gives the base config. Otherwise the keys are base ∪ overrides, override values win wholesale, and every other key keeps its base value. |
| ReferenceEntity.MergeEmptyOverrides | backend/entities/reference.py:69-70 | Empty overrides give back the base config. |
| ReferenceEntity.MergeIdempotent | backend/entities/reference.py:72-74 | Merging the merged config again with the same reference changes nothing. |
| Registry.GetConfig | backend/entities/__init__.py:69-84 | The config has `child_node_id` exactly for the container variants. |
| Registry.ComponentToDict | backend/entities/containers.py:38-45 | `to_dict` is the base dictionary plus `config`. The `config` is the variant's `get_config()`, and `type` is the class tag. |
| Registry.ComponentFromDict | backend/entities/__init__.py:86-96 | A missing, non-string or unregistered type is a ValueError rather than a default. A parsed component carries the tag it was asked for and the document's comp_id. A missing comp_id is an error, and an absent count defaults to 0. Reading succeeds exactly when the tag is registered, config is absent or an object, comp_id is a present integer, the count and timestamps have their JSON types, and the variant's own parser accepts the config. |
| Registry.TypeNamesRegistered | backend/entities/__init__.py:69-84 | Every variant's tag is registered, and it is one of the four container tags exactly when the variant is a container. |
| Registry.RegistryShape | backend/entities/__init__.py:69-84 | The registry holds exactly 14 distinct tags. A container tag parses only to a container, and any other tag parses only to a non-container. |
| Registry.ComponentRoundTrip | backend/entities/__init__.py:86-96 | `component_from_dict(c.to_dict())` reconstructs every component of every variant. |
| Registry.ParseBodyRoundTrip | backend/entities/__init__.py:92-96 | Dispatching a variant's own tag and config yields that variant back. |
| Database.FirstHit | backend/database.py:421-428 | The scan finds nothing exactly when no scanned tag stores the id. Otherwise it finds the first tag, in scan order, that does. |
| Database.LoadComponentById | backend/database.py:421-428 | The result is None exactly when no registered tag stores the id. Otherwise it is a stored component. |
| Database.FindUnique | backend/database.py:421-428 | When ids are unique across tags, the scan finds the one key that holds the id. |
| Database.FirstHitSameKeys | backend/database.py:421-428 | The scan depends only on which keys exist, so rewriting a component's contents never changes what it finds. |
| RefCounting.IncrementComponentRefCount | backend/database.py:467-475 | Succeeds exactly when a component with the id loads. Otherwise nothing is written. Nodes, references, component keys and bodies are unchanged. |
| RefCounting.DecrementComponentRefCount | backend/database.py:478-486 | Succeeds exactly when a component with the id loads. Otherwise nothing is written. Nodes, references, component keys and bodies are unchanged. |
| RefCounting.IncrementCounts | backend/database.py:467-475 | Exactly the component with that id gains one; every other count is unchanged. |
| RefCounting.DecrementCounts | backend/database.py:478-486 | Exactly the component with that id loses one, floored at zero; every other count is unchanged. |
| RefCounting.CreateReferenceToComponent | backend/database.py:392-403 | The new reference is saved under its id whether or not its component exists. When the component is missing, no component is written. |
| RefCounting.CreateReferenceCounts | backend/database.py:392-403 | On a well-keyed store with unique component ids, the component with the target id gains exactly one, every other count is unchanged, and no component key or body changes. |
| RefCounting.CreateReferenceKeepsCountsExact | backend/database.py:392-403 | Creating a fresh reference keeps every reference count equal to the number of live references. |
| RefCounting.DeleteReference | backend/database.py:371-378 | Succeeds exactly when the reference exists, and then removes it. On a missing id nothing is written. Nodes are never touched. |
| RefCounting.DeleteReferenceCounts | backend/database.py:371-378 | Deleting an existing reference takes exactly one from its component's count, floored at zero, and leaves every other count, key and body unchanged. |
| RefCounting.DeleteReferenceShrinks | backend/database.py:371-378 | Deleting a reference changes no surviving node or reference and no component body. |
| RefCounting.DeleteReferenceKeepsCountsExact | backend/database.py:371-378 | Deleting a reference keeps every reference count exact. |
| RefCounting.DeleteComponent | backend/routes/components.py:145-161 | The delete happens exactly when the tag is registered, the component exists and its count is not positive. A component with active references is refused, and a refusal writes nothing. |
| NodeTree.DeleteNode | backend/database.py:256-267 | Succeeds exactly when the node exists, and then removes it and its reference (when `ref_id` is non-zero). No other node is touched, so neighbours are not repaired. |
| NodeTree.DeleteNodeShrinks | backend/database.py:256-267 | Deleting a node leaves every other node and every component body as it was. |
| NodeTree.DeleteNodeKeepsCountsExact | backend/database.py:256-267 | Deleting a node keeps every reference count exact. |
| NodeTree.DeleteNodeTree | backend/database.py:270-289 | When the call finishes, the node is gone. A missing node changes nothing, and no node is ever added. |
| NodeTree.DeleteNodeTreeKeeps | backend/database.py:270-289 | Any property of the store that `delete_node` keeps, recursive deletion keeps too, whether the call finishes or stops early. |
| NodeTree.DeleteNodeTreeShrinks | backend/database.py:270-289 | Recursive deletion removes only nodes and references. Every component survives with its body. |
| NodeTree.DeleteNodeTreeKeepsCountsExact | backend/database.py:270-289 | Recursive deletion keeps every reference count exact. |
| NodeTree.DeleteNodeTreeRemovesChain | backend/database.py:276-279 | A deletion that finishes has removed every node reachable from the start node along `next`. |
| NodeTree.DeleteNodeTreeFinishes | backend/database.py:270-289 | When `next` pointers and child links never lead back (a rank witnesses it), the deletion finishes once its depth exceeds the start node's rank by two. |
| NodeTree.DeleteNodeTreeKeepsRefs | backend/database.py:256-289 | When no two nodes share a `ref_id`, every node that survives still has its reference. |
| NodeTree.DeleteNodeTreeRemovesReach | backend/database.py:270-289 | On such an acyclic store with distinct `ref_id`s, the deletion finishes and removes every node it could visit: the rest of the sibling chain and, recursively, the child chains of every container those nodes reference. |
| NodeTree.CycleDeletesNothing | backend/database.py:270-289 | On a two-node sibling cycle the recursion never reaches a delete, so the failed call leaves the store exactly as it was. |
| NodeTree.DeleteNodeTreeKeepsUnreached | backend/database.py:270-289 | A node reachable neither along `next` nor through a container's child chain survives unchanged. That includes nodes before the start node in its chain. |
| NodeTree.MoveNode | backend/database.py:303-339 | Succeeds exactly when the node exists. A missing node writes nothing, and references and components are never touched. |
| NodeTree.UnlinkDetaches | backend/database.py:311-320 | Splicing the old neighbours together leaves every other node symmetric, with none pointing at the moved node. |
| NodeTree.LinkAfterRestores | backend/database.py:322-339 | Linking a detached node after an existing node, or after none, restores sibling symmetry. |
| NodeTree.MovePreservesSymmetry | backend/database.py:303-339 | Moving a node after None, or after an existing node other than itself, preserves sibling symmetry. |
| NodeTree.MoveInTwoCycle | backend/database.py:303-339 | A symmetric store without self-links, whose two nodes are each other's `prev` and `next`, loses symmetry when node 1 is moved to no place. |
| NodeTree.MoveNodeEffects | backend/database.py:303-339 | The moved node gets the new parent, prev = the after-node and next = the after-node's successor. The after-node and that successor point back at it, and its reference is unchanged. |
| Chains.LastInChainIsChainEnd | backend/routes/nodes.py:259-268 | The append walk ends exactly at the last id of the sibling chain, and it loops forever exactly when the chain does. |
| Resolution.Resolve | backend/database.py:758-801 | A resolved node carries its node, reference and component ids, its class tag and the config merged with the reference's overrides. A component with no child chain has no children. |
| Resolution.ResolveMissing | backend/database.py:761-774 | Resolution gives None exactly when the node, its reference or its component is missing. |
| Resolution.ResolvedChildrenFollowChain | backend/database.py:780-798 | The children are exactly the resolvable nodes of the child chain, in chain order. Nodes that fail to resolve are skipped. |
| Resolution.CollectGivesUp | backend/database.py:785-787 | Resolving a chain fails exactly when one of its nodes' resolution does not end. A node that resolves to None is just skipped. |
| Resolution.CollectAllResolved | backend/database.py:780-798 | When every node of a chain resolves, there is one child per node, in order. |
| Integrity.NodeDiagnostics | backend/database.py:886-894 | A node gets an error for a missing `ref_id`, and one for each truthy parent, previous or next pointer that names no node. It gets at most four. |
| Integrity.ValidateEmptyIffConsistent | backend/database.py:880-913 | The error list is empty exactly when these all hold: every node's reference exists, every truthy pointer names a node, every reference's component exists, and every count equals the number of references to it. |
| Integrity.NodeErrorsEmptyIff | backend/database.py:886-894 | No node error is reported exactly when every node's reference exists and none of its truthy pointers dangles. |
| Integrity.RefErrorsEmptyIff | backend/database.py:896-899 | No reference error is reported exactly when every reference's component is stored under some registered tag. |
| Integrity.CountErrorsEmptyIff | backend/database.py:901-910 | No count error is reported exactly when every component's count equals the number of references carrying its id. |
| Integrity.ExactCountsReportNoMismatch | backend/database.py:901-910 | A store whose counts are exact reports no count mismatch. |
| Integrity.GetComponentUsages | backend/database.py:861-877 | The usages are exactly the pairs (ref_id, node id) of the live references to the component whose truthy `node_id` names a stored node: every listed usage comes from one, and every one is listed. |
| Integrity.UsagesBoundedByCount | backend/database.py:861-877 | With exact counts, a component has no more usages than its reference count. |
| NodeRoutes.ZeroIdBreaksMove | backend/entities/base.py:15-24 | The id range as drawn includes 0. A store with a node 0 that is symmetric and acyclic loses symmetry when node 5 is moved to no place. |
| NodeRoutes.AddChildKeepsZeroOut | backend/entities/base.py:15-24 | With ids drawn from 1..2^32-1, adding a child never creates a node with id 0. |
| NodeRoutes.ParentContainer | backend/routes/nodes.py:253-255 | The parent's component is returned only when it is a stored container. |
| NodeRoutes.InsertionPoint | backend/routes/nodes.py:257-268 | A truthy after-node, or a container with no truthy first child, keeps the requested place. Otherwise the new node goes after the last id of the chain, and the walk never ends exactly when the chain loops. |
| NodeRoutes.AddChild | backend/routes/nodes.py:217-320 | A missing parent is NotFound, and a missing, empty or unregistered type is BadRequest; neither writes anything. Success returns the new node's id, with the node and its reference stored. |
| NodeRoutes.NewComponent | backend/routes/nodes.py:243-248 | The new component has the drawn id, count 0 and the requested tag. An unregistered tag is a ValueError. |
| NodeRoutes.AddChildRecords | backend/routes/nodes.py:243-251 | After a successful add, the new component ends with count 1. Its reference, with `node_id` 0, is the only new reference, so the component has no usages. |
| NodeRoutes.AddChildLinks | backend/routes/nodes.py:270-298 | The new node gets parent = the parent node, prev = the insertion point and next = that node's former next. Exactly those two neighbours are pointed at it, and every other pointer is unchanged. |
| NodeRoutes.AddChildPreservesSymmetry | backend/routes/nodes.py:270-298 | Adding a child keeps sibling symmetry and creates no self-link. |
| NodeRoutes.AddChildFirstChild | backend/routes/nodes.py:300-303 | The parent container's `child_node_id` becomes the new node only when it was falsy. No other existing component changes, and exactly one component is added. |
| NodeRoutes.AddChildKeepsCountsExact | backend/routes/nodes.py:243-303 | Adding a child keeps every reference count exact. |
| NodeRoutes.CreateNode | backend/routes/nodes.py:60-98 | A truthy ref_id must exist (else NotFound). Without one, comp_id and a type are required (BadRequest), the type must be registered (BadRequest) and the component must exist (NotFound), and a new reference is created. The node is saved with the given pointers, no neighbour is updated, and a failure writes nothing. |
| NodeRoutes.CreateNodeKeepsCountsExact | backend/routes/nodes.py:60-98 | Creating a node keeps every reference count exact. |
| NodeRoutes.UpdateNode | backend/routes/nodes.py:145-155 | A missing node is NotFound and writes nothing. Otherwise each of ref_id, parent, previous and next is replaced only when given and kept otherwise, and no other record changes. |
| NodeRoutes.UpdateNodeIdempotent | backend/routes/nodes.py:145-155 | Applying the same patch twice has the same effect as applying it once. |
| Transactions.TrackCreate | backend/database.py:189-191 | The path joins the created list, and nothing else changes. |
| Transactions.TrackModify | backend/database.py:193-196 | The path gains a pre-image only when it had none, so the first pre-image is kept and the others are unchanged. |
| Transactions.Rollback | backend/database.py:198-206 | After a rollback, created paths are gone unless they also have a pre-image. Every tracked path holds its first pre-image, and untracked files are untouched. |
| Transactions.RollbackRestores | backend/database.py:198-206 | Rolling back a truthfully kept log gives back exactly the files the transaction began with. |
| Transactions.RunTracks | backend/database.py:189-196 | Tracking each write truthfully before saving it keeps the log truthful. |
| Transactions.AtomicWrite | backend/database.py:213-225 | Success leaves the written files, and commit writes nothing. An exception rolls the log back. |
| Transactions.AtomicWriteFailureRestores | backend/database.py:213-225 | A failed `atomic_write` whose writes were tracked truthfully leaves the files exactly as they were. |

## Left out

- File I/O, JSON text, temporary-file renames and the process-wide lock
  (backend/database.py:85-177). Records are map entries, and each operation
  is one sequential step.
- Timestamps. `current_timestamp` reads the wall clock. Here it is a
  string `now` passed to each operation.
- Random ids. `generate_id` draws from a random source, so each drawn id is
  a parameter. `NodeRoutes.FreshIds` assumes the drawn ids collide with no
  stored record; the source never checks this.
- JSON field types. `from_dict` in the source stores whatever value a
  field holds. The model's parsers reject a field of the wrong JSON type
  with a TypeError, and each parser's contract says exactly which
  documents it accepts. The round-trip lemmas are about well-typed
  documents.
- Integrity.ValidateIntegrity: returns the set of error messages. The
  source returns a list, so the order of the messages and repeated
  messages are not modelled.
- Class constructor defaults. A new component's count of 0 and a new
  container's empty child are stated through the `from_dict` defaults
  (`Registry.ComponentFromDict`, `Containers.Parse*`), not as separate
  constructors. The same goes for `Node()` (backend/entities/node.py:29-33:
  ref_id 0 and no pointers) and `Reference()`
  (backend/entities/reference.py:28-31: node_id 0, comp_id 0, no
  overrides). The model's records are always built with every field
  given, and the routes pass the values the source's calls leave at these
  defaults, such as a new reference's `node_id` of 0.
- NodeTree.DeleteNodeTree: the source recurses with no bound and ends in
  Python's recursion error on a cycle or a very deep tree. The model takes
  a `fuel` depth bound and reports whether the call finished. Once the
  bound runs out, every pending step is skipped and the deletions already
  made stay made, as with the propagating error; on a sibling cycle
  nothing at all is deleted (`NodeTree.CycleDeletesNothing`). How deep
  Python's own stack goes is not modelled.
- NodeTree.DeleteNodeTreeRemovesReach: requires that no two nodes share a
  `ref_id` and that a rank witnesses acyclicity. Every route creates a
  fresh reference per node, but the source never checks it.
- NodeTree.MovePreservesSymmetry and NodeTree.MoveNodeEffects: both
  require `LocallyAcyclic` (no node's `prev` equals its `next`) and no node
  with id 0. Without the first, a two-node cycle loses symmetry
  (`NodeTree.MoveInTwoCycle`); without the second, see
  `NodeRoutes.ZeroIdBreaksMove`.
- NodeRoutes.AddChildPreservesSymmetry and NodeRoutes.AddChildKeepsZeroOut:
  require the drawn node id to be at least 1 (`GeneratedId`). The source
  draws from 0 upward; see Findings.
- Resolution.Resolve: the source recurses and loops with no bound. The
  model takes a nesting `fuel` and a visited set on each chain, and reports
  `Exhausted` where the source would not terminate.
- NodeRoutes.AddChild: the append walk in the source has no cycle guard.
  The model returns `Err(Diverges)` where the source loops forever, with
  the component and reference writes already made.
- The HTTP 500 path taken on any other exception, and all request parsing.
  The request body is a datatype.
- Settings, navigation, themes, tags, site config, experiences, export,
  legacy SQLite code and every other route.
- Concurrency between the separately locked record operations.
- The routes do not use `atomic_write`, so their failures are not rolled
  back; the `Transactions` module models the helper on its own.
- Transactions.RollbackRestores: holds only for a caller that tracks each
  write truthfully before saving it (`Honest`). The source does not enforce
  this.
- merge_config's copy: Dafny maps are values, so never mutating the base
  config holds by construction and needs no lemma.
- Differences from the written design, where the model follows the code:
  - The design calls a reference's `node_id` a back-pointer to its node.
    `add_child_to_node` and `create_node` both leave it at 0.
  - The design expects sibling symmetry after any `create`. `create_node`
    saves the new node with the pointers it is given and updates no
    neighbour, so symmetry after it depends on the caller.
  - The design's ordering example expects `move(Y, after=null)` to make Y
    the first child. In the code Y is left with no siblings, and no
    container's `child_node_id` changes, so Y drops out of its parent's
    resolved children.
  - The design expects `load(save(x)) == x` including timestamps. Every
    save stamps `updated_at`, so the round trips here are stated for
    `to_dict`/`from_dict`, and the save functions set `updatedAt := now`.

## Findings

| source | as written | input that shows it | evidently intended | confidence | as-written member | corrected member |
|---|---|---|---|---|---|---|
| backend/entities/base.py:15-24 | `generate_id` draws from 0 to 0xFFFFFFFF, so 0 is a possible id. | A store where node 0 has `next` = 5 and node 5 has `previous` = 0 (`NodeRoutes.ZeroStore`). Moving node 5 to no place leaves node 0's `next` pointing at node 5, while node 5 no longer points back: `move_node` treats `previous_node_id` 0 as "no neighbour". | Ids from 1 to 0xFFFFFFFF, because every pointer test reads 0 as None. | not executed | NodeRoutes.ZeroIdBreaksMove | NodeRoutes.AddChildKeepsZeroOut |
