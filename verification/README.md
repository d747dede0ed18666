# RDMO domain taxonomy: derived paths and the save cascade

This project models the domain taxonomy of RDMO (`rdmo/domain/models.py`) in Dafny.
The taxonomy is a forest of `AttributeEntity` rows. Each row has a `key`, an optional `parent`,
an optional `uri_prefix` and `comment`, and an `is_attribute` flag. Each row also caches two
derived strings:

- `path`: the keys from the root down to the row, joined by `/` (`build_path`);
- `uri`: the URI prefix, then `/domain/`, then the path.

`save()` recomputes `path`, `uri` and the flag of the saved row. It writes the row, then saves
every child, and so recursively the whole subtree. `Attribute.save()` sets the flag first.
`clean()` computes the same path and then hands the instance to a uniqueness validator.

Modules:

- `Wrappers` (`wrappers.dfy`): `Option`, standing in for `None` and nullable columns.
- `PathText` (`paths.dfy`): joining keys with `/`, and splitting a path back into its keys.
- `Taxonomy` (`taxonomy.dfy`): the forest. Rows are addressed by index in an arena. A forest has
  every parent pointer inside the arena and no cycle: `WellFormed` asks every row to reach a root
  within as many steps as there are rows. The module defines ancestor chains, levels, children,
  subtrees, the path a key and parent denote (`PathOf`), and `build_path` itself as a loop (`BuildPath`).
- `Models` (`models.dfy`): entity rows and the store; `__str__`, `save()` with its recursive
  cascade, `Attribute.save()` and `clean()`; consistency of the cached fields.
- `Scenarios` (`scenarios.dfy`): the `demographics/subject/gender` chain as a worked instance.

A row is *consistent* (`Models.Consistent`) when three things hold. Its path is the root-first
join of its key chain. Its URI is `prefix(uri_prefix) + "/domain/" + path`. Its attribute flag
is set. `get_uri_prefix` is a parameter `prefix` of type `Option<string> -> string`, applied to
the row's own `uri_prefix`; the configured default prefix sits behind `None`.

Three facts about the code shape the model:

- `save()` runs no validator; the uniqueness validator runs only in `clean()`
  (`rdmo/domain/models.py:73-75`);
- nothing stops an `Attribute` from having children;
- the cascade is a depth-first recursion over `children.all()` (lines 69-71).

## Model

| member | source | states |
|---|---|---|
| `Taxonomy.BuildPath` | rdmo/domain/models.py:77-83 | the `while parent` loop stops on every forest and returns the keys of the parent's ancestor chain, root first, then the key, joined by `/` |
| `Taxonomy.PathOfRoot` | rdmo/domain/models.py:79-83 | with no parent the path is the key, unchanged |
| `Taxonomy.PathOfStep` | rdmo/domain/models.py:80-82 | the path under parent `p` is `p`'s own path, then `/`, then the key |
| `Taxonomy.Ancestors` | rdmo/domain/models.py:80-82 | the chain the loop walks: it starts at a root, each node's parent is the one before it, it ends at the given parent, and its length is that parent's level plus one |
| `Taxonomy.PathOfFrame` | rdmo/domain/models.py:78-83 | a path reads only the rows on its ancestor chain: two forests that agree there give the same path |
| `PathText.SplitJoin` | rdmo/domain/models.py:79-83 | splitting a joined path at `/` gives back the keys when no key contains `/`, as slug keys never do, so a path determines its key chain |
| `Taxonomy.ChildrenOf` | rdmo/domain/models.py:70 | `children.all()` lists exactly the rows whose parent is the node, each once, in ascending order |
| `Taxonomy.SubtreeSplit` | rdmo/domain/models.py:69-71 | a node's subtree is the node together with its children's subtrees, so the recursive save reaches exactly the subtree |
| `Taxonomy.SiblingSubtreesDisjoint` | rdmo/domain/models.py:70-71 | the subtrees of two distinct siblings do not overlap, so the cascade derives each descendant once |
| `Models.Str` | rdmo/domain/models.py:59-60 | `__str__` gives the URI when it is set and non-empty, the key otherwise |
| `Models.StrOfSaved` | rdmo/domain/models.py:59-64 | after a save, every row of the saved subtree prints as its derived URI |
| `Models.Derive` | rdmo/domain/models.py:63-65 | the derived row is consistent; key, parent, prefix and comment are kept; the flag is true exactly when it was true, so a null or false flag becomes false |
| `Models.SaveTree` | rdmo/domain/models.py:62-71 | saving a row and recursively its children keeps the number of rows and every key and parent |
| `Models.SaveTreeAt` | rdmo/domain/models.py:62-71 | after the recursive save, a row inside the subtree holds its derived fields and a row outside is untouched |
| `Models.SaveChildrenAt` | rdmo/domain/models.py:69-71 | saving a duplicate-free list of siblings in turn, in any order, derives exactly the rows below one of them and leaves the others untouched |
| `Models.SiblingOrderIrrelevant` | rdmo/domain/models.py:69-71 | any two duplicate-free listings of the same children, whatever their order, leave the same store after the cascade |
| `Models.Save` | rdmo/domain/models.py:62-71 | after `save()` every row of the subtree is consistent and keeps its flag's truth; keys and parents are as written; prefixes and comments are unchanged; rows outside the subtree equal the stored rows |
| `Models.SaveRestoresConsistency` | rdmo/domain/models.py:62-71 | from a fully consistent store, any save (rename, move or insert) leaves every row consistent again |
| `Models.SaveIdempotent` | rdmo/domain/models.py:62-71 | saving the saved row a second time changes nothing |
| `Models.SaveAttribute` | rdmo/domain/models.py:97-99 | after `Attribute.save()` the row is flagged as an attribute whatever the flag was, and is consistent. Apart from that flag it is exactly the row `AttributeEntity.save()` leaves, and every other row is what `AttributeEntity.save()` leaves |
| `Models.Clean` | rdmo/domain/models.py:73-75 | `clean()` changes only the path, and the validator's verdict is taken on the instance that already carries the new path |
| `Models.CleanAgreesWithSave` | rdmo/domain/models.py:63-75 | the path `clean()` assigns, from the stored ancestors, is the path `save()` stores for the same instance |
| `Scenarios.GenderPath` | rdmo/domain/models.py:77-83 | `gender` under `subject` under the root `demographics` has path `demographics/subject/gender` |
| `Scenarios.SaveMiddleOfChain` | rdmo/domain/models.py:62-71 | renaming the middle node of a three-node chain and saving it rewrites the leaf's path and URI with the new key, and leaves the root as it was |

## Left out

- `rdmo/projects/serializers/questionset.py`: serializer glue. `prev`, `next` and `progress` only
  call question-set manager methods whose code is not part of this model. The labels are
  translation defaults. `get_id_attribute` is one database lookup.
- `rdmo/management/assets/js/components/import/ImportView.js`: a user-interface component that
  only toggles flags.
- `rdmo/views/imports.py`: a declarative configuration for import helpers whose code is not part
  of this model.
- `get_uri_prefix`: its body is not part of this model. It is an arbitrary function of the row's
  `uri_prefix`, with the configured default behind it.
- `AttributeEntityUniquePathValidator`: its body is not part of this model. It is an arbitrary
  predicate on the cleaned instance, so "no two rows share a path" is not modelled.
- MPTT bookkeeping (`lft`, `rght`, `tree_id`, `level` columns), database persistence,
  transactions, `max_length` limits, and the `Meta` ordering, names and permissions.
- A null `key`: Python's string concatenation would fail on it. Keys are strings here.
- Stale in-memory parents: the model reads ancestors from the stored rows, as a fresh load would.
- Order of `children.all()`: the model saves children in ascending row index, not MPTT tree
  order. `Models.SiblingOrderIrrelevant` proves that any duplicate-free order of the same
  children gives the same store.
- Models.Save: requires that the edit leaves the parent relation acyclic. In the source,
  django-mptt's `save`, called at line 67, rejects a move under the node's own descendant with
  an error before the cascade starts. The model has no such error path; the requires drops it.
- Models.Save: models `save()` called without arguments. Arguments such as `update_fields` go
  only to the saved row's own database write (line 67), and they are not modelled.
- Models.Clean: requires that the stored rows form a forest. In the source, `build_path` would
  not stop on a stored cycle.
- `Attribute.__str__` (lines 94-95) is the same as `AttributeEntity.__str__`, modelled once as `Models.Str`.
