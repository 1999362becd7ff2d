# Unique-name lookup of the SAPIEN environment base class

This project models the name-lookup utilities of `SapienEnv`, the base
class of the reinforcement-learning examples in the SAPIEN documentation.
`get_actor(name)` and `get_articulation(name)` ask the simulation scene for
all of its actors (or articulations), keep the ones whose `name` equals the
query, and then decide on how many were kept:

- more than one: raise `RuntimeError("Not a unique name for actor: <name>")`
  (`... for articulation: <name>`), even though matches exist;
- none: raise `RuntimeError("Actor not found: <name>")`
  (`Articulation not found: <name>`);
- exactly one: return it.

Names are not required to be unique in the engine, so the lookup is a
convenience on top of the scene, not part of its identity model.

The model has two modules:

- `NameLookup` (`name_lookup.dfy`) states the procedure once, generically
  over the member type `T` and the way a member's name is read
  (`nameOf: T -> string`). `Matching` is the filtering list comprehension,
  `Lookup` the count-based decision with outcome
  `Found(entry) | NotFound | NotUnique`. The laws are stated against an
  independent account of the matches: the set of matching positions
  `MatchIndices`, and the predicates `NoMatch`, `UniqueAt(i)` and
  `TwoMatches` over list positions.
- `SapienEnv` (`sapien_env.dfy`) holds the scene members (`Actor`,
  `Articulation`, each an identity plus a name), the `Scene` value the
  environment reads its two lists from, and `GetActor` / `GetArticulation`,
  which instantiate `Lookup` and turn its failures into a
  `RuntimeError(message)` with the exact messages of the code.

Both lookups are read-only: they are functions of the scene's lists and the
query, so neither the lists nor any other part of the environment can change,
whatever the outcome. The code raises the same `RuntimeError` for both
failures; the model follows it, so they differ only in their message.

## Model

| member | source | states |
|---|---|---|
| `NameLookup.Matching` | docs/user_guide/rl/scripts/sapien_env.py:53 | every kept member comes from the list and carries the queried name; every list member carrying the name is kept; the result is no longer than the list |
| `NameLookup.MatchingMultiset` | docs/user_guide/rl/scripts/sapien_env.py:53 | each member carrying the queried name is kept exactly as many times as the list holds it, and no other member is kept: nothing is dropped, repeated or added |
| `NameLookup.MatchingCount` | docs/user_guide/rl/scripts/sapien_env.py:53 | the number of kept members equals the number of list positions holding the queried name |
| `NameLookup.Lookup` | docs/user_guide/rl/scripts/sapien_env.py:53-58 | the outcome depends only on how many positions match: none gives not found, one gives found, more than one gives not unique (mutually exclusive, exhaustive); a found member is in the list and carries the name |
| `NameLookup.LookupUnique` | docs/user_guide/rl/scripts/sapien_env.py:53-58 | when exactly one position holds the name, the lookup returns the member at that position |
| `NameLookup.LookupFoundIsUnique` | docs/user_guide/rl/scripts/sapien_env.py:52-58 | whatever the lookup returns is the member at the one and only position holding the name |
| `NameLookup.LookupNotFound` | docs/user_guide/rl/scripts/sapien_env.py:56-57 | the lookup fails with not found if and only if no member carries the name |
| `NameLookup.LookupNotUnique` | docs/user_guide/rl/scripts/sapien_env.py:54-55 | the lookup fails with not unique if and only if two different positions carry the name |
| `NameLookup.LookupLaws` | docs/user_guide/rl/scripts/sapien_env.py:53-58 | the four laws together, generic in the member type; both lookups call it |
| `SapienEnv.GetActor` | docs/user_guide/rl/scripts/sapien_env.py:51-58 | a returned actor is in the scene's actor list, carries the name and is its only holder; a unique holder is always returned; "Actor not found: name" exactly when no actor has the name; "Not a unique name for actor: name" exactly when two do; no other outcome |
| `SapienEnv.GetArticulation` | docs/user_guide/rl/scripts/sapien_env.py:60-67 | the same laws over the scene's articulation list, with "Articulation not found: name" and "Not a unique name for articulation: name" |

## Left out

- The simulation engine itself: how the scene produces `get_all_actors()` and `get_all_articulations()` is not visible, so the two lists are inputs (fields of `Scene`).
- Python object identity: an actor or articulation is identified by an explicit `id`; a list that holds the same object twice counts it twice, as the comprehension does.
- `SapienEnv.__init__`, `seed`, `close`, `render`, `_build_world`, `_setup_viewer`: engine construction, gymnasium random seeding and viewer creation and drawing, all calls into libraries that are not part of this model.
- `SapienEnv.dt`: a floating-point product of the timestep and the control frequency, with nothing to state beyond the product.
- The tutorial scripts (actor and articulation building, physics stepping, contacts, cameras, ray-tracing materials, robot loading) and `docs/conf.py`: they drive the engine or a renderer through foreign calls, compute with floating point on engine outputs, or are static configuration.
- The error messages are built from a string query; Python's f-string would also format a query of another type, which the model does not cover.
