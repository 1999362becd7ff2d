/**
 The name-lookup utilities of the reinforcement-learning environment base
 class (`SapienEnv`): `get_actor` and `get_articulation`.

 The simulation engine's scene is seen only through the two lists it hands
 out, all actors and all articulations; both are inputs here. Each scene
 member carries an identity (the engine object it stands for) and a name,
 which the engine does not require to be unique. A lookup that cannot
 answer raises a runtime error whose message names the query.
 */
module SapienEnv {
  import opened NameLookup

  /** A rigid actor of the scene: its identity and its (not necessarily unique) name. */
  datatype Actor = Actor(id: nat, name: string)

  /** An articulation of the scene: its identity and its (not necessarily unique) name. */
  datatype Articulation = Articulation(id: nat, name: string)

  /** What the environment can ask its scene for: every actor and every articulation, in scene order. */
  datatype Scene = Scene(actors: seq<Actor>, articulations: seq<Articulation>)

  /** A lookup either answers or raises a runtime error carrying a message. */
  datatype Result<T> = Ok(value: T) | RuntimeError(message: string)

  function ActorName(a: Actor): string { a.name }

  function ArticulationName(a: Articulation): string { a.name }

  function ActorNotUniqueMessage(name: string): string { "Not a unique name for actor: " + name }

  function ActorNotFoundMessage(name: string): string { "Actor not found: " + name }

  function ArticulationNotUniqueMessage(name: string): string { "Not a unique name for articulation: " + name }

  function ArticulationNotFoundMessage(name: string): string { "Articulation not found: " + name }

  /** The actor named `name`, provided exactly one actor of the scene has that name. */
  function GetActor(scene: Scene, name: string): (r: Result<Actor>)
    ensures r.Ok? ==> r.value in scene.actors && r.value.name == name
    ensures r.Ok? ==> exists i :: UniqueAt(scene.actors, ActorName, name, i) && r.value == scene.actors[i]
    ensures forall i :: UniqueAt(scene.actors, ActorName, name, i) ==> r == Ok(scene.actors[i])
    ensures r == RuntimeError(ActorNotFoundMessage(name)) <==> NoMatch(scene.actors, ActorName, name)
    ensures r == RuntimeError(ActorNotUniqueMessage(name)) <==> TwoMatches(scene.actors, ActorName, name)
    ensures r.Ok? || r == RuntimeError(ActorNotFoundMessage(name)) || r == RuntimeError(ActorNotUniqueMessage(name))
  {
    LookupLaws(scene.actors, ActorName, name);
    assert ActorNotFoundMessage(name)[0] != ActorNotUniqueMessage(name)[0];
    match Lookup(scene.actors, ActorName, name)
    case NotUnique => RuntimeError(ActorNotUniqueMessage(name))
    case NotFound => RuntimeError(ActorNotFoundMessage(name))
    case Found(actor) => Ok(actor)
  }

  /** The articulation named `name`, provided exactly one articulation of the scene has that name. */
  function GetArticulation(scene: Scene, name: string): (r: Result<Articulation>)
    ensures r.Ok? ==> r.value in scene.articulations && r.value.name == name
    ensures r.Ok? ==> exists i :: UniqueAt(scene.articulations, ArticulationName, name, i) && r.value == scene.articulations[i]
    ensures forall i :: UniqueAt(scene.articulations, ArticulationName, name, i) ==> r == Ok(scene.articulations[i])
    ensures r == RuntimeError(ArticulationNotFoundMessage(name)) <==> NoMatch(scene.articulations, ArticulationName, name)
    ensures r == RuntimeError(ArticulationNotUniqueMessage(name)) <==> TwoMatches(scene.articulations, ArticulationName, name)
    ensures r.Ok? || r == RuntimeError(ArticulationNotFoundMessage(name)) || r == RuntimeError(ArticulationNotUniqueMessage(name))
  {
    LookupLaws(scene.articulations, ArticulationName, name);
    assert ArticulationNotFoundMessage(name)[0] != ArticulationNotUniqueMessage(name)[0];
    match Lookup(scene.articulations, ArticulationName, name)
    case NotUnique => RuntimeError(ArticulationNotUniqueMessage(name))
    case NotFound => RuntimeError(ArticulationNotFoundMessage(name))
    case Found(articulation) => Ok(articulation)
  }
}
