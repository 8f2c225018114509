/** The `Animation` class of asciiquarium.py together with the callbacks its
    entities carry: the entity list and its operations, the spawners that
    add entities, the death callbacks that `kill` runs, and the per-frame
    `animate` pass (update, delayed offscreen kills, collision detection,
    collision handlers). */
module Scene {
  import opened Wrappers
  import opened Entities
  import opened Collision
  import opened Text

  /** The animation state. The spawners' random choices are inputs: every
      spawning death callback takes the next batch of blueprints from
      `supply` (an empty batch is a choice that adds nothing, and an
      exhausted supply adds nothing either), and `dice` holds the outcomes
      of the test `random.randint(0, 100) > 97` in `fish_callback`.
      `nextId` is the identity the next constructed entity receives. */
  datatype World = World(
    entities: seq<Entity>,
    width: int,
    height: int,
    paused: bool,
    nextId: nat,
    supply: seq<seq<Blueprint>>,
    dice: seq<bool>)

  /** The screen, the pause flag and the remaining coin tosses are the same. */
  predicate SameScreen(w: World, r: World)
  {
    r.width == w.width && r.height == w.height && r.paused == w.paused
  }

  /** Some entity of the list has identity `id`. */
  predicate HasId(ents: seq<Entity>, id: nat)
  {
    exists k :: 0 <= k < |ents| && ents[k].id == id
  }

  /** The model's invariant: identities are distinct and all were issued
      before `nextId`. */
  predicate Valid(w: World)
  {
    && UniqueIds(w.entities)
    && forall k :: 0 <= k < |w.entities| ==> w.entities[k].id < w.nextId
  }

  // ---------------------------------------------------------------------
  // The entity list

  /** `add_entity`: append. */
  function AddEntity(w: World, e: Entity): (r: World)
    ensures r == w.(entities := r.entities)
    ensures |r.entities| == |w.entities| + 1 && r.entities[|w.entities|] == e
    ensures forall k :: 0 <= k < |w.entities| ==> r.entities[k] == w.entities[k]
  {
    w.(entities := w.entities + [e])
  }

  /** The position of the first entity with identity `id`, the one
      `list.remove` drops (an entity is only equal to itself). */
  function IndexOf(ents: seq<Entity>, id: nat): (r: Option<nat>)
    ensures r.None? <==> !HasId(ents, id)
    ensures r.Some? ==> r.value < |ents| && ents[r.value].id == id
    ensures r.Some? ==> forall k :: 0 <= k < r.value ==> ents[k].id != id
  {
    if ents == [] then None
    else if ents[0].id == id then Some(0)
    else
      match IndexOf(ents[1..], id)
      case None =>
        assert forall k :: 1 <= k < |ents| ==> ents[k] == ents[1..][k - 1];
        None
      case Some(k) => Some(k + 1)
  }

  /** `entities.remove(entity)` guarded by `entity in entities`. */
  function RemoveById(ents: seq<Entity>, id: nat): (r: seq<Entity>)
    ensures |r| == |ents| - (if HasId(ents, id) then 1 else 0)
  {
    if ents == [] then []
    else if ents[0].id == id then ents[1..]
    else
      assert HasId(ents, id) <==> HasId(ents[1..], id) by {
        if HasId(ents, id) {
          var k :| 0 <= k < |ents| && ents[k].id == id;
          assert ents[1..][k - 1] == ents[k];
        }
      }
      [ents[0]] + RemoveById(ents[1..], id)
  }

  /** Removal drops exactly the first entity with identity `id`, and
      nothing when there is none. */
  lemma {:induction false} RemoveByIdSpec(ents: seq<Entity>, id: nat)
    ensures IndexOf(ents, id).None? ==> RemoveById(ents, id) == ents
    ensures IndexOf(ents, id).Some? ==>
      var k := IndexOf(ents, id).value; RemoveById(ents, id) == ents[..k] + ents[k + 1..]
  {
    if ents != [] && ents[0].id != id {
      RemoveByIdSpec(ents[1..], id);
      var rest := RemoveById(ents[1..], id);
      assert RemoveById(ents, id) == [ents[0]] + rest;
      match IndexOf(ents[1..], id)
      case None =>
        assert ents == [ents[0]] + ents[1..];
      case Some(k) =>
        assert IndexOf(ents, id) == Some(k + 1);
        assert [ents[0]] + (ents[1..][..k] + ents[1..][k + 1..]) == ents[..k + 1] + ents[k + 2..];
    }
  }

  /** `remove_entity`: drop the entity if it is still listed. */
  function RemoveEntity(w: World, id: nat): (r: World)
    ensures r == w.(entities := r.entities)
    ensures HasId(w.entities, id) ==> |r.entities| == |w.entities| - 1
    ensures !HasId(w.entities, id) ==> r.entities == w.entities
  {
    RemoveByIdSpec(w.entities, id);
    w.(entities := RemoveById(w.entities, id))
  }

  /** `get_entities_by_type`: the entities of one type, in list order. */
  function EntitiesByType(ents: seq<Entity>, kind: string): (r: seq<Entity>)
    ensures |r| <= |ents|
    ensures forall k :: 0 <= k < |r| ==> r[k].kind == kind
  {
    if ents == [] then []
    else
      var rest := EntitiesByType(ents[1..], kind);
      if ents[0].kind == kind then [ents[0]] + rest else rest
  }

  /** The entities of type `kind` keep their multiplicities; no other
      entity is selected. */
  lemma {:induction false} EntitiesByTypeCount(ents: seq<Entity>, kind: string)
    ensures forall e :: multiset(EntitiesByType(ents, kind))[e] ==
                        if e.kind == kind then multiset(ents)[e] else 0
  {
    if ents != [] {
      EntitiesByTypeCount(ents[1..], kind);
      assert ents == [ents[0]] + ents[1..];
    }
  }

  /** An entity is selected exactly when it is listed and of type `kind`. */
  lemma EntitiesByTypeMember(ents: seq<Entity>, kind: string, e: Entity)
    ensures e in EntitiesByType(ents, kind) <==> e in ents && e.kind == kind
  {
    EntitiesByTypeCount(ents, kind);
    assert multiset(EntitiesByType(ents, kind))[e] > 0 <==> e in EntitiesByType(ents, kind);
    assert multiset(ents)[e] > 0 <==> e in ents;
  }

  /** Filtering by type distributes over concatenation, so the result keeps
      the list order. */
  lemma {:induction false} EntitiesByTypeConcat(a: seq<Entity>, b: seq<Entity>, kind: string)
    ensures EntitiesByType(a + b, kind) == EntitiesByType(a, kind) + EntitiesByType(b, kind)
  {
    if a != [] {
      EntitiesByTypeConcat(a[1..], b, kind);
      assert (a + b)[1..] == a[1..] + b;
      assert (a + b)[0] == a[0];
    } else {
      assert a + b == b;
    }
  }

  /** Appending a new entity and then removing it restores the world, when
      its identity was not already in use. */
  lemma RemoveAfterAdd(w: World, e: Entity)
    requires !HasId(w.entities, e.id)
    ensures RemoveEntity(AddEntity(w, e), e.id) == w
  {
    var ents := w.entities + [e];
    assert HasId(ents, e.id) by { assert ents[|w.entities|].id == e.id; }
    assert IndexOf(ents, e.id) == Some(|w.entities|);
    RemoveByIdSpec(ents, e.id);
    assert ents[..|w.entities|] + ents[|w.entities| + 1..] == w.entities;
  }

  // ---------------------------------------------------------------------
  // Spawning

  /** `anim.add_entity(Entity(anim, ...))` for one blueprint: the new
      entity takes the next identity. */
  function AddNew(w: World, c: Blueprint): (r: World)
    ensures r == w.(entities := r.entities, nextId := w.nextId + 1)
    ensures r.entities == w.entities + [Build(w.nextId, c)]
  {
    AddEntity(w, Build(w.nextId, c)).(nextId := w.nextId + 1)
  }

  /** The entities a batch of blueprints builds, numbered from `base`. */
  function BuildAll(base: nat, batch: seq<Blueprint>): (r: seq<Entity>)
    ensures |r| == |batch|
    decreases |batch|
  {
    if batch == [] then []
    else [Build(base, batch[0])] + BuildAll(base + 1, batch[1..])
  }

  /** The spawner calls of one batch, in order: together they append the
      built batch and use up one identity per entity. */
  function SpawnBatch(w: World, batch: seq<Blueprint>): (r: World)
    ensures r == w.(entities := w.entities + BuildAll(w.nextId, batch), nextId := w.nextId + |batch|)
    decreases |batch|
  {
    if batch == [] then
      assert w.entities + BuildAll(w.nextId, batch) == w.entities;
      w
    else
      var w1 := AddNew(w, batch[0]);
      ConcatAssoc(w.entities, [Build(w.nextId, batch[0])], BuildAll(w.nextId + 1, batch[1..]));
      SpawnBatch(w1, batch[1..])
  }

  /** Concatenation is associative. */
  lemma ConcatAssoc<T>(a: seq<T>, b: seq<T>, c: seq<T>)
    ensures (a + b) + c == a + (b + c)
  {
  }

  /** A spawning death callback (`add_fish`, `add_seaweed`,
      `random_object`): take the next batch of the supply and append the
      entities it builds, numbered from `nextId`. */
  function Spawn(w: World): (r: World)
    ensures SameScreen(w, r) && r.dice == w.dice
  {
    if w.supply == [] then w
    else w.(entities := w.entities + BuildAll(w.nextId, w.supply[0]),
            nextId := w.nextId + |w.supply[0]|,
            supply := w.supply[1..])
  }

  /** The callback's spawner calls, one `add_entity(Entity(...))` per
      blueprint of the batch, add up to `Spawn`. */
  lemma SpawnIsSpawnBatch(w: World)
    requires w.supply != []
    ensures Spawn(w) == SpawnBatch(w.(supply := w.supply[1..]), w.supply[0])
  {
  }

  // ---------------------------------------------------------------------
  // Death

  /** `remove_entity` applied to every listed entity, in order. */
  function RemoveAll(w: World, gone: seq<Entity>): (r: World)
    ensures r == w.(entities := r.entities)
    ensures |r.entities| <= |w.entities|
    decreases |gone|
  {
    if gone == [] then w
    else RemoveAll(RemoveEntity(w, gone[0].id), gone[1..])
  }

  /** The loop of `shark_death`: remove every entity of type 'teeth'. */
  function RemoveTeeth(w: World): (r: World)
    ensures r == w.(entities := r.entities)
  {
    RemoveAll(w, EntitiesByType(w.entities, "teeth"))
  }

  /** `shark_death`: remove every 'teeth' entity, then `random_object`. */
  function OnSharkDeath(w: World): (r: World)
  {
    Spawn(RemoveTeeth(w))
  }

  /** The death callback `cb(entity, anim)`, if there is one. */
  function RunDeath(w: World, cb: DeathCb): (r: World)
  {
    match cb
    case NoDeathCb => w
    case Respawn => Spawn(w)
    case SharkDeath => OnSharkDeath(w)
  }

  /** `Entity.kill`: remove the entity, then run its death callback. The
      callback runs even when the entity was no longer listed. Each call
      either takes a batch from the supply or does not make the list longer,
      and it removes the entity itself when it was listed. */
  function Kill(w: World, e: Entity): (r: World)
    ensures SameScreen(w, r) && r.dice == w.dice
    ensures |r.supply| <= |w.supply|
    ensures |r.supply| == |w.supply| ==>
      |r.entities| <= |w.entities| - (if HasId(w.entities, e.id) then 1 else 0)
    ensures e.rules.deathCb == NoDeathCb ==> r == RemoveEntity(w, e.id)
    ensures !HasId(w.entities, e.id) ==> r == RunDeath(w, e.rules.deathCb)
  {
    RunDeath(RemoveEntity(w, e.id), e.rules.deathCb)
  }

  // ---------------------------------------------------------------------
  // The update pass

  /** The random choices left: every step of the update pass either uses
      some of them or does not make the entity list longer. */
  function Budget(w: World): nat
  {
    |w.supply| + |w.dice|
  }

  /** `add_bubble(fish, anim)`: a one-cell bubble that rises at speed 0.1,
      starting at the fish's right edge when the fish swims right (`dx > 0`),
      half the fish's height down, one plane in front of it. */
  function BubbleFor(fish: Entity): Blueprint
  {
    var dx := if fish.vel.x > 0.0 then fish.look.width as real else 0.0;
    Config("bubble", Frames([".", "o", "O", "O", "O"]), Single(""),
           Vec(fish.pos.x + dx, fish.pos.y + ((fish.look.height / 2) as real), fish.pos.z - 1.0),
           Vec(0.0, -1.0, 0.0), 0.1,
           Rules(MoveEntity, NoDeathCb, BubbleCollision, true, true, None, None),
           Paint("CYAN", " ", false))
  }

  /** `fish_callback`'s test `random.randint(0, 100) > 97`, read from the
      dice (no outcome left counts as a miss); on a hit `add_bubble`
      appends a bubble next to the fish as it stands before it moves. */
  function Blow(w: World, fish: Entity): (r: World)
    ensures SameScreen(w, r) && r.supply == w.supply
    ensures |w.dice| == 0 ==> r == w
    ensures |w.dice| > 0 ==> r.dice == w.dice[1..]
    ensures |w.dice| > 0 ==>
      (w.dice[0] <==> r == AddNew(w.(dice := w.dice[1..]), BubbleFor(fish)))
    ensures |w.dice| > 0 && !w.dice[0] ==> r == w.(dice := w.dice[1..])
  {
    if w.dice == [] then w
    else
      var rest := w.(dice := w.dice[1..]);
      if w.dice[0] then AddNew(rest, BubbleFor(fish)) else rest
  }

  /** `Entity.update` for the entity at position `i`, with the clock
      reading `now`: count the frame and run the motion rule, then kill the
      entity if its frame limit is reached and kill it again if its time is
      up. Returns the scene and the updated entity. */
  function UpdateAt(w: World, i: nat, now: real): (r: (World, Entity))
    requires i < |w.entities|
    ensures r.1 == Advance(w.entities[i])
    ensures SameScreen(w, r.0)
    ensures Budget(r.0) < Budget(w) || (Budget(r.0) == Budget(w) && |r.0.entities| <= |w.entities|)
  {
    var e := w.entities[i];
    var e1 := Advance(e);
    var w1 := if e.rules.motion == FishMotion then Blow(w, e) else w;
    var w2 := w1.(entities := w1.entities[i := e1]);
    var w3 := if DieFrameDue(e1) then Kill(w2, e1) else w2;
    var w4 := if DieTimeDue(e1, now) then Kill(w3, e1) else w3;
    (w4, e1)
  }

  /** The loop `for entity in self.entities: entity.update(); ...` from
      position `i` on. Python walks a list by position, so the loop reads
      the list as it is after each update: appended entities are visited,
      and a removal makes the loop skip the entity that moves into the
      freed position. `doomed` collects `to_remove`: the updated entities
      that are marked `die_offscreen` and are off the screen, whether or
      not they are still listed. */
  function UpdateFrom(w: World, i: nat, doomed: seq<Entity>, now: real): (r: (World, seq<Entity>))
    ensures SameScreen(w, r.0)
    ensures doomed <= r.1
    decreases Budget(w), |w.entities| - i
  {
    if i >= |w.entities| then (w, doomed)
    else
      var (w1, e1) := UpdateAt(w, i, now);
      var d1 := if e1.rules.dieOffscreen && IsOffscreen(e1, w1.width, w1.height) then doomed + [e1] else doomed;
      UpdateFrom(w1, i + 1, d1, now)
  }

  /** `for entity in to_remove: entity.kill()`. */
  function KillAll(w: World, doomed: seq<Entity>): (r: World)
    ensures SameScreen(w, r) && r.dice == w.dice
    decreases |doomed|
  {
    if doomed == [] then w
    else KillAll(Kill(w, doomed[0]), doomed[1..])
  }

  // ---------------------------------------------------------------------
  // Collisions and their handlers

  /** Some reference of the list is to an entity of type `kind`. */
  predicate AnyOfKind(refs: seq<Ref>, kind: string)
  {
    exists k :: 0 <= k < |refs| && refs[k].kind == kind
  }

  /** The collision phase applied to the scene's list: only the collision
      lists change, each physical entity gaining the references to the
      physical entities it overlaps, in list order. */
  function Collide(w: World): (r: World)
    ensures r == w.(entities := r.entities) && |r.entities| == |w.entities|
    ensures forall k :: 0 <= k < |w.entities| ==>
      r.entities[k] == w.entities[k].(collisions := r.entities[k].collisions)
    ensures forall k :: 0 <= k < |w.entities| && !w.entities[k].rules.physical ==>
      r.entities[k] == w.entities[k]
    ensures forall k :: 0 <= k < |w.entities| && w.entities[k].rules.physical ==>
      r.entities[k].collisions == w.entities[k].collisions + PartnersOf(w.entities, k, |w.entities|)
  {
    CollisionPassSpec(w.entities);
    w.(entities := CollisionPass(w.entities))
  }

  /** `add_splat(anim, x, y, z)`: the four-frame splat drawn in red, four
      columns left of and two rows above the given point, two planes in
      front of it, removed after 15 updates. */
  function SplatAt(p: Vec): Blueprint
  {
    Config("entity", Frames(SplatFrames), Single(""),
           Vec(p.x - 4.0, p.y - 2.0, p.z - 2.0), Vec(0.0, 0.0, 0.0), 0.25,
           Rules(MoveEntity, NoDeathCb, NoHandler, false, false, None, Some(15)),
           Paint("RED", " ", false))
  }

  /** The splat images; each keeps the blank lines around it. */
  const SplatFrames: seq<string> := [
    "\n\n   .\n  ***\n   '\n\n",
    "\n\n \",*;`\n \"*,**\n *\"'~'\n\n",
    "\n  , ,\n \" \",\"'\n *\" *'\"\n  \" ; .\n\n",
    "\n* ' , ' `\n' ` * . '\n ' `' \",'\n* ' \" * .\n\" * ', '\n"
  ]

  /** The handler `entity.coll_handler(entity)` would act: the list is
      non-empty, a handler is set, and it finds what it looks for (a
      'waterline' for a bubble; 'teeth', for a fish at most five rows
      high). */
  predicate Fires(e: Entity)
  {
    && e.collisions != []
    && match e.rules.handler
       case NoHandler => false
       case BubbleCollision => AnyOfKind(e.collisions, "waterline")
       case FishCollision => AnyOfKind(e.collisions, "teeth") && e.look.height <= 5
  }

  /** `bubble_collision` and `fish_collision`: a bubble that reached the
      water line dies; a small fish that met shark's teeth leaves a splat
      where it was and dies. */
  function Handle(w: World, e: Entity): (r: World)
    ensures !Fires(e) ==> r == w
    ensures SameScreen(w, r) && r.dice == w.dice
  {
    if !Fires(e) then w
    else if e.rules.handler == FishCollision then Kill(AddNew(w, SplatAt(e.pos)), e)
    else Kill(w, e)
  }

  /** `entity.collisions.clear()`: empties the list of the entity with
      identity `id`, if it is still listed. */
  function ClearCollisions(w: World, id: nat): (r: World)
    ensures r == w.(entities := r.entities) && |r.entities| == |w.entities|
  {
    match IndexOf(w.entities, id)
    case None => w
    case Some(m) => w.(entities := w.entities[m := w.entities[m].(collisions := [])])
  }

  /** Clearing empties the list of the first entity with identity `id`, if
      there is one, and leaves every other entity as it is. */
  lemma ClearCollisionsAt(w: World, id: nat)
    ensures var r := ClearCollisions(w, id);
      forall k :: 0 <= k < |w.entities| ==>
        r.entities[k] == if w.entities[k].id == id && !HasId(w.entities[..k], id)
                         then w.entities[k].(collisions := [])
                         else w.entities[k]
  {
    match IndexOf(w.entities, id)
    case None =>
    case Some(m) =>
      assert !HasId(w.entities[..m], id);
      forall k | m < k < |w.entities| ensures HasId(w.entities[..k], id) {
        assert w.entities[..k][m].id == id;
      }
  }

  /** With distinct identities, clearing empties exactly the list of the
      entity with identity `id` and leaves every other entity as it is. */
  lemma ClearOnly(w: World, id: nat)
    requires UniqueIds(w.entities)
    ensures var r := ClearCollisions(w, id);
      forall k :: 0 <= k < |w.entities| ==>
        r.entities[k] == if w.entities[k].id == id then w.entities[k].(collisions := []) else w.entities[k]
  {
    ClearCollisionsAt(w, id);
    forall k | 0 <= k < |w.entities| && w.entities[k].id == id
      ensures !HasId(w.entities[..k], id)
    {
      IndexOfUnique(w.entities, k);
    }
  }

  /** The dispatch loop `for entity in self.entities:` from position `i`
      on: run the handler when the list is non-empty and a handler is set,
      then clear the list. As in the update pass, a removal makes the loop
      skip the next entity, whose list then stays as it is. */
  function DispatchFrom(w: World, i: nat): (r: World)
    ensures SameScreen(w, r) && r.dice == w.dice
    decreases |w.supply|, |w.entities| - i
  {
    if i >= |w.entities| then w
    else
      var e := w.entities[i];
      var w1 := if e.collisions != [] && e.rules.handler != NoHandler then Handle(w, e) else w;
      HandleShrinks(w, e);
      DispatchFrom(ClearCollisions(w1, e.id), i + 1)
  }

  /** A handler run on a listed entity either takes a batch from the supply
      or does not make the list longer: the splat it may add replaces the
      entity it kills. */
  lemma HandleShrinks(w: World, e: Entity)
    requires HasId(w.entities, e.id)
    ensures var r := Handle(w, e);
      |r.supply| < |w.supply| || (|r.supply| == |w.supply| && |r.entities| <= |w.entities|)
  {
    if Fires(e) && e.rules.handler == FishCollision {
      var w1 := AddNew(w, SplatAt(e.pos));
      assert HasId(w1.entities, e.id) by {
        var k :| 0 <= k < |w.entities| && w.entities[k].id == e.id;
        assert w1.entities[k] == w.entities[k];
      }
    }
  }

  /** `Animation.animate`: nothing while paused; otherwise the update pass,
      the delayed offscreen kills, the collision phase and the handler
      dispatch, in that order. */
  function Animate(w: World, now: real): (r: World)
    ensures w.paused ==> r == w
    ensures SameScreen(w, r)
  {
    if w.paused then w
    else
      var (w1, doomed) := UpdateFrom(w, 0, [], now);
      var w2 := KillAll(w1, doomed);
      DispatchFrom(Collide(w2), 0)
  }

  // ---------------------------------------------------------------------
  // Identities are never reused

  /** `r` comes from `w` without reusing an identity: `nextId` never goes
      back, and every entity of `r` whose identity was issued before
      `w.nextId` was already listed in `w`. */
  predicate Evolves(w: World, r: World)
  {
    && w.nextId <= r.nextId
    && forall id: nat :: id < w.nextId && HasId(r.entities, id) ==> HasId(w.entities, id)
  }

  lemma EvolvesTrans(a: World, b: World, c: World)
    requires Evolves(a, b) && Evolves(b, c)
    ensures Evolves(a, c)
  {
  }

  /** Removal keeps the invariant, removes every entity with identity
      `id`, and keeps the order of the others. */
  lemma RemoveEntityValid(w: World, id: nat)
    requires Valid(w)
    ensures var r := RemoveEntity(w, id);
      Valid(r) && Evolves(w, r) && !HasId(r.entities, id)
  {
    RemoveByIdSpec(w.entities, id);
    if k :| IndexOf(w.entities, id) == Some(k) {
      DropIds(w.entities, k, w.nextId);
    }
  }

  /** Dropping position `k` from a list with distinct identities below
      `bound` leaves such a list, without the dropped identity, each of
      whose identities was listed before. */
  lemma DropIds(ents: seq<Entity>, k: nat, bound: nat)
    requires k < |ents| && UniqueIds(ents)
    requires forall p :: 0 <= p < |ents| ==> ents[p].id < bound
    ensures var r := ents[..k] + ents[k + 1..];
      && UniqueIds(r)
      && (forall p :: 0 <= p < |r| ==> r[p].id < bound && r[p].id != ents[k].id)
      && (forall p :: 0 <= p < |r| ==> HasId(ents, r[p].id))
  {
    var r := ents[..k] + ents[k + 1..];
    assert forall p :: 0 <= p < |r| ==> r[p] == ents[if p < k then p else p + 1];
  }

  /** A blueprint is built under the identity it is given. */
  lemma BuildAllIds(base: nat, batch: seq<Blueprint>)
    ensures forall k :: 0 <= k < |batch| ==> BuildAll(base, batch)[k].id == base + k
    decreases |batch|
  {
    if batch != [] {
      BuildAllIds(base + 1, batch[1..]);
    }
  }

  /** Spawning keeps the invariant: each new entity takes a fresh identity. */
  lemma SpawnValid(w: World)
    requires Valid(w)
    ensures Valid(Spawn(w)) && Evolves(w, Spawn(w))
  {
    if w.supply != [] {
      BuildAllIds(w.nextId, w.supply[0]);
    }
  }

  lemma AddNewValid(w: World, c: Blueprint)
    requires Valid(w)
    ensures Valid(AddNew(w, c)) && Evolves(w, AddNew(w, c))
  {
  }

  /** Removing a list of entities keeps the invariant, and none of their
      identities remains. */
  lemma {:induction false} RemoveAllValid(w: World, gone: seq<Entity>)
    requires Valid(w)
    ensures var r := RemoveAll(w, gone);
      && Valid(r) && Evolves(w, r) && r.nextId == w.nextId
      && forall g :: 0 <= g < |gone| ==> !HasId(r.entities, gone[g].id)
    decreases |gone|
  {
    if gone != [] {
      var w1 := RemoveEntity(w, gone[0].id);
      RemoveEntityValid(w, gone[0].id);
      RemoveAllValid(w1, gone[1..]);
      var r := RemoveAll(w1, gone[1..]);
      EvolvesTrans(w, w1, r);
      forall g | 0 <= g < |gone| ensures !HasId(r.entities, gone[g].id) {
        if g > 0 {
          assert gone[g] == gone[1..][g - 1];
        }
      }
    }
  }

  /** `kill` keeps the invariant and leaves no entity with the killed
      entity's identity, whatever its death callback adds. */
  lemma KillValid(w: World, e: Entity)
    requires Valid(w)
    ensures var r := Kill(w, e);
      && Valid(r) && Evolves(w, r)
      && (e.id < w.nextId ==> !HasId(r.entities, e.id))
  {
    var w1 := RemoveEntity(w, e.id);
    RemoveEntityValid(w, e.id);
    var r := Kill(w, e);
    match e.rules.deathCb
    case NoDeathCb =>
    case Respawn =>
      SpawnValid(w1);
      EvolvesTrans(w, w1, r);
    case SharkDeath =>
      var w2 := RemoveAll(w1, EntitiesByType(w1.entities, "teeth"));
      RemoveAllValid(w1, EntitiesByType(w1.entities, "teeth"));
      SpawnValid(w2);
      EvolvesTrans(w1, w2, r);
      EvolvesTrans(w, w1, r);
  }

  /** Replacing the entity at position `i` by one with the same identity
      keeps the invariant. */
  lemma ReplaceValid(w: World, i: nat, e: Entity)
    requires Valid(w) && i < |w.entities| && e.id == w.entities[i].id
    ensures var r := w.(entities := w.entities[i := e]);
      Valid(r) && Evolves(w, r)
  {
    var r := w.(entities := w.entities[i := e]);
    assert forall p :: 0 <= p < |r.entities| ==> r.entities[p].id == w.entities[p].id;
  }

  /** One update keeps the invariant; an entity whose frame limit is
      reached is gone from the scene afterwards, along with every entity
      sharing its identity. */
  lemma UpdateAtValid(w: World, i: nat, now: real)
    requires Valid(w) && i < |w.entities|
    ensures var r := UpdateAt(w, i, now);
      && Valid(r.0) && Evolves(w, r.0)
      && (DieFrameDue(r.1) || DieTimeDue(r.1, now) ==> !HasId(r.0.entities, w.entities[i].id))
  {
    var e := w.entities[i];
    var e1 := Advance(e);
    var w1 := if e.rules.motion == FishMotion then Blow(w, e) else w;
    if e.rules.motion == FishMotion && w.dice != [] && w.dice[0] {
      AddNewValid(w.(dice := w.dice[1..]), BubbleFor(e));
    }
    assert Valid(w1) && Evolves(w, w1) && w1.entities[i] == e;
    var w2 := w1.(entities := w1.entities[i := e1]);
    ReplaceValid(w1, i, e1);
    EvolvesTrans(w, w1, w2);
    var w3 := if DieFrameDue(e1) then Kill(w2, e1) else w2;
    if DieFrameDue(e1) {
      KillValid(w2, e1);
      EvolvesTrans(w, w2, w3);
    }
    var w4 := UpdateAt(w, i, now).0;
    if DieTimeDue(e1, now) {
      KillValid(w3, e1);
      EvolvesTrans(w, w3, w4);
    }
  }

  /** An update that reaches no limit writes the updated entity into the
      scene at position `i`; besides, only a fish can append something,
      and that is the bubble it blows, under the next identity. */
  lemma UpdateAtInPlace(w: World, i: nat, now: real)
    requires i < |w.entities|
    ensures var r := UpdateAt(w, i, now);
      !DieFrameDue(r.1) && !DieTimeDue(r.1, now) ==> w.nextId <= r.0.nextId
    ensures var r := UpdateAt(w, i, now);
      !DieFrameDue(r.1) && !DieTimeDue(r.1, now) ==>
        (r.0.entities == w.entities[i := r.1] ||
         (w.entities[i].rules.motion == FishMotion &&
          r.0.entities == w.entities[i := r.1] + [Build(w.nextId, BubbleFor(w.entities[i]))]))
  {
    var e := w.entities[i];
    if e.rules.motion == FishMotion && w.dice != [] && w.dice[0] {
      var w1 := Blow(w, e);
      assert w1.entities == w.entities + [Build(w.nextId, BubbleFor(e))];
      assert w1.entities[i := Advance(e)] == w.entities[i := Advance(e)] + [Build(w.nextId, BubbleFor(e))];
    }
  }

  /** Every entity the update pass adds to the doomed list is marked
      `die_offscreen` and is off the screen. */
  lemma {:induction false} UpdateFromDooms(w: World, i: nat, doomed: seq<Entity>, now: real)
    ensures var r := UpdateFrom(w, i, doomed, now);
      forall k :: |doomed| <= k < |r.1| ==> r.1[k].rules.dieOffscreen && IsOffscreen(r.1[k], w.width, w.height)
    decreases Budget(w), |w.entities| - i
  {
    if i < |w.entities| {
      var (w1, e1) := UpdateAt(w, i, now);
      var d1 := if e1.rules.dieOffscreen && IsOffscreen(e1, w1.width, w1.height) then doomed + [e1] else doomed;
      UpdateFromDooms(w1, i + 1, d1, now);
      var r := UpdateFrom(w, i, doomed, now);
      assert r == UpdateFrom(w1, i + 1, d1, now);
      forall k | |doomed| <= k < |d1| ensures r.1[k] == e1 {
        assert r.1[k] == d1[k];
      }
    }
  }

  /** The update pass keeps the invariant. */
  lemma UpdateFromValid(w: World, i: nat, doomed: seq<Entity>, now: real)
    requires Valid(w)
    ensures var r := UpdateFrom(w, i, doomed, now);
      Valid(r.0) && Evolves(w, r.0)
  {
    var inv := (v: World) => Valid(v) && Evolves(w, v);
    forall v: World, j: nat | j < |v.entities| && inv(v)
      ensures inv(UpdateAt(v, j, now).0)
    {
      UpdateAtValid(v, j, now);
      EvolvesTrans(w, v, UpdateAt(v, j, now).0);
    }
    UpdateFromKeeps(inv, w, i, doomed, now);
  }

  /** Whatever one entity's update keeps, the update pass keeps. */
  lemma {:induction false} UpdateFromKeeps(inv: World -> bool, w: World, i: nat, doomed: seq<Entity>, now: real)
    requires inv(w)
    requires forall v: World, j: nat :: j < |v.entities| && inv(v) ==> inv(UpdateAt(v, j, now).0)
    ensures inv(UpdateFrom(w, i, doomed, now).0)
    decreases Budget(w), |w.entities| - i
  {
    if i < |w.entities| {
      var w1 := UpdateAt(w, i, now).0;
      var e1 := Advance(w.entities[i]);
      var d1 := if e1.rules.dieOffscreen && IsOffscreen(e1, w.width, w.height) then doomed + [e1] else doomed;
      UpdateFromUnfold(w, i, doomed, now);
      UpdateFromKeeps(inv, w1, i + 1, d1, now);
    } else {
      UpdateFromDone(w, i, doomed, now);
    }
  }

  /** Every entity the update pass adds to the doomed list carries an
      identity issued before the pass ended. */
  lemma {:induction false} UpdateFromIssued(w: World, i: nat, doomed: seq<Entity>, now: real)
    requires Valid(w)
    ensures var r := UpdateFrom(w, i, doomed, now);
      forall k :: |doomed| <= k < |r.1| ==> r.1[k].id < r.0.nextId
    decreases Budget(w), |w.entities| - i, 1
  {
    if i < |w.entities| {
      UpdateFromIssuedStep(w, i, doomed, now);
    } else {
      UpdateFromDone(w, i, doomed, now);
    }
  }

  /** The inductive step of `UpdateFromIssued`. */
  lemma {:induction false} UpdateFromIssuedStep(w: World, i: nat, doomed: seq<Entity>, now: real)
    requires Valid(w) && i < |w.entities|
    ensures var r := UpdateFrom(w, i, doomed, now);
      forall k :: |doomed| <= k < |r.1| ==> r.1[k].id < r.0.nextId
    decreases Budget(w), |w.entities| - i, 0
  {
    var w1, e1, d1 := ValidStep(w, i, doomed, now);
    UpdateFromIssued(w1, i + 1, d1, now);
    var r := UpdateFrom(w1, i + 1, d1, now);
    UpdateFromValid(w1, i + 1, d1, now);
    forall k | |doomed| <= k < |d1| ensures r.1[k].id < r.0.nextId {
      assert r.1[k] == d1[k] == e1;
    }
  }

  /** One step of the update pass keeps the invariant, and the entity it
      may add to the doomed list carries an issued identity. */
  lemma ValidStep(w: World, i: nat, doomed: seq<Entity>, now: real) returns (w1: World, e1: Entity, d1: seq<Entity>)
    requires Valid(w) && i < |w.entities|
    ensures UpdateFrom(w, i, doomed, now) == UpdateFrom(w1, i + 1, d1, now)
    ensures Budget(w1) < Budget(w) || (Budget(w1) == Budget(w) && |w1.entities| <= |w.entities|)
    ensures Valid(w1) && Evolves(w, w1) && e1.id < w1.nextId
    ensures d1 == doomed || d1 == doomed + [e1]
  {
    w1 := UpdateAt(w, i, now).0;
    e1 := Advance(w.entities[i]);
    d1 := if e1.rules.dieOffscreen && IsOffscreen(e1, w.width, w.height) then doomed + [e1] else doomed;
    UpdateFromUnfold(w, i, doomed, now);
    UpdateAtValid(w, i, now);
  }

  /** The kill pass keeps the invariant, and afterwards no entity has the
      identity of a killed one, whatever their death callbacks spawn. */
  lemma {:induction false} KillAllValid(w: World, doomed: seq<Entity>)
    requires Valid(w)
    ensures Valid(KillAll(w, doomed)) && Evolves(w, KillAll(w, doomed))
    ensures forall d :: 0 <= d < |doomed| && doomed[d].id < w.nextId ==>
      !HasId(KillAll(w, doomed).entities, doomed[d].id)
    decreases |doomed|
  {
    if doomed != [] {
      var w1 := Kill(w, doomed[0]);
      var r := KillAll(w, doomed);
      KillValid(w, doomed[0]);
      KillAllValid(w1, doomed[1..]);
      EvolvesTrans(w, w1, r);
      forall d | 0 <= d < |doomed| && doomed[d].id < w.nextId
        ensures !HasId(r.entities, doomed[d].id)
      {
        if d == 0 {
          StaysGone(w1, r, doomed[0].id);
        } else {
          assert doomed[d] == doomed[1..][d - 1];
        }
      }
    }
  }

  /** An identity issued before `a.nextId` and no longer listed in `a`
      never comes back. */
  lemma StaysGone(a: World, b: World, id: nat)
    requires Evolves(a, b) && id < a.nextId && !HasId(a.entities, id)
    ensures !HasId(b.entities, id)
  {
  }

  /** The collision phase keeps the invariant: it changes collision lists only. */
  lemma CollideValid(w: World)
    requires Valid(w)
    ensures Valid(Collide(w)) && Evolves(w, Collide(w))
  {
    CollisionPassSpec(w.entities);
    var r := Collide(w);
    assert forall p :: 0 <= p < |r.entities| ==> r.entities[p].id == w.entities[p].id;
  }

  /** Clearing a collision list keeps the invariant. */
  lemma ClearValid(w: World, id: nat)
    requires Valid(w)
    ensures Valid(ClearCollisions(w, id)) && Evolves(w, ClearCollisions(w, id))
  {
    if k :| IndexOf(w.entities, id) == Some(k) {
      ReplaceValid(w, k, w.entities[k].(collisions := []));
    }
  }

  /** A collision handler keeps the invariant. */
  lemma HandleValid(w: World, e: Entity)
    requires Valid(w)
    ensures Valid(Handle(w, e)) && Evolves(w, Handle(w, e))
  {
    if Fires(e) {
      if e.rules.handler == FishCollision {
        var w1 := AddNew(w, SplatAt(e.pos));
        AddNewValid(w, SplatAt(e.pos));
        KillValid(w1, e);
        EvolvesTrans(w, w1, Handle(w, e));
      } else {
        KillValid(w, e);
      }
    }
  }

  /** The dispatch loop keeps the invariant. */
  lemma {:induction false} DispatchValid(w: World, i: nat)
    requires Valid(w)
    ensures Valid(DispatchFrom(w, i)) && Evolves(w, DispatchFrom(w, i))
    decreases |w.supply|, |w.entities| - i
  {
    if i < |w.entities| {
      var e := w.entities[i];
      var w1 := if e.collisions != [] && e.rules.handler != NoHandler then Handle(w, e) else w;
      HandleValid(w, e);
      HandleShrinks(w, e);
      var w2 := ClearCollisions(w1, e.id);
      ClearValid(w1, e.id);
      EvolvesTrans(w, w1, w2);
      DispatchValid(w2, i + 1);
      DispatchUnfold(w, i);
      EvolvesTrans(w, w2, DispatchFrom(w2, i + 1));
    }
  }

  /** A frame of the animation keeps the invariant: identities stay
      distinct and none is ever reused. */
  lemma AnimateValid(w: World, now: real)
    requires Valid(w)
    ensures Valid(Animate(w, now)) && Evolves(w, Animate(w, now))
  {
    if !w.paused {
      var (w1, doomed) := UpdateFrom(w, 0, [], now);
      UpdateFromValid(w, 0, [], now);
      var w2 := KillAll(w1, doomed);
      KillAllValid(w1, doomed);
      EvolvesTrans(w, w1, w2);
      var w3 := Collide(w2);
      CollideValid(w2);
      EvolvesTrans(w, w2, w3);
      DispatchValid(w3, 0);
      EvolvesTrans(w, w3, Animate(w, now));
    }
  }

  /** After a frame, none of the entities the update pass collected for
      the offscreen kills is listed any more. */
  lemma AnimateCulls(w: World, now: real)
    requires Valid(w) && !w.paused
    ensures var doomed := UpdateFrom(w, 0, [], now).1;
      forall d :: 0 <= d < |doomed| ==> !HasId(Animate(w, now).entities, doomed[d].id)
  {
    var (w1, doomed) := UpdateFrom(w, 0, [], now);
    UpdateFromValid(w, 0, [], now);
    UpdateFromIssued(w, 0, [], now);
    var w2 := KillAll(w1, doomed);
    KillAllValid(w1, doomed);
    var w3 := Collide(w2);
    CollideValid(w2);
    DispatchValid(w3, 0);
    EvolvesTrans(w2, w3, Animate(w, now));
    forall d | 0 <= d < |doomed| ensures !HasId(Animate(w, now).entities, doomed[d].id) {
      StaysGone(w2, Animate(w, now), doomed[d].id);
    }
  }

  // ---------------------------------------------------------------------
  // What stays listed

  /** Removing another identity keeps an entity listed. */
  lemma RemoveEntityKeeps(w: World, id: nat, x: Entity)
    requires x in w.entities && x.id != id
    ensures x in RemoveEntity(w, id).entities
  {
    RemoveByIdSpec(w.entities, id);
    if k :| IndexOf(w.entities, id) == Some(k) {
      var j :| 0 <= j < |w.entities| && w.entities[j] == x;
      if j < k {
        assert (w.entities[..k] + w.entities[k + 1..])[j] == x;
      } else {
        assert (w.entities[..k] + w.entities[k + 1..])[j - 1] == x;
      }
    }
  }

  /** Removals of other identities keep an entity listed. */
  lemma {:induction false} RemoveAllKeeps(w: World, gone: seq<Entity>, x: Entity)
    requires x in w.entities && forall g :: 0 <= g < |gone| ==> gone[g].id != x.id
    ensures x in RemoveAll(w, gone).entities
    decreases |gone|
  {
    if gone != [] {
      RemoveEntityKeeps(w, gone[0].id, x);
      RemoveAllKeeps(RemoveEntity(w, gone[0].id), gone[1..], x);
    }
  }

  /** Killing another entity keeps a listed entity that is not 'teeth' (the
      shark's death callback removes every 'teeth' entity). */
  lemma KillKeeps(w: World, e: Entity, x: Entity)
    requires Valid(w) && x in w.entities && x.id != e.id && x.kind != "teeth"
    ensures x in Kill(w, e).entities
  {
    var w1 := RemoveEntity(w, e.id);
    RemoveEntityKeeps(w, e.id, x);
    match e.rules.deathCb
    case NoDeathCb =>
    case Respawn =>
    case SharkDeath =>
      RemoveEntityValid(w, e.id);
      var teeth := EntitiesByType(w1.entities, "teeth");
      forall g | 0 <= g < |teeth| ensures teeth[g].id != x.id {
        EntitiesByTypeMember(w1.entities, "teeth", teeth[g]);
        var q :| 0 <= q < |w1.entities| && w1.entities[q] == teeth[g];
        var j :| 0 <= j < |w1.entities| && w1.entities[j] == x;
        assert q != j;
      }
      RemoveAllKeeps(w1, teeth, x);
  }

  /** A handler that acts on a listed entity removes it for good, and the
      fish handler leaves its splat, built under the next identity before
      the fish dies. */
  lemma HandleKills(w: World, e: Entity)
    requires Valid(w) && HasId(w.entities, e.id)
    ensures Fires(e) ==> !HasId(Handle(w, e).entities, e.id)
    ensures Fires(e) && e.rules.handler == FishCollision ==>
      Build(w.nextId, SplatAt(e.pos)) in Handle(w, e).entities
  {
    if Fires(e) {
      if e.rules.handler == FishCollision {
        var w1 := AddNew(w, SplatAt(e.pos));
        AddNewValid(w, SplatAt(e.pos));
        KillValid(w1, e);
        var splat := Build(w.nextId, SplatAt(e.pos));
        NewEntitySpec(w.nextId, SplatAt(e.pos));
        assert w1.entities[|w.entities|] == splat;
        KillKeeps(w1, e, splat);
      } else {
        KillValid(w, e);
      }
    }
  }

  /** A handler that acts on the entity at position `i` removes it for
      good: after the rest of the dispatch loop it is not listed. */
  lemma DispatchKillsFired(w: World, i: nat)
    requires Valid(w) && i < |w.entities| && Fires(w.entities[i])
    ensures !HasId(DispatchFrom(w, i).entities, w.entities[i].id)
  {
    var e := w.entities[i];
    var w1 := Handle(w, e);
    HandleKills(w, e);
    HandleValid(w, e);
    var w2 := ClearCollisions(w1, e.id);
    ClearValid(w1, e.id);
    assert w2 == w1;
    DispatchUnfold(w, i);
    DispatchValid(w2, i + 1);
    StaysGone(w2, DispatchFrom(w, i), e.id);
  }

  // ---------------------------------------------------------------------
  // Frames without deaths in the update pass

  /** Neither limit of `e` is reached by its next update: the frame count
      after it stays below a set `die_frame`, and the clock reading is
      before a set `die_time`. */
  predicate Lasting(e: Entity, now: real)
  {
    && !(e.rules.dieFrame.Some? && e.rules.dieFrame.value != 0 && e.frame + 1 >= e.rules.dieFrame.value)
    && !(e.rules.dieTime.Some? && e.rules.dieTime.value != 0.0 && now >= e.rules.dieTime.value)
  }

  /** `Lasting` says that the update reaches no limit. */
  lemma LastingMeansNoLimit(e: Entity, now: real)
    ensures Lasting(e, now) <==> !DieFrameDue(Advance(e)) && !DieTimeDue(Advance(e), now)
  {
  }

  /** A bubble has no frame or time limit. */
  lemma BubbleLasts(fish: Entity, id: nat, now: real)
    ensures Build(id, BubbleFor(fish)).kind == "bubble"
    ensures Lasting(Build(id, BubbleFor(fish)), now)
  {
    NewEntitySpec(id, BubbleFor(fish));
  }

  /** Past the end of the list the update pass changes nothing. */
  lemma UpdateFromDone(w: World, i: nat, doomed: seq<Entity>, now: real)
    requires |w.entities| <= i
    ensures UpdateFrom(w, i, doomed, now) == (w, doomed)
  {
  }

  /** One step of the update pass. */
  lemma UpdateFromUnfold(w: World, i: nat, doomed: seq<Entity>, now: real)
    requires i < |w.entities|
    ensures var w1 := UpdateAt(w, i, now).0;
      var e1 := Advance(w.entities[i]);
      UpdateFrom(w, i, doomed, now) ==
        UpdateFrom(w1, i + 1, if e1.rules.dieOffscreen && IsOffscreen(e1, w.width, w.height) then doomed + [e1] else doomed, now)
  {
  }

  /** One update of a lasting entity at position `i`: it is replaced by
      its update `e1` in place, a fish may append one bubble under the next
      identity, and everything after `i` is still lasting. */
  lemma LastingAt(w: World, i: nat, now: real) returns (w1: World, e1: Entity)
    requires i < |w.entities|
    requires forall k :: i <= k < |w.entities| ==> Lasting(w.entities[k], now)
    ensures w1 == UpdateAt(w, i, now).0 && e1 == Advance(w.entities[i])
    ensures w.nextId <= w1.nextId && w1.width == w.width && w1.height == w.height
    ensures forall k :: i + 1 <= k < |w1.entities| ==> Lasting(w1.entities[k], now)
    ensures w1.entities == w.entities[i := e1] ||
            w1.entities == w.entities[i := e1] + [Build(w.nextId, BubbleFor(w.entities[i]))]
    ensures Build(w.nextId, BubbleFor(w.entities[i])).kind == "bubble"
  {
    w1 := UpdateAt(w, i, now).0;
    e1 := Advance(w.entities[i]);
    LastingMeansNoLimit(w.entities[i], now);
    UpdateAtInPlace(w, i, now);
    BubbleLasts(w.entities[i], w.nextId, now);
  }

  /** A relation between the position, the doomed list and the result of
      the update pass that holds past the end of the list, and that one
      entity's update carries back from the next position, holds of the
      whole pass. */
  lemma {:induction false} UpdateFromRelates(P: (World, nat, seq<Entity>, (World, seq<Entity>)) -> bool,
                                             w: World, i: nat, doomed: seq<Entity>, now: real)
    requires forall v: World, j: nat, d: seq<Entity> :: |v.entities| <= j ==> P(v, j, d, (v, d))
    requires forall v: World, j: nat, d: seq<Entity>, r: (World, seq<Entity>) ::
      j < |v.entities| &&
      P(UpdateAt(v, j, now).0, j + 1,
        if Advance(v.entities[j]).rules.dieOffscreen && IsOffscreen(Advance(v.entities[j]), v.width, v.height)
        then d + [Advance(v.entities[j])] else d, r)
      ==> P(v, j, d, r)
    ensures P(w, i, doomed, UpdateFrom(w, i, doomed, now))
    decreases Budget(w), |w.entities| - i
  {
    if i < |w.entities| {
      var w1 := UpdateAt(w, i, now).0;
      var e1 := Advance(w.entities[i]);
      var d1 := if e1.rules.dieOffscreen && IsOffscreen(e1, w.width, w.height) then doomed + [e1] else doomed;
      UpdateFromUnfold(w, i, doomed, now);
      UpdateFromRelates(P, w1, i + 1, d1, now);
      assert P(w1, i + 1, d1, UpdateFrom(w, i, doomed, now));
    } else {
      UpdateFromDone(w, i, doomed, now);
    }
  }

  /** Updating distributes over concatenation. */
  lemma AdvanceAllConcat(a: seq<Entity>, b: seq<Entity>)
    ensures AdvanceAll(a + b) == AdvanceAll(a) + AdvanceAll(b)
  {
    var l := AdvanceAll(a + b);
    var m := AdvanceAll(a) + AdvanceAll(b);
    forall k | 0 <= k < |l| ensures l[k] == m[k] {
      if k >= |a| {
        assert (a + b)[k] == b[k - |a|];
      }
    }
  }

  /** Updating the tail of a list after replacing position `i` by its
      update, with at most one entity `b` appended: of any list that starts
      with that, the first `|ents|` entities are `ents` with the tail from
      `i` updated, and the appended one comes out updated. */
  lemma AdvanceTail(ents: seq<Entity>, i: nat, x: seq<Entity>, b: Entity, out: seq<Entity>)
    requires i < |ents|
    requires x == ents[i := Advance(ents[i])] || x == ents[i := Advance(ents[i])] + [b]
    requires |x| <= |out| && out[..|x|] == x[..i + 1] + AdvanceAll(x[i + 1..])
    ensures |ents| <= |out| && out[..|ents|] == ents[..i] + AdvanceAll(ents[i..])
    ensures forall k :: |ents| <= k < |x| ==> out[k] == Advance(b)
  {
    var n := |ents|;
    var e1 := Advance(ents[i]);
    var tail := ents[i + 1..];
    var z := ents[..i] + AdvanceAll(ents[i..]);
    assert ents[i..] == [ents[i]] + tail;
    AdvanceAllConcat([ents[i]], tail);
    assert AdvanceAll([ents[i]]) == [e1];
    assert z == ents[..i] + [e1] + AdvanceAll(tail);
    assert x[..i + 1] == ents[..i] + [e1];
    if x == ents[i := e1] {
      assert x[i + 1..] == tail;
      assert out[..n] == z;
    } else {
      assert x[i + 1..] == tail + [b];
      AdvanceAllConcat(tail, [b]);
      assert AdvanceAll([b]) == [Advance(b)];
      assert out[..|x|] == z + [Advance(b)];
      assert out[..n] == out[..|x|][..n];
      assert out[n] == out[..|x|][n];
    }
  }

  /** `out` starts with `ents` as it is up to position `i` and updated from
      there on, and what follows are bubbles with identities from `id` on. */
  predicate UpdatedInPlace(ents: seq<Entity>, i: nat, out: seq<Entity>, id: nat)
    requires i <= |ents|
  {
    && |ents| <= |out| && out[..|ents|] == ents[..i] + AdvanceAll(ents[i..])
    && forall k :: |ents| <= k < |out| ==> out[k].kind == "bubble" && out[k].id >= id
  }

  /** The step of `UpdateLasting` on sequences alone: position `i` was
      replaced by its update and at most one bubble `b` appended. */
  lemma BubbleTail(ents: seq<Entity>, i: nat, x: seq<Entity>, b: Entity, out: seq<Entity>,
                   id: nat, laterId: nat)
    requires i < |ents|
    requires x == ents[i := Advance(ents[i])] || x == ents[i := Advance(ents[i])] + [b]
    requires b.kind == "bubble" && b.id == id <= laterId
    requires UpdatedInPlace(x, i + 1, out, laterId)
    ensures UpdatedInPlace(ents, i, out, id)
  {
    AdvanceTail(ents, i, x, b, out);
  }


  /** When no entity from position `i` on reaches a limit, the update pass
      updates each of them once, in place, and fish move in the scene too;
      what it appends are the bubbles blown on the way, each under a fresh
      identity. */
  lemma UpdateLasting(w: World, i: nat, doomed: seq<Entity>, now: real)
    requires i <= |w.entities|
    requires forall k :: i <= k < |w.entities| ==> Lasting(w.entities[k], now)
    ensures UpdatedInPlace(w.entities, i, UpdateFrom(w, i, doomed, now).0.entities, w.nextId)
  {
    var P := (v: World, j: nat, d: seq<Entity>, r: (World, seq<Entity>)) =>
      j <= |v.entities| && (forall k :: j <= k < |v.entities| ==> Lasting(v.entities[k], now)) ==>
      UpdatedInPlace(v.entities, j, r.0.entities, v.nextId);
    forall v: World, j: nat, d: seq<Entity> | |v.entities| <= j
      ensures P(v, j, d, (v, d))
    {
      if j == |v.entities| {
        assert v.entities[..j] + AdvanceAll(v.entities[j..]) == v.entities;
      }
    }
    forall v: World, j: nat, d: seq<Entity>, r: (World, seq<Entity>) |
      j < |v.entities| &&
      P(UpdateAt(v, j, now).0, j + 1,
        if Advance(v.entities[j]).rules.dieOffscreen && IsOffscreen(Advance(v.entities[j]), v.width, v.height)
        then d + [Advance(v.entities[j])] else d, r)
      ensures P(v, j, d, r)
    {
      if forall k :: j <= k < |v.entities| ==> Lasting(v.entities[k], now) {
        var v1, e1 := LastingAt(v, j, now);
        BubbleTail(v.entities, j, v1.entities, Build(v.nextId, BubbleFor(v.entities[j])), r.0.entities, v.nextId, v1.nextId);
      }
    }
    UpdateFromRelates(P, w, i, doomed, now);
  }


  /** `Culled` distributes over concatenation. */
  lemma {:induction false} CulledConcat(a: seq<Entity>, b: seq<Entity>, screenW: int, screenH: int)
    ensures Culled(a + b, screenW, screenH) == Culled(a, screenW, screenH) + Culled(b, screenW, screenH)
    decreases |a|
  {
    if a == [] {
      assert a + b == b;
    } else {
      var e1 := Advance(a[0]);
      var h := if e1.rules.dieOffscreen && IsOffscreen(e1, screenW, screenH) then [e1] else [];
      assert (a + b)[1..] == a[1..] + b && (a + b)[0] == a[0];
      assert Culled(a + b, screenW, screenH) == h + Culled(a[1..] + b, screenW, screenH);
      assert Culled(a, screenW, screenH) == h + Culled(a[1..], screenW, screenH);
      CulledConcat(a[1..], b, screenW, screenH);
      ConcatAssoc(h, Culled(a[1..], screenW, screenH), Culled(b, screenW, screenH));
    }
  }

  /** The update of an entity of the list is in `Culled` exactly when it
      is marked `die_offscreen` and off the screen. */
  lemma {:induction false} CulledMember(ents: seq<Entity>, screenW: int, screenH: int, k: nat)
    requires k < |ents|
    ensures var e1 := Advance(ents[k]);
      e1 in Culled(ents, screenW, screenH) <==> e1.rules.dieOffscreen && IsOffscreen(e1, screenW, screenH)
    decreases |ents|
  {
    var e1 := Advance(ents[k]);
    var h := Advance(ents[0]);
    var head := if h.rules.dieOffscreen && IsOffscreen(h, screenW, screenH) then [h] else [];
    var rest := Culled(ents[1..], screenW, screenH);
    assert Culled(ents, screenW, screenH) == head + rest;
    if e1 in Culled(ents, screenW, screenH) {
      CulledMarked(ents, screenW, screenH, e1);
    }
    if k > 0 {
      assert ents[1..][k - 1] == ents[k];
      CulledMember(ents[1..], screenW, screenH, k - 1);
    }
  }

  /** Everything `Culled` lists is marked `die_offscreen` and off the screen. */
  lemma {:induction false} CulledMarked(ents: seq<Entity>, screenW: int, screenH: int, e: Entity)
    requires e in Culled(ents, screenW, screenH)
    ensures e.rules.dieOffscreen && IsOffscreen(e, screenW, screenH)
    decreases |ents|
  {
    var h := Advance(ents[0]);
    var head := if h.rules.dieOffscreen && IsOffscreen(h, screenW, screenH) then [h] else [];
    var rest := Culled(ents[1..], screenW, screenH);
    assert Culled(ents, screenW, screenH) == head + rest;
    if e !in head {
      CulledMarked(ents[1..], screenW, screenH, e);
    }
  }

  /** When no entity from position `i` on reaches a limit, the doomed list
      the update pass hands on starts with the one it was given followed
      by the culled updates of the entities from `i` on, in list order. */
  lemma UpdateLastingCollects(w: World, i: nat, doomed: seq<Entity>, now: real)
    requires i <= |w.entities|
    requires forall k :: i <= k < |w.entities| ==> Lasting(w.entities[k], now)
    ensures doomed + Culled(w.entities[i..], w.width, w.height) <= UpdateFrom(w, i, doomed, now).1
  {
    var P := (v: World, j: nat, d: seq<Entity>, r: (World, seq<Entity>)) =>
      j <= |v.entities| && (forall k :: j <= k < |v.entities| ==> Lasting(v.entities[k], now)) ==>
      d + Culled(v.entities[j..], v.width, v.height) <= r.1;
    forall v: World, j: nat, d: seq<Entity> | |v.entities| <= j
      ensures P(v, j, d, (v, d))
    {
      if j == |v.entities| {
        assert v.entities[j..] == [];
        assert Culled(v.entities[j..], v.width, v.height) == [];
        assert d + [] == d;
      }
    }
    forall v: World, j: nat, d: seq<Entity>, r: (World, seq<Entity>) |
      j < |v.entities| &&
      P(UpdateAt(v, j, now).0, j + 1,
        if Advance(v.entities[j]).rules.dieOffscreen && IsOffscreen(Advance(v.entities[j]), v.width, v.height)
        then d + [Advance(v.entities[j])] else d, r)
      ensures P(v, j, d, r)
    {
      if forall k :: j <= k < |v.entities| ==> Lasting(v.entities[k], now) {
        var v1, e1 := LastingAt(v, j, now);
        var d1 := if e1.rules.dieOffscreen && IsOffscreen(e1, v.width, v.height) then d + [e1] else d;
        CulledStepPrefix(v.entities, j, v1.entities, Build(v.nextId, BubbleFor(v.entities[j])), d, d1,
                         r.1, v.width, v.height);
      }
    }
    UpdateFromRelates(P, w, i, doomed, now);
  }

  /** In a frame where no entity reaches a limit in its update, every
      entity marked `die_offscreen` whose update takes it off the screen is
      gone after the frame. */
  lemma AnimateCullsOffscreen(w: World, now: real, k: nat)
    requires Valid(w) && !w.paused && k < |w.entities|
    requires forall m :: 0 <= m < |w.entities| ==> Lasting(w.entities[m], now)
    requires Advance(w.entities[k]).rules.dieOffscreen
    requires IsOffscreen(Advance(w.entities[k]), w.width, w.height)
    ensures !HasId(Animate(w, now).entities, w.entities[k].id)
  {
    var doomed := UpdateFrom(w, 0, [], now).1;
    UpdateLastingDooms(w, now, k);
    AnimateCulls(w, now);
    var d :| 0 <= d < |doomed| && doomed[d] == Advance(w.entities[k]);
  }

  /** In a frame where no entity reaches a limit in its update, the update
      of an entity marked `die_offscreen` that ends off the screen is on the
      list of entities to kill. */
  lemma UpdateLastingDooms(w: World, now: real, k: nat)
    requires k < |w.entities|
    requires forall m :: 0 <= m < |w.entities| ==> Lasting(w.entities[m], now)
    requires Advance(w.entities[k]).rules.dieOffscreen
    requires IsOffscreen(Advance(w.entities[k]), w.width, w.height)
    ensures Advance(w.entities[k]) in UpdateFrom(w, 0, [], now).1
  {
    var cs := Culled(w.entities, w.width, w.height);
    UpdateLastingCollects(w, 0, [], now);
    assert w.entities[0..] == w.entities;
    assert [] + cs == cs;
    CulledMember(w.entities, w.width, w.height, k);
    PrefixMember(cs, UpdateFrom(w, 0, [], now).1, Advance(w.entities[k]));
  }

  /** The step of `UpdateLastingCollects` on sequences alone: when position
      `i` was replaced by its update, at most one entity appended, and its
      update added to the doomed list when culled, a list that starts with
      the new doomed list and the culls of everything after `i` starts with
      the old doomed list and the culls from `i` on. */
  lemma CulledStepPrefix(ents: seq<Entity>, i: nat, x: seq<Entity>, b: Entity, doomed: seq<Entity>, d1: seq<Entity>,
                         out: seq<Entity>, screenW: int, screenH: int)
    requires i < |ents|
    requires x == ents[i := Advance(ents[i])] || x == ents[i := Advance(ents[i])] + [b]
    requires var e1 := Advance(ents[i]);
      d1 == if e1.rules.dieOffscreen && IsOffscreen(e1, screenW, screenH) then doomed + [e1] else doomed
    requires d1 + Culled(x[i + 1..], screenW, screenH) <= out
    ensures doomed + Culled(ents[i..], screenW, screenH) <= out
  {
    var e1 := Advance(ents[i]);
    var head := if e1.rules.dieOffscreen && IsOffscreen(e1, screenW, screenH) then [e1] else [];
    var extra := x[|ents|..];
    StepTail(ents, i, x, b);
    CulledConcat(ents[i + 1..], extra, screenW, screenH);
    CulledStep(ents, i, screenW, screenH);
    assert d1 == doomed + head;
    PrefixDrop(doomed, head, Culled(ents[i + 1..], screenW, screenH), Culled(extra, screenW, screenH), out);
  }

  /** After replacing position `i` and appending at most one entity, what
      follows `i` is the old tail followed by what was appended. */
  lemma StepTail(ents: seq<Entity>, i: nat, x: seq<Entity>, b: Entity)
    requires i < |ents|
    requires x == ents[i := Advance(ents[i])] || x == ents[i := Advance(ents[i])] + [b]
    ensures |ents| <= |x| && x[i + 1..] == ents[i + 1..] + x[|ents|..]
  {
    var n := |ents|;
    assert x[..n] == ents[i := Advance(ents[i])];
    assert x[i + 1..] == x[..n][i + 1..] + x[n..];
    assert x[..n][i + 1..] == ents[i + 1..];
  }





  // ---------------------------------------------------------------------
  // How the passes behave

  /** The first position holding identity `id`, when identities are distinct. */
  lemma IndexOfUnique(ents: seq<Entity>, i: nat)
    requires i < |ents| && UniqueIds(ents)
    ensures IndexOf(ents, ents[i].id) == Some(i)
  {
  }

  /** When no handler acts from position `i` on, the dispatch loop only
      clears: every list from `i` on ends up empty and nothing else
      changes. A handler thus runs only on a non-empty list with a handler
      set. */
  lemma {:induction false} DispatchQuiet(w: World, i: nat)
    requires UniqueIds(w.entities)
    requires forall k :: i <= k < |w.entities| ==> !Fires(w.entities[k])
    ensures var r := DispatchFrom(w, i);
      && r == w.(entities := r.entities) && |r.entities| == |w.entities|
      && forall k :: 0 <= k < |w.entities| ==>
           r.entities[k] == if k < i then w.entities[k] else w.entities[k].(collisions := [])
    decreases |w.entities| - i
  {
    if i < |w.entities| {
      var w2 := w.(entities := w.entities[i := w.entities[i].(collisions := [])]);
      DispatchStepQuiet(w, i);
      DispatchQuiet(w2, i + 1);
    }
  }

  /** One quiet step of the dispatch loop clears the list at position `i`
      and changes nothing else. */
  lemma DispatchStepQuiet(w: World, i: nat)
    requires UniqueIds(w.entities) && i < |w.entities| && !Fires(w.entities[i])
    ensures var w2 := w.(entities := w.entities[i := w.entities[i].(collisions := [])]);
      && DispatchFrom(w, i) == DispatchFrom(w2, i + 1)
      && UniqueIds(w2.entities)
  {
    var e := w.entities[i];
    var w1 := if e.collisions != [] && e.rules.handler != NoHandler then Handle(w, e) else w;
    assert w1 == w;
    DispatchUnfold(w, i);
    IndexOfUnique(w.entities, i);
    ClearKeepsIds(w.entities, i);
  }

  /** One step of the dispatch loop. */
  lemma DispatchUnfold(w: World, i: nat)
    requires i < |w.entities|
    ensures var e := w.entities[i];
      var w1 := if e.collisions != [] && e.rules.handler != NoHandler then Handle(w, e) else w;
      DispatchFrom(w, i) == DispatchFrom(ClearCollisions(w1, e.id), i + 1)
  {
  }

  /** Emptying a collision list keeps the identities. */
  lemma ClearKeepsIds(ents: seq<Entity>, i: nat)
    requires UniqueIds(ents) && i < |ents|
    ensures UniqueIds(ents[i := ents[i].(collisions := [])])
  {
    var r := ents[i := ents[i].(collisions := [])];
    assert forall k :: 0 <= k < |r| ==> r[k].id == ents[k].id;
  }


  /** A bubble that has reached the water line is removed during dispatch,
      and the loop then skips the entity that moves into its place: that
      entity's collision list is not cleared and is carried into the next
      frame. */
  lemma DispatchSkipsAfterRemoval(w: World, b: Entity, x: Entity)
    requires w.entities == [b, x] && b.id != x.id
    requires b.rules.handler == BubbleCollision && b.rules.deathCb == NoDeathCb
    requires AnyOfKind(b.collisions, "waterline")
    ensures DispatchFrom(w, 0) == w.(entities := [x])
  {
    assert Kill(w, b).entities == [x];
  }

  /** An entity that reaches its frame limit is removed during the update
      pass, and the loop then skips the entity that moves into its place,
      which is not updated in this frame. The removed entity is still
      collected for the offscreen kills. */
  lemma UpdateSkipsAfterRemoval(w: World, a: Entity, x: Entity, now: real)
    requires w.entities == [a, x] && a.id != x.id
    requires a.rules.motion != FishMotion && a.rules.deathCb == NoDeathCb
    requires DieFrameDue(Advance(a))
    ensures var e1 := Advance(a);
      UpdateFrom(w, 0, [], now) ==
        (w.(entities := [x]), if e1.rules.dieOffscreen && IsOffscreen(e1, w.width, w.height) then [e1] else [])
  {
    var e1 := Advance(a);
    var w2 := w.(entities := [e1, x]);
    var w3 := w.(entities := [x]);
    assert Kill(w2, e1) == w3;
    assert Kill(w3, e1) == w3;
    assert UpdateAt(w, 0, now) == (w3, e1);
    var d1 := if e1.rules.dieOffscreen && IsOffscreen(e1, w.width, w.height) then [] + [e1] else [];
    assert UpdateFrom(w, 0, [], now) == UpdateFrom(w3, 1, d1, now);
    assert UpdateFrom(w3, 1, d1, now) == (w3, d1);
    assert [] + [e1] == [e1];
  }

  /** An entity whose frame limit and time limit are both reached is
      killed twice in one update: it leaves the list once, but its
      respawning death callback runs twice and uses up two batches. */
  lemma DoubleDeath(w: World, i: nat, now: real)
    requires Valid(w) && i < |w.entities| && |w.supply| >= 2
    requires w.entities[i].rules.motion != FishMotion && w.entities[i].rules.deathCb == Respawn
    requires DieFrameDue(Advance(w.entities[i])) && DieTimeDue(Advance(w.entities[i]), now)
    ensures var r := UpdateAt(w, i, now).0;
      && r.supply == w.supply[2..]
      && |r.entities| == |w.entities| - 1 + |w.supply[0]| + |w.supply[1]|
      && !HasId(r.entities, w.entities[i].id)
  {
    var e1 := Advance(w.entities[i]);
    var w2 := w.(entities := w.entities[i := e1]);
    assert UpdateAt(w, i, now).0 == Kill(Kill(w2, e1), e1);
    ReplaceValid(w, i, e1);
    KillTwice(w2, i);
  }

  /** Two kills of the listed entity at position `i` with a respawning
      death callback: one removal, two spawned batches. */
  lemma KillTwice(w: World, i: nat)
    requires Valid(w) && i < |w.entities| && |w.supply| >= 2
    requires w.entities[i].rules.deathCb == Respawn
    ensures var e := w.entities[i];
      var r := Kill(Kill(w, e), e);
      && r.supply == w.supply[2..]
      && |r.entities| == |w.entities| - 1 + |w.supply[0]| + |w.supply[1]|
      && !HasId(r.entities, e.id)
  {
    var e := w.entities[i];
    var w1 := RemoveEntity(w, e.id);
    assert HasId(w.entities, e.id);
    var w3 := Kill(w, e);
    assert w3 == Spawn(w1);
    KillValid(w, e);
    var r := Kill(w3, e);
    assert r == Spawn(w3);
    KillValid(w3, e);
    assert w3.supply[1..] == w.supply[2..];
  }

  /** Every entity removed from the list was listed: removals never
      invent entities. */
  lemma {:induction false} RemoveAllSub(w: World, gone: seq<Entity>)
    ensures multiset(RemoveAll(w, gone).entities) <= multiset(w.entities)
    decreases |gone|
  {
    if gone != [] {
      var w1 := RemoveEntity(w, gone[0].id);
      RemoveByIdSpec(w.entities, gone[0].id);
      if k :| IndexOf(w.entities, gone[0].id) == Some(k) {
        assert w.entities == w.entities[..k] + [w.entities[k]] + w.entities[k + 1..];
      }
      RemoveAllSub(w1, gone[1..]);
    }
  }

  /** Removing every 'teeth' entity leaves none: each entity left was
      listed, and a listed 'teeth' entity had its identity removed. */
  lemma NoTeethLeft(w: World)
    requires Valid(w)
    ensures forall p :: 0 <= p < |RemoveTeeth(w).entities| ==> RemoveTeeth(w).entities[p].kind != "teeth"
  {
    var teeth := EntitiesByType(w.entities, "teeth");
    var r := RemoveAll(w, teeth);
    RemoveAllValid(w, teeth);
    RemoveAllSub(w, teeth);
    forall p | 0 <= p < |r.entities| ensures r.entities[p].kind != "teeth" {
      var x := r.entities[p];
      assert multiset(r.entities)[x] > 0;
      EntitiesByTypeMember(w.entities, "teeth", x);
    }
  }

  /** `shark_death` leaves no 'teeth' entity that was there before: every
      remaining one was just spawned by `random_object`. */
  lemma SharkDeathEatsTeeth(w: World)
    requires Valid(w)
    ensures var r := OnSharkDeath(w);
      forall p :: 0 <= p < |r.entities| && r.entities[p].kind == "teeth" ==> r.entities[p].id >= w.nextId
  {
    var w2 := RemoveTeeth(w);
    NoTeethLeft(w);
    var r := OnSharkDeath(w);
    if w.supply != [] {
      var born := BuildAll(w.nextId, w.supply[0]);
      BuildAllIds(w.nextId, w.supply[0]);
      assert r.entities == w2.entities + born;
      forall p | 0 <= p < |r.entities| && r.entities[p].kind == "teeth"
        ensures r.entities[p].id >= w.nextId
      {
        if p >= |w2.entities| {
          var q := p - |w2.entities|;
          assert r.entities[p] == born[q];
        }
      }
    } else {
      assert r == w2;
    }
  }

  /** A fish's box always meets the box of a bubble it blows: the bubble
      starts on the fish's right edge or inside its box, and boxes that
      only touch count as colliding. */
  lemma BubbleTouchesFish(fish: Entity, id: nat)
    ensures CheckCollision(fish, Build(id, BubbleFor(fish)))
  {
    var b := Build(id, BubbleFor(fish));
    SplitSingleLine(".");
    assert b.look.width == 1 && b.look.height == 1;
  }

  // ---------------------------------------------------------------------
  // Quiet frames

  /** Nothing happens to `e` in its update but its own motion: it is no
      fish, and neither its frame limit nor its time is reached. */
  predicate Quiet(e: Entity, now: real)
  {
    e.rules.motion != FishMotion && Lasting(e, now)
  }

  /** Every entity of the list updated on its own. */
  function AdvanceAll(es: seq<Entity>): (r: seq<Entity>)
    ensures |r| == |es| && forall k :: 0 <= k < |es| ==> r[k] == Advance(es[k])
  {
    seq(|es|, k requires 0 <= k < |es| => Advance(es[k]))
  }

  /** `to_remove` for a list whose entities are each updated once: the
      updated entities marked `die_offscreen` that are off the screen. */
  function Culled(es: seq<Entity>, screenW: int, screenH: int): seq<Entity>
  {
    if es == [] then []
    else
      var e1 := Advance(es[0]);
      (if e1.rules.dieOffscreen && IsOffscreen(e1, screenW, screenH) then [e1] else [])
      + Culled(es[1..], screenW, screenH)
  }

  /** When every entity from position `i` on is quiet, the update pass
      updates each of them exactly once, in place, and collects exactly
      the offscreen ones. */
  lemma {:induction false} UpdateQuiet(w: World, i: nat, doomed: seq<Entity>, now: real)
    requires i <= |w.entities|
    requires forall k :: i <= k < |w.entities| ==> Quiet(w.entities[k], now)
    ensures UpdateFrom(w, i, doomed, now).0 == w.(entities := w.entities[..i] + AdvanceAll(w.entities[i..]))
    ensures UpdateFrom(w, i, doomed, now).1 == doomed + Culled(w.entities[i..], w.width, w.height)
    decreases |w.entities| - i
  {
    var ents := w.entities;
    if i == |ents| {
      assert ents[..i] + AdvanceAll(ents[i..]) == ents;
      assert doomed + Culled(ents[i..], w.width, w.height) == doomed;
    } else {
      var e1 := Advance(ents[i]);
      var w2 := w.(entities := ents[i := e1]);
      var c1 := if e1.rules.dieOffscreen && IsOffscreen(e1, w.width, w.height) then [e1] else [];
      assert UpdateAt(w, i, now) == (w2, e1);
      assert doomed + [] == doomed;
      assert UpdateFrom(w, i, doomed, now) == UpdateFrom(w2, i + 1, doomed + c1, now);
      UpdateQuiet(w2, i + 1, doomed + c1, now);
      QuietStep(ents, i, e1);
      CulledStep(ents, i, w.width, w.height);
      ConcatAssoc(doomed, c1, Culled(ents[i + 1..], w.width, w.height));
    }
  }

  /** Replacing position `i` by its update moves the boundary of the
      updated suffix one position on. */
  lemma QuietStep(ents: seq<Entity>, i: nat, e1: Entity)
    requires i < |ents| && e1 == Advance(ents[i])
    ensures ents[i := e1][i + 1..] == ents[i + 1..]
    ensures ents[i := e1][..i + 1] + AdvanceAll(ents[i + 1..]) == ents[..i] + AdvanceAll(ents[i..])
  {
    var a := ents[i := e1][..i + 1] + AdvanceAll(ents[i + 1..]);
    var b := ents[..i] + AdvanceAll(ents[i..]);
    assert |a| == |b|;
    forall k | 0 <= k < |a| ensures a[k] == b[k] {
      if k > i {
        assert a[k] == AdvanceAll(ents[i + 1..])[k - i - 1];
      }
    }
  }

  /** `Culled` takes the list apart at its first entity. */
  lemma CulledStep(ents: seq<Entity>, i: nat, screenW: int, screenH: int)
    requires i < |ents|
    ensures var e1 := Advance(ents[i]);
      Culled(ents[i..], screenW, screenH) ==
        (if e1.rules.dieOffscreen && IsOffscreen(e1, screenW, screenH) then [e1] else [])
        + Culled(ents[i + 1..], screenW, screenH)
  {
    assert ents[i..][1..] == ents[i + 1..];
  }

  /** An entity that nothing happens to in a frame but its own motion: it
      updates quietly, does not end up off the screen when it is marked to
      die there, and has no collision handler. */
  predicate Calm(e: Entity, now: real, screenW: int, screenH: int)
  {
    && Quiet(e, now)
    && !(e.rules.dieOffscreen && IsOffscreen(Advance(e), screenW, screenH))
    && e.rules.handler == NoHandler
  }

  lemma {:induction false} CulledCalm(es: seq<Entity>, now: real, screenW: int, screenH: int)
    requires forall k :: 0 <= k < |es| ==> Calm(es[k], now, screenW, screenH)
    ensures Culled(es, screenW, screenH) == []
  {
    if es != [] {
      CulledCalm(es[1..], now, screenW, screenH);
    }
  }

  /** The update pass over calm entities moves each of them and culls
      none. */
  lemma CalmUpdate(w: World, now: real)
    requires forall k :: 0 <= k < |w.entities| ==> Calm(w.entities[k], now, w.width, w.height)
    ensures UpdateFrom(w, 0, [], now) == (w.(entities := AdvanceAll(w.entities)), [])
  {
    UpdateQuiet(w, 0, [], now);
    CulledCalm(w.entities, now, w.width, w.height);
    assert w.entities[..0] + AdvanceAll(w.entities[0..]) == AdvanceAll(w.entities);
  }

  /** Without handlers, the collision phase and the dispatch together only
      leave every collision list empty. */
  lemma CollideDispatchUnhandled(v: World)
    requires UniqueIds(v.entities)
    requires forall k :: 0 <= k < |v.entities| ==> v.entities[k].rules.handler == NoHandler
    ensures DispatchFrom(Collide(v), 0) == v.(entities := DispatchFrom(Collide(v), 0).entities)
    ensures |DispatchFrom(Collide(v), 0).entities| == |v.entities|
    ensures forall k :: 0 <= k < |v.entities| ==>
      DispatchFrom(Collide(v), 0).entities[k] == v.entities[k].(collisions := [])
  {
    var v3 := Collide(v);
    CollisionPassSpec(v.entities);
    assert forall k :: 0 <= k < |v3.entities| ==> v3.entities[k].id == v.entities[k].id;
    assert forall k :: 0 <= k < |v3.entities| ==> !Fires(v3.entities[k]);
    DispatchQuiet(v3, 0);
  }

  /** A frame whose update pass culls nothing goes straight from the
      update pass to the collision phase. */
  lemma AnimateWithoutCulls(w: World, now: real, w1: World)
    requires !w.paused && UpdateFrom(w, 0, [], now) == (w1, [])
    ensures Animate(w, now) == DispatchFrom(Collide(w1), 0)
  {
    assert KillAll(w1, []) == w1;
  }

  /** Updating entities keeps their identities. */
  lemma AdvanceAllIds(es: seq<Entity>)
    requires UniqueIds(es)
    ensures UniqueIds(AdvanceAll(es))
  {
    assert forall k :: 0 <= k < |es| ==> AdvanceAll(es)[k].id == es[k].id;
  }

  /** A frame of a scene of calm entities is the reference frame: each
      entity is updated once, in place, nothing is added or removed, and
      the collision lists are left empty. */
  lemma AnimateCalm(w: World, now: real)
    requires !w.paused && Valid(w)
    requires forall k :: 0 <= k < |w.entities| ==> Calm(w.entities[k], now, w.width, w.height)
    ensures Animate(w, now) == w.(entities := Animate(w, now).entities)
    ensures |Animate(w, now).entities| == |w.entities|
    ensures forall k :: 0 <= k < |w.entities| ==>
      Animate(w, now).entities[k] == Advance(w.entities[k]).(collisions := [])
  {
    var w1 := w.(entities := AdvanceAll(w.entities));
    CalmUpdate(w, now);
    AnimateWithoutCulls(w, now, w1);
    AdvanceAllIds(w.entities);
    CollideDispatchUnhandled(w1);
  }

  /** Offscreen culling only reaches entities marked `die_offscreen`: in a
      calm frame an unmarked entity whose update leaves the screen is still
      listed afterwards, off the screen. */
  lemma AnimateKeepsUnmarked(w: World, now: real, k: nat)
    requires !w.paused && Valid(w) && k < |w.entities|
    requires forall m :: 0 <= m < |w.entities| ==> Calm(w.entities[m], now, w.width, w.height)
    requires IsOffscreen(Advance(w.entities[k]), w.width, w.height)
    ensures var r := Animate(w, now);
      HasId(r.entities, w.entities[k].id) &&
      exists m :: 0 <= m < |r.entities| && r.entities[m].id == w.entities[k].id &&
        IsOffscreen(r.entities[m], r.width, r.height)
  {
    AnimateCalm(w, now);
    var r := Animate(w, now);
    assert r.entities[k].id == w.entities[k].id;
    assert IsOffscreen(r.entities[k], r.width, r.height);
  }
}
