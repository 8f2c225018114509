# asciiquarium entity engine in Dafny

This project models the entity engine of py-asciiquarium (`asciiquarium.py`), a
terminal aquarium. It covers the following parts:

- **Entities** (`entity.dfy`, module `Entities`):
  - `Entity.__init__` derives the frames, the colour frames, the current lines and the box of the first frame.
  - `update` counts a frame and runs the motion rule.
  - `move_entity` moves the entity by `(dx, dy, dz) * speed` and selects the frame `floor(frame * speed) % num_frames`.
  - `is_offscreen` tests the floored box.
- **Collisions** (`collision.dfy`, module `Collision`):
  - `check_collision` is the floored box test.
  - The collision phase of `animate` runs a pairwise loop over the physical entities. Each overlapping pair gets appended to both collision lists.
- **The scene** (`scene.dfy`, module `Scene`):
  - the entity list with `add_entity`, `remove_entity` and `get_entities_by_type`;
  - `kill` with its death callbacks (respawning through `random_object`, `shark_death`);
  - the callbacks `fish_callback`, `add_bubble`, `bubble_collision`, `fish_collision` and `add_splat`;
  - `animate`: the pause check, the update pass with its offscreen list, the kill pass, the collision phase and the handler dispatch.
- **Compositing** (`render.dfy`, module `Render`):
  - `redraw_screen` is a pure fold of the depth-sorted entities into a map from screen cells to characters and colour attributes.
  - It includes the colour-pair table that `init_colors` builds and the colour lookup with its fallback.
- **`rand_color`** (`palette.dfy`, module `Palette`): the nine random choices are a parameter.
- **Support** (`text.dfy`, `wrappers.dfy`): Python's `split('\n')`, `'\n'.join`, the longest-line length and single-character `replace`, plus `Option`/`Result`.

Entities are immutable records. Python's object identity is an `id` that the
world issues from `nextId`, and the model proves that identities stay distinct
and are never reused.

The update loop and the dispatch loop are written as recursion over a position
in the *current* list, since Python walks a list by position while it changes:
- an appended bubble is visited in the same pass;
- a removal makes the loop skip the entity that moves into the freed position.

### Behaviour of the code worth knowing

- **Box size.** `width` and `height` are fixed at construction. `move_entity` only replaces `lines`, so an animated entity keeps the box of its first frame (`Entities.Move`).
- **Update pass.** `animate` walks the live list by position. Bubbles blown during the pass are updated in the same frame, and a removal skips the next entity (`Scene.UpdateSkipsAfterRemoval`).
- **Death callback.** An entity whose frame limit and time limit are both reached is killed twice in one update. It leaves the list once, but its respawning callback runs twice (`Scene.DoubleDeath`).
- **Offscreen kills.** An entity killed inside `update` can still be collected for the offscreen kills and killed again. `remove_entity` is then a no-op, but the callback runs again.
- **Default colour.** It is used for any mask character without a colour pair, not only for blanks. An empty `default_color` raises even when the key has a pair, because the fallback lookup is evaluated first (`Render.AttrFor`).
- **Dispatch.** A handler that removes its entity makes the dispatch loop skip the next entity's `collisions.clear()` (`Scene.DispatchSkipsAfterRemoval`).
- **Draw order.** `redraw_screen` sorts by ascending z. The `DEPTH` table gives the deepest items the largest z (the castle 22, the shark 2), so the castle and the seaweed are painted over the fish and the shark (`Render.RedrawTopmost`).

## Model

| member | source | states |
|---|---|---|
| Text.Split | asciiquarium.py:105 | `split('\n')` yields at least one piece and no piece holds a newline |
| Text.JoinSplit | asciiquarium.py:105 | joining the pieces of a split with newlines gives the original text back |
| Text.SplitJoin | asciiquarium.py:105 | splitting the join of newline-free pieces gives the pieces back |
| Text.SplitSingleLine | asciiquarium.py:105 | text without a newline is one line |
| Text.MaxLen | asciiquarium.py:107 | the result bounds every line length and equals one of them; it is 0 for no lines |
| Text.ReplaceChar | asciiquarium.py:261 | same length; every occurrence of the character is replaced, every other character is kept |
| Entities.Build | asciiquarium.py:74-108 | definition of the constructor's fields for a buildable blueprint; see `Entities.NewEntity` and `Entities.NewEntitySpec` |
| Entities.NewEntity | asciiquarium.py:93-107 | construction fails exactly when the shape list or the colour list is empty, and names which one |
| Entities.NewEntitySpec | asciiquarium.py:74-108 | the keyword arguments are kept; the first frame and mask are shown; the height is the line count; every line fits the width and one line reaches it; the frame counter is 0 and the collision list is empty |
| Entities.FrameIndex | asciiquarium.py:127 | the frame index lies in `[0, num_frames)` |
| Entities.Move | asciiquarium.py:119-131 | the position changes by exactly `(dx, dy, dz) * speed`; a multi-frame entity shows the lines of the selected frame and the colour frame at that index modulo the colour-frame count; width, height and everything else are unchanged |
| Entities.DieFrameDue | asciiquarium.py:114-115 | definition of the frame-limit test; see `Scene.UpdateAtValid` and `Scene.DoubleDeath` |
| Entities.DieTimeDue | asciiquarium.py:116-117 | definition of the time-limit test against the frame's clock reading; see `Scene.UpdateAtValid` and `Scene.DoubleDeath` |
| Entities.Advance | asciiquarium.py:110-113 | the frame counter grows by exactly one; only the position and what is shown change besides it |
| Entities.AdvanceStep | asciiquarium.py:110-131 | one update of a moving entity moves it by its step and shows the frame selected by the incremented counter |
| Entities.AdvanceNSteps | asciiquarium.py:110-131 | after `t` updates the counter has grown by `t`, the box and the rules are unchanged, and the shown frame is the one the counter selects |
| Entities.AdvanceNTravel | asciiquarium.py:119-123 | after `t` updates the position is the start plus `t` steps added one at a time |
| Entities.AdvanceNClosedForm | asciiquarium.py:119-123 | after `t` updates the position is the start plus `t * (dx, dy, dz) * speed` |
| Entities.IsOffscreen | asciiquarium.py:138-142 | definition of `is_offscreen`; see `Entities.OffscreenIffNoSharedPoint`, `Entities.PartlyVisibleIsNotOffscreen` and `Entities.RightEdgeIsNotOffscreen` |
| Entities.OffscreenIffNoSharedPoint | asciiquarium.py:138-142 | offscreen exactly when the widened box shares no grid point with `[0, screen_w] x [0, screen_h]` |
| Entities.PartlyVisibleIsNotOffscreen | asciiquarium.py:138-142 | a box with a cell on the screen is not offscreen |
| Entities.RightEdgeIsNotOffscreen | asciiquarium.py:141 | a box whose left edge is exactly at `screen_w` is not offscreen |
| Collision.CheckCollision | asciiquarium.py:219-223 | definition of `check_collision`; see `Collision.CollisionSymmetric`, `Collision.CollisionIffSharedPoint` and `Collision.TouchingEdgesCollide` |
| Collision.CollisionSymmetric | asciiquarium.py:219-223 | `check_collision(a, b)` equals `check_collision(b, a)` |
| Collision.CollisionIffSharedPoint | asciiquarium.py:219-223 | two entities collide exactly when their boxes, widened by one cell, share a grid point |
| Collision.TouchingEdgesCollide | asciiquarium.py:219-223 | boxes whose edges touch, side by side on one row or one above the other in one column, collide; a one-cell gap in either direction separates them |
| Collision.PhysicalIndices | asciiquarium.py:205 | the physical entities are listed in increasing position order, and only physical ones |
| Collision.PhysicalIndicesComplete | asciiquarium.py:205 | every physical entity is listed |
| Collision.CollideOnceEffect | asciiquarium.py:208-212 | a colliding pair gets each other's reference appended; no other list changes |
| Collision.CollisionPass | asciiquarium.py:204-212 | definition of the collision phase on a list, keeping its length; see `Collision.CollisionPassSpec`, `Collision.PartnersMatchReference` and `Collision.PassPartners` |
| Collision.CollisionPassSpec | asciiquarium.py:204-212 | the phase only changes collision lists; non-physical entities are untouched; a physical entity gains, in list order, a reference to every other physical entity whose box meets its own |
| Collision.PartnersMatchReference | asciiquarium.py:205-212 | the nested loop finds for the `m`-th physical entity exactly its reference partners among all entities |
| Collision.PartnersOfMember | asciiquarium.py:205-212 | an entity is a partner exactly when it is another physical entity whose box meets |
| Collision.PartnersOfCount | asciiquarium.py:205-212 | each colliding partner is listed exactly once, any other entity never |
| Collision.PassPartners | asciiquarium.py:204-212 | the phase appends a physical entity's reference partners to its list |
| Collision.CollisionsMutual | asciiquarium.py:210-212 | after the phase, two physical entities list each other or neither lists the other |
| Collision.CollisionsOnce | asciiquarium.py:205-212 | after the phase, an entity that started with an empty list holds each colliding physical partner exactly once and nothing else |
| Scene.AddEntity | asciiquarium.py:178-179 | appends the entity at the end and keeps every other entity and field |
| Scene.IndexOf | asciiquarium.py:182-183 | the first position holding the identity, or none exactly when no entity has it |
| Scene.RemoveById | asciiquarium.py:182-183 | the list shrinks by one exactly when the identity is listed |
| Scene.RemoveByIdSpec | asciiquarium.py:181-183 | removal drops exactly the first entity with the identity, and nothing when it is absent |
| Scene.RemoveEntity | asciiquarium.py:181-183 | removing an absent entity leaves the list unchanged; otherwise the list shrinks by one |
| Scene.RemoveEntityValid | asciiquarium.py:181-183 | after removal no entity has the identity, identities stay distinct, and nothing new appears |
| Scene.RemoveEntityKeeps | asciiquarium.py:181-183 | removal keeps every entity with another identity |
| Scene.RemoveAfterAdd | asciiquarium.py:178-183 | adding a new entity and then removing it restores the scene |
| Scene.EntitiesByType | asciiquarium.py:188-189 | only entities of the type are selected, no more than were listed |
| Scene.EntitiesByTypeCount | asciiquarium.py:188-189 | each entity of the type keeps its multiplicity, and any other entity is selected zero times |
| Scene.EntitiesByTypeMember | asciiquarium.py:188-189 | an entity is selected exactly when it is listed and of the type |
| Scene.EntitiesByTypeConcat | asciiquarium.py:188-189 | selection distributes over concatenation, so list order is kept |
| Scene.AddNew | asciiquarium.py:178-179 | one spawner call appends the entity built under the next identity and uses up that identity |
| Scene.SpawnBatch | asciiquarium.py:916-919 | a batch of spawner calls appends the built batch and uses one identity per entity |
| Scene.Spawn | asciiquarium.py:916-919 | a spawning death callback changes neither the screen nor the coin tosses |
| Scene.SpawnIsSpawnBatch | asciiquarium.py:916-919 | the spawning callback is the batch of spawner calls for the next supplied batch |
| Scene.SpawnValid | asciiquarium.py:916-919 | spawning keeps identities distinct and gives each new entity a fresh one |
| Scene.RemoveAll | asciiquarium.py:570-571 | a sequence of removals changes only the list and never lengthens it |
| Scene.RemoveAllValid | asciiquarium.py:570-571 | after the removals none of the removed identities remains, and identities stay distinct |
| Scene.RemoveAllSub | asciiquarium.py:570-571 | every entity left after the removals was listed before |
| Scene.RemoveAllKeeps | asciiquarium.py:570-571 | an entity whose identity none of the removals names stays listed |
| Scene.RemoveTeeth | asciiquarium.py:570-571 | definition of the removal loop of `shark_death`, which changes only the list; see `Scene.NoTeethLeft` |
| Scene.OnSharkDeath | asciiquarium.py:569-572 | definition of `shark_death`; see `Scene.SharkDeathEatsTeeth` |
| Scene.NoTeethLeft | asciiquarium.py:570-571 | after the loop of `shark_death` no 'teeth' entity remains |
| Scene.SharkDeathEatsTeeth | asciiquarium.py:569-572 | after `shark_death` every 'teeth' entity was just spawned |
| Scene.RunDeath | asciiquarium.py:135-136 | definition of the death-callback dispatch; see `Scene.Kill`, `Scene.KillValid` and `Scene.KillTwice` |
| Scene.Kill | asciiquarium.py:133-136 | without a death callback `kill` is `remove_entity`; for an absent entity only the callback acts; the screen is unchanged |
| Scene.KillValid | asciiquarium.py:133-136 | after `kill` no entity has the killed identity, whatever the callback adds, and identities stay distinct |
| Scene.KillKeeps | asciiquarium.py:133-136 | `kill` keeps every other listed entity except 'teeth', which `shark_death` removes |
| Scene.BubbleFor | asciiquarium.py:353-373 | definition of the bubble `add_bubble` builds; see `Scene.BubbleTouchesFish` and `Scene.Blow` |
| Scene.Blow | asciiquarium.py:431-433 | with no coin toss left nothing changes; otherwise one toss is used, and the bubble built from the fish is appended under the next identity exactly when the toss (`randint(0, 100) > 97`) comes up; the supply is untouched |
| Scene.BubbleTouchesFish | asciiquarium.py:353-373 | a fish's box always meets the box of a bubble it blows |
| Scene.UpdateAt | asciiquarium.py:110-117 | `update` gives the advanced entity and either uses random choices or does not lengthen the list |
| Scene.UpdateAtInPlace | asciiquarium.py:110-115 | an update that reaches no limit writes the advanced entity into its position and changes no other; only a fish appends, and only the bubble it blows under the next identity |
| Scene.UpdateAtValid | asciiquarium.py:110-117 | when the frame limit or the time limit is reached the entity is gone from the scene afterwards; identities stay distinct and are never reused |
| Scene.UpdateFrom | asciiquarium.py:195-199 | the update pass keeps the screen and only adds to the offscreen list |
| Scene.UpdateFromDooms | asciiquarium.py:195-199 | every entity the pass adds to `to_remove` is marked `die_offscreen` and off the screen |
| Scene.UpdateFromValid | asciiquarium.py:195-199 | the update pass keeps identities distinct and never reuses one |
| Scene.UpdateFromKeeps | asciiquarium.py:195-199 | any property of the world that one entity's update keeps is kept by the whole pass, even though the pass walks the list as it grows and shrinks |
| Scene.UpdateFromRelates | asciiquarium.py:195-199 | a relation between a position of the walk and the pass's result that holds past the end of the list, and that each entity's update carries back one position, holds of the whole pass |
| Scene.UpdateFromIssued | asciiquarium.py:195-199 | every entity the update pass adds to `to_remove` has an identity the world has issued |
| Scene.UpdateLasting | asciiquarium.py:195-199 | when no entity reaches a limit, the pass updates every listed entity once, in place, and appends only bubbles with fresh identities |
| Scene.CulledMember | asciiquarium.py:197-198 | an update is among the culled ones exactly when it is marked `die_offscreen` and off the screen |
| Scene.UpdateLastingCollects | asciiquarium.py:195-199 | when no entity reaches a limit, `to_remove` starts with the culled updates of the listed entities, in list order |
| Scene.UpdateLastingDooms | asciiquarium.py:195-199 | when no entity reaches a limit, an entity marked `die_offscreen` whose update leaves the screen is put on `to_remove` |
| Scene.UpdateQuiet | asciiquarium.py:195-199 | when nothing but motion happens, the pass updates every entity once, in place, and collects exactly the offscreen ones |
| Scene.UpdateSkipsAfterRemoval | asciiquarium.py:196-199 | a removal during the update pass skips the next entity's update |
| Scene.DoubleDeath | asciiquarium.py:114-117 | an entity reaching both limits leaves the list once but its respawn callback runs twice |
| Scene.KillTwice | asciiquarium.py:133-136 | killing a listed respawning entity twice removes it once and spawns two batches |
| Scene.KillAll | asciiquarium.py:201-202 | the kill pass keeps the screen and the coin tosses |
| Scene.KillAllValid | asciiquarium.py:201-202 | the kill pass keeps identities distinct, and afterwards none of the killed identities is listed, whatever the callbacks spawn |
| Scene.Collide | asciiquarium.py:204-212 | the collision phase changes only collision lists and keeps the length; non-physical entities are untouched, and a physical entity gains, in list order, a reference to every other physical entity whose box meets its own |
| Scene.CollideValid | asciiquarium.py:204-212 | the collision phase keeps identities distinct |
| Scene.Fires | asciiquarium.py:375-441 | definition of when `bubble_collision` (a 'waterline' partner) or `fish_collision` (a 'teeth' partner, height at most 5) acts; see `Scene.HandleKills` and `Scene.DispatchKillsFired` |
| Scene.SplatAt | asciiquarium.py:443-479 | definition of the splat `add_splat` builds, with its four frames; see `Scene.HandleKills` |
| Scene.Handle | asciiquarium.py:375-441 | a handler that does not fire changes nothing, and the screen never changes |
| Scene.HandleShrinks | asciiquarium.py:436-441 | a handler either uses a supplied batch or does not lengthen the list, since the splat replaces the fish |
| Scene.HandleValid | asciiquarium.py:375-441 | collision handlers keep identities distinct |
| Scene.HandleKills | asciiquarium.py:375-441 | a handler that fires removes its entity; a firing `fish_collision` also adds the splat built at the fish's position |
| Scene.ClearCollisions | asciiquarium.py:217 | clearing changes only the list entries and keeps the length |
| Scene.ClearCollisionsAt | asciiquarium.py:217 | clearing empties the list of the first entity with the identity and leaves every other entity as it is |
| Scene.ClearOnly | asciiquarium.py:214-217 | with distinct identities, clearing empties exactly the list of the entity being dispatched |
| Scene.ClearValid | asciiquarium.py:217 | clearing keeps identities distinct |
| Scene.DispatchFrom | asciiquarium.py:214-217 | the dispatch loop keeps the screen and the coin tosses |
| Scene.DispatchQuiet | asciiquarium.py:214-217 | with no handler firing, dispatch only empties every collision list from the start position on and changes nothing else |
| Scene.DispatchStepQuiet | asciiquarium.py:215-217 | one quiet dispatch step clears exactly the list at its position |
| Scene.DispatchValid | asciiquarium.py:214-217 | the dispatch loop keeps identities distinct |
| Scene.DispatchKillsFired | asciiquarium.py:214-217 | an entity whose handler fires when the loop reaches it is gone after the loop |
| Scene.DispatchSkipsAfterRemoval | asciiquarium.py:214-217 | a bubble removed by its handler makes the loop skip the next entity's `collisions.clear()` |
| Scene.Animate | asciiquarium.py:191-193 | while paused, `animate` changes nothing; it never changes the screen |
| Scene.AnimateValid | asciiquarium.py:191-217 | a frame keeps identities distinct and never reuses one |
| Scene.AnimateCulls | asciiquarium.py:191-217 | after a frame no entity that the update pass put on `to_remove` is listed, whatever the kills, collisions and handlers add |
| Scene.AnimateCullsOffscreen | asciiquarium.py:195-202 | in a frame where no entity reaches a limit, an entity marked `die_offscreen` whose update takes it off the screen is gone after the frame |
| Scene.AnimateKeepsUnmarked | asciiquarium.py:195-202 | the offscreen kills only reach entities marked `die_offscreen`: in a calm frame an unmarked entity that moves off the screen is still listed, off the screen |
| Scene.CalmUpdate | asciiquarium.py:195-202 | over calm entities the update pass advances each one and culls none |
| Scene.CollideDispatchUnhandled | asciiquarium.py:204-217 | without handlers, collision and dispatch together leave every collision list empty and change nothing else |
| Scene.AnimateWithoutCulls | asciiquarium.py:195-217 | a frame whose update pass culls nothing goes straight to collision and dispatch |
| Scene.AnimateCalm | asciiquarium.py:191-217 | a frame of calm entities updates each once, in place, adds and removes nothing, and leaves every collision list empty |
| Render.ColorPairsBuilt | asciiquarium.py:161-173 | the colour-pair loop yields the 14-key table in which BLUE takes over BLACK's keys |
| Render.ColorKeyAt | asciiquarium.py:231-243 | the mask character at the drawn position, or a blank where the mask line is missing or too short |
| Render.AttrFor | asciiquarium.py:244 | the lookup raises exactly when the default colour is empty, or when neither the key nor the default's first letter has a pair; a key with a pair gets that pair, any other key the default colour's pair |
| Render.MaskGapUsesDefault | asciiquarium.py:235-244 | where the mask has no character the default colour's pair is used, and the lookup raises when the default colour is empty or has no pair |
| Render.DrawLineFails | asciiquarium.py:236-248 | drawing a line raises exactly when a drawn character has no colour |
| Render.DrawLineAt | asciiquarium.py:236-248 | a successfully drawn line writes exactly its drawn positions with their cells and keeps every other cell |
| Render.DrawRowsFails | asciiquarium.py:233-248 | drawing the lines raises exactly when a drawn character has no colour |
| Render.DrawRowsAt | asciiquarium.py:233-248 | drawn lines write exactly the covered positions with their cells and keep every other cell |
| Render.DrawEntity | asciiquarium.py:229-248 | definition of drawing one entity; see `Render.DrawEntityFails` and `Render.DrawEntityAt` |
| Render.DrawEntityFails | asciiquarium.py:229-248 | drawing an entity raises exactly when one of its drawn characters has no colour |
| Render.DrawEntityAt | asciiquarium.py:229-248 | drawing an entity writes exactly the positions it covers, on the screen and opaque, and keeps every other cell |
| Render.Insert | asciiquarium.py:227 | inserting into the depth order adds one position in range |
| Render.InsertMembers | asciiquarium.py:227 | insertion adds exactly the new position and keeps the listed ones |
| Render.InsertInOrder | asciiquarium.py:227 | inserting a later position keeps the stable depth order |
| Render.DepthOrder | asciiquarium.py:227 | the sort lists as many positions as entities, all in range |
| Render.DepthOrderBelow | asciiquarium.py:227 | the sort of the first `n` entities lists only those |
| Render.DepthOrderSorted | asciiquarium.py:227 | smaller z comes first; entities of equal z keep list order |
| Render.DepthOrderComplete | asciiquarium.py:227 | every entity is listed |
| Render.LastCover | asciiquarium.py:229-246 | the last entity in order that covers the position; none exactly when no entity covers it |
| Render.PaintAll | asciiquarium.py:229-248 | definition of drawing the entities in the given order; see `Render.PaintAllFails` and `Render.PaintAllAt` |
| Render.PaintAllFails | asciiquarium.py:229-248 | painting raises exactly when some entity raises when drawn |
| Render.PaintAllAt | asciiquarium.py:229-246 | each position shows the last covering entity's cell; an uncovered position keeps its cell |
| Render.LastCoverTop | asciiquarium.py:227-246 | in the stable ascending-z order, the last covering entity is the one with the largest z, the latest listed among ties |
| Render.Redraw | asciiquarium.py:225-249 | definition of `redraw_screen`; see `Render.RedrawFails`, `Render.RedrawCovers` and `Render.RedrawTopmost` |
| Render.RedrawFails | asciiquarium.py:225-249 | a redraw raises exactly when some entity has a drawn character without a colour pair |
| Render.RedrawCovers | asciiquarium.py:225-246 | a cell is written exactly where some entity draws an opaque character on the screen; so every cell is in `[0, height) x [0, width)` and transparent characters are never written |
| Render.RedrawTopmost | asciiquarium.py:227-246 | each written cell shows the character and colour of the covering entity drawn last: the one with the largest z, and among equal z the one listed last |
| Palette.RandColor | asciiquarium.py:257-262 | same length; each digit 1-9 becomes its chosen colour; every other character, `0` included, is unchanged; no digit 1-9 remains |
| Palette.ColorsHavePairs | asciiquarium.py:258 | every colour `rand_color` can choose has a colour pair |

## Left out

- Terminal I/O is not modelled:
  - `init_curses`, `update_term_size`, `erase`, `addstr`, `refresh` and key polling;
  - the screen size is the world's `width` and `height`, and a redraw yields a map of written cells;
  - a write that curses rejects at the bottom-right corner is treated as done, since the source ignores the error.
- `main`, signal handling, the command-line flags and the restart loop are not modelled. Pausing is the `paused` field.
- `remove_all_entities` is not modelled. Only the restart loop uses it.
- Randomness is not modelled; its outcomes are inputs:
  - spawning death callbacks take the next batch of blueprints from `supply`;
  - `fish_callback`'s test `randint(0, 100) > 97` reads `dice`;
  - `rand_color` takes its nine picks as a parameter.
  - An exhausted supply or dice list counts as "no spawn" / "no bubble".
- The spawner functions and their art tables are not modelled (`add_fish`, `add_shark`, `add_ship`, …, and `fish_art`). Each is a blueprint in a batch; a blueprint is assumed buildable (non-empty frame lists), as every art table in the program is.
- `add_bubble`, `add_splat`, `fish_callback`, `bubble_collision`, `fish_collision` and `shark_death` are modelled, because they mutate the list during `animate`.
- The wall clock is not read. `time.time()` is one reading `now` passed to `animate`, the same for every entity in a frame.
- Floating point is not modelled. Positions and speeds are exact reals.
- Scene.Spawn: does not state the identity bookkeeping of the batch in its own contract, since that is proved separately in `Scene.SpawnValid` and `Scene.SpawnIsSpawnBatch`.
- Scene.UpdateFrom: its position-by-position effect is proved only for passes in which no entity reaches a limit (`Scene.UpdateLasting`, `Scene.UpdateLastingCollects`); when a kill removes entities mid-pass, only the skipped update (`Scene.UpdateSkipsAfterRemoval`), the identity invariant and the facts about `to_remove` are stated.
- Scene.DispatchFrom: its effect is stated for quiet lists (`Scene.DispatchQuiet`), for one firing entity (`Scene.DispatchKillsFired`) and for the skip after a removal; what a whole loop with several firing handlers leaves is not stated position by position.
