/** The `Entity` class of asciiquarium.py: an animated, positioned sprite
    with its geometry (derived from the first frame at construction), its
    frame counter, its motion rule and its collision bookkeeping. */
module Entities {
  import opened Wrappers
  import opened Text

  /** The per-tick rule stored in `callback`. */
  datatype Motion =
    | NoCallback   // `callback=None`: `update` only counts the frame
    | MoveEntity   // the default rule, `Entity.move_entity`
    | FishMotion   // `fish_callback`: possibly blow a bubble, then `move_entity`

  /** The callback stored in `death_cb`. */
  datatype DeathCb =
    | NoDeathCb    // `death_cb=None`
    | Respawn      // `add_fish`, `add_seaweed`, `random_object`: spawn replacements
    | SharkDeath   // `shark_death`: remove every 'teeth' entity, then `random_object`

  /** The callback stored in `coll_handler`. */
  datatype CollHandler =
    | NoHandler       // `coll_handler=None`
    | BubbleCollision // `bubble_collision`: die on touching a 'waterline'
    | FishCollision   // `fish_collision`: splat and die on touching 'teeth' when small

  /** A `shape` or `color` keyword argument: one string, or a list of frames. */
  datatype Art = Single(text: string) | Frames(list: seq<string>)

  /** What a collision list holds about a partner: its identity and its
      `type`, which never changes after construction. */
  datatype Ref = Ref(id: nat, kind: string)

  /** A point or a displacement `(x, y, z)`; `z` is the drawing depth. */
  datatype Vec = Vec(x: real, y: real, z: real)

  /** The behaviour keywords: callbacks, `die_offscreen`, `physical`,
      `die_time` (a wall-clock instant) and `die_frame`. */
  datatype Rules = Rules(
    motion: Motion,
    deathCb: DeathCb,
    handler: CollHandler,
    dieOffscreen: bool,
    physical: bool,
    dieTime: Option<real>,
    dieFrame: Option<int>)

  /** The drawing keywords: `default_color`, `transparent`, `auto_trans`. */
  datatype Paint = Paint(defaultColor: string, transparent: string, autoTrans: bool)

  /** The keyword arguments of `Entity.__init__`; `vel` and `speed` are the
      four `callback_args`. */
  datatype Config = Config(
    kind: string,
    shape: Art,
    color: Art,
    pos: Vec,
    vel: Vec,
    speed: real,
    rules: Rules,
    paint: Paint)

  /** The defaults `Entity.__init__` falls back on for absent keywords. */
  const Defaults: Config :=
    Config("entity", Single(""), Single(""), Vec(0.0, 0.0, 0.0), Vec(0.0, 0.0, 0.0), 0.1,
           Rules(MoveEntity, NoDeathCb, NoHandler, false, false, None, None),
           Paint("WHITE", " ", false))

  /** The frames of an entity and what it currently shows. `lines` and
      `colorMap` belong to the current frame; `width` and `height` are
      fixed when the entity is built. */
  datatype Look = Look(
    frames: seq<string>,
    colorFrames: seq<string>,
    lines: seq<string>,
    colorMap: string,
    width: nat,
    height: nat)

  /** A live entity. */
  datatype Entity = Entity(
    id: nat,
    kind: string,
    look: Look,
    paint: Paint,
    pos: Vec,
    vel: Vec,
    speed: real,
    rules: Rules,
    frame: nat,
    collisions: seq<Ref>)

  /** Indexing an empty frame list raises in the constructor. */
  datatype BuildError = EmptyShapeList | EmptyColorList

  /** The frame list an `Art` argument stands for. */
  function FramesOf(a: Art): seq<string>
  {
    match a
    case Single(t) => [t]
    case Frames(l) => l
  }

  /** Every line of the current frame lies inside the stored box. */
  predicate FitsBox(e: Entity)
  {
    && |e.look.lines| <= e.look.height
    && forall k :: 0 <= k < |e.look.lines| ==> |e.look.lines[k]| <= e.look.width
  }

  /** `Entity(anim, **kwargs)`: the shape's frames, the colour frames and
      the box of the first frame. An empty frame list makes the
      constructor raise. */
  function NewEntity(id: nat, c: Config): (r: Result<Entity, BuildError>)
    ensures r.Failure? <==> |FramesOf(c.shape)| == 0 || |FramesOf(c.color)| == 0
    ensures r.Failure? ==> (r.error == EmptyShapeList <==> |FramesOf(c.shape)| == 0)
  {
    var frames := FramesOf(c.shape);
    var colorFrames := FramesOf(c.color);
    if |frames| == 0 then Failure(EmptyShapeList)
    else if |colorFrames| == 0 then Failure(EmptyColorList)
    else
      var lines := Split(frames[0]);
      var look := Look(frames, colorFrames, lines, colorFrames[0], MaxLen(lines), |lines|);
      Success(Entity(id, c.kind, look, c.paint, c.pos, c.vel, c.speed, c.rules, 0, []))
  }

  /** A constructed entity keeps the keyword arguments, shows the first
      frame, and its box is the smallest one holding that frame: as many
      rows as lines, as many columns as the longest line. */
  lemma NewEntitySpec(id: nat, c: Config)
    requires NewEntity(id, c).Success?
    ensures var e := NewEntity(id, c).value;
      && e.id == id && e.kind == c.kind && e.pos == c.pos && e.vel == c.vel && e.speed == c.speed
      && e.rules == c.rules && e.paint == c.paint
      && e.look.frames == FramesOf(c.shape) && e.look.colorFrames == FramesOf(c.color)
      && e.look.lines == Split(e.look.frames[0]) && e.look.colorMap == e.look.colorFrames[0]
      && e.look.height == |e.look.lines| >= 1
      && FitsBox(e)
      && (exists k :: 0 <= k < |e.look.lines| && |e.look.lines[k]| == e.look.width)
      && e.frame == 0 && e.collisions == []
  {
  }

  /** A configuration the constructor accepts: both frame lists non-empty. */
  predicate Buildable(c: Config)
  {
    |FramesOf(c.shape)| > 0 && |FramesOf(c.color)| > 0
  }

  /** The configurations the spawners pass to the constructor; every art
      table in the program yields one. */
  type Blueprint = c: Config | Buildable(c) witness Defaults

  /** The entity a blueprint builds under identity `id`. */
  function Build(id: nat, c: Blueprint): Entity
  {
    NewEntity(id, c).value
  }

  /** The frame `move_entity` shows: `floor(frame * speed) % num_frames`.
      Python's `%` by a positive number is never negative, like Dafny's. */
  function FrameIndex(frame: int, speed: real, n: nat): (k: nat)
    requires n > 0
    ensures k < n
  {
    ((frame as real) * speed).Floor % n
  }

  /** The displacement one `move_entity` call applies:
      `(dx * speed, dy * speed, dz * speed)`. */
  function Step(vel: Vec, speed: real): Vec
  {
    Vec(vel.x * speed, vel.y * speed, vel.z * speed)
  }

  /** `move_entity`: shift by `(dx, dy, dz) * speed` and, for a multi-frame
      entity, show the frame the counter selects. The box is left alone. */
  function Move(e: Entity): (r: Entity)
    ensures r.pos.x - e.pos.x == Step(e.vel, e.speed).x
    ensures r.pos.y - e.pos.y == Step(e.vel, e.speed).y
    ensures r.pos.z - e.pos.z == Step(e.vel, e.speed).z
    ensures r == e.(pos := r.pos, look := r.look)
    ensures r.look == e.look.(lines := r.look.lines, colorMap := r.look.colorMap)
    ensures |e.look.frames| > 1 ==>
      var k := FrameIndex(e.frame, e.speed, |e.look.frames|);
      && r.look.lines == Split(e.look.frames[k])
      && (|e.look.colorFrames| > 0 ==> r.look.colorMap == e.look.colorFrames[k % |e.look.colorFrames|])
    ensures |e.look.frames| <= 1 ==> r.look == e.look
  {
    var d := Step(e.vel, e.speed);
    var moved := e.(pos := Vec(e.pos.x + d.x, e.pos.y + d.y, e.pos.z + d.z));
    var n := |e.look.frames|;
    if n > 1 then
      var k := FrameIndex(e.frame, e.speed, n);
      var mask :=
        if |e.look.colorFrames| > 0 then e.look.colorFrames[k % |e.look.colorFrames|]
        else e.look.colorMap;
      moved.(look := e.look.(lines := Split(e.look.frames[k]), colorMap := mask))
    else moved
  }

  /** The entity-local part of `update`: count the frame, then run the
      motion rule (`fish_callback` moves the fish like `move_entity`). */
  function Advance(e: Entity): (r: Entity)
    ensures r.frame == e.frame + 1
    ensures r == e.(frame := r.frame, pos := r.pos, look := r.look)
  {
    var counted := e.(frame := e.frame + 1);
    if e.rules.motion == NoCallback then counted else Move(counted)
  }

  /** `t` consecutive `Advance` steps. */
  function AdvanceN(e: Entity, t: nat): Entity
  {
    if t == 0 then e else Advance(AdvanceN(e, t - 1))
  }

  /** The distance covered by `t` steps of `a` each, added up step by step. */
  function Travel(t: nat, a: real): real
  {
    if t == 0 then 0.0 else Travel(t - 1, a) + a
  }

  /** Adding `a` up `t` times gives `t * a`. */
  lemma {:induction false} TravelIsProduct(t: nat, a: real)
    ensures Travel(t, a) == (t as real) * a
  {
    if t > 0 {
      TravelIsProduct(t - 1, a);
      assert ((t - 1) as real) * a + a == (t as real) * a;
    }
  }

  /** One update of a moving entity: it moves by its step, counts a frame
      and keeps everything else but what it shows. */
  lemma AdvanceStep(p: Entity)
    requires p.rules.motion != NoCallback
    ensures var d := Step(p.vel, p.speed);
      Advance(p).pos == Vec(p.pos.x + d.x, p.pos.y + d.y, p.pos.z + d.z)
    ensures var r := Advance(p); r == p.(pos := r.pos, look := r.look, frame := p.frame + 1)
    ensures var r := Advance(p); r.look == p.look.(lines := r.look.lines, colorMap := r.look.colorMap)
    ensures |p.look.frames| > 1 ==>
      Advance(p).look.lines == Split(p.look.frames[FrameIndex(p.frame + 1, p.speed, |p.look.frames|)])
  {
  }

  /** `t` updates of a moving entity, step by step: each one counts a
      frame, keeps the box and shows the frame the counter selects. */
  lemma {:induction false} AdvanceNSteps(e: Entity, t: nat)
    requires e.rules.motion != NoCallback
    ensures var r := AdvanceN(e, t);
      r == e.(pos := r.pos, look := r.look, frame := r.frame)
    ensures var r := AdvanceN(e, t);
      r.look == e.look.(lines := r.look.lines, colorMap := r.look.colorMap)
    ensures AdvanceN(e, t).frame == e.frame + t
    ensures t > 0 && |e.look.frames| > 1 ==>
      AdvanceN(e, t).look.lines == Split(e.look.frames[FrameIndex(e.frame + t, e.speed, |e.look.frames|)])
  {
    if t > 0 {
      AdvanceNSteps(e, t - 1);
      var p := AdvanceN(e, t - 1);
      AdvanceStep(p);
      assert AdvanceN(e, t) == Advance(p);
    }
  }

  /** The position after `t` updates is the start plus `t` steps, added up
      one update at a time. */
  lemma {:induction false} AdvanceNTravel(e: Entity, t: nat)
    requires e.rules.motion != NoCallback
    ensures AdvanceN(e, t).pos == Vec(e.pos.x + Travel(t, Step(e.vel, e.speed).x),
                                      e.pos.y + Travel(t, Step(e.vel, e.speed).y),
                                      e.pos.z + Travel(t, Step(e.vel, e.speed).z))
  {
    if t > 0 {
      AdvanceNTravel(e, t - 1);
      AdvanceNSteps(e, t - 1);
      var p := AdvanceN(e, t - 1);
      AdvanceStep(p);
      assert p.vel == e.vel && p.speed == e.speed;
      assert AdvanceN(e, t) == Advance(p);
    }
  }

  /** The point `t` displacements `d` away from `start`: `start + t * d`. */
  function Offset(start: Vec, t: nat, d: Vec): Vec
  {
    Vec(start.x + (t as real) * d.x, start.y + (t as real) * d.y, start.z + (t as real) * d.z)
  }

  /** After `t` updates a moving entity has travelled exactly
      `t * (dx, dy, dz) * speed` from where it started. */
  lemma AdvanceNClosedForm(e: Entity, t: nat)
    requires e.rules.motion != NoCallback
    ensures AdvanceN(e, t).pos == Offset(e.pos, t, Step(e.vel, e.speed))
  {
    AdvanceNTravel(e, t);
    TravelToProduct(e.pos, AdvanceN(e, t).pos, t, Step(e.vel, e.speed));
  }

  /** A point `t` steps of `d` away from `start`, added up one step at a
      time, is `start + t * d`. */
  lemma TravelToProduct(start: Vec, now: Vec, t: nat, d: Vec)
    requires now == Vec(start.x + Travel(t, d.x), start.y + Travel(t, d.y), start.z + Travel(t, d.z))
    ensures now == Offset(start, t, d)
  {
    TravelIsProduct(t, d.x);
    TravelIsProduct(t, d.y);
    TravelIsProduct(t, d.z);
  }

  /** `if self.die_frame and self.frame >= self.die_frame`: `None` and `0`
      both switch the rule off. */
  predicate DieFrameDue(e: Entity)
  {
    e.rules.dieFrame.Some? && e.rules.dieFrame.value != 0 && e.frame >= e.rules.dieFrame.value
  }

  /** `if self.die_time and time.time() >= self.die_time`, with the clock
      reading `now` passed in; `None` and `0` switch the rule off. */
  predicate DieTimeDue(e: Entity, now: real)
  {
    e.rules.dieTime.Some? && e.rules.dieTime.value != 0.0 && now >= e.rules.dieTime.value
  }

  /** `is_offscreen`: the floored box lies strictly beyond one edge. */
  predicate IsOffscreen(e: Entity, screenW: int, screenH: int)
  {
    var x := e.pos.x.Floor;
    var y := e.pos.y.Floor;
    x + e.look.width < 0 || x > screenW || y + e.look.height < 0 || y > screenH
  }

  /** The grid point `(px, py)` lies in the floored box of `e` widened by
      one cell to the right and below: `[x, x + width] x [y, y + height]`. */
  predicate InClosedBox(e: Entity, px: int, py: int)
  {
    && e.pos.x.Floor <= px <= e.pos.x.Floor + e.look.width
    && e.pos.y.Floor <= py <= e.pos.y.Floor + e.look.height
  }

  /** `is_offscreen` holds exactly when the widened box shares no grid point
      with the widened screen `[0, screen_w] x [0, screen_h]`. */
  lemma OffscreenIffNoSharedPoint(e: Entity, screenW: int, screenH: int)
    requires screenW >= 0 && screenH >= 0
    ensures IsOffscreen(e, screenW, screenH) <==>
      !exists px, py :: InClosedBox(e, px, py) && 0 <= px <= screenW && 0 <= py <= screenH
  {
    var x, y := e.pos.x.Floor, e.pos.y.Floor;
    if !IsOffscreen(e, screenW, screenH) {
      var px := if x < 0 then 0 else x;
      var py := if y < 0 then 0 else y;
      assert InClosedBox(e, px, py) && 0 <= px <= screenW && 0 <= py <= screenH;
    }
  }

  /** A box with any drawn cell `[x, x + width) x [y, y + height)` on the
      screen `[0, screen_w) x [0, screen_h)` is not offscreen. */
  lemma PartlyVisibleIsNotOffscreen(e: Entity, screenW: int, screenH: int, px: int, py: int)
    requires e.pos.x.Floor <= px < e.pos.x.Floor + e.look.width
    requires e.pos.y.Floor <= py < e.pos.y.Floor + e.look.height
    requires 0 <= px < screenW && 0 <= py < screenH
    ensures !IsOffscreen(e, screenW, screenH)
  {
    OffscreenIffNoSharedPoint(e, screenW, screenH);
    assert InClosedBox(e, px, py);
  }

  /** A box whose left edge sits exactly on `screen_w`, at a row of the
      screen, is not offscreen yet: the test is strict. */
  lemma RightEdgeIsNotOffscreen(e: Entity, screenW: int, screenH: int)
    requires screenW >= 0 && e.pos.x.Floor == screenW && 0 <= e.pos.y.Floor <= screenH
    ensures !IsOffscreen(e, screenW, screenH)
  {
  }
}
