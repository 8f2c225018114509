/** The collision phase of `Animation.animate`: the bounding-box test
    `check_collision` and the pairwise pass that fills every physical
    entity's `collisions` list. */
module Collision {
  import opened Entities
  import opened Text

  /** `check_collision`: the floored boxes overlap unless one lies strictly
      to the left, right, above or below the other. Boxes whose edges only
      touch (`x1 + w1 == x2`) therefore collide. */
  predicate CheckCollision(a: Entity, b: Entity)
  {
    var x1, y1 := a.pos.x.Floor, a.pos.y.Floor;
    var x2, y2 := b.pos.x.Floor, b.pos.y.Floor;
    !(x1 + a.look.width < x2 || x1 > x2 + b.look.width ||
      y1 + a.look.height < y2 || y1 > y2 + b.look.height)
  }

  /** The test does not depend on which entity comes first. */
  lemma CollisionSymmetric(a: Entity, b: Entity)
    ensures CheckCollision(a, b) <==> CheckCollision(b, a)
  {
  }

  /** Two entities collide exactly when their boxes, each widened by one
      cell to the right and below, share a grid point. */
  lemma CollisionIffSharedPoint(a: Entity, b: Entity)
    ensures CheckCollision(a, b) <==>
      exists px, py :: InClosedBox(a, px, py) && InClosedBox(b, px, py)
  {
    if CheckCollision(a, b) {
      var x1, y1 := a.pos.x.Floor, a.pos.y.Floor;
      var x2, y2 := b.pos.x.Floor, b.pos.y.Floor;
      var px := if x1 < x2 then x2 else x1;
      var py := if y1 < y2 then y2 else y1;
      assert InClosedBox(a, px, py) && InClosedBox(b, px, py);
    }
  }

  /** Boxes that only touch, side by side on the same row or one above
      the other in the same column, collide, while a one-cell gap keeps
      them apart. */
  lemma TouchingEdgesCollide(a: Entity, b: Entity)
    ensures a.pos.y.Floor == b.pos.y.Floor && a.pos.x.Floor + a.look.width == b.pos.x.Floor ==>
      CheckCollision(a, b)
    ensures a.pos.y.Floor == b.pos.y.Floor && a.pos.x.Floor + a.look.width + 1 == b.pos.x.Floor ==>
      !CheckCollision(a, b)
    ensures a.pos.x.Floor == b.pos.x.Floor && a.pos.y.Floor + a.look.height == b.pos.y.Floor ==>
      CheckCollision(a, b)
    ensures a.pos.x.Floor == b.pos.x.Floor && a.pos.y.Floor + a.look.height + 1 == b.pos.y.Floor ==>
      !CheckCollision(a, b)
  {
  }

  /** The reference a collision list stores for `e`. */
  function RefTo(e: Entity): Ref
  {
    Ref(e.id, e.kind)
  }

  /** `P` lists positions of `ents` in strictly increasing order. */
  predicate Ascending(P: seq<nat>, n: nat)
  {
    && (forall k :: 0 <= k < |P| ==> P[k] < n)
    && (forall a, b :: 0 <= a < b < |P| ==> P[a] < P[b])
  }

  /** The positions of the physical entities among the first `n`:
      `[e for e in self.entities if e.physical]`, as indices. */
  function PhysicalIndices(ents: seq<Entity>, n: nat): (P: seq<nat>)
    requires n <= |ents|
    ensures Ascending(P, n)
    ensures forall k :: 0 <= k < |P| ==> ents[P[k]].rules.physical
  {
    if n == 0 then []
    else
      var P := PhysicalIndices(ents, n - 1);
      if ents[n - 1].rules.physical then P + [n - 1] else P
  }

  /** Every physical entity among the first `n` is listed. */
  lemma {:induction false} PhysicalIndicesComplete(ents: seq<Entity>, n: nat, k: nat)
    requires k < n <= |ents| && ents[k].rules.physical
    ensures k in PhysicalIndices(ents, n)
  {
    if k < n - 1 {
      PhysicalIndicesComplete(ents, n - 1, k);
    }
  }

  /** The partners the pass gives the `m`-th physical entity from the
      physical entities at positions `0 .. hi - 1` of `P`. */
  function Partners(ents: seq<Entity>, P: seq<nat>, m: nat, hi: nat): seq<Ref>
    requires Ascending(P, |ents|) && m < |P| && hi <= |P|
  {
    if hi == 0 then []
    else
      Partners(ents, P, m, hi - 1) +
      (if hi - 1 != m && CheckCollision(ents[P[m]], ents[P[hi - 1]]) then [RefTo(ents[P[hi - 1]])] else [])
  }

  /** Reference result: the other physical entities among the first `hi`
      whose boxes meet the box of `ents[k]`, in list order. */
  function PartnersOf(ents: seq<Entity>, k: nat, hi: nat): seq<Ref>
    requires k < |ents| && hi <= |ents|
  {
    if hi == 0 then []
    else
      PartnersOf(ents, k, hi - 1) +
      (if hi - 1 != k && ents[hi - 1].rules.physical && CheckCollision(ents[k], ents[hi - 1])
       then [RefTo(ents[hi - 1])] else [])
  }

  /** One step of the inner loop: when the boxes of the `i`-th and `j`-th
      physical entities meet, each gets a reference to the other appended
      to its collision list. The lists are kept apart from the entities,
      since the pass reads nothing else that it writes. */
  function CollideOnce(ents: seq<Entity>, cols: seq<seq<Ref>>, P: seq<nat>, i: nat, j: nat): (r: seq<seq<Ref>>)
    requires Ascending(P, |ents|) && |cols| == |ents| && i < |P| && j < |P|
    ensures |r| == |cols|
  {
    var a, b := P[i], P[j];
    if CheckCollision(ents[a], ents[b]) then
      cols[a := cols[a] + [RefTo(ents[b])]][b := cols[b] + [RefTo(ents[a])]]
    else cols
  }

  /** The inner loop `for j in range(i + 1, len(physical_entities))`,
      from `j` on. */
  function CollideRow(ents: seq<Entity>, cols: seq<seq<Ref>>, P: seq<nat>, i: nat, j: nat): (r: seq<seq<Ref>>)
    requires Ascending(P, |ents|) && |cols| == |ents| && i < |P| && j <= |P|
    ensures |r| == |cols|
    decreases |P| - j
  {
    if j == |P| then cols
    else CollideRow(ents, CollideOnce(ents, cols, P, i, j), P, i, j + 1)
  }

  /** The outer loop `for i in range(len(physical_entities))`, from `i` on. */
  function CollideRows(ents: seq<Entity>, cols: seq<seq<Ref>>, P: seq<nat>, i: nat): (r: seq<seq<Ref>>)
    requires Ascending(P, |ents|) && |cols| == |ents| && i <= |P|
    ensures |r| == |cols|
    decreases |P| - i
  {
    if i == |P| then cols
    else CollideRows(ents, CollideRow(ents, cols, P, i, i + 1), P, i + 1)
  }

  /** The collision lists of `ents`, in order. */
  function CollisionLists(ents: seq<Entity>): (r: seq<seq<Ref>>)
    ensures |r| == |ents| && forall k :: 0 <= k < |ents| ==> r[k] == ents[k].collisions
  {
    seq(|ents|, k requires 0 <= k < |ents| => ents[k].collisions)
  }

  /** `ents` with its collision lists replaced by `cols`. */
  function WithCollisions(ents: seq<Entity>, cols: seq<seq<Ref>>): (r: seq<Entity>)
    requires |cols| == |ents|
    ensures |r| == |ents| && forall k :: 0 <= k < |ents| ==> r[k] == ents[k].(collisions := cols[k])
  {
    seq(|ents|, k requires 0 <= k < |ents| => ents[k].(collisions := cols[k]))
  }

  /** The whole collision phase over the current entity list. */
  function CollisionPass(ents: seq<Entity>): (r: seq<Entity>)
    ensures |r| == |ents|
  {
    var P := PhysicalIndices(ents, |ents|);
    WithCollisions(ents, CollideRows(ents, CollisionLists(ents), P, 0))
  }

  /** How far the `m`-th physical entity's partner list has got once the
      outer loop is at `i` and the inner loop at `j`. */
  function Reached(m: nat, i: nat, j: nat, n: nat): (r: nat)
    requires i <= n && j <= n
    ensures r <= n
  {
    if m < i then n else if m == i then j else if m < j then i + 1 else i
  }

  /** The state of the pass at outer index `i` and inner index `j`: the
      lists of non-physical entities are unchanged, and every physical
      entity has gained the partners found so far. */
  ghost predicate Stage(ents: seq<Entity>, c0: seq<seq<Ref>>, cur: seq<seq<Ref>>, P: seq<nat>, i: nat, j: nat)
    requires Ascending(P, |ents|)
  {
    && i <= |P| && j <= |P| && (i < |P| ==> i <= j)
    && |c0| == |ents| && |cur| == |ents|
    && (forall m :: 0 <= m < |P| ==> ents[P[m]].rules.physical)
    && (forall k {:trigger cur[k]} :: 0 <= k < |ents| && !ents[k].rules.physical ==> cur[k] == c0[k])
    && (forall m {:trigger cur[P[m]]} :: 0 <= m < |P| ==>
          cur[P[m]] == c0[P[m]] + Partners(ents, P, m, Reached(m, i, j, |P|)))
  }

  /** A stage is a property of the lists' values. */
  lemma StageSame(ents: seq<Entity>, c0: seq<seq<Ref>>, a: seq<seq<Ref>>, b: seq<seq<Ref>>, P: seq<nat>, i: nat, j: nat)
    requires Ascending(P, |ents|) && Stage(ents, c0, a, P, i, j) && a == b
    ensures Stage(ents, c0, b, P, i, j)
  {
  }

  /** One turn of the inner loop. */
  lemma CollideRowUnfold(ents: seq<Entity>, cur: seq<seq<Ref>>, P: seq<nat>, i: nat, j: nat)
    requires Ascending(P, |ents|) && |cur| == |ents| && i < |P| && j < |P|
    ensures CollideRow(ents, cur, P, i, j) == CollideRow(ents, CollideOnce(ents, cur, P, i, j), P, i, j + 1)
  {
  }

  /** The inner loop takes stage `(i, j)` to stage `(i, |P|)`. */
  lemma {:induction false} CollideRowSpec(ents: seq<Entity>, c0: seq<seq<Ref>>, cur: seq<seq<Ref>>, P: seq<nat>, i: nat, j: nat)
    requires Ascending(P, |ents|) && i < |P| && i < j <= |P|
    requires Stage(ents, c0, cur, P, i, j)
    ensures Stage(ents, c0, CollideRow(ents, cur, P, i, j), P, i, |P|)
    decreases |P| - j
  {
    if j < |P| {
      var next := CollideOnce(ents, cur, P, i, j);
      CollideOnceSpec(ents, c0, cur, P, i, j);
      CollideRowSpec(ents, c0, next, P, i, j + 1);
      CollideRowUnfold(ents, cur, P, i, j);
      StageSame(ents, c0, CollideRow(ents, next, P, i, j + 1), CollideRow(ents, cur, P, i, j), P, i, |P|);
    }
  }

  /** One inner step takes stage `(i, j)` to stage `(i, j + 1)`. */
  lemma CollideOnceSpec(ents: seq<Entity>, c0: seq<seq<Ref>>, cur: seq<seq<Ref>>, P: seq<nat>, i: nat, j: nat)
    requires Ascending(P, |ents|) && i < j < |P|
    requires Stage(ents, c0, cur, P, i, j)
    ensures Stage(ents, c0, CollideOnce(ents, cur, P, i, j), P, i, j + 1)
  {
    CollideOnceGains(ents, c0, cur, P, i, j);
    CollideOnceKeeps(ents, c0, cur, P, i, j);
  }

  /** After one step every physical entity has the partners of stage `(i, j + 1)`. */
  lemma CollideOnceGains(ents: seq<Entity>, c0: seq<seq<Ref>>, cur: seq<seq<Ref>>, P: seq<nat>, i: nat, j: nat)
    requires Ascending(P, |ents|) && i < j < |P|
    requires Stage(ents, c0, cur, P, i, j)
    ensures var next := CollideOnce(ents, cur, P, i, j);
      forall m :: 0 <= m < |P| ==>
        next[P[m]] == c0[P[m]] + Partners(ents, P, m, Reached(m, i, j + 1, |P|))
  {
    var next := CollideOnce(ents, cur, P, i, j);
    forall m | 0 <= m < |P|
      ensures next[P[m]] == c0[P[m]] + Partners(ents, P, m, Reached(m, i, j + 1, |P|))
    {
      CollideOnceAt(ents, c0, cur, P, i, j, m);
    }
  }

  /** After one step the lists of non-physical entities are still the initial ones. */
  lemma CollideOnceKeeps(ents: seq<Entity>, c0: seq<seq<Ref>>, cur: seq<seq<Ref>>, P: seq<nat>, i: nat, j: nat)
    requires Ascending(P, |ents|) && i < j < |P|
    requires Stage(ents, c0, cur, P, i, j)
    ensures var next := CollideOnce(ents, cur, P, i, j);
      forall k :: 0 <= k < |ents| && !ents[k].rules.physical ==> next[k] == c0[k]
  {
    var next := CollideOnce(ents, cur, P, i, j);
    forall k | 0 <= k < |ents| && !ents[k].rules.physical
      ensures next[k] == c0[k]
    {
      CollideOnceElsewhere(ents, cur, P, i, j, k);
    }
  }

  /** The step appends to the lists of the two entities it compares and
      to no other list. */
  lemma CollideOnceEffect(ents: seq<Entity>, cur: seq<seq<Ref>>, P: seq<nat>, i: nat, j: nat)
    requires Ascending(P, |ents|) && |cur| == |ents| && i < j < |P|
    ensures var next := CollideOnce(ents, cur, P, i, j);
      var hit := CheckCollision(ents[P[i]], ents[P[j]]);
      && next[P[i]] == cur[P[i]] + (if hit then [RefTo(ents[P[j]])] else [])
      && next[P[j]] == cur[P[j]] + (if CheckCollision(ents[P[j]], ents[P[i]]) then [RefTo(ents[P[i]])] else [])
      && forall k :: 0 <= k < |cur| && k != P[i] && k != P[j] ==> next[k] == cur[k]
  {
    assert P[i] < P[j];
    CollisionSymmetric(ents[P[i]], ents[P[j]]);
  }

  /** The step leaves the lists of non-physical entities alone. */
  lemma CollideOnceElsewhere(ents: seq<Entity>, cur: seq<seq<Ref>>, P: seq<nat>, i: nat, j: nat, k: nat)
    requires Ascending(P, |ents|) && |cur| == |ents| && i < j < |P| && k < |ents|
    requires ents[P[i]].rules.physical && ents[P[j]].rules.physical && !ents[k].rules.physical
    ensures CollideOnce(ents, cur, P, i, j)[k] == cur[k]
  {
    CollideOnceEffect(ents, cur, P, i, j);
  }

  /** The step's effect on the list of the `m`-th physical entity. */
  lemma CollideOnceAt(ents: seq<Entity>, c0: seq<seq<Ref>>, cur: seq<seq<Ref>>, P: seq<nat>, i: nat, j: nat, m: nat)
    requires Ascending(P, |ents|) && |cur| == |ents| && |c0| == |ents| && i < j < |P| && m < |P|
    requires cur[P[m]] == c0[P[m]] + Partners(ents, P, m, Reached(m, i, j, |P|))
    ensures CollideOnce(ents, cur, P, i, j)[P[m]] == c0[P[m]] + Partners(ents, P, m, Reached(m, i, j + 1, |P|))
  {
    if m == i {
      CollideOnceOwn(ents, c0, cur, P, i, j);
    } else if m == j {
      CollideOnceOther(ents, c0, cur, P, i, j);
    } else {
      CollideOnceAside(ents, c0, cur, P, i, j, m);
    }
  }

  /** The other physical entities' lists are left as they are. */
  lemma CollideOnceAside(ents: seq<Entity>, c0: seq<seq<Ref>>, cur: seq<seq<Ref>>, P: seq<nat>, i: nat, j: nat, m: nat)
    requires Ascending(P, |ents|) && |cur| == |ents| && |c0| == |ents| && i < j < |P| && m < |P|
    requires m != i && m != j
    requires cur[P[m]] == c0[P[m]] + Partners(ents, P, m, Reached(m, i, j, |P|))
    ensures CollideOnce(ents, cur, P, i, j)[P[m]] == c0[P[m]] + Partners(ents, P, m, Reached(m, i, j + 1, |P|))
  {
    assert Reached(m, i, j + 1, |P|) == Reached(m, i, j, |P|);
    assert P[m] != P[i] && P[m] != P[j];
    CollideOnceEffect(ents, cur, P, i, j);
  }

  /** The entity the row belongs to gains the `j`-th partner, if any. */
  lemma CollideOnceOwn(ents: seq<Entity>, c0: seq<seq<Ref>>, cur: seq<seq<Ref>>, P: seq<nat>, i: nat, j: nat)
    requires Ascending(P, |ents|) && |cur| == |ents| && |c0| == |ents| && i < j < |P|
    requires cur[P[i]] == c0[P[i]] + Partners(ents, P, i, j)
    ensures CollideOnce(ents, cur, P, i, j)[P[i]] == c0[P[i]] + Partners(ents, P, i, j + 1)
  {
    CollideOnceEffect(ents, cur, P, i, j);
    var extra := if CheckCollision(ents[P[i]], ents[P[j]]) then [RefTo(ents[P[j]])] else [];
    assert Partners(ents, P, i, j + 1) == Partners(ents, P, i, j) + extra;
    assert c0[P[i]] + Partners(ents, P, i, j + 1) == (c0[P[i]] + Partners(ents, P, i, j)) + extra;
  }

  /** The `j`-th entity gains the row's owner, which comes `i`-th, if they meet. */
  lemma CollideOnceOther(ents: seq<Entity>, c0: seq<seq<Ref>>, cur: seq<seq<Ref>>, P: seq<nat>, i: nat, j: nat)
    requires Ascending(P, |ents|) && |cur| == |ents| && |c0| == |ents| && i < j < |P|
    requires cur[P[j]] == c0[P[j]] + Partners(ents, P, j, i)
    ensures CollideOnce(ents, cur, P, i, j)[P[j]] == c0[P[j]] + Partners(ents, P, j, i + 1)
  {
    CollideOnceEffect(ents, cur, P, i, j);
    var extra := if CheckCollision(ents[P[j]], ents[P[i]]) then [RefTo(ents[P[i]])] else [];
    assert Partners(ents, P, j, i + 1) == Partners(ents, P, j, i) + extra;
    assert c0[P[j]] + Partners(ents, P, j, i + 1) == (c0[P[j]] + Partners(ents, P, j, i)) + extra;
  }

  /** The lists once the outer loop has done its first `i` rows. */
  function RowsDone(ents: seq<Entity>, c0: seq<seq<Ref>>, P: seq<nat>, i: nat): (r: seq<seq<Ref>>)
    requires Ascending(P, |ents|) && |c0| == |ents| && i <= |P|
    ensures |r| == |ents|
  {
    if i == 0 then c0 else CollideRow(ents, RowsDone(ents, c0, P, i - 1), P, i - 1, i)
  }

  /** Running the outer loop from the start is running its first `i` rows
      and then the rest. */
  lemma {:induction false} RowsDoneRest(ents: seq<Entity>, c0: seq<seq<Ref>>, P: seq<nat>, i: nat)
    requires Ascending(P, |ents|) && |c0| == |ents| && i <= |P|
    ensures CollideRows(ents, RowsDone(ents, c0, P, i), P, i) == CollideRows(ents, c0, P, 0)
  {
    if i > 0 {
      RowsDoneRest(ents, c0, P, i - 1);
      CollideRowsUnfold(ents, RowsDone(ents, c0, P, i - 1), P, i - 1);
    }
  }

  /** After the first `i` rows the pass is at stage `(i, i)`. */
  lemma {:induction false} RowsDoneStage(ents: seq<Entity>, c0: seq<seq<Ref>>, P: seq<nat>, i: nat)
    requires Ascending(P, |ents|) && |c0| == |ents| && i <= |P|
    requires Stage(ents, c0, c0, P, 0, 0)
    ensures Stage(ents, c0, RowsDone(ents, c0, P, i), P, i, i)
  {
    if i > 0 {
      var prev := RowsDone(ents, c0, P, i - 1);
      RowsDoneStage(ents, c0, P, i - 1);
      RowSpec(ents, c0, prev, P, i - 1);
      StageSame(ents, c0, CollideRow(ents, prev, P, i - 1, i), RowsDone(ents, c0, P, i), P, i, i);
    }
  }

  /** One whole row takes stage `(i, i)` to stage `(i + 1, i + 1)`. */
  lemma RowSpec(ents: seq<Entity>, c0: seq<seq<Ref>>, cur: seq<seq<Ref>>, P: seq<nat>, i: nat)
    requires Ascending(P, |ents|) && i < |P|
    requires Stage(ents, c0, cur, P, i, i)
    ensures Stage(ents, c0, CollideRow(ents, cur, P, i, i + 1), P, i + 1, i + 1)
  {
    RowStart(ents, c0, cur, P, i);
    CollideRowSpec(ents, c0, cur, P, i, i + 1);
    RowEnd(ents, c0, CollideRow(ents, cur, P, i, i + 1), P, i);
  }

  /** One turn of the outer loop. */
  lemma CollideRowsUnfold(ents: seq<Entity>, cur: seq<seq<Ref>>, P: seq<nat>, i: nat)
    requires Ascending(P, |ents|) && |cur| == |ents| && i < |P|
    ensures CollideRows(ents, cur, P, i) == CollideRows(ents, CollideRow(ents, cur, P, i, i + 1), P, i + 1)
  {
  }

  /** Stage `(i, i)` is stage `(i, i + 1)`: an entity is never its own partner. */
  lemma RowStart(ents: seq<Entity>, c0: seq<seq<Ref>>, cur: seq<seq<Ref>>, P: seq<nat>, i: nat)
    requires Ascending(P, |ents|) && i < |P|
    requires Stage(ents, c0, cur, P, i, i)
    ensures Stage(ents, c0, cur, P, i, i + 1)
  {
    forall m | 0 <= m < |P|
      ensures Partners(ents, P, m, Reached(m, i, i + 1, |P|)) == Partners(ents, P, m, Reached(m, i, i, |P|))
    {
      if m == i {
        assert Partners(ents, P, i, i + 1) == Partners(ents, P, i, i) + [];
      }
    }
  }

  /** Stage `(i, |P|)` is stage `(i + 1, i + 1)`. */
  lemma RowEnd(ents: seq<Entity>, c0: seq<seq<Ref>>, cur: seq<seq<Ref>>, P: seq<nat>, i: nat)
    requires Ascending(P, |ents|) && i < |P|
    requires Stage(ents, c0, cur, P, i, |P|)
    ensures Stage(ents, c0, cur, P, i + 1, i + 1)
  {
    forall m | 0 <= m < |P|
      ensures Reached(m, i + 1, i + 1, |P|) == Reached(m, i, |P|, |P|)
    {
    }
  }

  /** Growing the index list at the end does not change partners computed
      from its first `hi` positions. */
  lemma {:induction false} PartnersExtend(ents: seq<Entity>, P: seq<nat>, x: nat, m: nat, hi: nat)
    requires Ascending(P, |ents|) && Ascending(P + [x], |ents|) && m < |P| && hi <= |P|
    ensures Partners(ents, P + [x], m, hi) == Partners(ents, P, m, hi)
  {
    if hi > 0 {
      PartnersExtend(ents, P, x, m, hi - 1);
      assert (P + [x])[m] == P[m] && (P + [x])[hi - 1] == P[hi - 1];
    }
  }

  /** The step of `PartnersMatchReference` for an earlier physical entity
      when position `n - 1` is physical: the new last position adds the
      same reference to both sides, or to neither. */
  lemma PartnersMatchStep(ents: seq<Entity>, n: nat, m: nat)
    requires 0 < n <= |ents| && ents[n - 1].rules.physical
    requires m < |PhysicalIndices(ents, n - 1)|
    requires var Q := PhysicalIndices(ents, n - 1);
      Partners(ents, Q, m, |Q|) == PartnersOf(ents, Q[m], n - 1)
    ensures var P := PhysicalIndices(ents, n);
      m < |P| && Partners(ents, P, m, |P|) == PartnersOf(ents, P[m], n)
  {
    var P := PhysicalIndices(ents, n);
    var Q := PhysicalIndices(ents, n - 1);
    assert P == Q + [n - 1];
    PartnersExtend(ents, Q, n - 1, m, |Q|);
    assert P[m] == Q[m];
    assert Partners(ents, P, m, |P|) == Partners(ents, P, m, |Q|) +
      (if |Q| != m && CheckCollision(ents[P[m]], ents[n - 1]) then [RefTo(ents[n - 1])] else []);
    assert P[m] < n - 1;
  }

  /** Over the physical positions among the first `n`, `Partners` is the
      reference `PartnersOf` restricted to those positions. */
  lemma {:induction false} PartnersMatchReference(ents: seq<Entity>, n: nat, m: nat)
    requires n <= |ents|
    requires m < |PhysicalIndices(ents, n)|
    ensures var P := PhysicalIndices(ents, n);
      Partners(ents, P, m, |P|) == PartnersOf(ents, P[m], n)
  {
    var P := PhysicalIndices(ents, n);
    assert n > 0;
    var Q := PhysicalIndices(ents, n - 1);
    if !ents[n - 1].rules.physical {
      assert P == Q;
      PartnersMatchReference(ents, n - 1, m);
    } else {
      assert P == Q + [n - 1];
      if m < |Q| {
        PartnersMatchReference(ents, n - 1, m);
        PartnersMatchStep(ents, n, m);
      } else {
        assert m == |Q| && P[m] == n - 1;
        PartnersBeforeSelf(ents, n - 1);
        PartnersIndexMatch(ents, Q, n - 1);
      }
    }
  }

  /** The reference partners of a position, counted up to itself. */
  lemma {:induction false} PartnersBeforeSelf(ents: seq<Entity>, k: nat)
    requires k < |ents|
    ensures PartnersOf(ents, k, k + 1) == PartnersOf(ents, k, k)
  {
  }

  /** For the entity just past the listed positions `Q`, the partners found
      among `Q` are its reference partners below `n`. */
  lemma {:induction false} PartnersIndexMatch(ents: seq<Entity>, Q: seq<nat>, n: nat)
    requires n < |ents| && ents[n].rules.physical && Q == PhysicalIndices(ents, n)
    ensures var P := Q + [n];
      Ascending(P, |ents|) &&
      Partners(ents, P, |Q|, |P|) == PartnersOf(ents, n, n)
  {
    var P := Q + [n];
    AscendingSnoc(ents, n);
    assert Partners(ents, P, |Q|, |P|) == Partners(ents, P, |Q|, |Q|);
    PartnersPrefixMatch(ents, Q, n, n);
  }

  /** The partners found among the physical positions below `lim` equal the
      reference partners below `lim`, for the entity at `n >= lim`. */
  lemma {:induction false} PartnersPrefixMatch(ents: seq<Entity>, Q: seq<nat>, n: nat, lim: nat)
    requires n < |ents| && ents[n].rules.physical && Q == PhysicalIndices(ents, n) && lim <= n
    requires Ascending(Q + [n], |ents|) && |PhysicalIndices(ents, lim)| <= |Q|
    ensures Partners(ents, Q + [n], |Q|, |PhysicalIndices(ents, lim)|) == PartnersOf(ents, n, lim)
    decreases lim
  {
    if lim > 0 {
      PartnersPrefixMatch(ents, Q, n, lim - 1);
      PhysicalPrefix(ents, lim, n);
      PrefixStep(ents, Q, n, lim);
    }
  }

  /** Position `n` extends the physical positions below it. */
  lemma AscendingSnoc(ents: seq<Entity>, n: nat)
    requires n < |ents|
    ensures Ascending(PhysicalIndices(ents, n) + [n], |ents|)
  {
  }

  /** One more position below `n` adds the same partner, if any, to both
      sides. */
  lemma PrefixStep(ents: seq<Entity>, Q: seq<nat>, n: nat, lim: nat)
    requires n < |ents| && Q == PhysicalIndices(ents, n) && 0 < lim <= n
    requires Ascending(Q + [n], |ents|) && PhysicalIndices(ents, lim) <= Q
    requires Partners(ents, Q + [n], |Q|, |PhysicalIndices(ents, lim - 1)|) == PartnersOf(ents, n, lim - 1)
    ensures Partners(ents, Q + [n], |Q|, |PhysicalIndices(ents, lim)|) == PartnersOf(ents, n, lim)
  {
    var P := Q + [n];
    var c0 := |PhysicalIndices(ents, lim - 1)|;
    var hit := ents[lim - 1].rules.physical && CheckCollision(ents[n], ents[lim - 1]);
    assert PartnersOf(ents, n, lim) == PartnersOf(ents, n, lim - 1) + (if hit then [RefTo(ents[lim - 1])] else []);
    if ents[lim - 1].rules.physical {
      assert PhysicalIndices(ents, lim) == PhysicalIndices(ents, lim - 1) + [lim - 1];
      assert P[c0] == Q[c0] == lim - 1;
      assert P[|Q|] == n;
    } else {
      assert PhysicalIndices(ents, lim) == PhysicalIndices(ents, lim - 1);
    }
  }

  /** The physical positions below `lim` are the first ones of those below `n`. */
  lemma {:induction false} PhysicalPrefix(ents: seq<Entity>, lim: nat, n: nat)
    requires lim <= n <= |ents|
    ensures PhysicalIndices(ents, lim) <= PhysicalIndices(ents, n)
    decreases n - lim
  {
    if lim < n {
      PhysicalPrefix(ents, lim, n - 1);
      var last := PhysicalIndices(ents, n - 1);
      assert last <= PhysicalIndices(ents, n);
      PrefixTrans(PhysicalIndices(ents, lim), last, PhysicalIndices(ents, n));
    }
  }



  /** The collision phase: only collision lists change; a non-physical
      entity is untouched; a physical one gains, in list order, a reference
      to every other physical entity whose box meets its own. */
  lemma CollisionPassSpec(ents: seq<Entity>)
    ensures var r := CollisionPass(ents);
      && |r| == |ents|
      && (forall k :: 0 <= k < |ents| ==> r[k] == ents[k].(collisions := r[k].collisions))
      && (forall k :: 0 <= k < |ents| && !ents[k].rules.physical ==> r[k] == ents[k])
      && (forall k :: 0 <= k < |ents| && ents[k].rules.physical ==>
            r[k].collisions == ents[k].collisions + PartnersOf(ents, k, |ents|))
  {
    var P := PhysicalIndices(ents, |ents|);
    var c0 := CollisionLists(ents);
    forall m | 0 <= m < |P|
      ensures Partners(ents, P, m, Reached(m, 0, 0, |P|)) == []
    {
    }
    assert Stage(ents, c0, c0, P, 0, 0);
    RowsDoneStage(ents, c0, P, |P|);
    RowsDoneRest(ents, c0, P, |P|);
    var cols := CollideRows(ents, c0, P, 0);
    var r := CollisionPass(ents);
    assert r == WithCollisions(ents, cols);
    forall k | 0 <= k < |ents| && !ents[k].rules.physical
      ensures r[k] == ents[k]
    {
    }
    forall k | 0 <= k < |ents| && ents[k].rules.physical
      ensures r[k].collisions == ents[k].collisions + PartnersOf(ents, k, |ents|)
    {
      PhysicalIndicesComplete(ents, |ents|, k);
      var m :| 0 <= m < |P| && P[m] == k;
      PartnersMatchReference(ents, |ents|, m);
    }
  }

  /** The collision phase appends to a physical entity's list the
      reference partners of that entity. */
  lemma PassPartners(ents: seq<Entity>, a: nat)
    requires a < |ents| && ents[a].rules.physical
    ensures CollisionPass(ents)[a].collisions == ents[a].collisions + PartnersOf(ents, a, |ents|)
  {
    CollisionPassSpec(ents);
  }

  /** No two entities of the list share an identity. */
  predicate UniqueIds(ents: seq<Entity>)
  {
    forall p, q :: 0 <= p < q < |ents| ==> ents[p].id != ents[q].id
  }

  /** With distinct identities, an entity is among the reference partners
      of `ents[a]` exactly when it is another physical entity in range
      whose box meets the box of `ents[a]`. */
  lemma {:induction false} PartnersOfMember(ents: seq<Entity>, a: nat, b: nat, hi: nat)
    requires a < |ents| && b < |ents| && hi <= |ents| && UniqueIds(ents)
    ensures RefTo(ents[b]) in PartnersOf(ents, a, hi) <==>
      b < hi && b != a && ents[b].rules.physical && CheckCollision(ents[a], ents[b])
  {
    if hi > 0 {
      PartnersOfMember(ents, a, b, hi - 1);
      var c := hi - 1;
      var extra := if c != a && ents[c].rules.physical && CheckCollision(ents[a], ents[c])
        then [RefTo(ents[c])] else [];
      assert PartnersOf(ents, a, hi) == PartnersOf(ents, a, c) + extra;
      assert RefTo(ents[b]) == RefTo(ents[c]) <==> b == c by {
        if b != c {
          assert ents[b].id != ents[c].id;
        }
      }
    }
  }

  /** With distinct identities, the reference to a colliding partner
      occurs exactly once among the partners, and any other entity's
      reference not at all. */
  lemma {:induction false} PartnersOfCount(ents: seq<Entity>, a: nat, b: nat, hi: nat)
    requires a < |ents| && b < |ents| && hi <= |ents| && UniqueIds(ents)
    ensures multiset(PartnersOf(ents, a, hi))[RefTo(ents[b])] ==
      if b < hi && b != a && ents[b].rules.physical && CheckCollision(ents[a], ents[b]) then 1 else 0
  {
    if hi > 0 {
      var c := hi - 1;
      var x := RefTo(ents[b]);
      var hit := c != a && ents[c].rules.physical && CheckCollision(ents[a], ents[c]);
      var extra := if hit then [RefTo(ents[c])] else [];
      assert PartnersOf(ents, a, hi) == PartnersOf(ents, a, c) + extra;
      CountAppend(PartnersOf(ents, a, c), extra, x);
      PartnersOfCount(ents, a, b, c);
      if b != c {
        assert ents[b].id != ents[c].id;
        assert multiset(extra)[x] == 0;
      }
    }
  }

  lemma CountAppend<T>(s: seq<T>, t: seq<T>, x: T)
    ensures multiset(s + t)[x] == multiset(s)[x] + multiset(t)[x]
  {
    assert multiset(s + t) == multiset(s) + multiset(t);
  }

  /** After the collision phase, two physical entities with distinct
      identities list each other or neither lists the other. */
  lemma CollisionsMutual(ents: seq<Entity>, a: nat, b: nat)
    requires a < |ents| && b < |ents| && UniqueIds(ents)
    requires ents[a].rules.physical && ents[b].rules.physical
    requires ents[a].collisions == [] && ents[b].collisions == []
    ensures var r := CollisionPass(ents);
      RefTo(ents[b]) in r[a].collisions <==> RefTo(ents[a]) in r[b].collisions
  {
    PassPartners(ents, a);
    PassPartners(ents, b);
    PartnersOfMember(ents, a, b, |ents|);
    PartnersOfMember(ents, b, a, |ents|);
    CollisionSymmetric(ents[a], ents[b]);
  }

  /** The collision phase gives a physical entity that starts with an
      empty list the reference to each other physical entity whose box
      meets its own exactly once, and no other reference. */
  lemma CollisionsOnce(ents: seq<Entity>, a: nat, b: nat)
    requires a < |ents| && b < |ents| && UniqueIds(ents)
    requires ents[a].rules.physical && ents[a].collisions == []
    ensures multiset(CollisionPass(ents)[a].collisions)[RefTo(ents[b])] ==
      if b != a && ents[b].rules.physical && CheckCollision(ents[a], ents[b]) then 1 else 0
  {
    var p := PartnersOf(ents, a, |ents|);
    assert CollisionPass(ents)[a].collisions == p by {
      PassPartners(ents, a);
      assert [] + p == p;
    }
    PartnersOfCount(ents, a, b, |ents|);
  }
}
