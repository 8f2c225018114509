/** `Animation.redraw_screen` as a pure function from the scene to the
    characters and colour attributes it leaves on the screen, with the
    colour pair table that `Animation.init_colors` builds. */
module Render {
  import opened Wrappers
  import opened Text
  import opened Entities
  import opened Scene

  // ---------------------------------------------------------------------
  // Colour pairs

  /** A curses attribute: colour pair `pair`, bold or not. */
  datatype Attr = Attr(pair: nat, bold: bool)

  /** What a drawn screen cell holds. */
  datatype Cell = Cell(ch: char, attr: Attr)

  /** The screen after a redraw: the cells that were written, by (row,
      column). Cells absent from the map are blank after `erase()`. */
  type Grid = map<(int, int), Cell>

  /** Why a redraw raises: `default_color[0]` of an empty default colour,
      or a cell whose colour key and default both lack a colour pair, so
      that `addstr` gets `None` as its attribute. */
  datatype RenderError = NoDefaultColor | NoColorPair(key: char)

  /** The colours `init_colors` registers, in its dictionary's order. */
  const ColorNames: seq<string> :=
    ["BLACK", "RED", "GREEN", "YELLOW", "BLUE", "MAGENTA", "CYAN", "WHITE"]

  function Lower(c: char): char
  {
    if 'A' <= c <= 'Z' then (c as int + 32) as char else c
  }

  function Upper(c: char): char
  {
    if 'a' <= c <= 'z' then (c as int - 32) as char else c
  }

  /** The loop of `init_colors` from pair number `num` on: each colour's
      first letter, lower case for the plain pair and upper case for the
      bold one; a later colour with the same first letter overwrites. */
  function PairsFrom(names: seq<string>, num: nat, acc: map<char, Attr>): map<char, Attr>
    requires forall k :: 0 <= k < |names| ==> names[k] != ""
  {
    if names == [] then acc
    else
      var key := names[0][0];
      PairsFrom(names[1..], num + 1, acc[Lower(key) := Attr(num, false)][Upper(key) := Attr(num, true)])
  }

  /** `self.color_pairs` as `init_colors` leaves it: fourteen keys, since
      BLUE, registered after BLACK, takes over `b` and `B` and black keeps
      no key. */
  const ColorPairTable: map<char, Attr> := map[
    'r' := Attr(2, false), 'R' := Attr(2, true),
    'g' := Attr(3, false), 'G' := Attr(3, true),
    'y' := Attr(4, false), 'Y' := Attr(4, true),
    'b' := Attr(5, false), 'B' := Attr(5, true),
    'm' := Attr(6, false), 'M' := Attr(6, true),
    'c' := Attr(7, false), 'C' := Attr(7, true),
    'w' := Attr(8, false), 'W' := Attr(8, true)]

  /** The colour pair loop builds exactly that table. */
  lemma ColorPairsBuilt()
    ensures PairsFrom(ColorNames, 1, map[]) == ColorPairTable
  {
    var m0: map<char, Attr> := map[];
    var m4 := m0['b' := Attr(1, false)]['B' := Attr(1, true)]['r' := Attr(2, false)]['R' := Attr(2, true)]
                ['g' := Attr(3, false)]['G' := Attr(3, true)]['y' := Attr(4, false)]['Y' := Attr(4, true)];
    PairsFirstFour(m0);
    PairsLastFour(m4);
    assert m4['b' := Attr(5, false)]['B' := Attr(5, true)]['m' := Attr(6, false)]['M' := Attr(6, true)]
             ['c' := Attr(7, false)]['C' := Attr(7, true)]['w' := Attr(8, false)]['W' := Attr(8, true)]
           == ColorPairTable;
  }

  lemma PairsFirstFour(m0: map<char, Attr>)
    ensures PairsFrom(ColorNames, 1, m0) ==
      PairsFrom(ColorNames[4..], 5, m0['b' := Attr(1, false)]['B' := Attr(1, true)]['r' := Attr(2, false)]['R' := Attr(2, true)]
                ['g' := Attr(3, false)]['G' := Attr(3, true)]['y' := Attr(4, false)]['Y' := Attr(4, true)])
  {
    var N := ColorNames;
    var m1 := m0['b' := Attr(1, false)]['B' := Attr(1, true)];
    var m2 := m1['r' := Attr(2, false)]['R' := Attr(2, true)];
    var m3 := m2['g' := Attr(3, false)]['G' := Attr(3, true)];
    assert Lower('B') == 'b' && Lower('R') == 'r' && Lower('G') == 'g' && Lower('Y') == 'y';
    assert PairsFrom(N, 1, m0) == PairsFrom(N[1..], 2, m1);
    assert PairsFrom(N[1..], 2, m1) == PairsFrom(N[2..], 3, m2) by { assert N[1..][0] == "RED" && N[1..][1..] == N[2..]; }
    assert PairsFrom(N[2..], 3, m2) == PairsFrom(N[3..], 4, m3) by { assert N[2..][0] == "GREEN" && N[2..][1..] == N[3..]; }
    assert N[3..][0] == "YELLOW" && N[3..][1..] == N[4..];
  }

  lemma PairsLastFour(m4: map<char, Attr>)
    ensures PairsFrom(ColorNames[4..], 5, m4) ==
      m4['b' := Attr(5, false)]['B' := Attr(5, true)]['m' := Attr(6, false)]['M' := Attr(6, true)]
        ['c' := Attr(7, false)]['C' := Attr(7, true)]['w' := Attr(8, false)]['W' := Attr(8, true)]
  {
    var N := ColorNames;
    var m5 := m4['b' := Attr(5, false)]['B' := Attr(5, true)];
    var m6 := m5['m' := Attr(6, false)]['M' := Attr(6, true)];
    var m7 := m6['c' := Attr(7, false)]['C' := Attr(7, true)];
    var m8 := m7['w' := Attr(8, false)]['W' := Attr(8, true)];
    assert Lower('B') == 'b' && Lower('M') == 'm' && Lower('C') == 'c' && Lower('W') == 'w';
    assert PairsFrom(N[4..], 5, m4) == PairsFrom(N[5..], 6, m5) by { assert N[4..][0] == "BLUE" && N[4..][1..] == N[5..]; }
    assert PairsFrom(N[5..], 6, m5) == PairsFrom(N[6..], 7, m6) by { assert N[5..][0] == "MAGENTA" && N[5..][1..] == N[6..]; }
    assert PairsFrom(N[6..], 7, m6) == PairsFrom(N[7..], 8, m7) by { assert N[6..][0] == "CYAN" && N[6..][1..] == N[7..]; }
    assert PairsFrom(N[7..], 8, m7) == PairsFrom(N[8..], 9, m8) by { assert N[7..][0] == "WHITE" && N[7..][1..] == N[8..]; }
    assert N[8..] == [];
  }

  // ---------------------------------------------------------------------
  // One entity's cells

  /** The colour key of the character at line `i`, column `j` of the art:
      the same place in the colour mask, or a space where the mask has no
      such line or column. */
  function ColorKeyAt(e: Entity, i: nat, j: nat): (c: char)
    ensures var colorLines := Split(e.look.colorMap);
      !(i < |colorLines| && j < |colorLines[i]|) ==> c == ' '
    ensures var colorLines := Split(e.look.colorMap);
      i < |colorLines| && j < |colorLines[i]| ==> c == colorLines[i][j]
  {
    var colorLines := Split(e.look.colorMap);
    var colorLine := if i < |colorLines| then colorLines[i] else "";
    if j < |colorLine| then colorLine[j] else ' '
  }

  /** `self.color_pairs.get(color_char, self.color_pairs.get(default_color[0]))`.
      Python evaluates the fallback first, so an empty default colour
      raises whatever the key is. */
  function AttrFor(e: Entity, key: char): (r: Result<Attr, RenderError>)
    ensures r.Failure? <==>
      e.paint.defaultColor == [] || (key !in ColorPairTable && e.paint.defaultColor[0] !in ColorPairTable)
    ensures r.Success? && key in ColorPairTable ==> r.value == ColorPairTable[key]
    ensures r.Success? && key !in ColorPairTable ==> r.value == ColorPairTable[e.paint.defaultColor[0]]
  {
    var pairs := ColorPairTable;
    if e.paint.defaultColor == [] then Failure(NoDefaultColor)
    else if key in pairs then Success(pairs[key])
    else if e.paint.defaultColor[0] in pairs then Success(pairs[e.paint.defaultColor[0]])
    else Failure(NoColorPair(key))
  }

  /** A character with no colour-mask entry is looked up as a space, which
      has no colour pair, so it gets the pair of the default colour's
      first letter, or raises when there is none. */
  lemma MaskGapUsesDefault(e: Entity, i: nat, j: nat)
    requires var colorLines := Split(e.look.colorMap); !(i < |colorLines| && j < |colorLines[i]|)
    ensures e.paint.defaultColor != [] && e.paint.defaultColor[0] in ColorPairTable ==>
      AttrFor(e, ColorKeyAt(e, i, j)) == Success(ColorPairTable[e.paint.defaultColor[0]])
    ensures e.paint.defaultColor == [] || e.paint.defaultColor[0] !in ColorPairTable ==>
      AttrFor(e, ColorKeyAt(e, i, j)).Failure?
  {
    assert ' ' !in ColorPairTable;
  }

  /** A character the entity draws rather than lets through: neither an
      `auto_trans` space nor one of the `transparent` characters. */
  predicate Opaque(e: Entity, ch: char)
  {
    !(e.paint.autoTrans && ch == ' ') && ch !in e.paint.transparent
  }

  /** The character at line `i`, column `j` of the current frame is drawn:
      it is opaque and lands on the `screenW` by `screenH` screen. */
  predicate Hit(e: Entity, screenW: int, screenH: int, i: int, j: int)
  {
    && 0 <= i < |e.look.lines| && 0 <= j < |e.look.lines[i]|
    && 0 <= e.pos.y.Floor + i < screenH && 0 <= e.pos.x.Floor + j < screenW
    && Opaque(e, e.look.lines[i][j])
  }

  /** What drawing line `i`, column `j` puts on the screen, or raises. */
  function CellAt(e: Entity, i: nat, j: nat): Result<Cell, RenderError>
    requires i < |e.look.lines| && j < |e.look.lines[i]|
  {
    match AttrFor(e, ColorKeyAt(e, i, j))
    case Success(a) => Success(Cell(e.look.lines[i][j], a))
    case Failure(err) => Failure(err)
  }

  /** Drawing line `i`, column `j` raises. */
  predicate Fails(e: Entity, screenW: int, screenH: int, i: int, j: int)
  {
    Hit(e, screenW, screenH, i, j) && CellAt(e, i, j).Failure?
  }

  /** Screen position `p` is drawn from line `i` of the art at a column
      from `j` on. */
  predicate LineHits(e: Entity, screenW: int, screenH: int, i: nat, j: nat, p: (int, int))
  {
    var col := p.1 - e.pos.x.Floor;
    && p.0 == e.pos.y.Floor + i
    && j <= col
    && Hit(e, screenW, screenH, i, col)
  }

  /** Screen position `p` is drawn by the entity: some opaque character
      of its current frame lands there, on the screen. */
  predicate Covers(e: Entity, screenW: int, screenH: int, p: (int, int))
  {
    var row := p.0 - e.pos.y.Floor;
    var col := p.1 - e.pos.x.Floor;
    Hit(e, screenW, screenH, row, col)
  }

  /** What the entity draws at a position it covers, or raises. */
  function CellOn(e: Entity, screenW: int, screenH: int, p: (int, int)): Result<Cell, RenderError>
    requires Covers(e, screenW, screenH, p)
  {
    CellAt(e, p.0 - e.pos.y.Floor, p.1 - e.pos.x.Floor)
  }

  /** The entity raises when drawn: some drawn character has no colour. */
  ghost predicate EntityFails(e: Entity, screenW: int, screenH: int)
  {
    exists i, j :: Fails(e, screenW, screenH, i, j)
  }

  /** The inner loop `for j, char in enumerate(line)` from column `j` on. */
  function DrawLine(g: Grid, e: Entity, screenW: int, screenH: int, i: nat, j: nat): Result<Grid, RenderError>
    requires i < |e.look.lines| && j <= |e.look.lines[i]|
    decreases |e.look.lines[i]| - j
  {
    if j == |e.look.lines[i]| then Success(g)
    else if Hit(e, screenW, screenH, i, j) then
      match CellAt(e, i, j)
      case Failure(err) => Failure(err)
      case Success(c) => DrawLine(g[(e.pos.y.Floor + i, e.pos.x.Floor + j) := c], e, screenW, screenH, i, j + 1)
    else DrawLine(g, e, screenW, screenH, i, j + 1)
  }

  /** The outer loop `for i, line in enumerate(entity.lines)` from line `i` on. */
  function DrawRows(g: Grid, e: Entity, screenW: int, screenH: int, i: nat): Result<Grid, RenderError>
    requires i <= |e.look.lines|
    decreases |e.look.lines| - i
  {
    if i == |e.look.lines| then Success(g)
    else
      match DrawLine(g, e, screenW, screenH, i, 0)
      case Failure(err) => Failure(err)
      case Success(g1) => DrawRows(g1, e, screenW, screenH, i + 1)
  }

  /** Drawing one entity over the screen `g`. */
  function DrawEntity(g: Grid, e: Entity, screenW: int, screenH: int): Result<Grid, RenderError>
  {
    DrawRows(g, e, screenW, screenH, 0)
  }

  /** Drawing the columns of a line from `j` on raises exactly when one of
      its drawn characters has no colour. */
  lemma {:induction false} DrawLineFails(g: Grid, e: Entity, screenW: int, screenH: int, i: nat, j: nat)
    requires i < |e.look.lines| && j <= |e.look.lines[i]|
    ensures DrawLine(g, e, screenW, screenH, i, j).Failure? <==> exists k :: j <= k && Fails(e, screenW, screenH, i, k)
    decreases |e.look.lines[i]| - j
  {
    if j == |e.look.lines[i]| {
      assert forall k :: j <= k ==> !Hit(e, screenW, screenH, i, k);
    } else {
      assert forall k :: j <= k && Fails(e, screenW, screenH, i, k) <==>
        (k == j && Fails(e, screenW, screenH, i, j)) || (j + 1 <= k && Fails(e, screenW, screenH, i, k));
      if Hit(e, screenW, screenH, i, j) {
        match CellAt(e, i, j)
        case Failure(err) =>
          assert Fails(e, screenW, screenH, i, j);
        case Success(c) =>
          DrawLineFails(g[(e.pos.y.Floor + i, e.pos.x.Floor + j) := c], e, screenW, screenH, i, j + 1);
      } else {
        DrawLineFails(g, e, screenW, screenH, i, j + 1);
      }
    }
  }

  /** When drawing the columns of a line from `j` on succeeds, position
      `p` holds what line `i` shows there if one of those columns is drawn
      at `p`, and what it held before otherwise. */
  lemma {:induction false} DrawLineAt(g: Grid, e: Entity, screenW: int, screenH: int, i: nat, j: nat, p: (int, int))
    requires i < |e.look.lines| && j <= |e.look.lines[i]|
    ensures var r := DrawLine(g, e, screenW, screenH, i, j);
      r.Success? ==>
        && (p in r.value <==> p in g || LineHits(e, screenW, screenH, i, j, p))
        && (LineHits(e, screenW, screenH, i, j, p) ==>
              CellAt(e, i, p.1 - e.pos.x.Floor).Success? &&
              r.value[p] == CellAt(e, i, p.1 - e.pos.x.Floor).value)
        && (!LineHits(e, screenW, screenH, i, j, p) && p in g ==> r.value[p] == g[p])
    decreases |e.look.lines[i]| - j
  {
    var r := DrawLine(g, e, screenW, screenH, i, j);
    if j < |e.look.lines[i]| && r.Success? {
      var q := (e.pos.y.Floor + i, e.pos.x.Floor + j);
      var hit := Hit(e, screenW, screenH, i, j);
      var g1 := if hit then g[q := CellAt(e, i, j).value] else g;
      assert r == DrawLine(g1, e, screenW, screenH, i, j + 1);
      DrawLineAt(g1, e, screenW, screenH, i, j + 1, p);
      assert LineHits(e, screenW, screenH, i, j, p) <==>
        (p == q && hit) || LineHits(e, screenW, screenH, i, j + 1, p);
    }
  }

  /** Screen position `p` is drawn by the entity from line `i` on. */
  predicate RowsHit(e: Entity, screenW: int, screenH: int, i: nat, p: (int, int))
  {
    Covers(e, screenW, screenH, p) && p.0 - e.pos.y.Floor >= i
  }

  /** Drawing the lines from `i` on raises exactly when one of their drawn
      characters has no colour. */
  lemma {:induction false} DrawRowsFails(g: Grid, e: Entity, screenW: int, screenH: int, i: nat)
    requires i <= |e.look.lines|
    ensures DrawRows(g, e, screenW, screenH, i).Failure? <==>
      exists a, k :: i <= a && Fails(e, screenW, screenH, a, k)
    decreases |e.look.lines| - i
  {
    if i == |e.look.lines| {
      assert forall a, k :: i <= a ==> !Fails(e, screenW, screenH, a, k);
    } else {
      assert forall a, k :: i <= a && Fails(e, screenW, screenH, a, k) <==>
        (a == i && 0 <= k && Fails(e, screenW, screenH, i, k)) || (i + 1 <= a && Fails(e, screenW, screenH, a, k));
      DrawLineFails(g, e, screenW, screenH, i, 0);
      match DrawLine(g, e, screenW, screenH, i, 0)
      case Failure(err) =>
      case Success(g1) =>
        DrawRowsFails(g1, e, screenW, screenH, i + 1);
    }
  }

  /** When drawing the lines from `i` on succeeds, position `p` holds what
      the entity shows there if those lines cover it, and what it held
      before otherwise. */
  lemma {:induction false} DrawRowsAt(g: Grid, e: Entity, screenW: int, screenH: int, i: nat, p: (int, int))
    requires i <= |e.look.lines|
    ensures var r := DrawRows(g, e, screenW, screenH, i);
      r.Success? ==>
        && (p in r.value <==> p in g || RowsHit(e, screenW, screenH, i, p))
        && (RowsHit(e, screenW, screenH, i, p) ==>
              CellOn(e, screenW, screenH, p).Success? && r.value[p] == CellOn(e, screenW, screenH, p).value)
        && (!RowsHit(e, screenW, screenH, i, p) && p in g ==> r.value[p] == g[p])
    decreases |e.look.lines| - i
  {
    var r := DrawRows(g, e, screenW, screenH, i);
    if i < |e.look.lines| && r.Success? {
      DrawLineAt(g, e, screenW, screenH, i, 0, p);
      var g1 := DrawLine(g, e, screenW, screenH, i, 0).value;
      assert r == DrawRows(g1, e, screenW, screenH, i + 1);
      DrawRowsAt(g1, e, screenW, screenH, i + 1, p);
      assert RowsHit(e, screenW, screenH, i, p) <==>
        LineHits(e, screenW, screenH, i, 0, p) || RowsHit(e, screenW, screenH, i + 1, p);
      if LineHits(e, screenW, screenH, i, 0, p) {
        assert CellOn(e, screenW, screenH, p) == CellAt(e, i, p.1 - e.pos.x.Floor);
      }
    }
  }

  /** Drawing an entity raises exactly when a drawn character has no
      colour. */
  lemma DrawEntityFails(g: Grid, e: Entity, screenW: int, screenH: int)
    ensures DrawEntity(g, e, screenW, screenH).Failure? <==> EntityFails(e, screenW, screenH)
  {
    DrawRowsFails(g, e, screenW, screenH, 0);
    assert forall a, k :: Fails(e, screenW, screenH, a, k) ==> 0 <= a;
  }

  /** Drawing an entity writes exactly the positions it covers, with the
      character and colour it shows there, and keeps every other cell. */
  lemma DrawEntityAt(g: Grid, e: Entity, screenW: int, screenH: int, p: (int, int))
    ensures var r := DrawEntity(g, e, screenW, screenH);
      r.Success? ==>
        && (p in r.value <==> p in g || Covers(e, screenW, screenH, p))
        && (Covers(e, screenW, screenH, p) ==>
              CellOn(e, screenW, screenH, p).Success? && r.value[p] == CellOn(e, screenW, screenH, p).value)
        && (!Covers(e, screenW, screenH, p) && p in g ==> r.value[p] == g[p])
  {
    DrawRowsAt(g, e, screenW, screenH, 0, p);
    assert RowsHit(e, screenW, screenH, 0, p) <==> Covers(e, screenW, screenH, p);
  }

  // ---------------------------------------------------------------------
  // Drawing order

  /** Entity `a` is drawn before entity `b`: its z is smaller, or equal
      and it comes earlier in the list (Python's sort is stable). The
      `DEPTH` table gives deeper items a larger z, so they are drawn last
      and end up on top. */
  predicate DrawnBefore(ents: seq<Entity>, a: nat, b: nat)
    requires a < |ents| && b < |ents|
  {
    ents[a].pos.z < ents[b].pos.z || (ents[a].pos.z == ents[b].pos.z && a < b)
  }

  /** `order` lists positions of `ents` in drawing order. */
  predicate InDrawOrder(ents: seq<Entity>, order: seq<nat>)
  {
    && (forall t :: 0 <= t < |order| ==> order[t] < |ents|)
    && (forall a, b :: 0 <= a < b < |order| ==> DrawnBefore(ents, order[a], order[b]))
  }

  /** Inserting position `x` into a stably sorted list: it goes after
      every entity whose z is at most its own. */
  function Insert(ents: seq<Entity>, s: seq<nat>, x: nat): (r: seq<nat>)
    requires x < |ents| && forall t :: 0 <= t < |s| ==> s[t] < |ents|
    ensures |r| == |s| + 1 && forall t :: 0 <= t < |r| ==> r[t] < |ents|
  {
    if s == [] then [x]
    else if ents[x].pos.z < ents[s[0]].pos.z then [x] + s
    else [s[0]] + Insert(ents, s[1..], x)
  }

  /** Insertion adds `x` to the listed positions and nothing else. */
  lemma {:induction false} InsertMembers(ents: seq<Entity>, s: seq<nat>, x: nat)
    requires x < |ents| && forall t :: 0 <= t < |s| ==> s[t] < |ents|
    ensures forall t :: 0 <= t < |Insert(ents, s, x)| ==> Insert(ents, s, x)[t] == x || Insert(ents, s, x)[t] in s
    ensures x in Insert(ents, s, x)
    ensures forall v :: v in s ==> v in Insert(ents, s, x)
  {
    if s != [] && ents[s[0]].pos.z <= ents[x].pos.z {
      InsertMembers(ents, s[1..], x);
      assert Insert(ents, s, x) == [s[0]] + Insert(ents, s[1..], x);
      assert forall v :: v in s ==> v == s[0] || v in s[1..];
    }
  }

  /** `sorted(self.entities, key=lambda e: e.position[2])` restricted to
      the first `n` entities, as positions: an insertion sort by depth. */
  function DepthOrder(ents: seq<Entity>, n: nat): (r: seq<nat>)
    requires n <= |ents|
    ensures |r| == n && forall t :: 0 <= t < |r| ==> r[t] < |ents|
  {
    if n == 0 then [] else Insert(ents, DepthOrder(ents, n - 1), n - 1)
  }

  /** The depth order of the first `n` entities lists only those. */
  lemma {:induction false} DepthOrderBelow(ents: seq<Entity>, n: nat)
    requires n <= |ents|
    ensures forall t :: 0 <= t < n ==> DepthOrder(ents, n)[t] < n
  {
    if n > 0 {
      DepthOrderBelow(ents, n - 1);
      InsertMembers(ents, DepthOrder(ents, n - 1), n - 1);
    }
  }

  /** Inserting a position later than all the listed ones keeps a list in
      drawing order. */
  lemma {:induction false} InsertInOrder(ents: seq<Entity>, s: seq<nat>, x: nat)
    requires x < |ents| && InDrawOrder(ents, s)
    requires forall t :: 0 <= t < |s| ==> s[t] < x
    ensures InDrawOrder(ents, Insert(ents, s, x))
  {
    if s != [] {
      if ents[x].pos.z < ents[s[0]].pos.z {
        InsertFront(ents, s, x);
      } else {
        InsertInOrder(ents, s[1..], x);
        InsertBehind(ents, s, x);
      }
    }
  }

  /** A position shallower than the first listed entity goes first. */
  lemma InsertFront(ents: seq<Entity>, s: seq<nat>, x: nat)
    requires x < |ents| && InDrawOrder(ents, s) && s != []
    requires ents[x].pos.z < ents[s[0]].pos.z
    ensures InDrawOrder(ents, Insert(ents, s, x))
  {
    var r := Insert(ents, s, x);
    assert r == [x] + s;
    forall a, b | 0 <= a < b < |r| ensures DrawnBefore(ents, r[a], r[b]) {
      if a == 0 && b > 1 {
        assert DrawnBefore(ents, s[0], s[b - 1]);
      }
    }
  }

  /** A position later than the first listed entity, with a z at least
      as large, goes behind it. */
  lemma InsertBehind(ents: seq<Entity>, s: seq<nat>, x: nat)
    requires x < |ents| && InDrawOrder(ents, s) && s != []
    requires forall t :: 0 <= t < |s| ==> s[t] < x
    requires ents[s[0]].pos.z <= ents[x].pos.z
    requires InDrawOrder(ents, Insert(ents, s[1..], x))
    ensures InDrawOrder(ents, Insert(ents, s, x))
  {
    var tail := Insert(ents, s[1..], x);
    assert Insert(ents, s, x) == [s[0]] + tail;
    InsertMembers(ents, s[1..], x);
    HeadBeforeAll(ents, s, x, tail);
    ConsInOrder(ents, s[0], tail);
  }

  /** The first listed entity is drawn before everything inserted behind it. */
  lemma HeadBeforeAll(ents: seq<Entity>, s: seq<nat>, x: nat, tail: seq<nat>)
    requires x < |ents| && InDrawOrder(ents, s) && s != []
    requires forall t :: 0 <= t < |s| ==> s[t] < x
    requires ents[s[0]].pos.z <= ents[x].pos.z
    requires forall t :: 0 <= t < |tail| ==> tail[t] < |ents| && (tail[t] == x || tail[t] in s[1..])
    ensures forall b :: 0 <= b < |tail| ==> DrawnBefore(ents, s[0], tail[b])
  {
    forall b | 0 <= b < |tail| ensures DrawnBefore(ents, s[0], tail[b]) {
      if tail[b] != x {
        var c :| 0 <= c < |s[1..]| && s[1..][c] == tail[b];
        assert DrawnBefore(ents, s[0], s[c + 1]);
      }
    }
  }

  /** Putting a position drawn before all of a list in drawing order in
      front of it keeps the drawing order. */
  lemma ConsInOrder(ents: seq<Entity>, h: nat, tail: seq<nat>)
    requires h < |ents| && InDrawOrder(ents, tail)
    requires forall b :: 0 <= b < |tail| ==> DrawnBefore(ents, h, tail[b])
    ensures InDrawOrder(ents, [h] + tail)
  {
    var r := [h] + tail;
    forall a, b | 0 <= a < b < |r| ensures DrawnBefore(ents, r[a], r[b]) {
      if a == 0 {
        assert r[b] == tail[b - 1];
      } else {
        assert r[a] == tail[a - 1] && r[b] == tail[b - 1];
      }
    }
  }

  /** The depth order puts smaller z first and, among entities of equal
      z, keeps list order. */
  lemma {:induction false} DepthOrderSorted(ents: seq<Entity>, n: nat)
    requires n <= |ents|
    ensures InDrawOrder(ents, DepthOrder(ents, n))
  {
    if n > 0 {
      var s := DepthOrder(ents, n - 1);
      assert DepthOrder(ents, n) == Insert(ents, s, n - 1);
      DepthOrderSorted(ents, n - 1);
      DepthOrderBelow(ents, n - 1);
      InsertInOrder(ents, s, n - 1);
    }
  }

  /** The depth order lists every one of the first `n` entities. */
  lemma {:induction false} DepthOrderComplete(ents: seq<Entity>, n: nat)
    requires n <= |ents|
    ensures forall k :: 0 <= k < n ==> k in DepthOrder(ents, n)
  {
    if n > 0 {
      DepthOrderComplete(ents, n - 1);
      InsertMembers(ents, DepthOrder(ents, n - 1), n - 1);
    }
  }

  // ---------------------------------------------------------------------
  // The screen

  /** Drawing the entities at the listed positions, in that order. */
  function PaintAll(g: Grid, ents: seq<Entity>, order: seq<nat>, screenW: int, screenH: int): Result<Grid, RenderError>
    requires forall t :: 0 <= t < |order| ==> order[t] < |ents|
    decreases |order|
  {
    if order == [] then Success(g)
    else
      match DrawEntity(g, ents[order[0]], screenW, screenH)
      case Failure(err) => Failure(err)
      case Success(g1) => PaintAll(g1, ents, order[1..], screenW, screenH)
  }

  /** `redraw_screen`: erase, then draw every entity in depth order. */
  function Redraw(w: World): Result<Grid, RenderError>
  {
    var ents := w.entities;
    PaintAll(map[], ents, DepthOrder(ents, |ents|), w.width, w.height)
  }

  /** The position of the last entity in `order` that covers `p`: the one
      whose character stays on the screen there. */
  function LastCover(ents: seq<Entity>, order: seq<nat>, screenW: int, screenH: int, p: (int, int)): (r: Option<nat>)
    requires forall t :: 0 <= t < |order| ==> order[t] < |ents|
    ensures r.Some? ==> r.value in order && Covers(ents[r.value], screenW, screenH, p)
    ensures r.None? <==> forall t :: 0 <= t < |order| ==> !Covers(ents[order[t]], screenW, screenH, p)
  {
    if order == [] then None
    else
      var rest := LastCover(ents, order[1..], screenW, screenH, p);
      if rest.Some? then rest
      else if Covers(ents[order[0]], screenW, screenH, p) then Some(order[0])
      else None
  }

  /** Painting in `order` succeeds exactly when none of the listed
      entities raises when drawn. */
  lemma {:induction false} PaintAllFails(g: Grid, ents: seq<Entity>, order: seq<nat>, screenW: int, screenH: int)
    requires forall t :: 0 <= t < |order| ==> order[t] < |ents|
    ensures PaintAll(g, ents, order, screenW, screenH).Failure? <==>
      exists t :: 0 <= t < |order| && EntityFails(ents[order[t]], screenW, screenH)
    decreases |order|
  {
    if order != [] {
      DrawEntityFails(g, ents[order[0]], screenW, screenH);
      match DrawEntity(g, ents[order[0]], screenW, screenH)
      case Failure(err) =>
      case Success(g1) =>
        PaintAllFails(g1, ents, order[1..], screenW, screenH);
        assert forall t :: 1 <= t < |order| ==> order[t] == order[1..][t - 1];
    }
  }

  /** When painting in `order` succeeds, position `p` shows what the last
      entity covering it draws there; if no listed entity covers it, it
      keeps its cell. */
  lemma {:induction false} PaintAllAt(g: Grid, ents: seq<Entity>, order: seq<nat>, screenW: int, screenH: int, p: (int, int))
    requires forall t :: 0 <= t < |order| ==> order[t] < |ents|
    ensures var r := PaintAll(g, ents, order, screenW, screenH);
      r.Success? ==>
        match LastCover(ents, order, screenW, screenH, p)
        case Some(k) => p in r.value && CellOn(ents[k], screenW, screenH, p).Success? &&
                        r.value[p] == CellOn(ents[k], screenW, screenH, p).value
        case None => (p in r.value <==> p in g) && (p in g ==> r.value[p] == g[p])
    decreases |order|
  {
    var r := PaintAll(g, ents, order, screenW, screenH);
    if order != [] && r.Success? {
      var e := ents[order[0]];
      DrawEntityAt(g, e, screenW, screenH, p);
      var g1 := DrawEntity(g, e, screenW, screenH).value;
      assert r == PaintAll(g1, ents, order[1..], screenW, screenH);
      PaintAllAt(g1, ents, order[1..], screenW, screenH, p);
      if LastCover(ents, order[1..], screenW, screenH, p).None? {
        assert LastCover(ents, order, screenW, screenH, p) ==
          if Covers(e, screenW, screenH, p) then Some(order[0]) else None;
      }
    }
  }

  /** Entity `k` covers `p` and every other entity covering `p` is drawn
      before it. */
  predicate Topmost(ents: seq<Entity>, screenW: int, screenH: int, p: (int, int), k: nat)
  {
    && k < |ents| && Covers(ents[k], screenW, screenH, p)
    && forall m :: 0 <= m < |ents| && m != k && Covers(ents[m], screenW, screenH, p) ==> DrawnBefore(ents, m, k)
  }

  /** In drawing order, the last entity covering `p` is the topmost one. */
  lemma {:induction false} LastCoverTop(ents: seq<Entity>, order: seq<nat>, screenW: int, screenH: int, p: (int, int), k: nat)
    requires InDrawOrder(ents, order) && k in order && Topmost(ents, screenW, screenH, p, k)
    ensures LastCover(ents, order, screenW, screenH, p) == Some(k)
    decreases |order|
  {
    var rest := order[1..];
    if order[0] == k {
      forall t | 0 <= t < |rest| ensures !Covers(ents[rest[t]], screenW, screenH, p) {
        assert DrawnBefore(ents, order[0], order[t + 1]);
      }
    } else {
      LastCoverTop(ents, rest, screenW, screenH, p, k);
    }
  }

  /** A redraw raises exactly when some entity has a drawn character
      without a colour pair. */
  lemma RedrawFails(w: World)
    ensures Redraw(w).Failure? <==>
      exists k :: 0 <= k < |w.entities| && EntityFails(w.entities[k], w.width, w.height)
  {
    var ents := w.entities;
    var order := DepthOrder(ents, |ents|);
    PaintAllFails(map[], ents, order, w.width, w.height);
    DepthOrderComplete(ents, |ents|);
    forall k | 0 <= k < |ents| && EntityFails(ents[k], w.width, w.height)
      ensures exists t :: 0 <= t < |order| && EntityFails(ents[order[t]], w.width, w.height)
    {
      assert k in order;
      var t :| 0 <= t < |order| && order[t] == k;
    }
  }

  /** A redraw writes a cell exactly where some entity covers it, so only
      cells on the screen and never a cell that every entity leaves
      transparent. */
  lemma RedrawCovers(w: World)
    ensures Redraw(w).Success? ==> forall p ::
      p in Redraw(w).value <==> exists k :: 0 <= k < |w.entities| && Covers(w.entities[k], w.width, w.height, p)
    ensures Redraw(w).Success? ==> forall p :: p in Redraw(w).value ==>
      0 <= p.0 < w.height && 0 <= p.1 < w.width
  {
    var ents := w.entities;
    var order := DepthOrder(ents, |ents|);
    DepthOrderComplete(ents, |ents|);
    if Redraw(w).Success? {
      forall p ensures p in Redraw(w).value <==> exists k :: 0 <= k < |ents| && Covers(ents[k], w.width, w.height, p) {
        PaintAllAt(map[], ents, order, w.width, w.height, p);
        var last := LastCover(ents, order, w.width, w.height, p);
        if exists k :: 0 <= k < |ents| && Covers(ents[k], w.width, w.height, p) {
          var k :| 0 <= k < |ents| && Covers(ents[k], w.width, w.height, p);
          assert k in order;
          var t :| 0 <= t < |order| && order[t] == k;
        }
      }
    }
  }

  /** Each written cell shows the character and colour of the topmost
      entity covering it: the last in the stable ascending-z order, that
      is the one with the largest z and, among equal z, the one listed
      last. */
  lemma RedrawTopmost(w: World, p: (int, int), k: nat)
    requires Topmost(w.entities, w.width, w.height, p, k)
    ensures Redraw(w).Success? ==>
      p in Redraw(w).value &&
      CellOn(w.entities[k], w.width, w.height, p).Success? &&
      Redraw(w).value[p] == CellOn(w.entities[k], w.width, w.height, p).value
  {
    var ents := w.entities;
    var order := DepthOrder(ents, |ents|);
    PaintAllAt(map[], ents, order, w.width, w.height, p);
    DepthOrderComplete(ents, |ents|);
    DepthOrderSorted(ents, |ents|);
    LastCoverTop(ents, order, w.width, w.height, p, k);
  }
}
