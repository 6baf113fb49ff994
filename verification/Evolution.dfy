/** The evolution simulation: entities on a torus of resources, moved, fed, bred and compacted in
    place.  Floating-point numbers are modelled as reals. */
module Evolution {

  const WORLD_SIZE := 32
  const CELLS := 1024
  const MAX_ENTITIES := 500
  const NUM_GENES := 8

  // The genes in their declared order.
  type Genome = g: seq<real> | |g| == NUM_GENES witness seq(NUM_GENES, i => 0.0)

  const METABOLISM := 0
  const SPEED := 1
  const SENSOR := 2
  const THRESHOLD := 4
  const LIFESPAN := 5
  const MUTATION := 6

  datatype Entity = Entity(genes: Genome, energy: real, x: int, y: int, age: int, alive: bool,
                           id: nat, parentId: nat, generation: nat)

  predicate Unit(v: real) {
    0.0 <= v <= 1.0
  }

  predicate GenesOk(g: Genome) {
    forall i :: 0 <= i < NUM_GENES ==> Unit(g[i])
  }

  predicate OnGrid(x: int, y: int) {
    0 <= x < WORLD_SIZE && 0 <= y < WORLD_SIZE
  }

  predicate CellsOk(cells: seq<real>) {
    |cells| == CELLS && forall i :: 0 <= i < CELLS ==> Unit(cells[i])
  }

  // Rows one after another, as the two-dimensional array is laid out.
  function At(x: int, y: int): (i: nat)
    requires OnGrid(x, y)
    ensures i < CELLS
  {
    WORLD_SIZE * x + y
  }

  function Clamp(v: real, lo: real, hi: real): real {
    if v < lo then lo else if v > hi then hi else v
  }

  // ---------- one entity's step ----------

  // C's remainder, which takes the sign of the dividend.
  function Rem(v: int): int {
    if v < 0 then -((-v) % WORLD_SIZE) else v % WORLD_SIZE
  }

  function Wrap(v: int): (w: int)
    ensures 0 <= w < WORLD_SIZE && w == v % WORLD_SIZE
  {
    WrapIsMod(v);
    Rem(Rem(v) + WORLD_SIZE)
  }

  lemma WrapIsMod(v: int)
    ensures Rem(Rem(v) + WORLD_SIZE) == v % WORLD_SIZE
  {
    if v < 0 {
      var q, r := (-v) / WORLD_SIZE, (-v) % WORLD_SIZE;
      assert v == WORLD_SIZE * (-q) - r;
      if r == 0 {
        ModIs(v, -q, 0);
      } else {
        assert v == WORLD_SIZE * (-q - 1) + (WORLD_SIZE - r);
        ModIs(v, -q - 1, WORLD_SIZE - r);
      }
    } else {
      ModIs(v % WORLD_SIZE + WORLD_SIZE, 1, v % WORLD_SIZE);
    }
  }

  lemma ModIs(v: int, q: int, r: int)
    requires v == WORLD_SIZE * q + r && 0 <= r < WORLD_SIZE
    ensures v % WORLD_SIZE == r
  {
  }

  function Range(e: Entity): int {
    1 + (e.genes[SENSOR] * 3.0).Floor
  }

  datatype Spot = Spot(x: int, y: int)

  predicate GoodSpot(s: Spot) {
    OnGrid(s.x, s.y)
  }

  function Better(cells: seq<real>, best: Spot, s: Spot): (r: Spot)
    requires |cells| == CELLS && GoodSpot(best) && GoodSpot(s)
    ensures GoodSpot(r)
  {
    if cells[At(s.x, s.y)] > cells[At(best.x, best.y)] then s else best
  }

  // The inner loop of the search from offset `dy` on.
  function ScanRow(cells: seq<real>, e: Entity, range: int, dx: int, dy: int, best: Spot): (r: Spot)
    requires |cells| == CELLS && GoodSpot(best)
    ensures GoodSpot(r)
    decreases range - dy
  {
    if dy > range then best
    else ScanRow(cells, e, range, dx, dy + 1, Better(cells, best, Spot(Wrap(e.x + dx), Wrap(e.y + dy))))
  }

  // The outer loop from offset `dx` on.
  function ScanFrom(cells: seq<real>, e: Entity, range: int, dx: int, best: Spot): (r: Spot)
    requires |cells| == CELLS && GoodSpot(best)
    ensures GoodSpot(r)
    decreases range - dx
  {
    if dx > range then best
    else ScanFrom(cells, e, range, dx + 1, ScanRow(cells, e, range, dx, -range, best))
  }

  function BestSpot(cells: seq<real>, e: Entity): (r: Spot)
    requires |cells| == CELLS && OnGrid(e.x, e.y)
    ensures GoodSpot(r)
  {
    ScanFrom(cells, e, Range(e), -Range(e), Spot(e.x, e.y))
  }

  function MoveCost(e: Entity): real {
    0.01 + e.genes[SPEED] * 0.02
  }

  function MaxAge(e: Entity): int {
    50 + (e.genes[LIFESPAN] * 150.0).Floor
  }

  function Moved(e: Entity, s: Spot): Entity {
    if s == Spot(e.x, e.y) then e else e.(x := s.x, y := s.y, energy := e.energy - MoveCost(e))
  }

  // What the entity takes from a cell that holds `here`.
  function Consumed(e: Entity, here: real): real {
    here * e.genes[METABOLISM]
  }

  // The entity feeds, ages, and may die.
  function Fed(e: Entity, consumed: real): Entity {
    var energy := e.energy + consumed - 0.015;
    e.(energy := energy, age := e.age + 1, alive := !(energy <= 0.0 || e.age + 1 > MaxAge(e)))
  }

  function StepEntity(e: Entity, cells: seq<real>): (r: (Entity, seq<real>))
    requires |cells| == CELLS && OnGrid(e.x, e.y)
    ensures |r.1| == CELLS && OnGrid(r.0.x, r.0.y)
  {
    if !e.alive then (e, cells)
    else
      var s := BestSpot(cells, e);
      var i := At(s.x, s.y);
      var consumed := Consumed(e, cells[i]);
      (Fed(Moved(e, s), consumed), cells[i := cells[i] - consumed])
  }

  // ---------- the search finds a maximal cell ----------

  // Some cell of the row at offset `dx`, from `dy` on, or `best`.
  ghost predicate Beats(cells: seq<real>, r: Spot, s: Spot)
    requires |cells| == CELLS
  {
    GoodSpot(r) && GoodSpot(s) && cells[At(r.x, r.y)] >= cells[At(s.x, s.y)]
  }

  ghost predicate Near(e: Entity, range: int, s: Spot) {
    exists dx, dy :: -range <= dx <= range && -range <= dy <= range && s == Offset(e, dx, dy)
  }

  function Offset(e: Entity, dx: int, dy: int): (s: Spot)
    ensures GoodSpot(s)
  {
    Spot(Wrap(e.x + dx), Wrap(e.y + dy))
  }

  lemma {:induction false} ScanRowMax(cells: seq<real>, e: Entity, range: int, dx: int, dy: int, best: Spot)
    requires |cells| == CELLS && GoodSpot(best) && -range <= dx <= range && -range <= dy
    ensures var r := ScanRow(cells, e, range, dx, dy, best);
      && Beats(cells, r, best) && (forall k :: dy <= k <= range ==> Beats(cells, r, Offset(e, dx, k)))
      && (r == best || (Near(e, range, r) && !Beats(cells, best, r)))
    decreases range - dy
  {
    if dy <= range {
      var s := Offset(e, dx, dy);
      assert Near(e, range, s);
      ScanRowMax(cells, e, range, dx, dy + 1, Better(cells, best, s));
    }
  }

  lemma {:induction false} ScanFromMax(cells: seq<real>, e: Entity, range: int, dx: int, best: Spot)
    requires |cells| == CELLS && GoodSpot(best) && -range <= dx && range >= 0
    ensures var r := ScanFrom(cells, e, range, dx, best);
      && Beats(cells, r, best)
      && (forall j, k :: dx <= j <= range && -range <= k <= range ==> Beats(cells, r, Offset(e, j, k)))
      && (r == best || (Near(e, range, r) && !Beats(cells, best, r)))
    decreases range - dx
  {
    if dx <= range {
      ScanRowMax(cells, e, range, dx, -range, best);
      ScanFromMax(cells, e, range, dx + 1, ScanRow(cells, e, range, dx, -range, best));
    }
  }

  // A living entity stays where no cell in its torus neighbourhood holds more, and otherwise lands on
  // a cell there that holds as much as any.
  lemma LandsOnMaximum(cells: seq<real>, e: Entity)
    requires |cells| == CELLS && OnGrid(e.x, e.y) && GenesOk(e.genes) && e.alive
    ensures var e' := StepEntity(e, cells).0;
      var (from, to) := (Spot(e.x, e.y), Spot(e'.x, e'.y));
      && (forall t :: Near(e, Range(e), t) ==> Beats(cells, to, t))
      && (to != from ==> Near(e, Range(e), to) && !Beats(cells, from, to))
  {
    SearchFindsMaximum(cells, e);
  }

  // Of the cell it lands on, and of no other, it takes its share.
  lemma TakesItsShare(cells: seq<real>, e: Entity, i: nat)
    requires |cells| == CELLS && OnGrid(e.x, e.y) && e.alive && i < CELLS
    ensures var (e', cells') := StepEntity(e, cells);
      cells'[i] == if i == At(e'.x, e'.y) then cells[i] * (1.0 - e.genes[METABOLISM]) else cells[i]
  {
    KeptShare(cells[i], e.genes[METABOLISM]);
  }

  lemma KeptShare(here: real, m: real)
    ensures here - here * m == here * (1.0 - m)
  {
  }

  lemma SearchFindsMaximum(cells: seq<real>, e: Entity)
    requires |cells| == CELLS && OnGrid(e.x, e.y) && GenesOk(e.genes)
    ensures forall t :: Near(e, Range(e), t) ==> Beats(cells, BestSpot(cells, e), t)
    ensures BestSpot(cells, e) != Spot(e.x, e.y) ==>
      Near(e, Range(e), BestSpot(cells, e)) && !Beats(cells, Spot(e.x, e.y), BestSpot(cells, e))
  {
    assert Range(e) >= 1 by {
      assert e.genes[SENSOR] * 3.0 >= 0.0;
    }
    ScanFromMax(cells, e, Range(e), -Range(e), Spot(e.x, e.y));
  }

  // ---------- conservation ----------

  function Sum(s: seq<real>): real {
    if s == [] then 0.0 else s[0] + Sum(s[1..])
  }

  lemma {:induction false} SumUpdate(s: seq<real>, i: nat, v: real)
    requires i < |s|
    ensures Sum(s[i := v]) == Sum(s) - s[i] + v
  {
    if i == 0 {
      assert s[0 := v][1..] == s[1..];
    } else {
      SumUpdate(s[1..], i - 1, v);
      assert s[i := v][1..] == s[1..][i - 1 := v];
    }
  }

  function EnergyOf(pop: seq<Entity>): real {
    if pop == [] then 0.0 else pop[0].energy + EnergyOf(pop[1..])
  }

  // What the step of an entity takes out of the system.
  function Loss(before: Entity, after: Entity): real {
    if !before.alive then 0.0
    else 0.015 + if Spot(after.x, after.y) != Spot(before.x, before.y) then MoveCost(before) else 0.0
  }

  function Losses(before: seq<Entity>, after: seq<Entity>): real
    requires |before| == |after|
  {
    if before == [] then 0.0 else Loss(before[0], after[0]) + Losses(before[1..], after[1..])
  }

  lemma FedLoses(e: Entity, s: Spot, consumed: real)
    requires e.alive
    ensures var e' := Fed(Moved(e, s), consumed);
      e'.energy == e.energy + consumed - Loss(e, e') && Spot(e'.x, e'.y) == s
  {
  }

  lemma StepConserves(e: Entity, cells: seq<real>)
    requires |cells| == CELLS && OnGrid(e.x, e.y)
    ensures var (e', cells') := StepEntity(e, cells);
      Sum(cells') + e'.energy == Sum(cells) + e.energy - Loss(e, e')
  {
    if e.alive {
      var s := BestSpot(cells, e);
      var i := At(s.x, s.y);
      var consumed := Consumed(e, cells[i]);
      SumUpdate(cells, i, cells[i] - consumed);
      FedLoses(e, s, consumed);
    }
  }

  ghost predicate AllOnGrid(pop: seq<Entity>) {
    forall i :: 0 <= i < |pop| ==> OnGrid(pop[i].x, pop[i].y)
  }

  // The stepping loop over the population.
  function StepAll(pop: seq<Entity>, cells: seq<real>): (r: (seq<Entity>, seq<real>))
    requires |cells| == CELLS && AllOnGrid(pop)
    ensures |r.0| == |pop| && |r.1| == CELLS && AllOnGrid(r.0)
  {
    if pop == [] then ([], cells)
    else
      var (e, cells1) := StepEntity(pop[0], cells);
      var (rest, cells2) := StepAll(pop[1..], cells1);
      ([e] + rest, cells2)
  }

  // The stepping loop after `i` turns.
  ghost predicate PartWay(before: seq<Entity>, world: seq<real>, i: nat, done: seq<Entity>, cells: seq<real>) {
    && |world| == CELLS && |cells| == CELLS && i <= |before| && AllOnGrid(before) && AllOnGrid(before[i..])
    && StepAll(before, world).0 == done + StepAll(before[i..], cells).0
    && StepAll(before, world).1 == StepAll(before[i..], cells).1
  }

  lemma Advance(before: seq<Entity>, world: seq<real>, i: nat, done: seq<Entity>, cells: seq<real>, e: Entity,
                cells': seq<real>)
    requires PartWay(before, world, i, done, cells) && i < |before|
    requires e == StepEntity(before[i], cells).0 && cells' == StepEntity(before[i], cells).1
    ensures PartWay(before, world, i + 1, done + [e], cells')
  {
    var rest := before[i..];
    assert rest[1..] == before[i + 1..] && rest[0] == before[i];
    assert done + ([e] + StepAll(rest[1..], cells').0) == (done + [e]) + StepAll(rest[1..], cells').0;
  }

  // Resources and energy together are conserved, up to 0.015 for each living entity and the move
  // cost of those that moved.
  lemma {:induction false} SteppingConserves(pop: seq<Entity>, cells: seq<real>)
    requires |cells| == CELLS && AllOnGrid(pop)
    ensures var (after, cells') := StepAll(pop, cells);
      Sum(cells') + EnergyOf(after) == Sum(cells) + EnergyOf(pop) - Losses(pop, after)
  {
    if pop != [] {
      var (e, cells1) := StepEntity(pop[0], cells);
      StepConserves(pop[0], cells);
      SteppingConserves(pop[1..], cells1);
      var rest := StepAll(pop[1..], cells1).0;
      assert ([e] + rest)[1..] == rest;
    }
  }

  // ---------- what every tick keeps ----------

  ghost predicate EntityOk(e: Entity, nextId: nat) {
    1 <= e.id < nextId && e.parentId < e.id && OnGrid(e.x, e.y) && GenesOk(e.genes)
  }

  ghost predicate IdsAscend(pop: seq<Entity>) {
    forall i, j :: 0 <= i < j < |pop| ==> pop[i].id < pop[j].id
  }

  ghost predicate PopulationOk(pop: seq<Entity>, nextId: nat) {
    IdsAscend(pop) && forall i :: 0 <= i < |pop| ==> EntityOk(pop[i], nextId)
  }

  ghost predicate Survivor(e: Entity) {
    e.alive && e.age <= 200
  }

  // All that a step leaves alone.
  ghost predicate SameSelf(a: Entity, b: Entity) {
    a.id == b.id && a.parentId == b.parentId && a.genes == b.genes && a.generation == b.generation
  }

  lemma ConsumedFits(e: Entity, here: real)
    requires Unit(here) && GenesOk(e.genes)
    ensures 0.0 <= Consumed(e, here) <= here
  {
    var m := e.genes[METABOLISM];
    assert Unit(m) && Consumed(e, here) == here * m;
    ShareFits(here, m);
  }

  lemma ShareFits(a: real, m: real)
    requires 0.0 <= a && 0.0 <= m <= 1.0
    ensures 0.0 <= a * m <= a
  {
    assert a * m + a * (1.0 - m) == a;
    assert a * m >= 0.0 && a * (1.0 - m) >= 0.0;
  }

  lemma CellKept(cells: seq<real>, i: nat, v: real)
    requires CellsOk(cells) && i < CELLS && Unit(v)
    ensures CellsOk(cells[i := v])
  {
  }

  lemma AgeLimit(e: Entity)
    requires GenesOk(e.genes)
    ensures 50 <= MaxAge(e) <= 200
  {
    assert 0.0 <= e.genes[LIFESPAN] * 150.0 <= 150.0;
  }

  lemma FedKeeps(e: Entity, s: Spot, consumed: real, nextId: nat)
    requires EntityOk(e, nextId) && GoodSpot(s)
    ensures var e' := Fed(Moved(e, s), consumed);
      EntityOk(e', nextId) && SameSelf(e, e') && (e'.alive ==> Survivor(e'))
  {
    AgeLimit(e);
  }

  lemma StepKeeps(e: Entity, cells: seq<real>, nextId: nat)
    requires CellsOk(cells) && EntityOk(e, nextId)
    ensures var (e', cells') := StepEntity(e, cells);
      CellsOk(cells') && EntityOk(e', nextId) && SameSelf(e, e') && (e'.alive ==> Survivor(e') && e.alive)
  {
    if e.alive {
      var s := BestSpot(cells, e);
      var here := cells[At(s.x, s.y)];
      ConsumedFits(e, here);
      CellKept(cells, At(s.x, s.y), here - Consumed(e, here));
      FedKeeps(e, s, Consumed(e, here), nextId);
    }
  }

  lemma {:induction false} SteppingKeeps(pop: seq<Entity>, cells: seq<real>, nextId: nat)
    requires CellsOk(cells) && AllOnGrid(pop) && forall i :: 0 <= i < |pop| ==> EntityOk(pop[i], nextId)
    ensures var (after, cells') := StepAll(pop, cells);
      && CellsOk(cells')
      && forall i :: 0 <= i < |pop| ==>
          EntityOk(after[i], nextId) && SameSelf(pop[i], after[i]) && (after[i].alive ==> Survivor(after[i]))
  {
    if pop != [] {
      var (e, cells1) := StepEntity(pop[0], cells);
      StepKeeps(pop[0], cells, nextId);
      SteppingKeeps(pop[1..], cells1, nextId);
    }
  }

  // An array before and after a write at place `i`.
  lemma OneChanged(was: seq<Entity>, now: seq<Entity>, i: nat, n: nat)
    requires i < n <= |was| == |now| && forall k :: 0 <= k < |was| && k != i ==> now[k] == was[k]
    ensures now[..i + 1] == was[..i] + [now[i]]
    ensures now[i + 1..n] == was[i..n][1..]
  {
  }

  // Compaction keeps the living, in their order.
  function Living(pop: seq<Entity>): (r: seq<Entity>)
    ensures |r| <= |pop|
  {
    if pop == [] then [] else (if pop[0].alive then [pop[0]] else []) + Living(pop[1..])
  }

  lemma {:induction false} LivingIn(pop: seq<Entity>)
    ensures forall e :: e in Living(pop) <==> e in pop && e.alive
  {
    if pop != [] {
      LivingIn(pop[1..]);
      assert forall e :: e in pop <==> e == pop[0] || e in pop[1..];
    }
  }

  lemma AscendingTail(pop: seq<Entity>)
    requires IdsAscend(pop) && pop != []
    ensures IdsAscend(pop[1..]) && forall e :: e in pop[1..] ==> pop[0].id < e.id
  {
    var tail := pop[1..];
    assert forall i :: 0 <= i < |tail| ==> tail[i] == pop[i + 1];
    forall e | e in tail ensures pop[0].id < e.id {
      var i :| 0 <= i < |tail| && tail[i] == e;
    }
  }

  lemma {:induction false} LivingAscends(pop: seq<Entity>)
    requires IdsAscend(pop)
    ensures IdsAscend(Living(pop))
  {
    if pop != [] {
      AscendingTail(pop);
      LivingAscends(pop[1..]);
      LivingIn(pop[1..]);
      var rest := Living(pop[1..]);
      assert forall i :: 0 <= i < |rest| ==> rest[i] in rest;
    }
  }

  lemma LivingKeeps(pop: seq<Entity>, nextId: nat)
    requires PopulationOk(pop, nextId) && forall i :: 0 <= i < |pop| && pop[i].alive ==> Survivor(pop[i])
    ensures PopulationOk(Living(pop), nextId) && forall i :: 0 <= i < |Living(pop)| ==> Survivor(Living(pop)[i])
  {
    LivingIn(pop);
    LivingAscends(pop);
    var r := Living(pop);
    forall i | 0 <= i < |r| ensures EntityOk(r[i], nextId) && Survivor(r[i]) {
      assert r[i] in r && r[i] in pop;
    }
  }

  lemma {:induction false} LivingSnoc(pop: seq<Entity>, e: Entity)
    ensures Living(pop + [e]) == Living(pop) + if e.alive then [e] else []
  {
    if pop == [] {
      assert [] + [e] == [e] && [e][1..] == [];
    } else {
      assert (pop + [e])[1..] == pop[1..] + [e];
      LivingSnoc(pop[1..], e);
    }
  }

  // ---------- births ----------

  // The array after `i` turns of the compaction loop.
  ghost predicate Compacted(before: seq<Entity>, now: seq<Entity>, kept: nat, i: nat) {
    kept <= i <= |before| <= |now| && now[..kept] == Living(before[..i]) && now[i..|before|] == before[i..]
  }

  lemma CompactStep(before: seq<Entity>, was: seq<Entity>, kept: nat, i: nat)
    requires Compacted(before, was, kept, i) && i < |before|
    ensures was[i] == before[i]
    ensures if was[i].alive then Compacted(before, was[kept := was[i]], kept + 1, i + 1)
      else Compacted(before, was, kept, i + 1)
  {
    assert was[i] == was[i..|before|][0] == before[i..][0];
    assert was[i + 1..|before|] == was[i..|before|][1..];
    assert before[..i + 1] == before[..i] + [before[i]];
    LivingSnoc(before[..i], before[i]);
    var now := was[kept := was[i]];
    assert now[..kept + 1] == was[..kept] + [was[i]];
    assert now[i + 1..|before|] == was[i + 1..|before|];
  }

  predicate CanReproduce(e: Entity) {
    e.alive && e.energy >= e.genes[THRESHOLD]
  }

  // The places, from `i` on, of those that breed while there is room.
  function Breeders(pop: seq<Entity>, i: nat, room: nat): (b: seq<nat>)
    requires i <= |pop|
    ensures |b| <= room && forall k :: 0 <= k < |b| ==> i <= b[k] < |pop| && CanReproduce(pop[b[k]])
    decreases |pop| - i
  {
    if i == |pop| || room == 0 then []
    else if CanReproduce(pop[i]) then [i] + Breeders(pop, i + 1, room - 1)
    else Breeders(pop, i + 1, room)
  }

  // Each gene comes from one of two genomes, mutated by at most 0.15.
  ghost predicate Inherits(child: Genome, a: Genome, b: Genome) {
    forall i :: 0 <= i < NUM_GENES ==> Close(child[i], a[i]) || Close(child[i], b[i])
  }

  ghost predicate Close(v: real, w: real) {
    -0.15 <= v - w <= 0.15
  }

  // A child of `parent`, given id `id`.
  ghost predicate Newborn(c: Entity, parent: Entity, id: nat) {
    && c.id == id && c.parentId == parent.id && c.generation == parent.generation + 1
    && c.x == parent.x && c.y == parent.y && c.energy == 0.5 && c.age == 0 && c.alive && GenesOk(c.genes)
  }

  // The child of the entity at place `i`, alone or with a living partner.
  ghost predicate ChildOf(c: Entity, pop: seq<Entity>, i: nat, id: nat)
    requires i < |pop|
  {
    Newborn(c, pop[i], id) && exists p: nat :: Parents(c, pop, i, p)
  }

  ghost predicate Parents(c: Entity, pop: seq<Entity>, i: nat, p: nat)
    requires i < |pop|
  {
    p < |pop| && (p == i || pop[p].alive) && Inherits(c.genes, pop[i].genes, pop[p].genes)
  }

  // The population after a breeding pass: the breeders' energy halved, their children appended in
  // order with new ids, none dropped.
  ghost predicate BredBy(before: seq<Entity>, after: seq<Entity>, nextId: nat, b: seq<nat>) {
    && |after| == |before| + |b| && (forall k :: 0 <= k < |b| ==> b[k] < |before|)
    && (forall i :: 0 <= i < |before| ==>
          after[i] == if i in b then before[i].(energy := before[i].energy * 0.5) else before[i])
    && (forall k :: 0 <= k < |b| ==> ChildOf(after[|before| + k], before, b[k], nextId + k))
  }

  ghost predicate Bred(before: seq<Entity>, after: seq<Entity>, nextId: nat) {
    BredBy(before, after, nextId,
           Breeders(before, 0, if |before| <= MAX_ENTITIES then MAX_ENTITIES - |before| else 0))
  }

  // Two populations that differ in energy alone.
  ghost predicate SameButEnergy(a: Entity, b: Entity) {
    a == b.(energy := a.energy)
  }

  lemma ChildOfSame(c: Entity, now: seq<Entity>, before: seq<Entity>, i: nat, id: nat)
    requires i < |now| == |before| && ChildOf(c, now, i, id)
    requires forall k :: 0 <= k < |now| ==> SameButEnergy(now[k], before[k])
    ensures ChildOf(c, before, i, id)
  {
    var p: nat :| Parents(c, now, i, p);
    assert SameButEnergy(now[i], before[i]) && SameButEnergy(now[p], before[p]);
    assert Parents(c, before, i, p);
  }

  function Halved(e: Entity): Entity {
    e.(energy := e.energy * 0.5)
  }

  ghost predicate AllGenesOk(pop: seq<Entity>) {
    forall k :: 0 <= k < |pop| ==> GenesOk(pop[k].genes)
  }

  // The breeding loop after `i` turns: `done` are the breeders met, `born` their children.
  ghost predicate Breeding(before: seq<Entity>, now: seq<Entity>, born: seq<Entity>, done: seq<nat>,
                           i: nat, room: nat, nextId: nat) {
    && i <= |before| == |now| && |born| == |done| <= room
    && Breeders(before, 0, room) == done + Breeders(before, i, room - |done|)
    && (forall k :: 0 <= k < |done| ==> done[k] < i && ChildOf(born[k], before, done[k], nextId + k))
    && (forall k :: 0 <= k < |now| ==> now[k] == if k in done then Halved(before[k]) else before[k])
  }

  lemma BreedOne(before: seq<Entity>, now: seq<Entity>, now': seq<Entity>, born: seq<Entity>, done: seq<nat>,
                 i: nat, room: nat, nextId: nat, child: Entity)
    requires Breeding(before, now, born, done, i, room, nextId) && i < |before| && |done| < room
    requires CanReproduce(before[i]) && now' == now[i := Halved(now[i])]
    requires ChildOf(child, now, i, nextId + |done|)
    ensures Breeding(before, now', born + [child], done + [i], i + 1, room, nextId)
  {
    ChildOfSame(child, now, before, i, nextId + |done|);
    MetOne(before, done, i, room);
    assert i !in done;
    HalvedOne(before, now, now', done, i);
    forall k | 0 <= k < |done| + 1
      ensures (done + [i])[k] < i + 1 && ChildOf((born + [child])[k], before, (done + [i])[k], nextId + k)
    {
      assert k < |done| ==> done[k] < i && ChildOf(born[k], before, done[k], nextId + k);
    }
  }

  lemma MetOne(before: seq<Entity>, done: seq<nat>, i: nat, room: nat)
    requires i < |before| && |done| < room && CanReproduce(before[i])
    ensures done + Breeders(before, i, room - |done|) == (done + [i]) + Breeders(before, i + 1, room - |done| - 1)
  {
    assert done + ([i] + Breeders(before, i + 1, room - |done| - 1))
        == (done + [i]) + Breeders(before, i + 1, room - |done| - 1);
  }

  lemma HalvedOne(before: seq<Entity>, now: seq<Entity>, now': seq<Entity>, done: seq<nat>, i: nat)
    requires |before| == |now| && i < |now| && i !in done && now' == now[i := Halved(now[i])]
    requires forall k :: 0 <= k < |now| ==> now[k] == if k in done then Halved(before[k]) else before[k]
    ensures forall k :: 0 <= k < |now| ==> now'[k] == if k in done + [i] then Halved(before[k]) else before[k]
  {
    assert forall k :: k in done + [i] <==> k in done || k == i;
  }

  lemma BreedNone(before: seq<Entity>, now: seq<Entity>, born: seq<Entity>, done: seq<nat>, i: nat, room: nat,
                  nextId: nat)
    requires Breeding(before, now, born, done, i, room, nextId) && i < |before| && |done| < room
    requires !CanReproduce(before[i])
    ensures Breeding(before, now, born, done, i + 1, room, nextId)
  {
  }

  lemma NotYetMet(before: seq<Entity>, now: seq<Entity>, born: seq<Entity>, done: seq<nat>, i: nat, room: nat,
                  nextId: nat)
    requires Breeding(before, now, born, done, i, room, nextId) && i < |before|
    ensures now[i] == before[i]
  {
    assert i !in done;
  }

  lemma GenesKept(before: seq<Entity>, now: seq<Entity>, born: seq<Entity>, done: seq<nat>, i: nat, room: nat,
                  nextId: nat)
    requires Breeding(before, now, born, done, i, room, nextId)
    requires AllGenesOk(before)
    ensures AllGenesOk(now)
  {
    forall k | 0 <= k < |now| ensures GenesOk(now[k].genes) {
      assert GenesOk(before[k].genes);
    }
  }

  lemma BreedingDone(before: seq<Entity>, now: seq<Entity>, born: seq<Entity>, done: seq<nat>, i: nat,
                     room: nat, nextId: nat)
    requires |before| <= MAX_ENTITIES && room == MAX_ENTITIES - |before|
    requires Breeding(before, now, born, done, i, room, nextId) && (i == |before| || |done| == room)
    ensures Bred(before, now + born, nextId)
  {
    assert done + [] == done;
    assert Breeders(before, 0, room) == done;
    BredByDone(before, now, born, done, nextId);
  }

  lemma BredByDone(before: seq<Entity>, now: seq<Entity>, born: seq<Entity>, done: seq<nat>, nextId: nat)
    requires |now| == |before| && |born| == |done|
    requires forall k :: 0 <= k < |done| ==> done[k] < |before| && ChildOf(born[k], before, done[k], nextId + k)
    requires forall k :: 0 <= k < |now| ==> now[k] == if k in done then Halved(before[k]) else before[k]
    ensures BredBy(before, now + born, nextId, done)
  {
  }

  lemma NewbornOk(c: Entity, parent: Entity, id: nat, nextId: nat)
    requires Newborn(c, parent, id) && EntityOk(parent, nextId) && nextId <= id
    ensures EntityOk(c, id + 1) && Survivor(c)
  {
  }

  lemma BredMembers(before: seq<Entity>, after: seq<Entity>, nextId: nat, i: nat)
    requires PopulationOk(before, nextId) && |before| <= MAX_ENTITIES && Bred(before, after, nextId) && nextId >= 1
    requires i < |after|
    ensures EntityOk(after[i], nextId + (|after| - |before|))
    ensures if i < |before| then SameSelf(before[i], after[i])
      else after[i].id == nextId + (i - |before|) && Survivor(after[i])
  {
    var n, b := |before|, Breeders(before, 0, MAX_ENTITIES - |before|);
    if i < n {
      assert EntityOk(before[i], nextId);
    } else {
      var k := i - n;
      assert ChildOf(after[n + k], before, b[k], nextId + k);
      assert EntityOk(before[b[k]], nextId);
      NewbornOk(after[i], before[b[k]], nextId + k, nextId);
    }
  }

  lemma BreedingKeeps(before: seq<Entity>, after: seq<Entity>, nextId: nat)
    requires PopulationOk(before, nextId) && |before| <= MAX_ENTITIES && Bred(before, after, nextId) && nextId >= 1
    ensures |before| <= |after| <= MAX_ENTITIES
    ensures PopulationOk(after, nextId + (|after| - |before|))
    ensures forall i :: |before| <= i < |after| ==> Survivor(after[i])
  {
    forall i | 0 <= i < |after|
      ensures EntityOk(after[i], nextId + (|after| - |before|))
      ensures if i < |before| then SameSelf(before[i], after[i])
        else after[i].id == nextId + (i - |before|) && Survivor(after[i])
    {
      BredMembers(before, after, nextId, i);
    }
    forall i, j | 0 <= i < j < |after| ensures after[i].id < after[j].id {
      if i < |before| {
        assert EntityOk(before[i], nextId);
      }
    }
  }

  // ---------- one tick, and every run ----------

  // What holds of the world between ticks.
  ghost predicate WorldOk(pop: seq<Entity>, cells: seq<real>, nextId: nat) {
    && CellsOk(cells) && PopulationOk(pop, nextId) && |pop| <= MAX_ENTITIES && nextId >= 1
    && forall i :: 0 <= i < |pop| ==> Survivor(pop[i])
  }

  ghost predicate Grown(world: seq<real>, grown: seq<real>) {
    |world| == |grown| == CELLS && forall k :: 0 <= k < CELLS ==> grown[k] == Clamp(world[k] + 0.01, 0.0, 1.0)
  }

  // A tick by way of the regrown cells and of the population just before compaction.
  ghost predicate TickedVia(before: seq<Entity>, world: seq<real>, nextId: nat, grown: seq<real>, bred: seq<Entity>,
                            after: seq<Entity>, cells: seq<real>, nextId': nat) {
    && Grown(world, grown) && AllOnGrid(before)
    && Bred(StepAll(before, grown).0, bred, nextId)
    && after == Living(bred) && cells == StepAll(before, grown).1
    && |bred| >= |before| && nextId' == nextId + (|bred| - |before|)
  }

  ghost predicate Ticked(before: seq<Entity>, world: seq<real>, nextId: nat,
                         after: seq<Entity>, cells: seq<real>, nextId': nat) {
    exists grown, bred :: TickedVia(before, world, nextId, grown, bred, after, cells, nextId')
  }

  lemma WorldOnGrid(pop: seq<Entity>, nextId: nat)
    requires forall i :: 0 <= i < |pop| ==> EntityOk(pop[i], nextId)
    ensures AllOnGrid(pop)
  {
  }

  ghost predicate LivingSurvive(pop: seq<Entity>) {
    forall i :: 0 <= i < |pop| && pop[i].alive ==> Survivor(pop[i])
  }

  lemma StepsFromOk(pop: seq<Entity>, cells: seq<real>, nextId: nat)
    requires CellsOk(cells) && PopulationOk(pop, nextId)
    ensures AllOnGrid(pop) && CellsOk(StepAll(pop, cells).1)
    ensures PopulationOk(StepAll(pop, cells).0, nextId) && LivingSurvive(StepAll(pop, cells).0)
  {
    WorldOnGrid(pop, nextId);
    SteppingKeeps(pop, cells, nextId);
    var after := StepAll(pop, cells).0;
    forall i, j | 0 <= i < j < |after| ensures after[i].id < after[j].id {
      assert SameSelf(pop[i], after[i]) && SameSelf(pop[j], after[j]);
    }
  }

  lemma BreedsFromOk(before: seq<Entity>, after: seq<Entity>, nextId: nat)
    requires PopulationOk(before, nextId) && LivingSurvive(before)
    requires |before| <= MAX_ENTITIES && Bred(before, after, nextId) && nextId >= 1
    ensures |before| <= |after| <= MAX_ENTITIES
    ensures PopulationOk(after, nextId + (|after| - |before|)) && LivingSurvive(after)
  {
    BreedingKeeps(before, after, nextId);
    forall i | 0 <= i < |after| && after[i].alive ensures Survivor(after[i]) {
      if i < |before| {
        assert after[i] == before[i] || after[i] == Halved(before[i]);
      }
    }
  }

  // Every tick keeps ids ascending and above parents', at most 500 entities, all alive and at most
  // 200 ticks old, and genes and cells between 0 and 1.
  lemma TickKeeps(before: seq<Entity>, world: seq<real>, nextId: nat, after: seq<Entity>, cells: seq<real>,
                  nextId': nat)
    requires WorldOk(before, world, nextId) && Ticked(before, world, nextId, after, cells, nextId')
    ensures WorldOk(after, cells, nextId') && nextId' >= nextId
  {
    var grown, bred :| TickedVia(before, world, nextId, grown, bred, after, cells, nextId');
    StepsFromOk(before, grown, nextId);
    BreedsFromOk(StepAll(before, grown).0, bred, nextId);
    LivingKeeps(bred, nextId');
  }

  // ---------- what a tick does to resources and energy ----------

  // What the breeders at places `b` give up.
  function Halves(pop: seq<Entity>, b: seq<nat>): real {
    if pop == [] then 0.0
    else
      var n := |pop| - 1;
      Halves(pop[..n], b) + if n in b then pop[n].energy * 0.5 else 0.0
  }

  // What is lost with the dead.
  function DeadEnergy(pop: seq<Entity>): real {
    if pop == [] then 0.0 else (if pop[0].alive then 0.0 else pop[0].energy) + DeadEnergy(pop[1..])
  }

  lemma {:induction false} EnergyConcat(a: seq<Entity>, b: seq<Entity>)
    ensures EnergyOf(a + b) == EnergyOf(a) + EnergyOf(b)
  {
    if a == [] {
      assert a + b == b;
    } else {
      assert (a + b)[1..] == a[1..] + b;
      EnergyConcat(a[1..], b);
    }
  }

  lemma EnergyOfOne(e: Entity)
    ensures EnergyOf([e]) == e.energy
  {
    assert [e][1..] == [];
  }

  lemma {:induction false} HalvedEnergy(before: seq<Entity>, now: seq<Entity>, b: seq<nat>)
    requires |before| == |now|
    requires forall i :: 0 <= i < |now| ==> now[i] == if i in b then Halved(before[i]) else before[i]
    ensures EnergyOf(now) == EnergyOf(before) - Halves(before, b)
    decreases |before|
  {
    if before != [] {
      var n := |before| - 1;
      HalvedEnergy(before[..n], now[..n], b);
      assert before == before[..n] + [before[n]] && now == now[..n] + [now[n]];
      EnergyConcat(before[..n], [before[n]]);
      EnergyConcat(now[..n], [now[n]]);
      EnergyOfOne(before[n]);
      EnergyOfOne(now[n]);
    }
  }

  lemma {:induction false} NewbornEnergy(born: seq<Entity>)
    requires forall k :: 0 <= k < |born| ==> born[k].energy == 0.5
    ensures EnergyOf(born) == 0.5 * |born| as real
  {
    if born != [] {
      NewbornEnergy(born[1..]);
    }
  }

  lemma {:induction false} LivingEnergy(pop: seq<Entity>)
    ensures EnergyOf(Living(pop)) == EnergyOf(pop) - DeadEnergy(pop)
  {
    if pop != [] {
      LivingEnergy(pop[1..]);
      var first: seq<Entity> := if pop[0].alive then [pop[0]] else [];
      EnergyConcat(first, Living(pop[1..]));
      EnergyOfOne(pop[0]);
    }
  }

  // The places that breed in a population.
  function BreedersOf(pop: seq<Entity>): seq<nat> {
    Breeders(pop, 0, if |pop| <= MAX_ENTITIES then MAX_ENTITIES - |pop| else 0)
  }

  lemma BredParts(before: seq<Entity>, after: seq<Entity>, nextId: nat, b: seq<nat>, kept: seq<Entity>,
                  born: seq<Entity>)
    requires Bred(before, after, nextId) && b == BreedersOf(before)
    requires kept == after[..|before|] && born == after[|before|..]
    ensures |born| == |b| && after == kept + born && |kept| == |before|
    ensures forall i :: 0 <= i < |kept| ==> kept[i] == if i in b then Halved(before[i]) else before[i]
    ensures forall k :: 0 <= k < |born| ==> born[k].energy == 0.5
  {
    forall k | 0 <= k < |born| ensures born[k].energy == 0.5 {
      var n := |before|;
      assert ChildOf(after[n + k], before, b[k], nextId + k);
    }
  }

  lemma BreedingBalance(before: seq<Entity>, after: seq<Entity>, nextId: nat)
    requires Bred(before, after, nextId)
    ensures |after| == |before| + |BreedersOf(before)|
    ensures EnergyOf(after)
         == EnergyOf(before) - Halves(before, BreedersOf(before)) + 0.5 * |BreedersOf(before)| as real
  {
    var kept, born := after[..|before|], after[|before|..];
    BredParts(before, after, nextId, BreedersOf(before), kept, born);
    HalvedEnergy(before, kept, BreedersOf(before));
    NewbornEnergy(born);
    EnergyConcat(kept, born);
  }

  lemma {:induction false} GrowthBound(world: seq<real>, grown: seq<real>)
    requires |world| == |grown| && forall k :: 0 <= k < |world| ==> world[k] <= grown[k] <= world[k] + 0.01
    ensures 0.0 <= Sum(grown) - Sum(world) <= 0.01 * |world| as real
  {
    if world != [] {
      GrowthBound(world[1..], grown[1..]);
    }
  }

  // The whole balance of a tick: what the cells regrow, at most 0.01 each; less what stepping costs;
  // less the half each breeder gives up; with 0.5 for each newborn; less what is lost with the dead.
  lemma TickBalance(before: seq<Entity>, world: seq<real>, nextId: nat, grown: seq<real>, bred: seq<Entity>,
                    after: seq<Entity>, cells: seq<real>, nextId': nat)
    requires CellsOk(world) && TickedVia(before, world, nextId, grown, bred, after, cells, nextId')
    ensures var stepped := StepAll(before, grown).0;
      Sum(cells) + EnergyOf(after) == Sum(world) + EnergyOf(before)
        + (Sum(grown) - Sum(world)) - Losses(before, stepped)
        - Halves(stepped, BreedersOf(stepped)) + 0.5 * (|bred| - |before|) as real - DeadEnergy(bred)
    ensures 0.0 <= Sum(grown) - Sum(world) <= 0.01 * CELLS as real
  {
    SteppingConserves(before, grown);
    BreedingBalance(StepAll(before, grown).0, bred, nextId);
    LivingEnergy(bred);
    GrownBound(world, grown);
  }

  lemma GrownBound(world: seq<real>, grown: seq<real>)
    requires CellsOk(world) && Grown(world, grown)
    ensures 0.0 <= Sum(grown) - Sum(world) <= 0.01 * CELLS as real
  {
    GrowthBound(world, grown);
  }

  // ---------- written out ----------

  ghost function Holds(cells: seq<real>, s: Spot): real
    requires |cells| == CELLS && GoodSpot(s)
  {
    cells[32 * s.x + s.y]
  }

  // Where a scan over offsets `rows` by `columns` ends that starts out from `from`: there, when no place
  // scanned holds more, or else at the first of those that hold most.
  ghost predicate FirstBest(cells: seq<real>, e: Entity, range: int, row: int, column: int, from: Spot, to: Spot)
    requires |cells| == CELLS && GoodSpot(from) && GoodSpot(to)
  {
    || (to == from && forall j, k :: Scanned(range, row, column, j, k) ==>
          Holds(cells, Offset(e, j, k)) <= Holds(cells, from))
    || exists dx, dy :: Wins(cells, e, range, row, column, from, to, dx, dy)
  }

  // The offsets from (`row`, `column`) on, row after row.
  ghost predicate Scanned(range: int, row: int, column: int, j: int, k: int) {
    row <= j <= range && -range <= k <= range && (j == row ==> k >= column)
  }

  ghost predicate Wins(cells: seq<real>, e: Entity, range: int, row: int, column: int, from: Spot, to: Spot,
                       dx: int, dy: int)
    requires |cells| == CELLS && GoodSpot(from) && GoodSpot(to)
  {
    && Scanned(range, row, column, dx, dy) && to == Offset(e, dx, dy) && Holds(cells, to) > Holds(cells, from)
    && forall j, k :: Scanned(range, row, column, j, k) ==>
        if j < dx || (j == dx && k < dy) then Holds(cells, Offset(e, j, k)) < Holds(cells, to)
        else Holds(cells, Offset(e, j, k)) <= Holds(cells, to)
  }

  // The scan from one offset on: the rest of its row, then the rows after it.
  function ScanOn(cells: seq<real>, e: Entity, range: int, row: int, column: int, best: Spot): (r: Spot)
    requires |cells| == CELLS && GoodSpot(best)
    ensures GoodSpot(r)
  {
    ScanFrom(cells, e, range, row + 1, ScanRow(cells, e, range, row, column, best))
  }

  lemma FirstBestStep(cells: seq<real>, e: Entity, range: int, row: int, column: int, from: Spot, to: Spot)
    requires |cells| == CELLS && GoodSpot(from) && GoodSpot(to) && row <= range && -range <= column <= range
    requires FirstBest(cells, e, range, row, column + 1, Better(cells, from, Offset(e, row, column)), to)
    ensures FirstBest(cells, e, range, row, column, from, to)
  {
    var s := Offset(e, row, column);
    var best := Better(cells, from, s);
    forall j, k | Scanned(range, row, column, j, k) ensures (j == row && k == column)
      || Scanned(range, row, column + 1, j, k) {
    }
    var next := column + 1;
    if dx, dy :| Wins(cells, e, range, row, next, best, to, dx, dy) {
      assert Wins(cells, e, range, row, column, from, to, dx, dy);
    } else if best == s && best != from {
      assert Wins(cells, e, range, row, column, from, to, row, column);
    }
  }

  lemma {:induction false} ScanIsFirstBest(cells: seq<real>, e: Entity, range: int, row: int, column: int, best: Spot)
    requires |cells| == CELLS && GoodSpot(best) && -range <= column <= range + 1 && row <= range && range >= 0
    ensures FirstBest(cells, e, range, row, column, best, ScanOn(cells, e, range, row, column, best))
    decreases range - row, range + 1 - column
  {
    if column <= range {
      ScanIsFirstBest(cells, e, range, row, column + 1, Better(cells, best, Offset(e, row, column)));
      FirstBestStep(cells, e, range, row, column, best, ScanOn(cells, e, range, row, column, best));
    } else if row < range {
      ScanIsFirstBest(cells, e, range, row + 1, -range, best);
      NextRow(cells, e, range, row, column, best, ScanOn(cells, e, range, row, column, best));
    }
  }

  lemma NextRow(cells: seq<real>, e: Entity, range: int, row: int, column: int, from: Spot, to: Spot)
    requires |cells| == CELLS && GoodSpot(from) && GoodSpot(to) && row < range && column == range + 1
    requires FirstBest(cells, e, range, row + 1, -range, from, to)
    ensures FirstBest(cells, e, range, row, column, from, to)
  {
    forall j, k ensures Scanned(range, row, column, j, k) <==> Scanned(range, row + 1, -range, j, k) {
    }
    var next, first := row + 1, -range;
    if dx, dy :| Wins(cells, e, range, next, first, from, to, dx, dy) {
      assert Wins(cells, e, range, row, column, from, to, dx, dy);
    }
  }

  // What a step makes of a living entity and of the cell it lands on.
  ghost predicate Ate(e: Entity, cells: seq<real>, e': Entity, cells': seq<real>)
    requires |cells| == CELLS && OnGrid(e'.x, e'.y)
  {
    var place := 32 * e'.x + e'.y;
    var moved := e'.x != e.x || e'.y != e.y;
    && e'.energy == e.energy - (if moved then 0.01 + e.genes[1] * 0.02 else 0.0) + cells[place] * e.genes[0] - 0.015
    && e'.age == e.age + 1
    && (e'.alive <==> e'.energy > 0.0 && e'.age <= 50 + (e.genes[5] * 150.0).Floor)
    && cells' == cells[place := cells[place] - cells[place] * e.genes[0]]
    && e'.id == e.id && e'.parentId == e.parentId && e'.genes == e.genes && e'.generation == e.generation
  }

  // Where it lands: on the richest cell as far as it senses, the first of them in the order of the scan.
  ghost predicate Found(e: Entity, cells: seq<real>, to: Spot)
    requires |cells| == CELLS && OnGrid(e.x, e.y) && GoodSpot(to)
  {
    var range := 1 + (e.genes[2] * 3.0).Floor;
    FirstBest(cells, e, range, -range, -range, Spot(e.x, e.y), to)
  }

  // One step, written out.
  ghost predicate Stepped(e: Entity, cells: seq<real>, e': Entity, cells': seq<real>) {
    && |cells| == |cells'| == CELLS && OnGrid(e.x, e.y) && OnGrid(e'.x, e'.y)
    && if e.alive then Found(e, cells, Spot(e'.x, e'.y)) && Ate(e, cells, e', cells')
       else e' == e && cells' == cells
  }

  lemma StepAte(e: Entity, cells: seq<real>, s: Spot)
    requires |cells| == CELLS && OnGrid(e.x, e.y) && e.alive && s == BestSpot(cells, e)
    ensures var (e', cells') := StepEntity(e, cells); Ate(e, cells, e', cells') && Spot(e'.x, e'.y) == s
  {
    FedExactly(e, s, Consumed(e, cells[At(s.x, s.y)]));
  }

  lemma StepExactly(e: Entity, cells: seq<real>)
    requires |cells| == CELLS && OnGrid(e.x, e.y) && GenesOk(e.genes)
    ensures Stepped(e, cells, StepEntity(e, cells).0, StepEntity(e, cells).1)
  {
    if e.alive {
      BestIsFirst(cells, e);
      StepAte(e, cells, BestSpot(cells, e));
    }
  }

  lemma BestIsFirst(cells: seq<real>, e: Entity)
    requires |cells| == CELLS && OnGrid(e.x, e.y) && GenesOk(e.genes)
    ensures Found(e, cells, BestSpot(cells, e))
  {
    assert e.genes[SENSOR] * 3.0 >= 0.0;
    ScanIsFirstBest(cells, e, Range(e), -Range(e), -Range(e), Spot(e.x, e.y));
  }

  lemma FedExactly(e: Entity, s: Spot, consumed: real)
    ensures var e' := Fed(Moved(e, s), consumed);
      && e'.x == s.x && e'.y == s.y && e'.age == e.age + 1 && SameSelf(e, e')
      && e'.energy == e.energy - (if s.x != e.x || s.y != e.y then 0.01 + e.genes[1] * 0.02 else 0.0) + consumed - 0.015
      && (e'.alive <==> e'.energy > 0.0 && e'.age <= 50 + (e.genes[5] * 150.0).Floor)
  {
  }

  // The stepping of the whole population: each over the cells as the one before left them.
  ghost predicate SteppedInTurn(pop: seq<Entity>, worlds: seq<seq<real>>, after: seq<Entity>) {
    && |worlds| == |pop| + 1 && |after| == |pop|
    && forall i :: 0 <= i < |pop| ==> Stepped(pop[i], worlds[i], after[i], worlds[i + 1])
  }

  lemma {:induction false} SteppingExactly(pop: seq<Entity>, cells: seq<real>) returns (worlds: seq<seq<real>>)
    requires |cells| == CELLS && AllOnGrid(pop) && AllGenesOk(pop)
    ensures SteppedInTurn(pop, worlds, StepAll(pop, cells).0)
    ensures worlds[0] == cells && worlds[|pop|] == StepAll(pop, cells).1
  {
    if pop == [] {
      worlds := [cells];
    } else {
      var (e, cells1) := StepEntity(pop[0], cells);
      var rest := SteppingExactly(pop[1..], cells1);
      StepExactly(pop[0], cells);
      worlds := [cells] + rest;
      TurnsFrom(pop, cells, e, rest, StepAll(pop[1..], cells1).0);
    }
  }

  lemma TurnsFrom(pop: seq<Entity>, cells: seq<real>, e: Entity, rest: seq<seq<real>>, after: seq<Entity>)
    requires pop != [] && |cells| == CELLS && SteppedInTurn(pop[1..], rest, after)
    requires Stepped(pop[0], cells, e, rest[0])
    ensures SteppedInTurn(pop, [cells] + rest, [e] + after)
  {
    var worlds, all := [cells] + rest, [e] + after;
    forall i | 0 <= i < |pop| ensures Stepped(pop[i], worlds[i], all[i], worlds[i + 1]) {
      if i > 0 {
        assert pop[1..][i - 1] == pop[i];
        assert Stepped(pop[1..][i - 1], rest[i - 1], after[i - 1], rest[i]);
      }
    }
  }

  ghost predicate Rising(b: seq<nat>) {
    forall k, l :: 0 <= k < l < |b| ==> b[k] < b[l]
  }

  // Who breeds: those alive whose energy is at least their threshold, in order, each of them while there
  // is room.
  ghost predicate BreedInOrder(pop: seq<Entity>, b: seq<nat>, room: nat) {
    && |b| <= room
    && (forall k :: 0 <= k < |b| ==> b[k] < |pop| && pop[b[k]].alive && pop[b[k]].energy >= pop[b[k]].genes[4])
    && Rising(b)
    && (forall j :: 0 <= j < |pop| && pop[j].alive && pop[j].energy >= pop[j].genes[4] && j !in b ==>
          |b| == room && forall k :: 0 <= k < |b| ==> b[k] < j)
  }

  lemma {:induction false} BreedersAscend(pop: seq<Entity>, i: nat, room: nat)
    requires i <= |pop|
    ensures Rising(Breeders(pop, i, room))
    decreases |pop| - i
  {
    if i == |pop| || room == 0 {
    } else if CanReproduce(pop[i]) {
      BreedersAscend(pop, i + 1, room - 1);
    } else {
      BreedersAscend(pop, i + 1, room);
    }
  }

  lemma {:induction false} BreedersMissNone(pop: seq<Entity>, i: nat, room: nat, j: nat)
    requires i <= j < |pop| && CanReproduce(pop[j])
    ensures var b := Breeders(pop, i, room); j in b || (|b| == room && forall k :: 0 <= k < |b| ==> b[k] < j)
    decreases |pop| - i
  {
    if i < j && room > 0 {
      BreedersMissNone(pop, i + 1, if CanReproduce(pop[i]) then room - 1 else room, j);
    }
  }

  lemma BreedersExactly(pop: seq<Entity>, room: nat)
    ensures BreedInOrder(pop, Breeders(pop, 0, room), room)
  {
    BreedersAscend(pop, 0, room);
    forall j | 0 <= j < |pop| && CanReproduce(pop[j]) && j !in Breeders(pop, 0, room)
      ensures |Breeders(pop, 0, room)| == room
      ensures forall k :: 0 <= k < |Breeders(pop, 0, room)| ==> Breeders(pop, 0, room)[k] < j
    {
      BreedersMissNone(pop, 0, room, j);
    }
  }

  // What is left after compaction: the places of the living, in order.
  ghost predicate LivingAt(pop: seq<Entity>, places: seq<nat>, left: seq<Entity>) {
    && |left| == |places|
    && (forall k :: 0 <= k < |places| ==> places[k] < |pop| && left[k] == pop[places[k]] && left[k].alive)
    && Rising(places)
    && (forall i :: 0 <= i < |pop| && pop[i].alive ==> i in places)
  }

  lemma {:induction false} LivingExactly(pop: seq<Entity>) returns (places: seq<nat>)
    ensures LivingAt(pop, places, Living(pop))
    decreases |pop|
  {
    if pop == [] {
      places := [];
    } else {
      var n := |pop| - 1;
      assert pop == pop[..n] + [pop[n]];
      LivingSnoc(pop[..n], pop[n]);
      places := LivingExactly(pop[..n]);
      if pop[n].alive {
        places := places + [n];
      }
    }
  }

  // One tick, written out: the cells regrow, everyone steps in turn, those who can breed as far as there is
  // room for 500, and the dead are left out.
  lemma TickExactly(before: seq<Entity>, world: seq<real>, nextId: nat, grown: seq<real>, bred: seq<Entity>,
                    after: seq<Entity>, cells: seq<real>, nextId': nat)
    returns (worlds: seq<seq<real>>, stepped: seq<Entity>, b: seq<nat>, places: seq<nat>)
    requires AllGenesOk(before) && |before| <= 500
    requires TickedVia(before, world, nextId, grown, bred, after, cells, nextId')
    ensures forall i :: 0 <= i < 1024 ==>
      var v := world[i] + 0.01; grown[i] == if v < 0.0 then 0.0 else if v > 1.0 then 1.0 else v
    ensures SteppedInTurn(before, worlds, stepped) && worlds[0] == grown && worlds[|before|] == cells
    ensures BreedInOrder(stepped, b, 500 - |before|) && BredBy(stepped, bred, nextId, b)
    ensures LivingAt(bred, places, after) && nextId' == nextId + |b|
  {
    stepped := StepAll(before, grown).0;
    worlds := SteppingExactly(before, grown);
    b := Breeders(stepped, 0, 500 - |stepped|);
    BreedersExactly(stepped, 500 - |stepped|);
    places := LivingExactly(bred);
  }

  ghost predicate Founder(e: Entity, id: nat) {
    && e.id == id && e.parentId == 0 && e.generation == 0 && e.energy == 0.5 && e.age == 0 && e.alive
    && e.genes[4] >= 0.5 && 0.01 <= e.genes[6] <= 0.1
  }

  datatype Snapshot = Snapshot(pop: seq<Entity>, cells: seq<real>, nextId: nat)

  ghost predicate TickedFrom(a: Snapshot, b: Snapshot) {
    Ticked(a.pop, a.cells, a.nextId, b.pop, b.cells, b.nextId)
  }

  // One tick after another, none after one that left nobody.
  ghost predicate History(h: seq<Snapshot>) {
    && h != [] && (forall i :: 0 <= i < |h| - 1 ==> TickedFrom(h[i], h[i + 1]))
    && forall i :: 0 < i < |h| - 1 ==> h[i].pop != []
  }

  lemma NextInHistory(h: seq<Snapshot>, s: Snapshot)
    requires History(h) && TickedFrom(h[|h| - 1], s) && (|h| == 1 || h[|h| - 1].pop != [])
    ensures History(h + [s])
  {
  }

  // ---------- the program ----------

  class Simulation {
    const cells: array<real>
    const pop: array<Entity>
    var popSize: nat
    var nextId: nat

    ghost predicate Valid()
      reads this
    {
      cells.Length == CELLS && pop.Length == MAX_ENTITIES && popSize <= MAX_ENTITIES && nextId >= 1
    }

    ghost function Population(): seq<Entity>
      reads this, pop
      requires Valid()
    {
      pop[..popSize]
    }

    ghost predicate Sound()
      reads this, cells, pop
    {
      Valid() && WorldOk(Population(), cells[..], nextId)
    }

    // `randf()`.
    method Random() returns (r: real)
      ensures Unit(r)
    {
      r :| Unit(r);
    }

    method RandomGenome() returns (g: Genome)
      ensures GenesOk(g) && g[4] >= 0.5 && 0.01 <= g[6] <= 0.1
    {
      var genes: seq<real> := seq(NUM_GENES, i => 0.0);
      for i := 0 to NUM_GENES
        invariant |genes| == NUM_GENES && GenesOk(genes)
        invariant (i > 4 ==> genes[4] >= 0.5) && (i > 6 ==> 0.01 <= genes[6] <= 0.1)
      {
        var r := Random();
        var gene := if i == THRESHOLD then 0.5 + r * 0.5 else if i == MUTATION then 0.01 + r * 0.09 else r;
        genes := genes[i := gene];
      }
      g := genes;
    }

    method Mutate(parent: Genome) returns (g: Genome)
      requires GenesOk(parent)
      ensures GenesOk(g) && forall i :: 0 <= i < NUM_GENES ==> Close(g[i], parent[i])
      ensures parent[6] == 0.0 ==> g == parent
    {
      var genes: seq<real> := parent;
      for i := 0 to NUM_GENES
        invariant |genes| == NUM_GENES && GenesOk(genes)
        invariant forall k :: 0 <= k < i ==> Close(genes[k], parent[k])
        invariant forall k :: i <= k < NUM_GENES ==> genes[k] == parent[k]
        invariant parent[6] == 0.0 ==> genes == parent
      {
        var chance := Random();
        if chance < parent[MUTATION] {
          var r := Random();
          genes := genes[i := Clamp(genes[i] + (r - 0.5) * 0.3, 0.0, 1.0)];
        }
      }
      g := genes;
    }

    method Crossover(a: Genome, b: Genome) returns (g: Genome)
      requires GenesOk(a) && GenesOk(b)
      ensures GenesOk(g) && forall i :: 0 <= i < NUM_GENES ==> g[i] == a[i] || g[i] == b[i]
    {
      var genes: seq<real> := a;
      for i := 0 to NUM_GENES
        invariant |genes| == NUM_GENES && GenesOk(genes)
        invariant forall k :: 0 <= k < i ==> genes[k] == a[k] || genes[k] == b[k]
        invariant forall k :: i <= k < NUM_GENES ==> genes[k] == a[k]
      {
        var r := Random();
        genes := genes[i := if r < 0.5 then a[i] else b[i]];
      }
      g := genes;
    }

    method Spawn(g: Genome, x: int, y: int, parentId: nat, generation: nat) returns (e: Entity)
      modifies this`nextId
      ensures e == Entity(g, 0.5, x, y, 0, true, old(nextId), parentId, generation)
      ensures nextId == old(nextId) + 1
    {
      e := Entity(g, 0.5, x, y, 0, true, nextId, parentId, generation);
      nextId := nextId + 1;
    }

    constructor ()
      ensures Sound() && fresh(cells) && fresh(pop) && popSize == 40 && nextId == 41
      ensures forall i :: 0 <= i < 1024 ==> 0.0 <= cells[i] <= 0.5
      ensures forall k :: 0 <= k < 40 ==> Founder(pop[k], k + 1)
    {
      cells := new real[CELLS](i => 0.0);
      pop := new Entity[MAX_ENTITIES](i => Entity(seq(NUM_GENES, k => 0.0), 0.0, 0, 0, 0, false, 0, 0, 0));
      popSize := 0;
      nextId := 1;
      new;
      for i := 0 to CELLS
        invariant popSize == 0 && nextId == 1
        invariant forall k :: 0 <= k < i ==> 0.0 <= cells[k] <= 0.5
      {
        var r := Random();
        cells[i] := r * 0.5;
      }
      for i := 0 to 40
        invariant Valid() && popSize == i && nextId == i + 1 && CellsOk(cells[..])
        invariant forall k :: 0 <= k < 1024 ==> 0.0 <= cells[k] <= 0.5
        invariant forall k :: 0 <= k < i ==> Founder(pop[k], k + 1)
        invariant forall k :: 0 <= k < i ==> pop[k].id == k + 1 && EntityOk(pop[k], k + 2) && Survivor(pop[k])
      {
        var g := RandomGenome();
        var x, y :| OnGrid(x, y);
        var e := Spawn(g, x, y, 0, 0);
        pop[i] := e;
        popSize := popSize + 1;
      }
    }

    method Regenerate()
      requires Valid()
      modifies cells
      ensures Valid() && Grown(old(cells[..]), cells[..])
      ensures forall i :: 0 <= i < 1024 ==>
        var v := old(cells[i]) + 0.01;
        cells[i] == if v < 0.0 then 0.0 else if v > 1.0 then 1.0 else v
    {
      for i := 0 to CELLS
        invariant forall k :: 0 <= k < i ==> cells[k] == Clamp(old(cells[k]) + 0.01, 0.0, 1.0)
        invariant forall k :: i <= k < CELLS ==> cells[k] == old(cells[k])
      {
        cells[i] := Clamp(cells[i] + 0.01, 0.0, 1.0);
      }
    }

    // The inner loop of the search.
    method SearchRow(e: Entity, range: int, dx: int, from: Spot) returns (best: Spot)
      requires Valid() && GoodSpot(from)
      ensures GoodSpot(best) && best == ScanRow(cells[..], e, range, dx, -range, from)
    {
      best := from;
      var dy := -range;
      while dy <= range
        invariant GoodSpot(best)
        invariant ScanRow(cells[..], e, range, dx, dy, best) == ScanRow(cells[..], e, range, dx, -range, from)
        decreases range - dy
      {
        var s := Spot(Wrap(e.x + dx), Wrap(e.y + dy));
        if cells[At(s.x, s.y)] > cells[At(best.x, best.y)] {
          best := s;
        }
        dy := dy + 1;
      }
    }

    method Search(e: Entity) returns (best: Spot)
      requires Valid() && OnGrid(e.x, e.y)
      ensures GoodSpot(best) && best == BestSpot(cells[..], e)
    {
      var range := Range(e);
      best := Spot(e.x, e.y);
      var dx := -range;
      while dx <= range
        invariant GoodSpot(best) && ScanFrom(cells[..], e, range, dx, best) == BestSpot(cells[..], e)
        decreases range - dx
      {
        best := SearchRow(e, range, dx, best);
        dx := dx + 1;
      }
    }

    method Step(i: nat)
      requires Valid() && i < popSize && OnGrid(pop[i].x, pop[i].y)
      modifies cells, pop
      ensures pop[i] == StepEntity(old(pop[i]), old(cells[..])).0
      ensures cells[..] == StepEntity(old(pop[i]), old(cells[..])).1
      ensures forall k :: 0 <= k < MAX_ENTITIES && k != i ==> pop[k] == old(pop[k])
    {
      var e := pop[i];
      if !e.alive {
        return;
      }
      var best := Search(e);
      if best.x != e.x || best.y != e.y {
        e := e.(x := best.x, y := best.y, energy := e.energy - MoveCost(e));
      }
      var place := At(e.x, e.y);
      var consumed := Consumed(e, cells[place]);
      assert e == Moved(old(pop[i]), best);
      cells[place] := cells[place] - consumed;
      pop[i] := Fed(e, consumed);
      assert cells[..] == old(cells[..])[place := old(cells[..])[place] - consumed];
    }

    method StepEveryone()
      requires Valid() && AllOnGrid(Population())
      modifies cells, pop
      ensures Valid() && popSize == old(popSize) && nextId == old(nextId)
      ensures Population() == StepAll(old(Population()), old(cells[..])).0
      ensures cells[..] == StepAll(old(Population()), old(cells[..])).1
    {
      ghost var before, world, n := pop[..popSize], cells[..], popSize;
      for i := 0 to popSize
        invariant Valid() && popSize == n && pop[i..n] == before[i..]
        invariant PartWay(before, world, i, pop[..i], cells[..])
      {
        ghost var done, here, was := pop[..i], cells[..], pop[..];
        assert pop[i] == pop[i..n][0];
        Step(i);
        Advance(before, world, i, done, here, pop[i], cells[..]);
        OneChanged(was, pop[..], i, n);
      }
      assert pop[..n] + [] == pop[..n];
    }

    method Compact()
      requires Valid()
      modifies this`popSize, pop
      ensures Valid() && Population() == Living(old(Population()))
    {
      ghost var before := pop[..popSize];
      var kept := 0;
      for i := 0 to popSize
        invariant Valid() && popSize == |before| && Compacted(before, pop[..], kept, i)
      {
        ghost var was := pop[..];
        CompactStep(before, was, kept, i);
        if pop[i].alive {
          pop[kept] := pop[i];
          kept := kept + 1;
        }
      }
      assert before[..popSize] == before;
      popSize := kept;
    }

    // One child of the entity at place `i`.
    method Breed(i: nat) returns (child: Entity)
      requires Valid() && i < popSize && AllGenesOk(Population())
      modifies this`nextId
      ensures nextId == old(nextId) + 1 && ChildOf(child, Population(), i, old(nextId))
    {
      var partner :| 0 <= partner < popSize;
      var genes := pop[i].genes;
      ghost var p := i;
      if pop[partner].alive && partner != i {
        genes := Crossover(pop[i].genes, pop[partner].genes);
        p := partner;
      }
      var mutated := Mutate(genes);
      assert Inherits(mutated, pop[i].genes, pop[p].genes);
      child := Spawn(mutated, pop[i].x, pop[i].y, pop[i].id, pop[i].generation + 1);
      assert Parents(child, Population(), i, p);
    }

    // One birth: the child, and the parent's energy halved.
    method GiveBirth(i: nat) returns (child: Entity)
      requires Valid() && i < popSize && AllGenesOk(Population())
      modifies this`nextId, pop
      ensures Valid() && popSize == old(popSize) && nextId == old(nextId) + 1
      ensures ChildOf(child, old(Population()), i, old(nextId))
      ensures Population() == old(Population())[i := Halved(old(Population())[i])]
      ensures pop[i] == old(pop[i]).(energy := old(pop[i]).energy * 0.5)
    {
      child := Breed(i);
      pop[i] := Halved(pop[i]);
    }

    // One turn of the breeding loop.
    method BreedTurn(i: nat, born: seq<Entity>, ghost before: seq<Entity>, ghost done: seq<nat>, ghost room: nat,
                     ghost first: nat)
      returns (newborns: seq<Entity>, ghost met: seq<nat>)
      requires Valid() && i < popSize && nextId == first + |born| && AllGenesOk(before)
      requires Breeding(before, Population(), born, done, i, room, first) && |born| < room
      modifies this`nextId, pop
      ensures Valid() && popSize == old(popSize) && nextId == first + |newborns|
      ensures Breeding(before, Population(), newborns, met, i + 1, room, first)
    {
      ghost var now := Population();
      NotYetMet(before, now, born, done, i, room, first);
      GenesKept(before, now, born, done, i, room, first);
      newborns, met := born, done;
      if CanReproduce(pop[i]) {
        var child := GiveBirth(i);
        BreedOne(before, now, Population(), born, done, i, room, first, child);
        newborns, met := born + [child], done + [i];
      } else {
        BreedNone(before, now, born, done, i, room, first);
      }
    }

    // The newborns of a breeding pass; the breeders' energy is halved.
    method CollectBirths() returns (newborns: seq<Entity>)
      requires Valid() && AllGenesOk(Population())
      modifies this`nextId, pop
      ensures Valid() && popSize == old(popSize) && nextId == old(nextId) + |newborns|
      ensures Bred(old(Population()), Population() + newborns, old(nextId))
    {
      ghost var before, first, room := Population(), nextId, MAX_ENTITIES - popSize;
      newborns := [];
      var i := 0;
      ghost var done: seq<nat> := [];
      while i < popSize && popSize + |newborns| < MAX_ENTITIES
        invariant Valid() && popSize == |before| && nextId == first + |newborns|
        invariant Breeding(before, Population(), newborns, done, i, room, first)
      {
        newborns, done := BreedTurn(i, newborns, before, done, room, first);
        i := i + 1;
      }
      BreedingDone(before, Population(), newborns, done, i, room, first);
    }

    method AppendBirths(newborns: seq<Entity>)
      requires Valid() && popSize + |newborns| <= MAX_ENTITIES
      modifies this`popSize, pop
      ensures Valid() && Population() == old(Population()) + newborns
    {
      ghost var now := pop[..popSize];
      var k := 0;
      while k < |newborns| && popSize < MAX_ENTITIES
        invariant Valid() && k <= |newborns| && popSize == |now| + k
        invariant pop[..popSize] == now + newborns[..k]
      {
        pop[popSize] := newborns[k];
        popSize := popSize + 1;
        k := k + 1;
        assert newborns[..k] == newborns[..k - 1] + [newborns[k - 1]];
        assert pop[..popSize] == pop[..popSize - 1] + [newborns[k - 1]];
      }
      assert newborns[..k] == newborns;
    }

    method Tick()
      requires Sound()
      modifies this`nextId, this`popSize, pop, cells
      ensures Sound() && nextId >= old(nextId)
      ensures Ticked(old(Population()), old(cells[..]), old(nextId), Population(), cells[..], nextId)
    {
      ghost var before, world, first := Population(), cells[..], nextId;
      Regenerate();
      ghost var grown := cells[..];
      StepsFromOk(before, grown, first);
      StepEveryone();
      ghost var stepped := Population();
      var newborns := CollectBirths();
      BreedsFromOk(stepped, Population() + newborns, first);
      AppendBirths(newborns);
      ghost var bred := Population();
      Compact();
      assert TickedVia(before, world, first, grown, bred, Population(), cells[..], nextId);
      TickKeeps(before, world, first, Population(), cells[..], nextId);
    }

    ghost function Now(): Snapshot
      reads this, pop, cells
      requires Valid()
    {
      Snapshot(Population(), cells[..], nextId)
    }

    // The whole run, stopped early when no entity is left.
    method Run(ticks: int) returns (ghost history: seq<Snapshot>)
      requires Sound()
      modifies this`nextId, this`popSize, pop, cells
      ensures Sound() && nextId >= old(nextId)
      ensures History(history) && history[0] == old(Now()) && history[|history| - 1] == Now()
      ensures |history| - 1 == (if ticks > 0 then ticks else 0) || (|history| - 1 < ticks && popSize == 0)
    {
      var tick := 0;
      history := [Now()];
      while tick < ticks
        invariant Sound() && nextId >= old(nextId)
        invariant |history| == tick + 1 && tick <= (if ticks > 0 then ticks else 0)
        invariant History(history) && history[0] == old(Now()) && history[tick] == Now()
        invariant tick > 0 ==> popSize > 0
      {
        ghost var before := Now();
        Tick();
        NextInHistory(history, Now());
        history := history + [Now()];
        if popSize == 0 {
          break;
        }
        tick := tick + 1;
      }
    }
  }
}
