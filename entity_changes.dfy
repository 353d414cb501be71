/** The entity-change handler: positions rebuilt from cells, the last known position of each
    entity, and the buffer of entity updates keyed by entity and property. */
module EntityChanges {
  import opened Wrappers
  import opened DemoRecords
  import opened CellCoords

  /** Properties that change often and are not recorded. */
  const SkipProps: seq<string> := [
    "m_flSimulationTime", "m_nTickBase", "m_flGroundAccelLinearFracLastTime",
    "m_nResetEventsParity", "m_nNewSequenceParity", "m_nAnimationParity"
  ]

  /** The properties a cell-based position is rebuilt from. */
  const CellPositionProps: seq<string> := [
    "DT_BaseEntity.m_vecOrigin", "DT_BaseEntity.m_cellX", "DT_BaseEntity.m_cellY", "DT_BaseEntity.m_cellZ"
  ]

  /** The local player's exact origin, split into its x/y part and its z part. */
  const LocalOrigin: string := "DT_CSLocalPlayerExclusive.m_vecOrigin"
  const LocalOriginZ: string := "DT_CSLocalPlayerExclusive.m_vecOrigin[2]"

  /** The name a rebuilt position is recorded under. */
  const PositionProp: string := "position"

  /** The row buffered for a prop change: `[session_id, index, tick, prop, {value}]`. */
  datatype EntityUpdate = EntityUpdate(sessionId: int, index: int, tick: int, prop: string, value: PropValue)

  /** The handler's state: `entityPositions` and `bufferedEntityUpdates`. */
  datatype Tracker = Tracker(positions: map<int, Vec3>, buffer: map<(int, string), EntityUpdate>)

  /** What one change does: nothing (a skipped prop, or a position that cannot be rebuilt yet),
      an assertion failure (a null new value), or a buffered update under `prop`, with the
      entity's new position when the change was to its position. */
  datatype ChangeEffect =
    | Skipped
    | NullValue
    | Incomplete
    | Update(prop: string, value: PropValue, position: Option<Vec3>)

  function FullPropName(e: ChangeEvent): string
  {
    e.tableName + "." + e.varName
  }

  /** The position rebuilt from the entity's cell numbers and its offset inside the cells. */
  function CellPosition(entity: EntityState): (r: Option<Vec3>)
    ensures var cx, cy, cz, o := GetProp(entity, "DT_BaseEntity", "m_cellX"), GetProp(entity, "DT_BaseEntity", "m_cellY"),
                                 GetProp(entity, "DT_BaseEntity", "m_cellZ"), GetProp(entity, "DT_BaseEntity", "m_vecOrigin");
            (r.Some? <==> cx.Some? && cx.value.IntProp? && cy.Some? && cy.value.IntProp? &&
                          cz.Some? && cz.value.IntProp? && o.Some? && o.value.Vector?) &&
            (r.Some? ==> r.value == Vec3(CoordFromCell(cx.value.i, o.value.v.x), CoordFromCell(cy.value.i, o.value.v.y),
                                         CoordFromCell(cz.value.i, o.value.v.z)))
  {
    match (GetProp(entity, "DT_BaseEntity", "m_cellX"), GetProp(entity, "DT_BaseEntity", "m_cellY"),
           GetProp(entity, "DT_BaseEntity", "m_cellZ"), GetProp(entity, "DT_BaseEntity", "m_vecOrigin"))
    case (Some(IntProp(cx)), Some(IntProp(cy)), Some(IntProp(cz)), Some(Vector(o))) =>
      Some(Vec3(CoordFromCell(cx, o.x), CoordFromCell(cy, o.y), CoordFromCell(cz, o.z)))
    case _ => None
  }

  function EffectOf(e: ChangeEvent): ChangeEffect
  {
    if e.varName in SkipProps then Skipped
    else if e.newValue.None? then NullValue
    else
      var full := FullPropName(e);
      if full in CellPositionProps then
        match CellPosition(e.entity)
        case Some(p) => Update(PositionProp, Vector(p), Some(p))
        case None => Incomplete
      else if full == LocalOrigin then
        match (e.newValue.value, GetProp(e.entity, "DT_CSLocalPlayerExclusive", "m_vecOrigin[2]"))
        case (VectorXY(x, y), Some(FloatProp(z))) => Update(PositionProp, Vector(Vec3(x, y, z)), Some(Vec3(x, y, z)))
        case _ => Incomplete
      else if full == LocalOriginZ then
        match (GetProp(e.entity, "DT_CSLocalPlayerExclusive", "m_vecOrigin"), e.newValue.value)
        case (Some(VectorXY(x, y)), FloatProp(z)) => Update(PositionProp, Vector(Vec3(x, y, z)), Some(Vec3(x, y, z)))
        case _ => Incomplete
      else Update(full, e.newValue.value, None)
  }

  /** The state after the handler has seen change `e` at `tick`. */
  function ApplyChange(t: Tracker, sessionId: int, e: ChangeEvent, tick: int): Tracker
  {
    match EffectOf(e)
    case Update(prop, value, position) =>
      var index := e.entity.index;
      Tracker(if position.Some? then t.positions[index := position.value] else t.positions,
              t.buffer[(index, prop) := EntityUpdate(sessionId, index, tick, prop, value)])
    case _ => t
  }

  /** The buffer key a change writes, if it writes one. */
  function BufferKey(e: ChangeEvent): Option<(int, string)>
  {
    match EffectOf(e)
    case Update(prop, _, _) => Some((e.entity.index, prop))
    case _ => None
  }

  /** The row a change buffers, if it buffers one. */
  function BufferedRow(sessionId: int, e: ChangeEvent, tick: int): Option<EntityUpdate>
  {
    match EffectOf(e)
    case Update(prop, value, _) => Some(EntityUpdate(sessionId, e.entity.index, tick, prop, value))
    case _ => None
  }

  /** The position a change gives its entity, if it gives one. */
  function NewPosition(e: ChangeEvent): Option<Vec3>
  {
    match EffectOf(e)
    case Update(_, _, position) => position
    case _ => None
  }

  /** What a change does, case by case: a skipped prop or a null value changes nothing; a
      change to a position prop rebuilds the position and buffers it under "position" when the
      props it needs are there, and changes nothing otherwise; any other change is buffered under
      its full name with its new value and leaves the positions alone. */
  lemma EffectCases(e: ChangeEvent)
    ensures EffectOf(e) == Skipped <==> e.varName in SkipProps
    ensures EffectOf(e) == NullValue <==> e.varName !in SkipProps && e.newValue.None?
    ensures EffectOf(e).Incomplete? ==>
              FullPropName(e) in CellPositionProps || FullPropName(e) == LocalOrigin || FullPropName(e) == LocalOriginZ
    ensures EffectOf(e).Update? && EffectOf(e).position.Some? ==>
              EffectOf(e).prop == PositionProp && EffectOf(e).value == Vector(EffectOf(e).position.value)
    ensures EffectOf(e).Update? && EffectOf(e).position.None? ==>
              EffectOf(e).prop == FullPropName(e) && EffectOf(e).value == e.newValue.value &&
              FullPropName(e) !in CellPositionProps && FullPropName(e) != LocalOrigin && FullPropName(e) != LocalOriginZ
    ensures e.varName !in SkipProps && e.newValue.Some? && FullPropName(e) !in CellPositionProps &&
            FullPropName(e) != LocalOrigin && FullPropName(e) != LocalOriginZ ==>
              EffectOf(e) == Update(FullPropName(e), e.newValue.value, None)
    ensures e.varName !in SkipProps && e.newValue.Some? && FullPropName(e) in CellPositionProps ==>
              (EffectOf(e).Incomplete? <==> CellPosition(e.entity).None?) &&
              (CellPosition(e.entity).Some? ==>
                 EffectOf(e) == Update(PositionProp, Vector(CellPosition(e.entity).value), CellPosition(e.entity)))
    ensures var z := GetProp(e.entity, "DT_CSLocalPlayerExclusive", "m_vecOrigin[2]");
            e.varName !in SkipProps && e.newValue.Some? && FullPropName(e) == LocalOrigin ==>
              (EffectOf(e).Incomplete? <==> !(e.newValue.value.VectorXY? && z.Some? && z.value.FloatProp?)) &&
              (e.newValue.value.VectorXY? && z.Some? && z.value.FloatProp? ==>
                 var p := Vec3(e.newValue.value.x, e.newValue.value.y, z.value.r);
                 EffectOf(e) == Update(PositionProp, Vector(p), Some(p)))
    ensures var xy := GetProp(e.entity, "DT_CSLocalPlayerExclusive", "m_vecOrigin");
            e.varName !in SkipProps && e.newValue.Some? && FullPropName(e) == LocalOriginZ ==>
              (EffectOf(e).Incomplete? <==> !(xy.Some? && xy.value.VectorXY? && e.newValue.value.FloatProp?)) &&
              (xy.Some? && xy.value.VectorXY? && e.newValue.value.FloatProp? ==>
                 var p := Vec3(xy.value.x, xy.value.y, e.newValue.value.r);
                 EffectOf(e) == Update(PositionProp, Vector(p), Some(p)))
  {
  }

  /** A change to a cell-position prop is dropped, leaving the whole state as it was, while
      any of cellX, cellY, cellZ and the in-cell offset is undefined. */
  lemma MissingCellPropDropsChange(t: Tracker, sessionId: int, e: ChangeEvent, tick: int)
    requires FullPropName(e) in CellPositionProps
    requires GetProp(e.entity, "DT_BaseEntity", "m_cellX").None? || GetProp(e.entity, "DT_BaseEntity", "m_cellY").None? ||
             GetProp(e.entity, "DT_BaseEntity", "m_cellZ").None? || GetProp(e.entity, "DT_BaseEntity", "m_vecOrigin").None?
    ensures !EffectOf(e).Update?
    ensures ApplyChange(t, sessionId, e, tick) == t
  {
  }

  /** A full prop name `<table>.<variable>` is never the name "position", so an ordinary prop
      never lands on an entity's buffered position. */
  lemma FullPropNameIsNotPosition(e: ChangeEvent)
    ensures FullPropName(e) != PositionProp
  {
    assert FullPropName(e)[|e.tableName|] == '.';
  }

  /** Every buffered row sits under its own (index, prop) key, and an entity's buffered
      position is its last known position. */
  ghost predicate Consistent(t: Tracker)
  {
    && (forall k :: k in t.buffer ==> t.buffer[k].index == k.0 && t.buffer[k].prop == k.1)
    && (forall i :: (i, PositionProp) in t.buffer ==>
          i in t.positions && t.buffer[(i, PositionProp)].value == Vector(t.positions[i]))
  }

  lemma ApplyChangeConsistent(t: Tracker, sessionId: int, e: ChangeEvent, tick: int)
    requires Consistent(t)
    ensures Consistent(ApplyChange(t, sessionId, e, tick))
  {
    FullPropNameIsNotPosition(e);
    EffectCases(e);
  }

  /** The handler applied to a sequence of (change, tick) pairs, in order. */
  function ApplyChanges(t: Tracker, sessionId: int, changes: seq<(ChangeEvent, int)>): Tracker
    decreases |changes|
  {
    if changes == [] then t
    else
      var last := changes[|changes| - 1];
      ApplyChange(ApplyChanges(t, sessionId, changes[..|changes| - 1]), sessionId, last.0, last.1)
  }

  lemma {:induction false} ApplyChangesConsistent(t: Tracker, sessionId: int, changes: seq<(ChangeEvent, int)>)
    requires Consistent(t)
    ensures Consistent(ApplyChanges(t, sessionId, changes))
    decreases |changes|
  {
    if changes != [] {
      var last := changes[|changes| - 1];
      ApplyChangesConsistent(t, sessionId, changes[..|changes| - 1]);
      ApplyChangeConsistent(ApplyChanges(t, sessionId, changes[..|changes| - 1]), sessionId, last.0, last.1);
    }
  }

  /** What one change does to the buffer: it writes its row under its key, or nothing. */
  lemma ApplyChangeBuffer(t: Tracker, sessionId: int, e: ChangeEvent, tick: int)
    ensures BufferKey(e).Some? <==> BufferedRow(sessionId, e, tick).Some?
    ensures ApplyChange(t, sessionId, e, tick).buffer ==
            if BufferKey(e).Some? then t.buffer[BufferKey(e).value := BufferedRow(sessionId, e, tick).value] else t.buffer
  {
  }

  /** What one change does to the positions: it moves its entity, or nothing. */
  lemma ApplyChangePositions(t: Tracker, sessionId: int, e: ChangeEvent, tick: int)
    ensures ApplyChange(t, sessionId, e, tick).positions ==
            if NewPosition(e).Some? then t.positions[e.entity.index := NewPosition(e).value] else t.positions
  {
  }

  /** The last write wins: after a sequence of changes, the row buffered under a key is the row
      of the last change that wrote that key. */
  lemma {:induction false} BufferLastWriteWins(t: Tracker, sessionId: int, changes: seq<(ChangeEvent, int)>,
                                               key: (int, string), j: nat)
    requires j < |changes| && BufferKey(changes[j].0) == Some(key)
    requires forall j' :: j < j' < |changes| ==> BufferKey(changes[j'].0) != Some(key)
    ensures var b := ApplyChanges(t, sessionId, changes).buffer;
            key in b && Some(b[key]) == BufferedRow(sessionId, changes[j].0, changes[j].1)
    decreases |changes|
  {
    var n := |changes| - 1;
    var prefix := changes[..n];
    var last := changes[n];
    ApplyChangeBuffer(ApplyChanges(t, sessionId, prefix), sessionId, last.0, last.1);
    if j < n {
      assert prefix[j] == changes[j];
      assert forall j' :: j < j' < |prefix| ==> prefix[j'] == changes[j'];
      BufferLastWriteWins(t, sessionId, prefix, key, j);
    }
  }

  /** A key no change wrote keeps its earlier row, or stays absent. */
  lemma {:induction false} BufferUntouched(t: Tracker, sessionId: int, changes: seq<(ChangeEvent, int)>, key: (int, string))
    requires forall j :: 0 <= j < |changes| ==> BufferKey(changes[j].0) != Some(key)
    ensures var b := ApplyChanges(t, sessionId, changes).buffer;
            (key in b <==> key in t.buffer) && (key in b ==> b[key] == t.buffer[key])
    decreases |changes|
  {
    if changes != [] {
      var n := |changes| - 1;
      var prefix := changes[..n];
      var last := changes[n];
      ApplyChangeBuffer(ApplyChanges(t, sessionId, prefix), sessionId, last.0, last.1);
      assert forall j :: 0 <= j < n ==> prefix[j] == changes[j];
      BufferUntouched(t, sessionId, prefix, key);
    }
  }

  /** The last known position of an entity is the one its last position change gave it. */
  lemma {:induction false} PositionLastWriteWins(t: Tracker, sessionId: int, changes: seq<(ChangeEvent, int)>,
                                                 index: int, j: nat)
    requires j < |changes| && changes[j].0.entity.index == index && NewPosition(changes[j].0).Some?
    requires forall j' :: j < j' < |changes| && changes[j'].0.entity.index == index ==> NewPosition(changes[j'].0).None?
    ensures var ps := ApplyChanges(t, sessionId, changes).positions;
            index in ps && ps[index] == NewPosition(changes[j].0).value
    decreases |changes|
  {
    var n := |changes| - 1;
    var prefix := changes[..n];
    var last := changes[n];
    ApplyChangePositions(ApplyChanges(t, sessionId, prefix), sessionId, last.0, last.1);
    if j < n {
      assert prefix[j] == changes[j];
      assert forall j' :: j < j' < |prefix| ==> prefix[j'] == changes[j'];
      PositionLastWriteWins(t, sessionId, prefix, index, j);
    }
  }

  /** An entity no change moved keeps its earlier position, or stays unknown. */
  lemma {:induction false} PositionUntouched(t: Tracker, sessionId: int, changes: seq<(ChangeEvent, int)>, index: int)
    requires forall j :: 0 <= j < |changes| && changes[j].0.entity.index == index ==> NewPosition(changes[j].0).None?
    ensures var ps := ApplyChanges(t, sessionId, changes).positions;
            (index in ps <==> index in t.positions) && (index in ps ==> ps[index] == t.positions[index])
    decreases |changes|
  {
    if changes != [] {
      var n := |changes| - 1;
      var prefix := changes[..n];
      var last := changes[n];
      ApplyChangePositions(ApplyChanges(t, sessionId, prefix), sessionId, last.0, last.1);
      assert forall j :: 0 <= j < n ==> prefix[j] == changes[j];
      PositionUntouched(t, sessionId, prefix, index);
    }
  }
}
