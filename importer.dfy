/** The state `importDemoBuffer` keeps across the demo parser's callbacks, and the callbacks. */
module Importer {
  import opened Wrappers
  import opened ImportErrors
  import opened JsValues
  import opened Tsv
  import opened DemoRecords
  import opened Players
  import opened EntityChanges
  import opened GameEvents

  class DemoImporter {
    const sessionId: int
    /** JSON.stringify and the number printing used by `writeRow`. */
    const serialiser: Serialiser
    var players: seq<Option<UserInfo>>
    var entityPositions: map<int, Vec3>
    var bufferedEntityUpdates: map<(int, string), EntityUpdate>
    /** What has been written to the event stream, one entry per `write`. */
    var eventStream: seq<string>

    ghost predicate Valid()
      reads this
    {
      |players| >= InitialSlots && Consistent(Tracker(entityPositions, bufferedEntityUpdates))
    }

    function TrackerState(): Tracker
      reads this
    {
      Tracker(entityPositions, bufferedEntityUpdates)
    }

    constructor (sessionId: int, serialiser: Serialiser)
      ensures Valid()
      ensures this.sessionId == sessionId && this.serialiser == serialiser
      ensures players == EmptySlots() && entityPositions == map[] && bufferedEntityUpdates == map[]
      ensures eventStream == []
    {
      this.sessionId := sessionId;
      this.serialiser := serialiser;
      players := EmptySlots();
      entityPositions := map[];
      bufferedEntityUpdates := map[];
      eventStream := [];
    }

    /** `writeRow(eventStream, values)`. */
    method WriteRow(values: seq<JsValue>) returns (outcome: Outcome<ImportError>)
      modifies this`eventStream
      ensures match FormatRow(serialiser, values)
              case Ok(line) => outcome == Pass && eventStream == old(eventStream) + [line]
              case Err(e) => outcome == Fail(e) && eventStream == old(eventStream)
    {
      match FormatRow(serialiser, values)
      case Ok(line) =>
        eventStream := eventStream + [line];
        outcome := Pass;
      case Err(e) =>
        outcome := Fail(e);
    }

    /** The string-table `update` handler. */
    method OnStringTableUpdate(tableName: string, entryIndex: nat, userData: Option<UserInfo>)
      requires Valid()
      modifies this`players
      ensures Valid()
      ensures players == UpdatedPlayers(old(players), tableName, entryIndex, userData)
    {
      if tableName != "userinfo" || userData.None? {
        return;
      }
      players := StoreSlot(players, entryIndex, userData.value);
    }

    /** The entity `change` handler, at the parser's current tick. */
    method OnEntityChange(e: ChangeEvent, currentTick: int) returns (outcome: Outcome<ImportError>)
      requires Valid()
      modifies this`entityPositions, this`bufferedEntityUpdates
      ensures Valid()
      ensures outcome == if EffectOf(e).NullValue? then Fail(NewValueIsNull) else Pass
      ensures TrackerState() == ApplyChange(old(TrackerState()), sessionId, e, currentTick)
    {
      ApplyChangeConsistent(TrackerState(), sessionId, e, currentTick);
      if e.varName in SkipProps {
        return Pass;
      }
      if e.newValue.None? {
        return Fail(NewValueIsNull);
      }
      var fullPropName := e.tableName + "." + e.varName;
      var newValue := e.newValue.value;
      if fullPropName in CellPositionProps {
        fullPropName := PositionProp;
        var cellX := GetProp(e.entity, "DT_BaseEntity", "m_cellX");
        var cellY := GetProp(e.entity, "DT_BaseEntity", "m_cellY");
        var cellZ := GetProp(e.entity, "DT_BaseEntity", "m_cellZ");
        var cellPos := GetProp(e.entity, "DT_BaseEntity", "m_vecOrigin");
        if !(cellX.Some? && cellX.value.IntProp? && cellY.Some? && cellY.value.IntProp? &&
             cellZ.Some? && cellZ.value.IntProp? && cellPos.Some? && cellPos.value.Vector?) {
          return Pass;
        }
        var o := cellPos.value.v;
        var p := Vec3(CellCoords.CoordFromCell(cellX.value.i, o.x), CellCoords.CoordFromCell(cellY.value.i, o.y),
                      CellCoords.CoordFromCell(cellZ.value.i, o.z));
        newValue := Vector(p);
        entityPositions := entityPositions[e.entity.index := p];
      } else if fullPropName == LocalOrigin {
        fullPropName := PositionProp;
        var z := GetProp(e.entity, "DT_CSLocalPlayerExclusive", "m_vecOrigin[2]");
        if !(z.Some? && z.value.FloatProp? && e.newValue.value.VectorXY?) {
          return Pass;
        }
        var p := Vec3(e.newValue.value.x, e.newValue.value.y, z.value.r);
        newValue := Vector(p);
        entityPositions := entityPositions[e.entity.index := p];
      } else if fullPropName == LocalOriginZ {
        fullPropName := PositionProp;
        var xyPos := GetProp(e.entity, "DT_CSLocalPlayerExclusive", "m_vecOrigin");
        if !(xyPos.Some? && xyPos.value.VectorXY? && e.newValue.value.FloatProp?) {
          return Pass;
        }
        var p := Vec3(xyPos.value.x, xyPos.value.y, e.newValue.value.r);
        newValue := Vector(p);
        entityPositions := entityPositions[e.entity.index := p];
      }
      bufferedEntityUpdates := bufferedEntityUpdates[(e.entity.index, fullPropName) :=
        EntityUpdate(sessionId, e.entity.index, currentTick, fullPropName, newValue)];
      outcome := Pass;
    }

    /** The game-event `event` handler, at the parser's current tick: on a key recorded twice it
        throws and writes nothing; otherwise it writes the event's row. */
    method OnGameEvent(e: GameEvent, currentTick: int) returns (outcome: Outcome<ImportError>)
      requires Valid()
      modifies this`eventStream
      ensures Valid()
      ensures outcome.Fail? <==> Clashes(players, e.fields)
      ensures outcome.Fail? ==> outcome.error == EntityMultiplyDefined && eventStream == old(eventStream)
      ensures outcome.Pass? ==>
                var row := EventRow(currentTick, e, TallyOf(entityPositions, Recordings(players, e.fields)));
                FormatRow(serialiser, row).Ok? && eventStream == old(eventStream) + [FormatRow(serialiser, row).value]
    {
      var attribution := AttributeEntities(players, entityPositions, e.fields);
      AttributeCharacterised(players, entityPositions, e.fields);
      match attribution
      case Err(err) =>
        outcome := Fail(err);
      case Ok(t) =>
        EventRowWritable(serialiser, currentTick, e, t);
        outcome := WriteRow(EventRow(currentTick, e, t));
    }
  }
}
