/** The game-event handler: which entities an event refers to, where they were last seen, and
    the row written for the event. */
module GameEvents {
  import opened Wrappers
  import opened ImportErrors
  import opened JsValues
  import opened Tsv
  import opened DemoRecords
  import opened Players

  /** The keys an event's entities can be recorded under. */
  const RecordedKeys: set<string> := {"player", "entity", "attacker", "assister"}

  /** How a field key names an entity: not at all, by the field's value used as an entity
      index, or by the field's value used as a user id. */
  datatype Target = Ignored | Direct(key: string) | ByUserId(key: string)

  predicate EndsWithId(key: string)
  {
    |key| >= 2 && key[|key| - 2..] == "id"
  }

  /** The key rewriting: `player` is an entity index; `entindex`, `index` and `entityid` are
      entity indices recorded as `entity`; any other key loses one trailing `id`, `victim` and
      `user` become `player`, and only `player`, `attacker` and `assister` remain, as user ids. */
  function NormaliseKey(key: string): (r: Target)
    ensures r.Direct? ==> r.key == "player" || r.key == "entity"
    ensures r.ByUserId? ==> r.key == "player" || r.key == "attacker" || r.key == "assister"
  {
    if key == "player" then Direct("player")
    else if key == "entindex" || key == "index" || key == "entityid" then Direct("entity")
    else
      var stripped := if EndsWithId(key) then key[..|key| - 2] else key;
      if stripped == "victim" || stripped == "user" then ByUserId("player")
      else if stripped == "player" || stripped == "attacker" || stripped == "assister" then ByUserId(stripped)
      else Ignored
  }

  lemma StrippedKey(key: string)
    requires key != "player" && key != "entindex" && key != "index" && key != "entityid" && EndsWithId(key)
    ensures key == key[..|key| - 2] + "id"
  {
  }

  lemma NormaliseKeyDirect(key: string)
    ensures NormaliseKey(key) == Direct("player") <==> key == "player"
    ensures NormaliseKey(key) == Direct("entity") <==> key == "entindex" || key == "index" || key == "entityid"
  {
  }

  lemma NormaliseKeyPlayer(key: string)
    ensures NormaliseKey(key) == ByUserId("player") <==>
              key == "user" || key == "userid" || key == "victim" || key == "victimid" || key == "playerid"
  {
    if key != "player" && key != "entindex" && key != "index" && key != "entityid" && EndsWithId(key) {
      StrippedKey(key);
    }
  }

  lemma NormaliseKeyOther(key: string, name: string)
    requires name == "attacker" || name == "assister"
    ensures NormaliseKey(key) == ByUserId(name) <==> key == name || key == name + "id"
  {
    if key != "player" && key != "entindex" && key != "index" && key != "entityid" && EndsWithId(key) {
      StrippedKey(key);
    }
  }

  /** The rewriting spelled out key by key: exactly thirteen keys name an entity. */
  lemma NormaliseKeyTable(key: string)
    ensures NormaliseKey(key) == Direct("player") <==> key == "player"
    ensures NormaliseKey(key) == Direct("entity") <==> key == "entindex" || key == "index" || key == "entityid"
    ensures NormaliseKey(key) == ByUserId("player") <==>
              key == "user" || key == "userid" || key == "victim" || key == "victimid" || key == "playerid"
    ensures NormaliseKey(key) == ByUserId("attacker") <==> key == "attacker" || key == "attackerid"
    ensures NormaliseKey(key) == ByUserId("assister") <==> key == "assister" || key == "assisterid"
  {
    NormaliseKeyDirect(key);
    NormaliseKeyPlayer(key);
    NormaliseKeyOther(key, "attacker");
    NormaliseKeyOther(key, "assister");
  }

  /** `value <= 0`. A string is taken never to be at most zero: JavaScript's coercion of
      strings to numbers is not modelled. */
  predicate AtMostZero(v: FieldValue)
  {
    match v
    case Int(i) => i <= 0
    case Float(r) => r <= 0.0
    case Flag(b) => !b
    case Text(_) => false
  }

  /** The `addEntity(key, index)` call one field makes (an index of `None` is undefined), or
      `None` when the field makes no call. */
  function FieldReference(players: seq<Option<UserInfo>>, f: Field): (r: Option<(string, Option<FieldValue>)>)
    ensures r.None? <==> AtMostZero(f.value) || NormaliseKey(f.key).Ignored?
    ensures r.Some? ==> r.value.0 in RecordedKeys && r.value.0 == NormaliseKey(f.key).key
    ensures r.Some? && NormaliseKey(f.key).Direct? ==> r.value.1 == Some(f.value)
    ensures r.Some? && NormaliseKey(f.key).ByUserId? ==>
              (r.value.1.None? <==> forall j :: 0 <= j < |players| ==> !HoldsUser(players[j], f.value))
    ensures r.Some? && NormaliseKey(f.key).ByUserId? && r.value.1.Some? ==>
              r.value.1.value.Int? && 1 <= r.value.1.value.i <= |players| &&
              HoldsUser(players[r.value.1.value.i - 1], f.value) &&
              forall j :: 0 <= j < r.value.1.value.i - 1 ==> !HoldsUser(players[j], f.value)
  {
    if AtMostZero(f.value) then None
    else
      match NormaliseKey(f.key)
      case Ignored => None
      case Direct(key) => Some((key, Some(f.value)))
      case ByUserId(key) =>
        Some((key, match EntityIndexOfUserId(players, f.value)
                   case Some(index) => Some(Int(index))
                   case None => None))
  }

  /** `entityPositions[index]`: the last known position of the entity the index names; a
      non-integral number, a boolean or a string names no entity. */
  function PositionOf(positions: map<int, Vec3>, index: FieldValue): Option<Vec3>
  {
    match index
    case Int(i) => if i in positions then Some(positions[i]) else None
    case Float(r) => if r == r.Floor as real && r.Floor in positions then Some(positions[r.Floor]) else None
    case _ => None
  }

  /** The handler's `entities` and `locations` objects, in insertion order, and `anyEntities`. */
  datatype Tally = Tally(entities: seq<(string, FieldValue)>, locations: seq<(string, Option<Vec3>)>, anyEntities: bool)

  const NoEntities: Tally := Tally([], [], false)

  /** `entities[key] !== undefined`. */
  predicate Defines(entities: seq<(string, FieldValue)>, key: string)
  {
    exists j :: 0 <= j < |entities| && entities[j].0 == key
  }

  /** `addEntity`: a key defined twice is an assertion failure, checked before an undefined
      index is passed over. */
  function AddEntity(positions: map<int, Vec3>, t: Tally, key: string, index: Option<FieldValue>): (r: Result<Tally, ImportError>)
    ensures r.Err? <==> Defines(t.entities, key)
    ensures r.Err? ==> r.error == EntityMultiplyDefined
    ensures r.Ok? && index.None? ==> r.value == t
    ensures r.Ok? && index.Some? ==>
              r.value.entities == t.entities + [(key, index.value)] &&
              r.value.locations == t.locations + [(key, PositionOf(positions, index.value))] &&
              r.value.anyEntities
  {
    if Defines(t.entities, key) then Err(EntityMultiplyDefined)
    else
      match index
      case None => Ok(t)
      case Some(i) => Ok(Tally(t.entities + [(key, i)], t.locations + [(key, PositionOf(positions, i))], true))
  }

  /** The `_.forOwn` loop over the event's fields, from tally `t` on. */
  function Attribute(players: seq<Option<UserInfo>>, positions: map<int, Vec3>, t: Tally, fields: seq<Field>): Result<Tally, ImportError>
    decreases |fields|
  {
    if fields == [] then Ok(t)
    else
      match FieldReference(players, fields[0])
      case None => Attribute(players, positions, t, fields[1..])
      case Some((key, index)) =>
        match AddEntity(positions, t, key, index)
        case Err(e) => Err(e)
        case Ok(t') => Attribute(players, positions, t', fields[1..])
  }

  /** The game-event handler's loop, run on the event's fields. */
  method AttributeEntities(players: seq<Option<UserInfo>>, positions: map<int, Vec3>, fields: seq<Field>)
    returns (r: Result<Tally, ImportError>)
    ensures r == Attribute(players, positions, NoEntities, fields)
  {
    var entities: seq<(string, FieldValue)> := [];
    var locations: seq<(string, Option<Vec3>)> := [];
    var anyEntities := false;
    var i := 0;
    while i < |fields|
      invariant 0 <= i <= |fields|
      invariant Attribute(players, positions, NoEntities, fields) ==
                Attribute(players, positions, Tally(entities, locations, anyEntities), fields[i..])
    {
      assert fields[i..][1..] == fields[i + 1..];
      var reference := FieldReference(players, fields[i]);
      if reference.Some? {
        var (key, index) := reference.value;
        if Defines(entities, key) {
          return Err(EntityMultiplyDefined);
        }
        if index.Some? {
          entities := entities + [(key, index.value)];
          locations := locations + [(key, PositionOf(positions, index.value))];
          anyEntities := true;
        }
      }
      i := i + 1;
    }
    assert fields[i..] == [];
    return Ok(Tally(entities, locations, anyEntities));
  }

  // A reference description of the loop's outcome.

  /** The `addEntity(key, index)` call a field makes, if any. */
  type Reference = Option<(string, Option<FieldValue>)>

  /** The calls the fields make, field by field. */
  function References(players: seq<Option<UserInfo>>, fields: seq<Field>): (r: seq<Reference>)
    ensures |r| == |fields|
    ensures forall i :: 0 <= i < |fields| ==> r[i] == FieldReference(players, fields[i])
    decreases |fields|
  {
    if fields == [] then [] else [FieldReference(players, fields[0])] + References(players, fields[1..])
  }

  /** The entity a call records: its key and its index, when the index is defined. */
  function RecordOf(reference: Reference): seq<(string, FieldValue)>
  {
    match reference
    case Some((key, Some(index))) => [(key, index)]
    case _ => []
  }

  /** The entities a sequence of calls records, in order. */
  function RecordsOf(refs: seq<Reference>): seq<(string, FieldValue)>
    decreases |refs|
  {
    if refs == [] then [] else RecordOf(refs[0]) + RecordsOf(refs[1..])
  }

  /** The entities the fields record, in field order. */
  function Recordings(players: seq<Option<UserInfo>>, fields: seq<Field>): seq<(string, FieldValue)>
  {
    RecordsOf(References(players, fields))
  }

  /** Each recorded entity's last known position, under the same key. */
  function Located(positions: map<int, Vec3>, entities: seq<(string, FieldValue)>): seq<(string, Option<Vec3>)>
  {
    seq(|entities|, j requires 0 <= j < |entities| => (entities[j].0, PositionOf(positions, entities[j].1)))
  }

  function TallyOf(positions: map<int, Vec3>, entities: seq<(string, FieldValue)>): Tally
  {
    Tally(entities, Located(positions, entities), entities != [])
  }

  /** Some call has a key that `entities`, or a call before it, already recorded. */
  ghost predicate ClashIn(entities: seq<(string, FieldValue)>, refs: seq<Reference>)
  {
    exists j :: 0 <= j < |refs| && refs[j].Some? && Defines(entities + RecordsOf(refs[..j]), refs[j].value.0)
  }

  /** Some field calls addEntity with a key that `entities`, or a field before it, already
      recorded. */
  ghost predicate ClashesAfter(players: seq<Option<UserInfo>>, entities: seq<(string, FieldValue)>, fields: seq<Field>)
  {
    ClashIn(entities, References(players, fields))
  }

  ghost predicate Clashes(players: seq<Option<UserInfo>>, fields: seq<Field>)
  {
    ClashesAfter(players, [], fields)
  }

  lemma RecordsOfPrefix(refs: seq<Reference>, j: nat)
    requires 1 <= j <= |refs|
    ensures RecordsOf(refs[..j]) == RecordOf(refs[0]) + RecordsOf(refs[1..][..j - 1])
  {
    assert refs[..j][0] == refs[0];
    assert refs[..j][1..] == refs[1..][..j - 1];
  }

  lemma ClashInForward(entities: seq<(string, FieldValue)>, refs: seq<Reference>)
    requires refs != []
    requires refs[0].None? || !Defines(entities, refs[0].value.0)
    requires ClashIn(entities, refs)
    ensures ClashIn(entities + RecordOf(refs[0]), refs[1..])
  {
    var rest := refs[1..];
    var entities' := entities + RecordOf(refs[0]);
    assert refs[..0] == [];
    assert entities + RecordsOf(refs[..0]) == entities;
    var j :| 0 <= j < |refs| && refs[j].Some? && Defines(entities + RecordsOf(refs[..j]), refs[j].value.0);
    if j == 0 {
      assert false;
    } else {
      RecordsOfPrefix(refs, j);
      assert entities + RecordsOf(refs[..j]) == entities' + RecordsOf(rest[..j - 1]);
      assert rest[j - 1] == refs[j];
      assert 0 <= j - 1 < |rest| && rest[j - 1].Some? &&
             Defines(entities' + RecordsOf(rest[..j - 1]), rest[j - 1].value.0);
    }
  }

  lemma ClashInBackward(entities: seq<(string, FieldValue)>, refs: seq<Reference>)
    requires refs != []
    requires ClashIn(entities + RecordOf(refs[0]), refs[1..])
    ensures ClashIn(entities, refs)
  {
    var rest := refs[1..];
    var entities' := entities + RecordOf(refs[0]);
    var j :| 0 <= j < |rest| && rest[j].Some? && Defines(entities' + RecordsOf(rest[..j]), rest[j].value.0);
    RecordsOfPrefix(refs, j + 1);
    assert entities + RecordsOf(refs[..j + 1]) == entities' + RecordsOf(rest[..j]);
    assert refs[j + 1] == rest[j];
    assert 0 <= j + 1 < |refs| && refs[j + 1].Some? &&
           Defines(entities + RecordsOf(refs[..j + 1]), refs[j + 1].value.0);
  }

  /** A first call that does not clash with `entities` can be moved into `entities`. */
  lemma ClashInShift(entities: seq<(string, FieldValue)>, refs: seq<Reference>)
    requires refs != []
    requires refs[0].None? || !Defines(entities, refs[0].value.0)
    ensures ClashIn(entities, refs) <==> ClashIn(entities + RecordOf(refs[0]), refs[1..])
  {
    if ClashIn(entities, refs) {
      ClashInForward(entities, refs);
    }
    if ClashIn(entities + RecordOf(refs[0]), refs[1..]) {
      ClashInBackward(entities, refs);
    }
  }

  /** The loop from any tally of recorded entities on: it fails exactly on a clash, and
      otherwise records every field's entity in field order, each with its last known position. */
  lemma {:induction false} AttributeFrom(players: seq<Option<UserInfo>>, positions: map<int, Vec3>,
                                         entities: seq<(string, FieldValue)>, fields: seq<Field>)
    ensures Attribute(players, positions, TallyOf(positions, entities), fields) ==
            if ClashesAfter(players, entities, fields) then Err(EntityMultiplyDefined)
            else Ok(TallyOf(positions, entities + Recordings(players, fields)))
    decreases |fields|
  {
    if fields == [] {
      assert entities + [] == entities;
    } else {
      var rest := fields[1..];
      var refs := References(players, fields);
      assert refs[1..] == References(players, rest);
      var entities' := entities + RecordOf(refs[0]);
      assert entities + Recordings(players, fields) == entities' + Recordings(players, rest);
      match refs[0]
      case None =>
        assert entities' == entities;
        ClashInShift(entities, refs);
        AttributeFrom(players, positions, entities, rest);
      case Some((key, index)) =>
        if Defines(entities, key) {
          assert refs[..0] == [];
          assert entities + RecordsOf(refs[..0]) == entities;
          assert ClashIn(entities, refs);
        } else {
          assert AddEntity(positions, TallyOf(positions, entities), key, index) == Ok(TallyOf(positions, entities')) by {
            if index.Some? {
              assert Located(positions, entities') ==
                     Located(positions, entities) + [(key, PositionOf(positions, index.value))];
            } else {
              assert entities' == entities;
            }
          }
          ClashInShift(entities, refs);
          AttributeFrom(players, positions, entities', rest);
        }
    }
  }

  /** The handler's loop fails exactly when some field names an entity key an earlier field
      already recorded; otherwise `entities` holds every field's entity in field order,
      `locations` each one's last known position, and `anyEntities` whether there was any. */
  lemma AttributeCharacterised(players: seq<Option<UserInfo>>, positions: map<int, Vec3>, fields: seq<Field>)
    ensures Attribute(players, positions, NoEntities, fields) ==
            if Clashes(players, fields) then Err(EntityMultiplyDefined)
            else Ok(TallyOf(positions, Recordings(players, fields)))
  {
    AttributeFrom(players, positions, [], fields);
    assert TallyOf(positions, []) == NoEntities;
    assert [] + Recordings(players, fields) == Recordings(players, fields);
  }

  lemma {:induction false} RecordsOfMembers(refs: seq<Reference>, key: string, index: FieldValue)
    ensures (key, index) in RecordsOf(refs) <==> exists i :: 0 <= i < |refs| && refs[i] == Some((key, Some(index)))
    decreases |refs|
  {
    if refs != [] {
      var rest := refs[1..];
      RecordsOfMembers(rest, key, index);
      if exists i :: 0 <= i < |rest| && rest[i] == Some((key, Some(index))) {
        var i :| 0 <= i < |rest| && rest[i] == Some((key, Some(index)));
        assert refs[i + 1] == rest[i];
      }
      if exists i :: 0 <= i < |refs| && refs[i] == Some((key, Some(index))) {
        var i :| 0 <= i < |refs| && refs[i] == Some((key, Some(index)));
        if i > 0 {
          assert rest[i - 1] == refs[i];
        }
      }
    }
  }

  /** An entity is recorded exactly when some field refers to it with a defined index. */
  lemma RecordingsMembers(players: seq<Option<UserInfo>>, fields: seq<Field>, key: string, index: FieldValue)
    ensures (key, index) in Recordings(players, fields) <==>
            exists i :: 0 <= i < |fields| && FieldReference(players, fields[i]) == Some((key, Some(index)))
  {
    var refs := References(players, fields);
    RecordsOfMembers(refs, key, index);
    if exists i :: 0 <= i < |refs| && refs[i] == Some((key, Some(index))) {
      var i :| 0 <= i < |refs| && refs[i] == Some((key, Some(index)));
      assert FieldReference(players, fields[i]) == Some((key, Some(index)));
    }
  }

  predicate DistinctKeys(entities: seq<(string, FieldValue)>)
  {
    forall j, k :: 0 <= j < k < |entities| ==> entities[j].0 != entities[k].0
  }

  /** The loop keeps the recorded keys distinct and drawn from RecordedKeys. */
  lemma {:induction false} AttributeKeepsKeys(players: seq<Option<UserInfo>>, positions: map<int, Vec3>, t: Tally, fields: seq<Field>)
    requires DistinctKeys(t.entities)
    requires forall j :: 0 <= j < |t.entities| ==> t.entities[j].0 in RecordedKeys
    ensures Attribute(players, positions, t, fields).Ok? ==>
              var es := Attribute(players, positions, t, fields).value.entities;
              DistinctKeys(es) && forall j :: 0 <= j < |es| ==> es[j].0 in RecordedKeys
    decreases |fields|
  {
    if fields != [] {
      match FieldReference(players, fields[0])
      case None =>
        AttributeKeepsKeys(players, positions, t, fields[1..]);
      case Some((key, index)) =>
        if !Defines(t.entities, key) {
          var t' := AddEntity(positions, t, key, index).value;
          assert forall j :: 0 <= j < |t.entities| ==> t.entities[j].0 != key;
          AttributeKeepsKeys(players, positions, t', fields[1..]);
        }
    }
  }

  function KeySet(entities: seq<(string, FieldValue)>): set<string>
  {
    set j | 0 <= j < |entities| :: entities[j].0
  }

  lemma {:induction false} KeySetSize(entities: seq<(string, FieldValue)>)
    requires DistinctKeys(entities)
    ensures |KeySet(entities)| == |entities|
    decreases |entities|
  {
    if entities != [] {
      var n := |entities| - 1;
      var prefix := entities[..n];
      KeySetSize(prefix);
      assert KeySet(entities) == KeySet(prefix) + {entities[n].0};
      assert entities[n].0 !in KeySet(prefix);
    }
  }

  lemma RecordedKeysCount()
    ensures |RecordedKeys| == 4
  {
    assert "player" != "entity" && "player" != "attacker" && "player" != "assister";
    assert "entity" != "attacker" && "entity" != "assister" && "attacker" != "assister";
  }

  lemma {:induction false} SubsetSize(a: set<string>, b: set<string>)
    requires a <= b
    ensures |a| <= |b|
    decreases |b|
  {
    if a != {} {
      var x :| x in a;
      SubsetSize(a - {x}, b - {x});
    }
  }

  /** Without a clash the recorded keys are distinct and drawn from RecordedKeys, so an event
      records at most four entities. */
  lemma RecordedKeysBounded(players: seq<Option<UserInfo>>, fields: seq<Field>)
    requires !Clashes(players, fields)
    ensures var es := Recordings(players, fields);
            DistinctKeys(es) && (forall j :: 0 <= j < |es| ==> es[j].0 in RecordedKeys) && |es| <= 4
  {
    AttributeCharacterised(players, map[], fields);
    AttributeKeepsKeys(players, map[], NoEntities, fields);
    var es := Recordings(players, fields);
    KeySetSize(es);
    RecordedKeysCount();
    SubsetSize(KeySet(es), RecordedKeys);
  }

  // The row written for an event.

  function FieldJs(v: FieldValue): JsValue
  {
    match v
    case Int(i) => Num(i as real)
    case Float(r) => Num(r)
    case Text(s) => Str(s)
    case Flag(b) => Bool(b)
  }

  function Vec3Js(p: Vec3): JsValue
  {
    Obj([("x", Num(p.x)), ("y", Num(p.y)), ("z", Num(p.z))])
  }

  /** The event's `event` object. */
  function EventJs(e: GameEvent): JsValue
  {
    Obj(seq(|e.fields|, i requires 0 <= i < |e.fields| => (e.fields[i].key, FieldJs(e.fields[i].value))))
  }

  /** The `entities` object. */
  function EntitiesJs(entities: seq<(string, FieldValue)>): JsValue
  {
    Obj(seq(|entities|, j requires 0 <= j < |entities| => (entities[j].0, FieldJs(entities[j].1))))
  }

  /** The `locations` object; an unknown position is an undefined property. */
  function LocationsJs(locations: seq<(string, Option<Vec3>)>): JsValue
  {
    Obj(seq(|locations|, j requires 0 <= j < |locations| =>
          (locations[j].0, match locations[j].1 case Some(p) => Vec3Js(p) case None => Undefined)))
  }

  /** The values written for an event: tick, name, the event object, then `locations` and
      `entities`, or null twice when no entity was recorded. */
  function EventRow(tick: int, e: GameEvent, t: Tally): (r: seq<JsValue>)
    ensures |r| == 5 && r[0] == Num(tick as real) && r[1] == Str(e.name)
    ensures r[3] == Null <==> !t.anyEntities
    ensures r[4] == Null <==> !t.anyEntities
    ensures r[2] == EventJs(e)
    ensures t.anyEntities ==> r[3] == LocationsJs(t.locations) && r[4] == EntitiesJs(t.entities)
  {
    [Num(tick as real), Str(e.name), EventJs(e),
     if t.anyEntities then LocationsJs(t.locations) else Null,
     if t.anyEntities then EntitiesJs(t.entities) else Null]
  }

  /** An event row never makes `writeRow` throw. */
  lemma EventRowWritable(ser: Serialiser, tick: int, e: GameEvent, t: Tally)
    ensures FormatRow(ser, EventRow(tick, e, t)).Ok?
  {
    FormatRowOutcome(ser, EventRow(tick, e, t));
  }

  /** Read back, an event row is five cells: the tick, the name, the event's JSON, then the JSON
      of `locations` and `entities`, or of null twice when no entity was recorded. */
  lemma EventRowReadsBack(ser: Serialiser, tick: int, e: GameEvent, t: Tally)
    requires forall i :: 0 <= i < 5 ==> PlainCell(ser, EventRow(tick, e, t)[i])
    ensures FormatRow(ser, EventRow(tick, e, t)).Ok?
    ensures var line := FormatRow(ser, EventRow(tick, e, t)).value;
            |line| >= 1 && line[|line| - 1] == Newline && Count(line, Tab) == 4 &&
            SplitTabs(line[..|line| - 1]) ==
              [ser.numberToString(tick as real), e.name, ser.stringify(EventJs(e)),
               ser.stringify(if t.anyEntities then LocationsJs(t.locations) else Null),
               ser.stringify(if t.anyEntities then EntitiesJs(t.entities) else Null)]
  {
    var row := EventRow(tick, e, t);
    FormatRowReadsBack(ser, row);
  }
}
