/** The records the demo parser passes to the importer's callbacks. */
module DemoRecords {
  import opened Wrappers

  /** A game-event field value, by the type its event descriptor declares
      (byte, short and long are `Int`, float is `Float`, string is `Text`, bool is `Flag`). */
  datatype FieldValue = Int(i: int) | Float(r: real) | Text(s: string) | Flag(b: bool)

  /** One own property of a game event's `event` object, in property order. */
  datatype Field = Field(key: string, value: FieldValue)

  /** A game event: its `name` and its `event` object. */
  datatype GameEvent = GameEvent(name: string, fields: seq<Field>)

  /** A world-space position `{x, y, z}`. */
  datatype Vec3 = Vec3(x: real, y: real, z: real)

  /** A decoded entity property value, by send-table type. */
  datatype PropValue =
    | IntProp(i: int)
    | FloatProp(r: real)
    | Vector(v: Vec3)
    | VectorXY(x: real, y: real)
    | TextProp(s: string)
    | ArrayProp(items: seq<PropValue>)

  /** An entity as the change event carries it: its index and its current properties,
      keyed by `<table>.<variable>`. */
  datatype EntityState = EntityState(index: int, props: map<string, PropValue>)

  /** An entity property change; `newValue` is `None` when it is null or undefined. */
  datatype ChangeEvent = ChangeEvent(entity: EntityState, tableName: string, varName: string, newValue: Option<PropValue>)

  /** The `userData` of a `userinfo` string-table entry; only `userId` is read. */
  datatype UserInfo = UserInfo(userId: int, name: string)

  /** `entity.getProp(table, name)`: the property's current value, `None` when undefined. */
  function GetProp(entity: EntityState, table: string, name: string): Option<PropValue>
  {
    var full := table + "." + name;
    if full in entity.props then Some(entity.props[full]) else None
  }
}
