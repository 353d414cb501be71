# CSGO demo importer: a Dafny model

This project models the core of `importDemoBuffer` in `clustering/importToFile.js`. That
function hooks into a CSGO demo parser and turns the parser's callbacks into rows:

- **String-table updates.** A `userinfo` entry fills the `players` table. Its slot plus one
  is the entity index of that user.
- **Entity property changes.** Skipped props are dropped. A change to a position prop
  rebuilds the entity's position, either from the engine's cell encoding (`coordFromCell`)
  or from the local player's exact origin. It records that position in `entityPositions`.
  Every change that is not dropped, a position included, is then buffered in
  `bufferedEntityUpdates` under its entity index and prop name. A rebuilt position is
  buffered under the name "position".
- **Game events.** The event's keys are normalised to `player`, `entity`, `attacker` and
  `assister`. A user id is resolved to an entity index. Passing a key that an earlier field
  already recorded is an assertion failure, even when the index passed is undefined. The event is written as one TSV row by `writeRow`: tick, name, the event, the
  entities' locations and the entities.

Module layout, following the source function by function:

- `Wrappers`, `ImportErrors`: Option, Result and Outcome, and the three ways the importer
  throws (an entity key defined twice, a null new value, a value `writeRow` cannot serialise).
- `JsValues`: the JavaScript values a row is made of, and `typeof`.
- `Tsv`: `writeRow` as `FormatRow`, with its error case and its read-back property.
- `DemoRecords`: the records the parser hands to the callbacks.
- `Players`: the `players` table, `entityIndexOfUserId`, and the string-table update.
- `CellCoords`: `coordFromCell` and its inverse.
- `EntityChanges`: the entity-change handler as a function on the handler's state, the state
  invariant it keeps, and last-write-wins lemmas over any sequence of changes.
- `GameEvents`: key normalisation, `addEntity`, the loop over an event's fields (a method
  proved equal to a recursive definition), and a characterisation of that loop's result.
- `Importer`: the class `DemoImporter`, whose fields are the closure's mutable variables and
  whose methods are the callbacks, each proved against the functions above.

`JSON.stringify` and JavaScript's number-to-string conversion are not interpreted. They are
the two function fields of `Tsv.Serialiser`, and every property about rows holds for any
choice of them.

Two details of the code the model keeps:

- The entity-update flush is commented out (lines 66-73 and 116), so nothing is ever
  written from the buffer. The model only accumulates it.
- `players` is created with 256 slots (line 34). A write past the end grows it (line 309), as
  a JavaScript array does.

## Model

| member | source | states |
|---|---|---|
| Players.HoldsUser | clustering/importToFile.js:55 | the definition of `player && player.userId === userId`: the slot is filled and its user id is strictly equal to the value |
| Players.FindSlot | clustering/importToFile.js:55 | the first slot from `from` on whose user id is strictly equal to the value, or none exactly when no slot matches |
| Players.EntityIndexOfUserId | clustering/importToFile.js:54-61 | a result i lies in 1..\|players\|, slot i-1 holds the user and no earlier slot does; the result is undefined exactly when no slot holds the user |
| Players.StoreSlot | clustering/importToFile.js:309 | the entry is written at its index; the table grows to index+1 with empty slots when the index is past the end; every other slot is unchanged |
| Players.LookupAfterStore | clustering/importToFile.js:54-61 | after storing a user at slot i, looking up its id finds a slot at most i, and finds slot i exactly when no earlier slot held that id |
| Players.UpdatedPlayers | clustering/importToFile.js:304-310 | only a `userinfo` entry with user data changes the table; that entry is then at its index; a write past the end grows the table to exactly index+1 with empty slots in between; other slots keep their users |
| CellCoords.CoordFromCell | clustering/importToFile.js:157-162 | the definition of `coordFromCell`: the cell times 1 << 5, minus 16384, plus the offset |
| CellCoords.CellOf | clustering/importToFile.js:157-162 | every world coordinate is a cell plus an offset in [0, 32), and `coordFromCell` maps that pair back to the coordinate |
| CellCoords.CellOfCoordFromCell | clustering/importToFile.js:157-162 | with an offset inside a cell, the (cell, offset) pair is recovered from its coordinate, so the encoding is one-to-one |
| CellCoords.CoordFromCellStep | clustering/importToFile.js:161 | moving one cell along moves the coordinate by 1 << CELL_BITS = 32 units |
| CellCoords.CoordFromCellOrigin | clustering/importToFile.js:158-161 | the world origin is the start of cell 512, the middle of the 1024 cells |
| CellCoords.CoordFromCellRange | clustering/importToFile.js:157-162 | with an offset inside a cell, the cell lies in 0..1023 exactly when the coordinate lies in [-16384, 16384) |
| EntityChanges.CellPosition | clustering/importToFile.js:177-190 | the position is defined exactly when cellX, cellY, cellZ and the in-cell offset are, and is then `coordFromCell` of each cell with the matching offset |
| EntityChanges.EffectOf | clustering/importToFile.js:164-223 | the definition of what one change does: skipped, a null value, dropped, or buffered under a prop name with a value and maybe a new position |
| EntityChanges.ApplyChange | clustering/importToFile.js:186-233 | the definition of the handler's new `entityPositions` and `bufferedEntityUpdates` after one change |
| EntityChanges.EffectCases | clustering/importToFile.js:164-223 | a skip prop changes nothing; a null value is the assertion failure; a cell-position prop is buffered as "position" with `CellPosition` exactly when that is defined, and dropped otherwise; a local-origin prop is buffered as "position" with the x/y of the vector and the z of the float when both are there, and dropped otherwise; any other prop is buffered under its full name with its new value and no position |
| EntityChanges.MissingCellPropDropsChange | clustering/importToFile.js:174-184 | a cell-position change while cellX, cellY, cellZ or the offset is undefined leaves both the positions and the buffer unchanged |
| EntityChanges.FullPropNameIsNotPosition | clustering/importToFile.js:171 | a `table.var` name is never "position", so ordinary props never land on a buffered position |
| EntityChanges.ApplyChangeConsistent | clustering/importToFile.js:186-233 | each change preserves the invariant: every buffered row sits under its own (index, prop) key, and a buffered position equals the entity's entry in `entityPositions` |
| EntityChanges.ApplyChangesConsistent | clustering/importToFile.js:164-234 | the invariant holds after any sequence of changes |
| EntityChanges.BufferLastWriteWins | clustering/importToFile.js:225-233 | after a sequence of changes, the row under a key is the row of the last change that wrote that key |
| EntityChanges.BufferUntouched | clustering/importToFile.js:225-233 | a key no change in the sequence wrote keeps its earlier row, or stays absent |
| EntityChanges.PositionLastWriteWins | clustering/importToFile.js:192-222 | after a sequence of changes, an entity's last known position is the one its last position change gave it |
| EntityChanges.PositionUntouched | clustering/importToFile.js:192-222 | an entity no change in the sequence moved keeps its earlier position, or stays unknown |
| GameEvents.NormaliseKey | clustering/importToFile.js:260-283 | an entity index is recorded only as `player` or `entity`; a user id only as `player`, `attacker` or `assister` |
| GameEvents.NormaliseKeyTable | clustering/importToFile.js:260-283 | exactly thirteen keys name an entity, and the table says which key each is recorded under and whether its value is an entity index or a user id |
| GameEvents.AtMostZero | clustering/importToFile.js:256 | the definition of `value <= 0` on numbers and booleans |
| GameEvents.PositionOf | clustering/importToFile.js:250 | the definition of `entityPositions[index]`: the last known position of the entity an integral index names |
| GameEvents.FieldReference | clustering/importToFile.js:255-285 | a field calls addEntity exactly when its value is positive and its key is recognised, under the normalised key; a direct key passes the value itself; a user-id key passes the entity index of the first slot holding that user, and an undefined index exactly when no slot holds the user |
| GameEvents.AddEntity | clustering/importToFile.js:241-253 | fails exactly when the key is already defined; otherwise an undefined index changes nothing, and a defined one appends the key and index to `entities`, the key and that entity's position to `locations`, and sets `anyEntities` |
| GameEvents.Attribute | clustering/importToFile.js:255-286 | the definition of the `_.forOwn` loop: addEntity per field in order, stopping at the first failure |
| GameEvents.AttributeEntities | clustering/importToFile.js:236-286 | the loop over the event's fields computes the recursive definition of that loop: addEntity per field, stopping at the first key defined twice |
| GameEvents.AttributeCharacterised | clustering/importToFile.js:241-286 | the loop fails exactly when some field names a key an earlier field recorded; otherwise `entities` holds every field's entity in field order, `locations` each one's last known position, and `anyEntities` whether there was any |
| GameEvents.RecordingsMembers | clustering/importToFile.js:241-285 | an entity is recorded under a key exactly when some field refers to it under that key with a defined index |
| GameEvents.RecordedKeysBounded | clustering/importToFile.js:241-285 | without a clash the recorded keys are distinct and drawn from the four, so an event records at most four entities |
| GameEvents.EventRow | clustering/importToFile.js:288-294 | five values: the tick, the name, the event, then `locations` and `entities` when an entity was recorded, or null in both places exactly when none was |
| GameEvents.EventRowWritable | clustering/importToFile.js:288-294 | the row written for an event never makes `writeRow` throw |
| GameEvents.EventRowReadsBack | clustering/importToFile.js:288-294 | when no cell contains a tab or newline, an event's line splits back into the tick, the name, and the JSON of the event, of the locations and of the entities (or of null twice when no entity was recorded) |
| JsValues.TypeOf | clustering/importToFile.js:85 | the definition of `typeof` on the values a row is made of: null, arrays and objects are "object" |
| Tsv.Cell | clustering/importToFile.js:84-93 | the definition of one cell: JSON for an object, the string itself, the printed number, or the serialisation error |
| Tsv.Cells | clustering/importToFile.js:84-93 | the definition of the `map`, failing at the first value that has no cell |
| Tsv.JoinTabs | clustering/importToFile.js:94 | the definition of `join('\t')` |
| Tsv.FormatRow | clustering/importToFile.js:84-96 | the definition of the line `writeRow` writes: the joined cells and a newline, or the serialisation error |
| Tsv.CellOk | clustering/importToFile.js:84-93 | a value has a cell exactly when its `typeof` is object, string or number; otherwise the error names its type |
| Tsv.CellsOutcome | clustering/importToFile.js:84-93 | the map throws exactly when some value cannot be serialised, and then with the type of the first such value; otherwise the i-th cell is the i-th value's text |
| Tsv.FormatRowOutcome | clustering/importToFile.js:80-98 | `writeRow` fails exactly when some value is not serialisable, naming the type of the first one |
| Tsv.FormatRowReadsBack | clustering/importToFile.js:80-98 | when no cell contains a tab or newline, the line has n-1 tabs and one newline at its end, and splitting it at its tabs gives back each value's text in order |
| Importer.DemoImporter.constructor | clustering/importToFile.js:34-39 | 256 empty player slots, no positions, an empty buffer and an empty event stream, with the state invariant holding |
| Importer.DemoImporter.WriteRow | clustering/importToFile.js:80-98 | appends exactly the formatted line to the event stream, or fails with the serialisation error and writes nothing |
| Importer.DemoImporter.OnStringTableUpdate | clustering/importToFile.js:304-310 | the new players table is `UpdatedPlayers` of the old one, and the state invariant is kept |
| Importer.DemoImporter.OnEntityChange | clustering/importToFile.js:164-234 | fails exactly on a null new value of a prop that is not skipped; the new positions and buffer are `ApplyChange` of the old ones; the state invariant is kept |
| Importer.DemoImporter.OnGameEvent | clustering/importToFile.js:236-302 | fails exactly when the event defines a key twice, and then writes nothing; otherwise appends the event's row, built from its characterised entities and locations |

## Left out

- The command-line wiring around the handlers is left out because it is I/O: `importDemoFile`, Postgres, `fs.readFile`, the `DE_DUST2` check and the promise chain.
- The parser's `start`, `tickend` and `end` handlers are left out because all they do is I/O or asynchronous work. They drive the progress bar and logging, close the streams, delete the deferred temp file (line 139) and call the completion callback (line 146). The flush they would trigger is commented out.
- `tickInterval`, `ENTITY_UPDATE_TIME_INTERVAL` and `lastEntityUpdateFlushTick` are left out. `tickInterval` is computed and logged at start (lines 105-106). All three are read by the flush condition at line 115, whose body is commented out, so they decide nothing.
- `flushAccumulatedEntityUpdates`, `entityPropStream` and `tempDeferredFilename` are left out: the function is commented out and nothing is ever written to the stream.
- The XXHash of `index + fullPropName` is replaced by the pair (index, full prop name). A hash collision between different pairs is therefore not modelled.
- `JSON.stringify` and JavaScript's number-to-string conversion are not interpreted. The row properties hold for any pair of such functions.
- Positions and offsets are exact reals. IEEE floating-point rounding is not modelled.
- The order of JavaScript object keys is taken to be insertion order. JavaScript puts integer-like keys first; event keys are never integer-like.
- Console output for an unknown entity index is left out because it is I/O.
- GameEvents.AtMostZero: a string value is taken never to be at most zero. Under `player`, `entindex`, `index` or `entityid` it is recorded as the entity, with no known position; under a user-id key it matches no slot. JavaScript compares the empty string and numeric strings in `value <= 0` as numbers; that coercion is not modelled.
- GameEvents.PositionOf: a non-integral number, a boolean or a string names no known position. JavaScript's string conversion of property keys is not modelled.
- EntityChanges.EffectOf: a position prop whose value does not have the type the parser's send tables give it (a cell that is not an integer, an origin that is not a vector, a z that is not a float) is treated as undefined. JavaScript would build the position object with undefined or coerced parts instead.
