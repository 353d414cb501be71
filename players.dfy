/** The `players` table: one slot per `userinfo` string-table entry, and the lookup from a
    user id to an entity index. */
module Players {
  import opened Wrappers
  import opened DemoRecords

  /** The length `players` is created with (`new Array(256)`). */
  const InitialSlots: nat := 256

  function EmptySlots(): seq<Option<UserInfo>>
  {
    seq(InitialSlots, _ => None)
  }

  /** `player && player.userId === value`: the slot is filled and its user id is strictly
      equal to the value (a string or a boolean never is). */
  predicate HoldsUser(slot: Option<UserInfo>, value: FieldValue)
  {
    slot.Some? &&
    match value
    case Int(i) => i == slot.value.userId
    case Float(r) => r == slot.value.userId as real
    case _ => false
  }

  /** `players.findIndex(...)` started at `from`: the first slot holding the user. */
  function FindSlot(players: seq<Option<UserInfo>>, value: FieldValue, from: nat): (r: Option<nat>)
    requires from <= |players|
    ensures r.Some? ==> from <= r.value < |players| && HoldsUser(players[r.value], value) &&
                        forall j :: from <= j < r.value ==> !HoldsUser(players[j], value)
    ensures r.None? <==> forall j :: from <= j < |players| ==> !HoldsUser(players[j], value)
    decreases |players| - from
  {
    if from == |players| then None
    else if HoldsUser(players[from], value) then Some(from)
    else FindSlot(players, value, from + 1)
  }

  /** `entityIndexOfUserId`: the entity index of a user is its first slot plus one; with no
      slot holding it the result is undefined. */
  function EntityIndexOfUserId(players: seq<Option<UserInfo>>, value: FieldValue): (r: Option<nat>)
    ensures r.Some? ==> 1 <= r.value <= |players| && HoldsUser(players[r.value - 1], value) &&
                        forall j :: 0 <= j < r.value - 1 ==> !HoldsUser(players[j], value)
    ensures r.None? <==> forall j :: 0 <= j < |players| ==> !HoldsUser(players[j], value)
  {
    match FindSlot(players, value, 0)
    case Some(slot) => Some(slot + 1)
    case None => None
  }

  /** `players[entryIndex] = userData`: writing past the end of a JavaScript array grows it,
      leaving empty slots in between. */
  function StoreSlot(players: seq<Option<UserInfo>>, entryIndex: nat, user: UserInfo): (r: seq<Option<UserInfo>>)
    ensures |r| == if entryIndex < |players| then |players| else entryIndex + 1
    ensures r[entryIndex] == Some(user)
    ensures forall j :: 0 <= j < |r| && j != entryIndex ==>
              r[j] == if j < |players| then players[j] else None
  {
    if entryIndex < |players| then players[entryIndex := Some(user)]
    else players + seq(entryIndex - |players|, _ => None) + [Some(user)]
  }

  /** After a user is stored in slot i, looking its id up finds slot i or an earlier slot, and
      finds slot i exactly when no earlier slot holds the same id. */
  lemma LookupAfterStore(players: seq<Option<UserInfo>>, entryIndex: nat, user: UserInfo)
    ensures var r := EntityIndexOfUserId(StoreSlot(players, entryIndex, user), Int(user.userId));
            r.Some? && r.value <= entryIndex + 1 &&
            (r == Some(entryIndex + 1) <==>
               forall j :: 0 <= j < entryIndex && j < |players| ==> !HoldsUser(players[j], Int(user.userId)))
  {
    var stored := StoreSlot(players, entryIndex, user);
    var v := Int(user.userId);
    assert HoldsUser(stored[entryIndex], v);
    var r := EntityIndexOfUserId(stored, v);
    if forall j :: 0 <= j < entryIndex && j < |players| ==> !HoldsUser(players[j], v) {
      forall j | 0 <= j < entryIndex
        ensures !HoldsUser(stored[j], v)
      {
        if j >= |players| { assert stored[j] == None; }
      }
    } else {
      var j :| 0 <= j < entryIndex && j < |players| && HoldsUser(players[j], v);
      assert stored[j] == players[j];
    }
  }

  /** The string-table handler's update: only a `userinfo` entry with user data fills a slot. */
  function UpdatedPlayers(players: seq<Option<UserInfo>>, tableName: string, entryIndex: nat,
                          userData: Option<UserInfo>): (r: seq<Option<UserInfo>>)
    ensures tableName != "userinfo" || userData.None? ==> r == players
    ensures |r| >= |players|
    ensures tableName == "userinfo" && userData.Some? ==> entryIndex < |r| && r[entryIndex] == userData
    ensures entryIndex < |players| ==> |r| == |players|
    ensures tableName == "userinfo" && userData.Some? && |players| <= entryIndex ==>
              |r| == entryIndex + 1 && forall j :: |players| <= j < entryIndex ==> r[j] == None
    ensures forall j :: 0 <= j < |players| && j != entryIndex ==> r[j] == players[j]
  {
    if tableName != "userinfo" || userData.None? then players
    else StoreSlot(players, entryIndex, userData.value)
  }
}
