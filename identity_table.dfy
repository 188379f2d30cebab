/**
 * The identity table of a server and what `applyAction`, `lookup`,
 * `reverseLookup` and `get` (src/Server/IdServer.java) do with it, as values.
 * The server class applies these to its own table.
 */
module IdentityTables {

  import opened Wrappers
  import opened ErrorTypes
  import opened ServerResponses
  import opened Actions
  import opened LoginInfos

  /** The table and the response after one `applyAction`. */
  datatype Applied = Applied(table: Table, response: ServerResponse)

  /** Whether `applyAction` gets past its checks, so that it changes the table. */
  predicate Accepts(table: Table, action: Action)
  {
    match action.kind
    case CREATE => action.loginName !in table
    case MODIFY =>
      && action.loginName in table
      && table[action.loginName].password == action.password
      && action.data.value !in table
    case DELETE =>
      action.loginName in table && table[action.loginName].password == action.password
  }

  /**
   * `applyAction`'s effect on the table. `uuid` and `now` stand for
   * `UUID.randomUUID()` and `new Date()` in the record a CREATE makes, and
   * `creatorIpAddr` for the `getClientHost()` answer (null when there is no
   * remote caller).
   */
  function Apply(table: Table, action: Action, uuid: string, now: Date,
                 creatorIpAddr: Option<string>): Applied
  {
    match action.kind
    case CREATE =>
      if action.loginName in table then Applied(table, ErrorResponse(NameCollision))
      else
        var info := NewLoginInfo(action.loginName, action.data, action.password, creatorIpAddr, uuid, now);
        Applied(table[action.loginName := info], TextResponse(uuid))
    case MODIFY =>
      var oldName, newName := action.loginName, action.data.value;
      if oldName !in table then Applied(table, ErrorResponse(NoSuchUser))
      else if table[oldName].password != action.password then Applied(table, ErrorResponse(IncorrectPassword))
      else if newName in table then Applied(table, ErrorResponse(NameCollision))
      else Applied((table - {oldName})[newName := ChangeLoginName(table[oldName], newName)], ErrorResponse(NoError))
    case DELETE =>
      var name := action.loginName;
      if name !in table then Applied(table, ErrorResponse(NoSuchUser))
      else if table[name].password != action.password then Applied(table, ErrorResponse(IncorrectPassword))
      else Applied(table - {name}, ErrorResponse(NoError))
  }

  /**
   * An action is accepted exactly when its response carries no error, and a
   * rejected action leaves the table as it was.
   */
  lemma RejectionChangesNothing(table: Table, action: Action, uuid: string, now: Date,
                                creatorIpAddr: Option<string>)
    ensures var r := Apply(table, action, uuid, now, creatorIpAddr);
      && (Accepts(table, action) <==> r.response.error == NoError)
      && (!Accepts(table, action) ==> r.table == table && r.response.responseText == "")
  {
  }

  /**
   * CREATE of a taken name is a NAME_COLLISION. Otherwise it adds exactly that
   * key, mapped to a new record with that login name and the given real name,
   * password, creator address and uuid, and answers with the uuid.
   */
  lemma CreateAddsExactlyOneRecord(table: Table, action: Action, uuid: string, now: Date,
                                   creatorIpAddr: Option<string>)
    requires action.kind == CREATE
    ensures var r := Apply(table, action, uuid, now, creatorIpAddr);
      && (action.loginName in table ==> r == Applied(table, ErrorResponse(NameCollision)))
      && (action.loginName !in table ==>
        && r.table.Keys == table.Keys + {action.loginName}
        && (forall k :: k in table ==> r.table[k] == table[k])
        && r.table[action.loginName].loginName == action.loginName
        && r.table[action.loginName].realName == action.data
        && r.table[action.loginName].password == action.password
        && r.table[action.loginName].creatorIpAddr == creatorIpAddr
        && r.table[action.loginName].uuid == uuid
        && r.table[action.loginName].lastChangeDate == r.table[action.loginName].createdDate
        && r.response == ServerResponse(uuid, NoError))
  {
  }

  /**
   * MODIFY checks, in this order, that the old name exists, that the password
   * matches the stored one and that the new name is free; the first check that
   * fails decides the error.
   */
  lemma ModifyChecksInOrder(table: Table, action: Action, uuid: string, now: Date,
                            creatorIpAddr: Option<string>)
    requires action.kind == MODIFY
    ensures var r := Apply(table, action, uuid, now, creatorIpAddr);
      var oldName, newName := action.loginName, action.data.value;
      && (r.response.error == NoSuchUser <==> oldName !in table)
      && (r.response.error == IncorrectPassword <==>
            oldName in table && table[oldName].password != action.password)
      && (r.response.error == NameCollision <==>
            oldName in table && table[oldName].password == action.password && newName in table)
      && (r.response.error != NoError ==> r.table == table)
  {
  }

  /**
   * A successful MODIFY moves the record from the old key to the new one and
   * changes only its login name; every other key keeps its record.
   */
  lemma ModifyRenamesOnlyTheLoginName(table: Table, action: Action, uuid: string, now: Date,
                                       creatorIpAddr: Option<string>)
    requires action.kind == MODIFY && Accepts(table, action)
    ensures var r := Apply(table, action, uuid, now, creatorIpAddr);
      var oldName, newName := action.loginName, action.data.value;
      && r.response == ServerResponse("", NoError)
      && r.table.Keys == table.Keys - {oldName} + {newName}
      && r.table[newName].loginName == newName
      && SameFinalFields(r.table[newName], table[oldName])
      && (forall k :: k in table && k != oldName ==> r.table[k] == table[k])
  {
  }

  /** Renaming a user to its own name is reported as a NAME_COLLISION. */
  lemma ModifyToSameNameCollides(table: Table, action: Action, uuid: string, now: Date,
                                 creatorIpAddr: Option<string>)
    requires action.kind == MODIFY && action.data == Some(action.loginName)
    requires action.loginName in table && table[action.loginName].password == action.password
    ensures Apply(table, action, uuid, now, creatorIpAddr) == Applied(table, ErrorResponse(NameCollision))
  {
  }

  /**
   * DELETE reports a missing user before a wrong password; on success it
   * removes exactly that key.
   */
  lemma DeleteRemovesExactlyOneKey(table: Table, action: Action, uuid: string, now: Date,
                                   creatorIpAddr: Option<string>)
    requires action.kind == DELETE
    ensures var r := Apply(table, action, uuid, now, creatorIpAddr);
      var name := action.loginName;
      && (r.response.error == NoSuchUser <==> name !in table)
      && (r.response.error == IncorrectPassword <==> name in table && table[name].password != action.password)
      && (r.response.error != NoError ==> r.table == table)
      && (r.response.error == NoError ==>
            r.table.Keys == table.Keys - {name} && forall k :: k in r.table ==> r.table[k] == table[k])
  {
  }

  /** Every record is stored under its own login name. */
  predicate KeyedByLoginName(table: Table)
  {
    forall k :: k in table ==> table[k].loginName == k
  }

  /** No two records share a uuid. */
  predicate DistinctUuids(table: Table)
  {
    forall k, k' :: k in table && k' in table && k != k' ==> table[k].uuid != table[k'].uuid
  }

  predicate UuidIsFresh(table: Table, uuid: string)
  {
    forall k :: k in table ==> table[k].uuid != uuid
  }

  /**
   * `applyAction` keeps every record under its own login name, and keeps
   * uuids distinct when the uuid it draws is fresh. That it never changes the
   * final fields of a record it keeps is `ApplyKeepsUuids` together with
   * `ModifyRenamesOnlyTheLoginName`.
   */
  lemma ApplyKeepsTableInvariants(table: Table, action: Action, uuid: string, now: Date,
                                  creatorIpAddr: Option<string>)
    ensures var r := Apply(table, action, uuid, now, creatorIpAddr);
      && (KeyedByLoginName(table) ==> KeyedByLoginName(r.table))
      && (DistinctUuids(table) && UuidIsFresh(table, uuid) ==> DistinctUuids(r.table))
  {
    var r := Apply(table, action, uuid, now, creatorIpAddr);
    if DistinctUuids(table) && UuidIsFresh(table, uuid) && action.kind == MODIFY && Accepts(table, action) {
      var oldName, newName := action.loginName, action.data.value;
      forall k, k' | k in r.table && k' in r.table && k != k' ensures r.table[k].uuid != r.table[k'].uuid {
        var o := if k == newName then oldName else k;
        var o' := if k' == newName then oldName else k';
        assert r.table[k].uuid == table[o].uuid && r.table[k'].uuid == table[o'].uuid;
      }
    }
  }

  /**
   * Every record that survives an action keeps its uuid: the record under a
   * key that is still there is the old one, or the renamed one of a MODIFY.
   */
  lemma ApplyKeepsUuids(table: Table, action: Action, uuid: string, now: Date,
                        creatorIpAddr: Option<string>)
    ensures var r := Apply(table, action, uuid, now, creatorIpAddr);
      forall k :: k in r.table && k in table && !(action.kind == MODIFY && k == action.data.value) ==>
        r.table[k] == table[k]
  {
  }

  // ---------------------------------------------------------------------------
  // Read-only queries. The table is a hash map whose iteration order the
  // source does not fix: `order` is that order, a listing of the keys.

  /** `order` lists each key of `keys` exactly once. */
  predicate Enumerates(order: seq<string>, keys: set<string>)
  {
    && (forall i :: 0 <= i < |order| ==> order[i] in keys)
    && (forall k :: k in keys ==> k in order)
    && (forall i, j :: 0 <= i < j < |order| ==> order[i] != order[j])
  }

  /** `lookup`. */
  function LookupIn(table: Table, loginName: string): ServerResponse
  {
    if loginName !in table then ErrorResponse(NoSuchUser) else TextResponse(ToString(table[loginName]))
  }

  /**
   * `lookup` fails with NO_SUCH_USER exactly when the name is not a key, and
   * otherwise answers with the printed record stored under it.
   */
  lemma LookupFindsTheRecord(table: Table, loginName: string)
    ensures LookupIn(table, loginName).error == NoSuchUser <==> loginName !in table
    ensures loginName in table ==> LookupIn(table, loginName) == ServerResponse(ToString(table[loginName]), NoError)
  {
  }

  /** The records of the keys of `order` that are in the table, in that order. */
  function RecordsInOrder(table: Table, order: seq<string>): (r: seq<LoginInfo>)
    ensures |r| <= |order|
  {
    if order == [] then []
    else (if order[0] in table then [table[order[0]]] else []) + RecordsInOrder(table, order[1..])
  }

  /**
   * The index of the first record with the given uuid, the
   * `filter(...).findFirst()` of `reverseLookup`.
   */
  function FirstWithUuid(records: seq<LoginInfo>, uuid: string): (r: Option<nat>)
    ensures r.None? <==> forall i :: 0 <= i < |records| ==> records[i].uuid != uuid
    ensures r.Some? ==>
      && r.value < |records| && records[r.value].uuid == uuid
      && forall j :: 0 <= j < r.value ==> records[j].uuid != uuid
    decreases |records|, 1
  {
    if records == [] then None
    else if records[0].uuid == uuid then Some(0)
    else
      var r := FindRest(records, uuid);
      if r.None? then None else Some(r.value + 1)
  }

  /** The search among all records but the first, with its result read on `records`. */
  function FindRest(records: seq<LoginInfo>, uuid: string): (r: Option<nat>)
    requires records != []
    ensures r.None? <==> forall i :: 1 <= i < |records| ==> records[i].uuid != uuid
    ensures r.Some? ==>
      && r.value + 1 < |records| && records[r.value + 1].uuid == uuid
      && forall j :: 1 <= j < r.value + 1 ==> records[j].uuid != uuid
    decreases |records|, 0
  {
    assert forall i :: 1 <= i < |records| ==> records[i] == records[1..][i - 1];
    FirstWithUuid(records[1..], uuid)
  }

  /** `reverseLookup`. */
  function ReverseLookupIn(table: Table, order: seq<string>, uuid: string): ServerResponse
  {
    var records := RecordsInOrder(table, order);
    match FirstWithUuid(records, uuid)
    case None => ErrorResponse(NoSuchUser)
    case Some(i) => TextResponse(ToString(records[i]))
  }

  lemma {:induction false} RecordsInOrderMembers(table: Table, order: seq<string>)
    ensures forall x :: x in RecordsInOrder(table, order) <==> exists k :: k in order && k in table && table[k] == x
  {
    if order != [] {
      RecordsInOrderMembers(table, order[1..]);
      assert forall k :: k in order <==> k == order[0] || k in order[1..];
    }
  }

  /**
   * With `order` listing the table's keys, `reverseLookup` fails exactly when
   * no record has the uuid, and otherwise prints a record that has it.
   */
  lemma ReverseLookupFindsTheRecord(table: Table, order: seq<string>, uuid: string)
    requires Enumerates(order, table.Keys)
    ensures UuidIsFresh(table, uuid) ==> ReverseLookupIn(table, order, uuid) == ErrorResponse(NoSuchUser)
    ensures !UuidIsFresh(table, uuid) ==>
      exists k :: k in table && table[k].uuid == uuid
        && ReverseLookupIn(table, order, uuid) == TextResponse(ToString(table[k]))
  {
    RecordsInOrderMembers(table, order);
    var records := RecordsInOrder(table, order);
    if UuidIsFresh(table, uuid) {
      forall i | 0 <= i < |records| ensures records[i].uuid != uuid {
        assert records[i] in records;
      }
    } else {
      var k :| k in table && table[k].uuid == uuid;
      assert table[k] in records;
      var i :| 0 <= i < |records| && records[i] == table[k];
      var found := FirstWithUuid(records, uuid).value;
      assert records[found] in records;
    }
  }

  /** When uuids are distinct, `reverseLookup` does not depend on the iteration order. */
  lemma ReverseLookupIgnoresOrder(table: Table, order: seq<string>, order': seq<string>, uuid: string)
    requires Enumerates(order, table.Keys) && Enumerates(order', table.Keys) && DistinctUuids(table)
    ensures ReverseLookupIn(table, order, uuid) == ReverseLookupIn(table, order', uuid)
  {
    ReverseLookupFindsTheRecord(table, order, uuid);
    ReverseLookupFindsTheRecord(table, order', uuid);
  }

  /** Java's `AbstractCollection.toString`: the items, comma-separated, in brackets. */
  function ListText(items: seq<string>): string
  {
    "[" + Joined(items) + "]"
  }

  function Joined(items: seq<string>): string
  {
    if items == [] then "" else if |items| == 1 then items[0] else items[0] + ", " + Joined(items[1..])
  }

  /** The keys of `order` that are in the table. */
  function PresentKeys(table: Table, order: seq<string>): (r: seq<string>)
    ensures forall i :: 0 <= i < |r| ==> r[i] in table
  {
    if order == [] then []
    else (if order[0] in table then [order[0]] else []) + PresentKeys(table, order[1..])
  }

  function UuidsOf(records: seq<LoginInfo>): (r: seq<string>)
    ensures |r| == |records| && forall i :: 0 <= i < |records| ==> r[i] == records[i].uuid
  {
    if records == [] then [] else [records[0].uuid] + UuidsOf(records[1..])
  }

  /** `key=value`, as `AbstractMap.toString` prints one entry. */
  function EntryText(table: Table, key: string): string
    requires key in table
  {
    key + "=" + ToString(table[key])
  }

  /** The printed entry of each key, in order. */
  function EntryTexts(table: Table, keys: seq<string>): (r: seq<string>)
    requires forall i :: 0 <= i < |keys| ==> keys[i] in table
    ensures |r| == |keys|
  {
    if keys == [] then [] else [EntryText(table, keys[0])] + EntryTexts(table, keys[1..])
  }

  /** Entry `i` of the listing is the printed entry of key `i`. */
  lemma {:induction false} EntryTextsAreTheEntries(table: Table, keys: seq<string>)
    requires forall i :: 0 <= i < |keys| ==> keys[i] in table
    ensures forall i :: 0 <= i < |keys| ==> EntryTexts(table, keys)[i] == EntryText(table, keys[i])
  {
    if keys != [] {
      EntryTextsAreTheEntries(table, keys[1..]);
      forall i | 1 <= i < |keys| ensures EntryTexts(table, keys)[i] == EntryText(table, keys[i]) {
        assert keys[1..][i - 1] == keys[i];
      }
    }
  }

  /** `get`: the selectors "users", "uuids" and "all"; anything else is malformed. */
  function GetIn(table: Table, order: seq<string>, whatToGet: string): ServerResponse
  {
    var keys := PresentKeys(table, order);
    if whatToGet == "users" then TextResponse(ListText(keys))
    else if whatToGet == "uuids" then TextResponse(ListText(UuidsOf(RecordsInOrder(table, order))))
    else if whatToGet == "all" then TextResponse("{" + Joined(EntryTexts(table, keys)) + "}")
    else ErrorResponse(MalformedInput)
  }

  lemma {:induction false} PresentKeysOfListing(table: Table, order: seq<string>)
    requires forall i :: 0 <= i < |order| ==> order[i] in table
    ensures PresentKeys(table, order) == order
    ensures |RecordsInOrder(table, order)| == |order|
    ensures forall i :: 0 <= i < |order| ==> RecordsInOrder(table, order)[i] == table[order[i]]
  {
    if order != [] {
      PresentKeysOfListing(table, order[1..]);
    }
  }

  /**
   * `get` answers MALFORMED_INPUT exactly for an unknown selector and NONE
   * otherwise. With `order` listing the keys, "users" lists every key once and
   * "uuids" lists the uuid of each record in the same order.
   */
  lemma GetListsTheTable(table: Table, order: seq<string>, whatToGet: string)
    requires Enumerates(order, table.Keys)
    ensures GetIn(table, order, whatToGet).error == MalformedInput <==>
      whatToGet !in ["users", "uuids", "all"]
    ensures GetIn(table, order, whatToGet).error != MalformedInput ==> GetIn(table, order, whatToGet).error == NoError
    ensures whatToGet == "users" ==> GetIn(table, order, whatToGet) == TextResponse(ListText(order))
    ensures whatToGet == "uuids" ==> exists uuids ::
      && GetIn(table, order, whatToGet) == TextResponse(ListText(uuids))
      && |uuids| == |table| == |order|
      && forall i :: 0 <= i < |order| ==> uuids[i] == table[order[i]].uuid
  {
    PresentKeysOfListing(table, order);
    EnumerationHasTheSize(order, table.Keys);
    if whatToGet == "uuids" {
      var uuids := UuidsOf(RecordsInOrder(table, order));
      assert GetIn(table, order, whatToGet) == TextResponse(ListText(uuids));
    }
  }

  /** With `order` listing the keys, `get("all")` prints `key=record` for every key, in that order. */
  lemma GetAllPrintsEveryEntry(table: Table, order: seq<string>)
    requires Enumerates(order, table.Keys)
    ensures exists entries ::
      && GetIn(table, order, "all") == TextResponse("{" + Joined(entries) + "}")
      && |entries| == |table| == |order|
      && forall i :: 0 <= i < |order| ==> entries[i] == EntryText(table, order[i])
  {
    PresentKeysOfListing(table, order);
    EnumerationHasTheSize(order, table.Keys);
    var entries := EntryTexts(table, order);
    EntryTextsAreTheEntries(table, order);
    assert GetIn(table, order, "all") == TextResponse("{" + Joined(entries) + "}");
  }

  lemma {:induction false} EnumerationHasTheSize(order: seq<string>, keys: set<string>)
    requires Enumerates(order, keys)
    ensures |order| == |keys|
    decreases |order|
  {
    if order != [] {
      var rest := order[1..];
      assert Enumerates(rest, keys - {order[0]}) by {
        forall k | k in keys - {order[0]} ensures k in rest {
          var i :| 0 <= i < |order| && order[i] == k;
          assert i != 0;
          assert rest[i - 1] == k;
        }
      }
      EnumerationHasTheSize(rest, keys - {order[0]});
    }
  }
}
