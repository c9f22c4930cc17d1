/** The in-memory mock of a record store: a Database holds one ModelEntry per
    model name; each entry keeps the registered base records, which nothing
    writes after registration, and two overlays, `updated` and `removed`, which
    the callbacks bound into every record fill and which `Reset` empties. */
module MockDatabase {
  import opened JsValues

  /** The errors the store throws synchronously. */
  datatype Failure =
    | UnknownModel(model: string)  // the model name was never registered
    | AlreadyRemoved(id: string)   // save() of a record whose id is removed
    | NotAFunction                 // save()/remove() on a record without callbacks

  datatype Result<T> = Ok(value: T) | Err(error: Failure)

  /** Why a lookup promise is rejected. */
  datatype Rejection = Removed(id: string) | NotFound(id: string)

  /** A settled promise: lookups are modelled synchronously. */
  datatype Promise<T> = Resolved(value: T) | Rejected(reason: Rejection)

  /** A mock record: its own properties, and (when `owner` is present) the
      update and remove callbacks, both bound to that model entry. */
  datatype Record = Record(fields: map<string, Value>, owner: Option<ModelEntry>)
  {
    /** `record.id` used as a property key; "undefined" when there is none. */
    function Id(): (id: string)
      ensures "id" !in fields ==> id == "undefined"
      ensures "id" in fields && fields["id"].Str? ==> id == fields["id"].s
      ensures "id" in fields ==> id == KeyOf(fields["id"])
    {
      if "id" in fields then KeyOf(fields["id"]) else "undefined"
    }

    /** A deep copy of the record; the callbacks survive only when
        `retainMockFns` holds. */
    function Clone(retainMockFns: bool): (r: Record)
      ensures r.fields == fields
      ensures r.owner.Some? <==> retainMockFns && owner.Some?
      ensures r.owner.Some? ==> r.owner == owner
    {
      var copy := map k | k in fields :: DeepClone(fields[k]);
      assert copy == fields;
      Record(copy, if retainMockFns then owner else None)
    }

    /** The objects the callbacks can change. */
    function Owners(): set<ModelEntry>
    {
      if owner.Some? then {owner.value} else {}
    }

    /** save(): strips `undefined` properties at every depth, then hands the
        stripped record to the update callback. */
    method Save() returns (saved: Record, r: Result<()>)
      modifies Owners()`updated
      ensures saved.owner == owner
      ensures saved.fields == RemoveUndefined(Obj(fields)).fields
      ensures saved.Id() == Id()
      ensures owner.None? ==> r == Err(NotAFunction)
      ensures owner.Some? ==>
        var e := owner.value;
        && (saved.Id() in e.removed ==>
              r == Err(AlreadyRemoved(saved.Id())) && e.updated == old(e.updated))
        && (saved.Id() !in e.removed ==>
              r == Ok(()) && e.updated == old(e.updated)[saved.Id() := saved])
    {
      saved := Record(RemoveUndefined(Obj(fields)).fields, owner);
      SaveKeepsId(this);
      match owner
      case None =>
        r := Err(NotAFunction);
      case Some(e) =>
        r := e.UpdateRecord(saved);
    }

    /** remove(): hands the record to the remove callback. */
    method Remove() returns (r: Result<()>)
      modifies Owners()`removed
      ensures owner.None? ==> r == Err(NotAFunction)
      ensures owner.Some? ==>
        r == Ok(()) && owner.value.removed == old(owner.value.removed)[Id() := this]
    {
      match owner
      case None =>
        r := Err(NotAFunction);
      case Some(e) =>
        e.RemoveRecord(this);
        r := Ok(());
    }
  }

  /** One registered model: the base records and the two overlays. */
  class ModelEntry {
    var records: map<string, Record>
    var updated: map<string, Record>
    var removed: map<string, Record>

    constructor ()
      ensures records == map[] && updated == map[] && removed == map[]
    {
      records, updated, removed := map[], map[], map[];
    }

    /** The update callback: refuses an id that is already removed, otherwise
        records the new version of the record in `updated`. */
    method UpdateRecord(record: Record) returns (r: Result<()>)
      modifies this`updated
      ensures record.Id() in removed ==>
        r == Err(AlreadyRemoved(record.Id())) && updated == old(updated)
      ensures record.Id() !in removed ==>
        r == Ok(()) && updated == old(updated)[record.Id() := record]
    {
      if record.Id() in removed {
        return Err(AlreadyRemoved(record.Id()));
      }
      updated := updated[record.Id() := record];
      r := Ok(());
    }

    /** The remove callback: marks the record's id as removed. */
    method RemoveRecord(record: Record)
      modifies this`removed
      ensures removed == old(removed)[record.Id() := record]
    {
      removed := removed[record.Id() := record];
    }
  }

  /** save() files a record under the key it had before: stripping
      `undefined` never changes a record's id, not even an `undefined` one. */
  lemma SaveKeepsId(record: Record)
    ensures Record(RemoveUndefined(Obj(record.fields)).fields, record.owner).Id() == record.Id()
  {
    var fs := record.fields;
    if "id" in fs && fs["id"] != Undef {
      RemoveUndefinedAt(fs, "id");
      KeyOfRemoveUndefined(fs["id"]);
    }
  }

  // ---------------------------------------------------------------------------
  // Registration

  /** The id assigned to the item at position `idx` of model `name`. */
  function MockId(name: string, idx: nat): (id: string)
    ensures |id| == |name| + |Decimal(idx)| + 9
  {
    "MOCK_" + name + "_" + Decimal(idx) + "_ID"
  }

  /** A mock id reads "MOCK_", the model name, "_", the item's position in
      decimal, and "_ID". */
  lemma MockIdParts(name: string, idx: nat)
    ensures MockId(name, idx)[..|name| + 6] == "MOCK_" + name + "_"
    ensures MockId(name, idx)[|name| + 6..|MockId(name, idx)| - 3] == Decimal(idx)
    ensures MockId(name, idx)[|MockId(name, idx)| - 3..] == "_ID"
  {
    var p := "MOCK_" + name + "_";
    var id := MockId(name, idx);
    assert id == p + Decimal(idx) + "_ID";
  }

  lemma MockIdInjective(name: string, i: nat, j: nat)
    requires MockId(name, i) == MockId(name, j)
    ensures i == j
  {
    MockIdParts(name, i);
    MockIdParts(name, j);
    assert |Decimal(i)| == |Decimal(j)|;
    DecimalInjective(i, j);
  }

  /** The base record built for one item: a record bound to `owner`, given the
      mock id, with a deep copy of the item's properties laid over it. */
  function Stamp(name: string, idx: nat, item: map<string, Value>, owner: ModelEntry): (r: Record)
    ensures r.owner == Some(owner)
    ensures r.fields.Keys == item.Keys + {"id"}
    ensures forall k | k in item :: r.fields[k] == item[k]
    ensures "id" !in item ==> r.fields == item["id" := Str(MockId(name, idx))]
    ensures "id" !in item ==> r.Id() == MockId(name, idx)
  {
    var copy := map k | k in item :: DeepClone(item[k]);
    assert copy == item;
    Record(map["id" := Str(MockId(name, idx))] + copy, Some(owner))
  }

  /** The base records after registering `items` in order; a later record with
      the same id replaces an earlier one. */
  function Registered(name: string, items: seq<map<string, Value>>, owner: ModelEntry): map<string, Record>
  {
    if items == [] then map[]
    else
      var last := Stamp(name, |items| - 1, items[|items| - 1], owner);
      Registered(name, items[..|items| - 1], owner)[last.Id() := last]
  }

  /** Registration never keeps more base records than items. */
  lemma {:induction false} RegisteredSize(name: string, items: seq<map<string, Value>>, owner: ModelEntry)
    ensures |Registered(name, items, owner)| <= |items|
  {
    if items != [] {
      RegisteredSize(name, items[..|items| - 1], owner);
    }
  }

  /** Every base record is stored under its own id and bound to its model. */
  lemma {:induction false} RegisteredUnderOwnId(name: string, items: seq<map<string, Value>>, owner: ModelEntry)
    ensures forall k | k in Registered(name, items, owner) ::
      Registered(name, items, owner)[k].Id() == k && Registered(name, items, owner)[k].owner == Some(owner)
  {
    if items != [] {
      RegisteredUnderOwnId(name, items[..|items| - 1], owner);
    }
  }

  /** The key the item at `idx` is stored under: its own `id` as a property
      key when it has one, its mock id otherwise. */
  function ItemId(name: string, idx: nat, item: map<string, Value>): string
  {
    if "id" in item then KeyOf(item["id"]) else MockId(name, idx)
  }

  /** The base record of an item is filed under that item's key. */
  lemma StampId(name: string, idx: nat, item: map<string, Value>, owner: ModelEntry)
    ensures Stamp(name, idx, item, owner).Id() == ItemId(name, idx, item)
  {
  }

  /** The keys the items of model `name` are stored under, one per item. */
  function ItemIds(name: string, items: seq<map<string, Value>>): set<string>
  {
    set i | 0 <= i < |items| :: ItemId(name, i, items[i])
  }

  /** The base records are keyed by exactly the keys of the items: whatever
      key an item has, its own id or its mock id, some record is stored under
      it, and no record is stored under any other key. */
  lemma {:induction false} RegisteredIds(name: string, items: seq<map<string, Value>>, owner: ModelEntry)
    ensures Registered(name, items, owner).Keys == ItemIds(name, items)
  {
    if items != [] {
      var n := |items| - 1;
      var prefix := items[..n];
      RegisteredIds(name, prefix, owner);
      RegisteredLast(name, items, owner);
      ItemIdsStep(name, items);
    }
  }

  lemma ItemIdsStep(name: string, items: seq<map<string, Value>>)
    requires items != []
    ensures ItemIds(name, items)
      == ItemIds(name, items[..|items| - 1]) + {ItemId(name, |items| - 1, items[|items| - 1])}
  {
    var n := |items| - 1;
    var prefix := items[..n];
    var all, before := ItemIds(name, items), ItemIds(name, prefix);
    var newId := ItemId(name, n, items[n]);
    forall k | k in all ensures k in before || k == newId {
      var i :| 0 <= i < |items| && k == ItemId(name, i, items[i]);
      if i < n {
        assert prefix[i] == items[i];
        assert k in before;
      }
    }
    forall k | k in before ensures k in all {
      var i :| 0 <= i < |prefix| && k == ItemId(name, i, prefix[i]);
      assert prefix[i] == items[i];
    }
    assert newId in all;
  }

  /** Registering one more item files its base record under its key. */
  lemma RegisteredLast(name: string, items: seq<map<string, Value>>, owner: ModelEntry)
    requires items != []
    ensures var n := |items| - 1;
      Registered(name, items, owner)
        == Registered(name, items[..n], owner)[ItemId(name, n, items[n]) := Stamp(name, n, items[n], owner)]
  {
    StampId(name, |items| - 1, items[|items| - 1], owner);
  }

  /** The record stored under an item's key is that item's record whenever no
      later item has the same key: of several items sharing a key, the last
      one wins. */
  lemma {:induction false} RegisteredLastWins(name: string, items: seq<map<string, Value>>, owner: ModelEntry, i: nat)
    requires i < |items|
    requires forall j | i < j < |items| :: ItemId(name, j, items[j]) != ItemId(name, i, items[i])
    ensures ItemId(name, i, items[i]) in Registered(name, items, owner)
    ensures Registered(name, items, owner)[ItemId(name, i, items[i])] == Stamp(name, i, items[i], owner)
  {
    var n := |items| - 1;
    var prefix := items[..n];
    RegisteredLast(name, items, owner);
    if i < n {
      assert prefix[i] == items[i];
      forall j | i < j < |prefix| ensures ItemId(name, j, prefix[j]) != ItemId(name, i, prefix[i]) {
        assert prefix[j] == items[j];
      }
      RegisteredLastWins(name, prefix, owner, i);
    }
  }

  /** The ids of the first `n` items of model `name`. */
  function MockIds(name: string, n: nat): set<string>
  {
    set i | 0 <= i < n :: MockId(name, i)
  }

  lemma MockIdFresh(name: string, n: nat)
    ensures MockId(name, n) !in MockIds(name, n)
    ensures MockIds(name, n + 1) == MockIds(name, n) + {MockId(name, n)}
  {
    forall j | 0 <= j < n ensures MockId(name, j) != MockId(name, n) {
      if MockId(name, j) == MockId(name, n) {
        MockIdInjective(name, j, n);
      }
    }
    forall k | k in MockIds(name, n + 1) ensures k in MockIds(name, n) + {MockId(name, n)} {
      var j :| 0 <= j < n + 1 && k == MockId(name, j);
      if j < n {
        assert k in MockIds(name, n);
      }
    }
  }

  /** The first `n` items of a model get `n` different ids. */
  lemma {:induction false} MockIdsCount(name: string, n: nat)
    ensures |MockIds(name, n)| == n
  {
    if n > 0 {
      MockIdsCount(name, n - 1);
      MockIdFresh(name, n - 1);
    } else {
      assert MockIds(name, 0) == {};
    }
  }

  /** Registering one more item (without an id of its own) adds its record
      under its mock id. */
  lemma RegisteredStep(name: string, items: seq<map<string, Value>>, owner: ModelEntry)
    requires items != [] && "id" !in items[|items| - 1]
    ensures var n := |items| - 1;
      Registered(name, items, owner)
        == Registered(name, items[..n], owner)[MockId(name, n) := Record(items[n]["id" := Str(MockId(name, n))], Some(owner))]
  {
  }

  /** Registration keeps one base record per item: the item at `i` is stored
      under MOCK_<name>_<i>_ID, and under no other key. */
  lemma {:induction false} RegisteredKeys(name: string, items: seq<map<string, Value>>, owner: ModelEntry)
    requires forall i | 0 <= i < |items| :: "id" !in items[i]
    ensures Registered(name, items, owner).Keys == MockIds(name, |items|)
    ensures |Registered(name, items, owner)| == |items|
  {
    if items == [] {
      assert MockIds(name, 0) == {};
    } else {
      var n := |items| - 1;
      RegisteredKeys(name, items[..n], owner);
      RegisteredStep(name, items, owner);
      MockIdFresh(name, n);
      MockIdsCount(name, |items|);
    }
  }

  /** The base record of the item at `i` carries its mock id, the item's own
      properties and the callbacks of its model. */
  lemma {:induction false} RegisteredContents(name: string, items: seq<map<string, Value>>, owner: ModelEntry, i: nat)
    requires i < |items|
    requires forall j | 0 <= j < |items| :: "id" !in items[j]
    ensures MockId(name, i) in Registered(name, items, owner)
    ensures Registered(name, items, owner)[MockId(name, i)]
      == Record(items[i]["id" := Str(MockId(name, i))], Some(owner))
  {
    var n := |items| - 1;
    RegisteredStep(name, items, owner);
    if i < n {
      var prefix := items[..n];
      RegisteredContents(name, prefix, owner, i);
      assert prefix[i] == items[i];
      if MockId(name, i) == MockId(name, n) {
        MockIdInjective(name, i, n);
      }
    }
  }

  // ---------------------------------------------------------------------------
  // Lookup and enumeration

  /** The records an enumeration sees: base and updated records merged, the
      updated version winning, with every removed id dropped. */
  function Visible(records: map<string, Record>, updated: map<string, Record>,
                   removed: map<string, Record>): (v: map<string, Record>)
    ensures v.Keys == (records.Keys + updated.Keys) - removed.Keys
    ensures forall id | id in v :: v[id] == if id in updated then updated[id] else records[id]
  {
    (records + updated) - removed.Keys
  }

  /** Lookup through the three layers: removed first, then updated, then the
      base records. It finds exactly the records an enumeration sees. */
  function Resolve(records: map<string, Record>, updated: map<string, Record>,
                   removed: map<string, Record>, id: string, retainMockFns: bool): (p: Promise<Record>)
    ensures id in removed ==> p == Rejected(Removed(id))
    ensures id !in removed && p.Rejected? ==> p == Rejected(NotFound(id))
    ensures p.Resolved? <==> id in Visible(records, updated, removed)
    ensures p.Resolved? ==> p.value == Visible(records, updated, removed)[id].Clone(retainMockFns)
    ensures p.Resolved? && !retainMockFns ==> p.value.owner.None?
  {
    if id in removed then Rejected(Removed(id))
    else if id in updated then Resolved(updated[id].Clone(retainMockFns))
    else if id in records then Resolved(records[id].Clone(retainMockFns))
    else Rejected(NotFound(id))
  }

  /** A successful save is seen by the next lookup of that id and by no other. */
  lemma SaveThenLookup(records: map<string, Record>, updated: map<string, Record>,
                       removed: map<string, Record>, saved: Record, id: string, retain: bool)
    requires saved.Id() !in removed
    ensures Resolve(records, updated[saved.Id() := saved], removed, id, retain)
      == if id == saved.Id() then Resolved(saved.Clone(retain))
         else Resolve(records, updated, removed, id, retain)
  {
  }

  /** After a removal the id is rejected as removed; other ids are unaffected. */
  lemma RemoveThenLookup(records: map<string, Record>, updated: map<string, Record>,
                         removed: map<string, Record>, gone: Record, id: string, retain: bool)
    ensures Resolve(records, updated, removed[gone.Id() := gone], id, retain)
      == if id == gone.Id() then Rejected(Removed(id))
         else Resolve(records, updated, removed, id, retain)
  {
  }

  /** With both overlays empty a lookup sees the registered record again. */
  lemma ResolveAfterReset(records: map<string, Record>, id: string, retain: bool)
    ensures Resolve(records, map[], map[], id, retain)
      == if id in records then Resolved(records[id].Clone(retain)) else Rejected(NotFound(id))
  {
  }

  /** Registered then reset: the lookup of MOCK_<name>_<i>_ID gives back the
      i-th item with its id, whatever was saved or removed before. */
  lemma RegisteredAfterReset(name: string, items: seq<map<string, Value>>, owner: ModelEntry,
                             i: nat, retain: bool)
    requires i < |items|
    requires forall j | 0 <= j < |items| :: "id" !in items[j]
    ensures Resolve(Registered(name, items, owner), map[], map[], MockId(name, i), retain)
      == Resolved(Record(items[i]["id" := Str(MockId(name, i))], if retain then Some(owner) else None))
  {
    RegisteredContents(name, items, owner, i);
    ResolveAfterReset(Registered(name, items, owner), MockId(name, i), retain);
  }

  /** Enumeration never lists a removed id, and lists a saved record's new
      version. */
  lemma VisibleAfterWrites(records: map<string, Record>, updated: map<string, Record>,
                           removed: map<string, Record>, rec: Record)
    ensures Visible(records, updated, removed[rec.Id() := rec])
      == Visible(records, updated, removed) - {rec.Id()}
    ensures rec.Id() !in removed ==>
      Visible(records, updated[rec.Id() := rec], removed)
        == Visible(records, updated, removed)[rec.Id() := rec]
  {
  }

  // ---------------------------------------------------------------------------
  // The database

  class Database {
    var data: map<string, ModelEntry>

    constructor ()
      ensures data == map[]
    {
      data := map[];
    }

    /** addModel: builds the base records of a new model entry, one per item,
        and installs the entry under `name` with empty overlays (replacing any
        entry already registered under that name). */
    method AddModel(name: string, items: seq<map<string, Value>>)
      modifies this
      ensures name in data && fresh(data[name])
      ensures data == old(data)[name := data[name]]
      ensures data[name].records == Registered(name, items, data[name])
      ensures data[name].updated == map[] && data[name].removed == map[]
    {
      var entry := new ModelEntry();
      var i := 0;
      while i < |items|
        invariant 0 <= i <= |items|
        invariant entry.records == Registered(name, items[..i], entry)
        invariant entry.updated == map[] && entry.removed == map[]
        invariant data == old(data)
      {
        var record := Stamp(name, i, items[i], entry);
        assert items[..i + 1][..i] == items[..i];
        entry.records := entry.records[record.Id() := record];
        i := i + 1;
      }
      assert items[..|items|] == items;
      data := data[name := entry];
    }

    /** getRecord: throws for an unregistered model; otherwise a promise
        settled by the layered lookup. */
    function GetRecord(modelName: string, id: string, inSpy: bool): (r: Result<Promise<Record>>)
      reads this, data.Values
      ensures r.Err? <==> modelName !in data
      ensures r.Err? ==> r.error == UnknownModel(modelName)
      ensures r.Ok? ==>
        var e := data[modelName];
        && (id in e.removed ==> r.value == Rejected(Removed(id)))
        && (id !in e.removed && r.value.Rejected? ==> r.value == Rejected(NotFound(id)))
        && (r.value.Resolved? <==> id in Visible(e.records, e.updated, e.removed))
        && (r.value.Resolved? ==>
              r.value.value == Visible(e.records, e.updated, e.removed)[id].Clone(inSpy))
    {
      if modelName !in data then Err(UnknownModel(modelName))
      else
        var e := data[modelName];
        Ok(Resolve(e.records, e.updated, e.removed, id, inSpy))
    }

    /** getAllRecords: throws for an unregistered model; otherwise every
        record not removed, the updated version preferred, without callbacks. */
    method GetAllRecords(modelName: string) returns (r: Result<map<string, Record>>)
      ensures modelName !in data ==> r == Err(UnknownModel(modelName))
      ensures modelName in data ==>
        var e := data[modelName];
        && r.Ok?
        && r.value.Keys == (e.records.Keys + e.updated.Keys) - e.removed.Keys
        && forall id | id in r.value ::
             r.value[id] == Record((if id in e.updated then e.updated[id] else e.records[id]).fields, None)
    {
      if modelName !in data {
        return Err(UnknownModel(modelName));
      }
      var e := data[modelName];
      var allRecords := e.records + e.updated;
      var pending := e.removed.Keys;
      while pending != {}
        invariant pending <= e.removed.Keys
        invariant allRecords == (e.records + e.updated) - (e.removed.Keys - pending)
        decreases pending
      {
        var id :| id in pending;
        allRecords := allRecords - {id};
        pending := pending - {id};
      }
      var exported: map<string, Record> := map[];
      var todo := allRecords.Keys;
      while todo != {}
        invariant todo <= allRecords.Keys
        invariant exported.Keys == allRecords.Keys - todo
        invariant forall id | id in exported :: exported[id] == allRecords[id].Clone(false)
        decreases todo
      {
        var id :| id in todo;
        exported := exported[id := allRecords[id].Clone(false)];
        todo := todo - {id};
      }
      r := Ok(exported);
    }

    /** reset: empties both overlays of every model, leaving the base records
        alone, so every lookup sees the registered contents again. */
    method Reset()
      modifies data.Values`updated, data.Values`removed
      ensures data == old(data)
      ensures forall e | e in data.Values ::
        e.updated == map[] && e.removed == map[] && e.records == old(e.records)
      ensures forall n, id, inSpy | n in data ::
        GetRecord(n, id, inSpy)
          == Ok(if id in data[n].records then Resolved(data[n].records[id].Clone(inSpy))
                else Rejected(NotFound(id)))
    {
      var names := data.Keys;
      while names != {}
        invariant names <= data.Keys
        invariant forall n | n in data.Keys - names :: data[n].updated == map[] && data[n].removed == map[]
        decreases names
      {
        var n :| n in names;
        var model := data[n];
        model.updated := map[];
        model.removed := map[];
        names := names - {n};
      }
      forall n, id, inSpy | n in data
        ensures GetRecord(n, id, inSpy)
          == Ok(if id in data[n].records then Resolved(data[n].records[id].Clone(inSpy))
                else Rejected(NotFound(id)))
      {
        ResolveAfterReset(data[n].records, id, inSpy);
      }
    }
  }

  /** The round trip of a test: register "food" with one item, look it up,
      save a changed copy, look it up again, reset, and look it up once more. */
  method FoodScenario()
  {
    var db := new Database();
    var apple := map["name" := Str("Apple")];
    db.AddModel("food", [apple]);
    var entry := db.data["food"];
    var id := MockId("food", 0);
    assert id == "MOCK_food_0_ID";
    RegisteredContents("food", [apple], entry, 0);

    var first := db.GetRecord("food", id, true);
    var original := Record(apple["id" := Str(id)], Some(entry));
    assert first == Ok(Resolved(original));

    var pear := Record(original.fields["name" := Str("Pear")], original.owner);
    assert pear.Id() == id;
    RemoveUndefinedKeepsDefined(Obj(pear.fields));
    var saved, outcome := pear.Save();
    assert saved == pear && outcome == Ok(());
    var second := db.GetRecord("food", id, true);
    assert second == Ok(Resolved(pear));

    db.Reset();
    var third := db.GetRecord("food", id, false);
    assert third == Ok(Resolved(Record(original.fields, None)));
  }
}
