/** Address upserts by any number of callers: the lookup and the statement it decides on are two steps, and
    other callers may come in between. */
module AddressRaces {
  import opened Wrappers
  import opened SqlTables
  import opened Daos

  type Caller = nat

  type Addresses = Table<AddressModel>

  /** An upsert between its lookup and its statement. */
  datatype Looked = Looked(item: AddressModel, found: bool)

  datatype World = World(table: Addresses, waiting: map<Caller, Looked>)

  datatype Event =
    | Look(caller: Caller, item: AddressModel)
    | Write(caller: Caller)
    | Remove(p: Row<AddressModel> -> bool)

  datatype Trace = End | Then(event: Event, rest: Trace)

  predicate Enabled(w: World, e: Event) {
    match e
    case Look(c, _) => c !in w.waiting
    case Write(c) => c in w.waiting
    case Remove(_) => true
  }

  /** A failing statement leaves the table alone. */
  function Written(t: Addresses, l: Looked): Addresses {
    var r := if l.found then Update(ADDRESSES, t, l.item.id, l.item) else Insert(ADDRESSES, t, l.item);
    if r.Ok? then r.value else t
  }

  function After(w: World, e: Event): World
    requires Enabled(w, e)
  {
    match e
    case Look(c, item) => w.(waiting := w.waiting[c := Looked(item, Get(ADDRESSES, w.table, item.serverId).Some?)])
    case Write(c) => World(Written(w.table, w.waiting[c]), w.waiting - {c})
    case Remove(p) => w.(table := Delete(w.table, p))
  }

  predicate IsRun(w: World, es: Trace)
    decreases es
  {
    es.End? || (Enabled(w, es.event) && IsRun(After(w, es.event), es.rest))
  }

  /** Without anyone in between, the two steps are the upsert. */
  lemma LookThenWriteIsUpsert(w: World, c: Caller, item: AddressModel)
    requires c !in w.waiting
    ensures var w' := After(After(w, Look(c, item)), Write(c));
            var r := Upsert(ADDRESSES, w.table, item.id, item);
            w'.waiting == w.waiting && w'.table == if r.Ok? then r.value else w.table
  {
  }

  // ----- tables that are maps

  ghost predicate DistinctKeys(rows: seq<Row<AddressModel>>) {
    forall i, j :: 0 <= i < j < |rows| ==> rows[i].item.serverId != rows[j].item.serverId
  }

  ghost predicate IsMap(t: Addresses) {
    exists m :: Represents(ADDRESSES, t, m)
  }


  lemma IsMapIff(t: Addresses)
    ensures IsMap(t) <==> t.Valid() && DistinctKeys(t.rows)
  {
    if IsMap(t) {
      var m :| Represents(ADDRESSES, t, m);
      GetIsLookup(ADDRESSES, t, m, "");
    }
    if t.Valid() && DistinctKeys(t.rows) {
      DistinctIsMap(t);
    }
  }

  ghost function RowMap(rows: seq<Row<AddressModel>>): map<string, Row<AddressModel>> {
    if rows == [] then map[]
    else
      var last := rows[|rows| - 1];
      RowMap(rows[..|rows| - 1])[last.item.serverId := last]
  }

  lemma DistinctIsMap(t: Addresses)
    requires t.Valid() && DistinctKeys(t.rows)
    ensures IsMap(t)
  {
    RowMapHolds(t.rows);
    assert Represents(ADDRESSES, t, RowMap(t.rows));
  }

  lemma {:induction false} RowMapHolds(rows: seq<Row<AddressModel>>)
    requires DistinctKeys(rows)
    ensures RowsInMap(ADDRESSES, rows, RowMap(rows)) && MapInRows(ADDRESSES, rows, RowMap(rows))
  {
    if rows != [] {
      var init, last := rows[..|rows| - 1], rows[|rows| - 1];
      RowMapHolds(init);
      assert rows == init + [last];
      forall i | 0 <= i < |init| ensures RowMap(rows)[init[i].item.serverId] == init[i] {
        assert ADDRESSES.key(init[i].item) in RowMap(init) && rows[i] == init[i];
      }
      forall k | k in RowMap(rows) ensures RowMap(rows)[k] in rows && ADDRESSES.key(RowMap(rows)[k].item) == k {
      }
    }
  }

  // ----- one step

  /** The statement comes too late: an insert finds its key stored by now, or an update, whose own row is
      there, finds its key in another row. */
  ghost predicate TooLate(t: Addresses, l: Looked) {
    exists r :: r in t.rows && r.item.serverId == l.item.serverId && (l.found ==> r.id != l.item.id && t.HasId(l.item.id))
  }

  ghost predicate HarmfulStep(w: World, e: Event) {
    e.Write? && e.caller in w.waiting && TooLate(w.table, w.waiting[e.caller])
  }

  lemma InsertKeepsMapIff(t: Addresses, item: AddressModel)
    requires t.Valid() && DistinctKeys(t.rows)
    ensures var t' := Written(t, Looked(item, false));
            t'.Valid() && (DistinctKeys(t'.rows) <==> !TooLate(t, Looked(item, false)))
  {
    InsertGrows(ADDRESSES, t, item);
    var t' := Written(t, Looked(item, false));
    assert t'.rows == t.rows + [Row(t.lastId + 1, item)];
    if r :| r in t.rows && r.item.serverId == item.serverId {
      var i :| 0 <= i < |t.rows| && t.rows[i] == r;
      assert t'.rows[i] == r && t'.rows[|t.rows|].item == item;
    }
  }

  lemma UpdateKeepsMapIff(t: Addresses, item: AddressModel)
    requires t.Valid() && DistinctKeys(t.rows)
    ensures var t' := Written(t, Looked(item, true));
            t'.Valid() && (DistinctKeys(t'.rows) <==> !TooLate(t, Looked(item, true)))
  {
    var t' := Written(t, Looked(item, true));
    var p := Position(t.rows, IdIs(item.id));
    if p < |t.rows| {
      UpdateGrows(ADDRESSES, t, item.id, item);
      assert t'.rows == t.rows[p := Row(item.id, item)];
      if TooLate(t, Looked(item, true)) {
        var r :| r in t.rows && r.item.serverId == item.serverId && r.id != item.id;
        var i :| 0 <= i < |t.rows| && t.rows[i] == r;
        assert t'.rows[i] == r && t'.rows[p].item == item && i != p;
      } else {
        forall i | 0 <= i < |t.rows| && i != p ensures t.rows[i].item.serverId != item.serverId {
          assert t.rows[i] in t.rows;
        }
      }
    } else {
      assert !t.HasId(item.id);
    }
  }

  lemma RemoveKeepsMap(t: Addresses, p: Row<AddressModel> -> bool)
    requires IsMap(t)
    ensures IsMap(Delete(t, p))
  {
    var m :| Represents(ADDRESSES, t, m);
    DeleteRepresents(ADDRESSES, t, m, p);
  }

  /** From a table that is a map, exactly the harmful steps lead to one that is not. */
  lemma StepKeepsMapIff(w: World, e: Event)
    requires IsMap(w.table) && Enabled(w, e)
    ensures IsMap(After(w, e).table) <==> !HarmfulStep(w, e)
  {
    IsMapIff(w.table);
    IsMapIff(After(w, e).table);
    match e
    case Look(_, _) =>
    case Remove(p) => RemoveKeepsMap(w.table, p);
    case Write(c) =>
      var l := w.waiting[c];
      if l.found {
        UpdateKeepsMapIff(w.table, l.item);
      } else {
        InsertKeepsMapIff(w.table, l.item);
      }
  }

  // ----- all runs

  ghost predicate AlwaysMap(w: World, es: Trace)
    requires IsRun(w, es)
    decreases es
  {
    IsMap(w.table) && (es.Then? ==> AlwaysMap(After(w, es.event), es.rest))
  }

  ghost predicate NoHarmfulStep(w: World, es: Trace)
    requires IsRun(w, es)
    decreases es
  {
    es.Then? ==> !HarmfulStep(w, es.event) && NoHarmfulStep(After(w, es.event), es.rest)
  }

  /** Over every run of any number of callers and any deletes: the address table stays a map from keys to rows
      if and only if it is one at the start and no statement comes too late. */
  lemma {:induction false} RacesKeepMapIff(w: World, es: Trace)
    requires IsRun(w, es)
    ensures AlwaysMap(w, es) <==> IsMap(w.table) && NoHarmfulStep(w, es)
    decreases es
  {
    if es.Then? && IsMap(w.table) {
      StepKeepsMapIff(w, es.event);
      RacesKeepMapIff(After(w, es.event), es.rest);
    }
  }

  /** With nobody in between, the statement is too late exactly if the item names the row of another key. */
  lemma PromptWritesHarmIff(w: World, c: Caller, item: AddressModel)
    requires c !in w.waiting && IsMap(w.table)
    ensures HarmfulStep(After(w, Look(c, item)), Write(c)) <==>
            exists r :: r in w.table.rows && r.item.serverId == item.serverId && r.id != item.id && w.table.HasId(item.id)
  {
    LookupFindsKey(w.table, item.serverId);
  }

  lemma LookupFindsKey(t: Addresses, key: string)
    requires IsMap(t)
    ensures Get(ADDRESSES, t, key).Some? <==> exists r :: r in t.rows && r.item.serverId == key
  {
    var m :| Represents(ADDRESSES, t, m);
    GetIsLookup(ADDRESSES, t, m, key);
    forall r | r in t.rows ensures r.item.serverId in m {
      var i :| 0 <= i < |t.rows| && t.rows[i] == r;
      assert ADDRESSES.key(t.rows[i].item) in m;
    }
  }
}
