/**
 * The service layer over the stock table: the request validators, and the operations that
 * validate a request, look up the cell name, and then write through the store.
 *
 * Each writing operation has a specification function, composed from the repository's effect
 * functions, that gives its result and the table after it; the method of the same name runs the
 * steps against a `Store` and is proved to reach exactly that result and table. The lemmas
 * below state what the operations promise in terms of the specification functions.
 */
module X3plService {
  import opened Wrappers
  import opened JsValues
  import opened FieldChecks
  import opened Tables
  import opened X3plModel
  import opened X3plRepository

  // ---------------------------------------------------------------- messages

  const NotEnoughOrNotFound := "Недостаточное количество или запись не найдена"
  const RecordNotFound := "Запись не найдена"
  const WrShkParameterRequired := "Параметр wr_shk обязателен"
  const SearchParameterRequired := "Необходимо указать хотя бы один параметр поиска (wr_name, wr_shk, shk, name)"

  /** `Validation failed: ${errors.join(', ')}` */
  function ValidationFailed(errors: seq<Problem>): string {
    "Validation failed: " + Join(Messages(errors), ", ")
  }

  function WarehouseNotFound(wrShk: string): string {
    "Warehouse with SHK '" + wrShk + "' not found in x_Storage_Scklads"
  }

  function RecordIdNotFound(id: int): string {
    "Record with ID " + IntToString(id) + " not found"
  }

  /** `getWarehouseNameBySHK` followed by `if (!warehouseName)`: the name the storage table
      gives the cell, when it lists the cell with a non-empty name. */
  function ResolveWarehouse(names: map<string, string>, wrShk: string): (r: Option<string>)
    ensures r.Some? <==> wrShk in names && names[wrShk] != ""
    ensures r.Some? ==> r.value == names[wrShk]
  {
    if wrShk in names && names[wrShk] != "" then Some(names[wrShk]) else None
  }

  // ---------------------------------------------------------------- validateMinimalData

  datatype MinimalRequest = MinimalRequest(shk: JsValue, name: JsValue)

  function ValidateMinimalData(data: MinimalRequest): (errors: seq<Problem>)
    ensures IsSubsequence(errors, [ShkRequired, NameRequired])
    ensures ShkRequired in errors <==> MissingString(data.shk)
    ensures NameRequired in errors <==> MissingString(data.name)
    ensures errors == [] <==> !MissingString(data.shk) && !MissingString(data.name)
  {
    var e1 := Push([], MissingString(data.shk), ShkRequired);
    PushInOrder([], [], MissingString(data.shk), ShkRequired);
    PushInOrder(e1, [] + [ShkRequired], MissingString(data.name), NameRequired);
    assert [] + [ShkRequired] + [NameRequired] == [ShkRequired, NameRequired];
    Push(e1, MissingString(data.name), NameRequired)
  }

  /** A minimal request passes exactly when its barcode and name each hold a character that is
      not white space. */
  lemma MinimalDataAcceptedIff(data: MinimalRequest)
    ensures ValidateMinimalData(data) == [] <==> FilledString(data.shk) && FilledString(data.name)
  {
    MissingStringIffNotFilled(data.shk);
    MissingStringIffNotFilled(data.name);
  }

  // ---------------------------------------------------------------- validateRemovalData

  datatype RemovalRequest = RemovalRequest(shk: JsValue, wrShk: JsValue, condition: JsValue, kolvo: JsValue)

  function ValidateRemovalData(data: RemovalRequest): (errors: seq<Problem>)
    ensures IsSubsequence(errors, [ShkRequired, WrShkRequired, ConditionRequired, KolvoPositive])
    ensures errors == [] <==>
      && !MissingString(data.shk) && !MissingString(data.wrShk) && !MissingString(data.condition)
      && !BadQuantity(CoerceQuantity(data.kolvo), 1)
  {
    Report4(MissingString(data.shk), ShkRequired, MissingString(data.wrShk), WrShkRequired,
            MissingString(data.condition), ConditionRequired, BadQuantity(CoerceQuantity(data.kolvo), 1), KolvoPositive)
  }

  predicate RemovalFails(data: RemovalRequest, p: Problem) {
    match p
    case ShkRequired => MissingString(data.shk)
    case WrShkRequired => MissingString(data.wrShk)
    case ConditionRequired => MissingString(data.condition)
    case KolvoPositive => BadQuantity(CoerceQuantity(data.kolvo), 1)
    case _ => false
  }

  /** Each failure is reported exactly when its field fails its test. */
  lemma RemovalReportsEachField(data: RemovalRequest, p: Problem)
    ensures p in ValidateRemovalData(data) <==> RemovalFails(data, p)
  {
  }

  /** A removal request passes exactly when its three strings are filled and its quantity,
      parsed when it is text, is a number of at least 1. */
  lemma RemovalDataAcceptedIff(data: RemovalRequest)
    ensures ValidateRemovalData(data) == [] <==>
      && FilledString(data.shk) && FilledString(data.wrShk) && FilledString(data.condition)
      && QuantityAtLeast(data.kolvo, 1)
  {
    MissingStringIffNotFilled(data.shk);
    MissingStringIffNotFilled(data.wrShk);
    MissingStringIffNotFilled(data.condition);
  }

  // ---------------------------------------------------------------- validateInventoryData

  datatype InventoryRequest = InventoryRequest(shk: JsValue, wrShk: JsValue, condition: JsValue, kolvo: JsValue, reason: JsValue)

  /** The failures, and the request as the validator leaves it: a quantity sent as text has been
      replaced by its `parseInt` reading. */
  function ValidateInventoryData(data: InventoryRequest): (out: (seq<Problem>, InventoryRequest))
    ensures out.1 == data.(kolvo := CoerceQuantity(data.kolvo))
    ensures IsSubsequence(out.0, [ShkRequired, WrShkRequired, ConditionRequired, KolvoNonNegative])
    ensures out.0 == [] <==>
      && !MissingString(data.shk) && !MissingString(data.wrShk) && !MissingString(data.condition)
      && !BadQuantity(out.1.kolvo, 0)
  {
    var data' := data.(kolvo := CoerceQuantity(data.kolvo));
    (Report4(MissingString(data.shk), ShkRequired, MissingString(data.wrShk), WrShkRequired,
             MissingString(data.condition), ConditionRequired, BadQuantity(data'.kolvo, 0), KolvoNonNegative),
     data')
  }

  predicate InventoryFails(data: InventoryRequest, p: Problem) {
    match p
    case ShkRequired => MissingString(data.shk)
    case WrShkRequired => MissingString(data.wrShk)
    case ConditionRequired => MissingString(data.condition)
    case KolvoNonNegative => BadQuantity(CoerceQuantity(data.kolvo), 0)
    case _ => false
  }

  /** Each failure is reported exactly when its field fails its test. */
  lemma InventoryReportsEachField(data: InventoryRequest, p: Problem)
    ensures p in ValidateInventoryData(data).0 <==> InventoryFails(data, p)
  {
  }

  /** An inventory request passes exactly when its three strings are filled and its quantity,
      parsed when it is text, is a number of at least 0. */
  lemma InventoryDataAcceptedIff(data: InventoryRequest)
    ensures ValidateInventoryData(data).0 == [] <==>
      && FilledString(data.shk) && FilledString(data.wrShk) && FilledString(data.condition)
      && QuantityAtLeast(data.kolvo, 0)
  {
    MissingStringIffNotFilled(data.shk);
    MissingStringIffNotFilled(data.wrShk);
    MissingStringIffNotFilled(data.condition);
  }

  // ---------------------------------------------------------------- validateUpdateData

  datatype UpdateRequest = UpdateRequest(id: JsValue, wrShk: JsValue, kolvo: JsValue,
                                         ispolnitel: JsValue, condition: JsValue, reason: JsValue)

  /** `!id || typeof id !== 'number' || id <= 0` */
  predicate BadId(v: JsValue) {
    !Truthy(v) || !IsNumber(v) || (v.Num? && v.n <= 0)
  }

  function ValidateUpdateData(data: UpdateRequest): (errors: seq<Problem>)
    ensures IsSubsequence(errors, [IdRequired, WrShkRequired, KolvoNonNegative, IspolnitelOptional, ConditionOptional, ReasonOptional])
    ensures errors == [] <==>
      && !BadId(data.id) && !MissingString(data.wrShk) && !BadQuantity(CoerceQuantity(data.kolvo), 0)
      && !BadOptionalString(data.ispolnitel) && !BadOptionalString(data.condition) && !BadOptionalString(data.reason)
  {
    Report6(BadId(data.id), IdRequired, MissingString(data.wrShk), WrShkRequired,
            BadQuantity(CoerceQuantity(data.kolvo), 0), KolvoNonNegative,
            BadOptionalString(data.ispolnitel), IspolnitelOptional, BadOptionalString(data.condition), ConditionOptional,
            BadOptionalString(data.reason), ReasonOptional)
  }

  predicate UpdateFails(data: UpdateRequest, p: Problem) {
    match p
    case IdRequired => BadId(data.id)
    case WrShkRequired => MissingString(data.wrShk)
    case KolvoNonNegative => BadQuantity(CoerceQuantity(data.kolvo), 0)
    case IspolnitelOptional => BadOptionalString(data.ispolnitel)
    case ConditionOptional => BadOptionalString(data.condition)
    case ReasonOptional => BadOptionalString(data.reason)
    case _ => false
  }

  /** Each failure is reported exactly when its field fails its test. */
  lemma UpdateReportsEachField(data: UpdateRequest, p: Problem)
    ensures p in ValidateUpdateData(data) <==> UpdateFails(data, p)
  {
  }

  /** An update request passes exactly when the id is a positive number, the cell is filled, the
      quantity (parsed when it is text) is at least 0, and each optional string is absent or
      filled. */
  lemma UpdateDataAcceptedIff(data: UpdateRequest)
    ensures ValidateUpdateData(data) == [] <==>
      && data.id.Num? && data.id.n > 0 && FilledString(data.wrShk) && QuantityAtLeast(data.kolvo, 0)
      && (data.ispolnitel.Undefined? || data.ispolnitel.Null? || FilledString(data.ispolnitel))
      && (data.condition.Undefined? || data.condition.Null? || FilledString(data.condition))
      && (data.reason.Undefined? || data.reason.Null? || FilledString(data.reason))
  {
    MissingStringIffNotFilled(data.wrShk);
    BadOptionalStringIffPresentUnfilled(data.ispolnitel);
    BadOptionalStringIffPresentUnfilled(data.condition);
    BadOptionalStringIffPresentUnfilled(data.reason);
  }

  // ---------------------------------------------------------------- addRecord

  /** `addRecord`: build and validate the model, resolve the cell name, then insert the model
      with that name, the creation time `now` and no update time. */
  function AddRecordSpec(s: Table, names: map<string, string>, data: RecordData, now: nat): (out: (Result<()>, Table))
    ensures ValidTable(s) ==> ValidTable(out.1)
    ensures out.0.Err? ==> out.1 == s
  {
    var m := FromRequest(data, now);
    var errors := Validate(m);
    if errors != [] then (Err(ValidationFailed(errors)), s)
    else
      match ResolveWarehouse(names, m.wrShk.s)
      case None => (Err(WarehouseNotFound(m.wrShk.s)), s)
      case Some(wrName) =>
        var m' := m.(wrName := Str(wrName), date := Date(now), dateUpd := Null);
        var (r, s') := InsertEffect(s, ToDbObject(m'));
        (if r.Ok? then Ok(()) else Err(r.error), s')
  }

  method AddRecord(store: Store, names: map<string, string>, data: RecordData, now: nat) returns (res: Result<()>)
    requires store.Valid()
    modifies store
    ensures store.Valid()
    ensures (res, store.State()) == AddRecordSpec(old(store.State()), names, data, now)
  {
    var m := FromRequest(data, now);
    var errors := Validate(m);
    if errors != [] {
      return Err(ValidationFailed(errors));
    }
    var wrName := ResolveWarehouse(names, m.wrShk.s);
    if wrName.None? {
      return Err(WarehouseNotFound(m.wrShk.s));
    }
    m := m.(wrName := Str(wrName.value), date := Date(now), dateUpd := Null);
    var inserted := store.Insert(ToDbObject(m));
    if inserted.Ok? {
      res := Ok(());
    } else {
      res := Err(inserted.error);
    }
  }

  /** A new record is only stored when the model validates and its cell resolves. */
  lemma AddRecordNeedsValidDataAndCell(s: Table, names: map<string, string>, data: RecordData, now: nat)
    ensures AddRecordSpec(s, names, data, now).0.Ok? ==>
      && Validate(FromRequest(data, now)) == [] && data.wrShk.Str?
      && ResolveWarehouse(names, data.wrShk.s).Some?
    ensures Validate(FromRequest(data, now)) != [] ==>
      AddRecordSpec(s, names, data, now) == (Err(ValidationFailed(Validate(FromRequest(data, now)))), s)
    ensures Validate(FromRequest(data, now)) == [] && ResolveWarehouse(names, data.wrShk.s).None? ==>
      AddRecordSpec(s, names, data, now) == (Err(WarehouseNotFound(data.wrShk.s)), s)
  {
  }

  /** A successful `addRecord` appends exactly one row under a fresh identity, carrying the
      request's fields, the resolved cell name, a quantity of at least 1, the creation time `now`
      and no update time; the rows already stored are kept as they were. */
  lemma AddRecordAppendsOneRow(s: Table, names: map<string, string>, data: RecordData, now: nat)
    requires ValidTable(s)
    requires AddRecordSpec(s, names, data, now).0.Ok?
    ensures var s' := AddRecordSpec(s, names, data, now).1;
      && |s'.rows| == |s.rows| + 1 && s'.rows[..|s.rows|] == s.rows && s'.nextId == s.nextId + 1
      && var r := s'.rows[|s.rows|];
      && r.id == s.nextId && !HasId(s.rows, r.id)
      && data.shk.Str? && r.shk == data.shk.s && data.name.Str? && r.name == data.name.s
      && data.wrShk.Str? && r.wrShk == Some(data.wrShk.s) && r.wrName == Some(names[data.wrShk.s])
      && r.kolvo >= 1 && r.date == now && r.dateUpd == None
      && data.condition.Str? && r.condition == Some(data.condition.s)
      && data.ispolnitel.Str? && r.ispolnitel == Some(data.ispolnitel.s)
      && (Truthy(data.reason) ==> data.reason.Str? && r.reason == Some(data.reason.s))
      && (!Truthy(data.reason) ==> r.reason == None)
  {
    var m := FromRequest(data, now);
    var m' := m.(wrName := Str(names[data.wrShk.s]), date := Date(now), dateUpd := Null);
    var o := ToDbObject(m');
    InsertAssignsFreshId(s, o);
    var s' := AddRecordSpec(s, names, data, now).1;
    assert s'.rows == s.rows + [BindRow(o, s.nextId).value];
    assert s'.rows[..|s.rows|] == s.rows;
  }

  /** The row a successful `addRecord` appends is placed: it is listed among the placed items
      and not among the unplaced ones. */
  lemma AddRecordAppendsPlaced(s: Table, names: map<string, string>, data: RecordData, now: nat)
    requires ValidTable(s)
    requires AddRecordSpec(s, names, data, now).0.Ok?
    ensures var s' := AddRecordSpec(s, names, data, now).1;
      && |s'.rows| == |s.rows| + 1 && IsPlaced(s'.rows[|s.rows|])
      && ItemOf(s'.rows[|s.rows|]) in GetRazmeshennye(s'.rows)
      && ItemOf(s'.rows[|s.rows|]) !in GetNerazmeshennye(s'.rows)
  {
    AddRecordNeedsValidDataAndCell(s, names, data, now);
    AddRecordAppendsOneRow(s, names, data, now);
    var s' := AddRecordSpec(s, names, data, now).1;
    var r := s'.rows[|s.rows|];
    assert IsPlaced(r);
    PlacedRowIsListed(s'.rows, r);
  }

  // ---------------------------------------------------------------- addMinimalRecord

  /** What `addMinimalRecord` returns on success. */
  datatype MinimalView = MinimalView(id: int, shk: string, name: string, date: nat)

  /** `addMinimalRecord`: validate the barcode and name, then insert an unplaced row. */
  function AddMinimalRecordSpec(s: Table, data: MinimalRequest, now: nat): (out: (Result<MinimalView>, Table))
    ensures ValidTable(s) ==> ValidTable(out.1)
    ensures out.0.Err? ==> out.1 == s
  {
    var errors := ValidateMinimalData(data);
    if errors != [] then (Err(ValidationFailed(errors)), s)
    else
      var (r, s') := InsertMinimalEffect(s, data.shk.s, data.name.s, now);
      match r
      case Ok(row) => (Ok(MinimalView(row.id, row.shk, row.name, row.date)), s')
      case Err(e) => (Err(e), s')
  }

  method AddMinimalRecord(store: Store, data: MinimalRequest, now: nat) returns (res: Result<MinimalView>)
    requires store.Valid()
    modifies store
    ensures store.Valid()
    ensures (res, store.State()) == AddMinimalRecordSpec(old(store.State()), data, now)
  {
    var errors := ValidateMinimalData(data);
    if errors != [] {
      return Err(ValidationFailed(errors));
    }
    var inserted := store.InsertMinimal(data.shk.s, data.name.s, now);
    if inserted.Ok? {
      var row := inserted.value;
      res := Ok(MinimalView(row.id, row.shk, row.name, row.date));
    } else {
      res := Err(inserted.error);
    }
  }

  /** A successful `addMinimalRecord` appends one row under a fresh identity with the given
      barcode and name; the new row is listed among the unplaced items and not among the placed
      ones, and the result reports its identity, barcode, name and creation time. */
  lemma AddMinimalRecordAppendsUnplaced(s: Table, data: MinimalRequest, now: nat)
    requires ValidTable(s)
    requires AddMinimalRecordSpec(s, data, now).0.Ok?
    ensures var (res, s') := AddMinimalRecordSpec(s, data, now);
      && data.shk.Str? && data.name.Str?
      && s' == Table(s.rows + [MinimalRow(s.nextId, data.shk.s, data.name.s, now)], s.nextId + 1)
      && !HasId(s.rows, s.nextId)
      && res.value == MinimalView(s.nextId, data.shk.s, data.name.s, now)
      && ItemOf(s'.rows[|s.rows|]) in GetNerazmeshennye(s'.rows)
      && ItemOf(s'.rows[|s.rows|]) !in GetRazmeshennye(s'.rows)
  {
    var s' := AddMinimalRecordSpec(s, data, now).1;
    var r := s'.rows[|s.rows|];
    assert r in s'.rows && Matches(UnplacedRows, r);
    assert ItemOf(r) in Items(Selected(s'.rows, UnplacedRows)) by {
      var rs := Selected(s'.rows, UnplacedRows);
      var k :| 0 <= k < |rs| && rs[k] == r;
      assert Items(rs)[k] == ItemOf(r);
    }
  }

  // ---------------------------------------------------------------- removeItems

  /** What `removeItems` does to the row it found. */
  datatype Step = Delete | Decrement(newKolvo: JsValue)

  /** `if (data.kolvo === foundRecord.kolvo) delete else update to foundRecord.kolvo - data.kolvo`,
      on the quantity exactly as the request sent it. */
  function RemovalStep(requested: JsValue, stored: int): (step: Step)
    ensures step.Delete? <==> requested == Num(stored)
  {
    if requested == Num(stored) then Delete else Decrement(Minus(stored, requested))
  }

  /** The lookup the removal runs: a row in the cell with the barcode and condition asked for
      and at least the quantity asked for. */
  function RemovalLookup(t: seq<Record>, data: RemovalRequest): Option<Record>
    requires ValidateRemovalData(data) == [] && IntParam(data.kolvo).Value?
  {
    FindRecordForRemoval(t, data.shk.s, data.wrShk.s, data.condition.s, Some(IntParam(data.kolvo).v))
  }

  /** `removeItems`: validate, find the oldest row holding enough, then delete it when the
      request takes exactly its quantity and decrement it otherwise. A quantity the `INT`
      parameter refuses makes the lookup fail. */
  function RemoveItemsSpec(s: Table, data: RemovalRequest, now: nat): (out: (Result<()>, Table))
    ensures ValidTable(s) ==> ValidTable(out.1)
    ensures out.0.Err? ==> out.1 == s
  {
    var errors := ValidateRemovalData(data);
    if errors != [] then (Err(ValidationFailed(errors)), s)
    else if !IntParam(data.kolvo).Value? then (Err(FindForRemovalFailed), s)
    else
      match RemovalLookup(s.rows, data)
      case None => (Err(NotEnoughOrNotFound), s)
      case Some(found) =>
        match RemovalStep(data.kolvo, found.kolvo)
        case Delete => DeleteEffect(s, found.id)
        case Decrement(newKolvo) => UpdateQuantityEffect(s, found.id, newKolvo, now)
  }

  method RemoveItems(store: Store, data: RemovalRequest, now: nat) returns (res: Result<()>)
    requires store.Valid()
    modifies store
    ensures store.Valid()
    ensures (res, store.State()) == RemoveItemsSpec(old(store.State()), data, now)
  {
    var errors := ValidateRemovalData(data);
    if errors != [] {
      return Err(ValidationFailed(errors));
    }
    var kolvo := IntParam(data.kolvo);
    if !kolvo.Value? {
      return Err(FindForRemovalFailed);
    }
    var found := FindRecordForRemoval(store.rows, data.shk.s, data.wrShk.s, data.condition.s, Some(kolvo.v));
    if found.None? {
      return Err(NotEnoughOrNotFound);
    }
    var step := RemovalStep(data.kolvo, found.value.kolvo);
    if step.Delete? {
      res := store.DeleteRecord(found.value.id);
    } else {
      res := store.UpdateRecordQuantity(found.value.id, step.newKolvo, now);
    }
  }

  /** The delete or decrement the removal applies to a stored row holding at least the
      quantity taken succeeds: the row carries its identity, and the decremented quantity fits
      an `INT`. */
  lemma RemovalStepSucceeds(s: Table, i: int, requested: JsValue, q: int, now: nat)
    requires ValidTable(s) && 0 <= i < |s.rows|
    requires ToNumber(requested) == Num(q) && 1 <= q <= s.rows[i].kolvo
    ensures match RemovalStep(requested, s.rows[i].kolvo)
      case Delete => DeleteEffect(s, s.rows[i].id).0 == Ok(())
      case Decrement(k) => UpdateQuantityEffect(s, s.rows[i].id, k, now).0 == Ok(())
  {
    assert HasId(s.rows, s.rows[i].id);
    assert IsInt32(s.rows[i].kolvo);
  }

  /** Once a row is found, the removal succeeds. */
  lemma RemoveItemsSucceedsWhenFound(s: Table, data: RemovalRequest, now: nat)
    requires ValidTable(s)
    requires ValidateRemovalData(data) == [] && IntParam(data.kolvo).Value?
    requires RemovalLookup(s.rows, data).Some?
    ensures RemoveItemsSpec(s, data, now).0 == Ok(())
  {
    var r := RemovalLookup(s.rows, data).value;
    var i :| 0 <= i < |s.rows| && s.rows[i] == r;
    var q := IntParam(data.kolvo).v;
    assert ToNumber(data.kolvo) == Num(q);
    if data.kolvo.Str? {
      ParseIntAgreesWithNumber(data.kolvo.s);
    }
    RemovalStepSucceeds(s, i, data.kolvo, q, now);
  }

  /** A removal request that passes validation answers with the combined "not enough or not
      found" error, and writes nothing, exactly when no row of the cell has the barcode, the
      condition and at least the quantity asked for. */
  lemma RemoveItemsNotFound(s: Table, data: RemovalRequest, now: nat)
    requires ValidTable(s)
    requires ValidateRemovalData(data) == [] && IntParam(data.kolvo).Value?
    ensures RemoveItemsSpec(s, data, now) == (Err(NotEnoughOrNotFound), s) <==>
      forall r :: r in s.rows ==> !(&& r.shk == data.shk.s && r.wrShk == Some(data.wrShk.s)
                                    && r.condition == Some(data.condition.s) && r.kolvo >= IntParam(data.kolvo).v)
  {
    var found := RemovalLookup(s.rows, data);
    if found.Some? {
      RemoveItemsSucceedsWhenFound(s, data, now);
      assert Matches(RemovalMatch(data.shk.s, data.wrShk.s, data.condition.s, Some(IntParam(data.kolvo).v)), found.value);
    }
  }

  /** When the request takes exactly the quantity of the row found, that row, and only it, is
      deleted. */
  lemma RemoveItemsDeletesExactMatch(s: Table, data: RemovalRequest, now: nat, i: int)
    requires ValidTable(s) && 0 <= i < |s.rows|
    requires ValidateRemovalData(data) == [] && IntParam(data.kolvo).Value?
    requires RemovalLookup(s.rows, data) == Some(s.rows[i])
    requires data.kolvo == Num(s.rows[i].kolvo)
    ensures RemoveItemsSpec(s, data, now) == (Ok(()), Table(s.rows[..i] + s.rows[i + 1..], s.nextId))
  {
    DeleteByIdRemovesOneRow(s.rows, i);
  }

  /** When the request does not equal the stored quantity as a number, only the row found
      changes: its quantity drops by the amount the `INT` parameter read, never below 0, and its
      update time becomes `now`. A quantity sent as a number leaves at least 1; one sent as text
      may be the whole quantity and leave 0 (see `RemoveItemsTextQuantityLeavesEmptyRow`). */
  lemma RemoveItemsDecrementsPartialMatch(s: Table, data: RemovalRequest, now: nat, i: int)
    requires ValidTable(s) && 0 <= i < |s.rows|
    requires ValidateRemovalData(data) == [] && IntParam(data.kolvo).Value?
    requires RemovalLookup(s.rows, data) == Some(s.rows[i])
    requires data.kolvo != Num(s.rows[i].kolvo)
    ensures var r := s.rows[i];
      var q := IntParam(data.kolvo).v;
      && RemoveItemsSpec(s, data, now) == (Ok(()), Table(s.rows[i := r.(kolvo := r.kolvo - q, dateUpd := Some(now))], s.nextId))
      && r.kolvo - q >= 0
      && (data.kolvo.Num? ==> r.kolvo - q >= 1)
  {
    var r := s.rows[i];
    var k := r.kolvo - IntParam(data.kolvo).v;
    assert IsInt32(r.kolvo);
    RemovalQuantityFits(data, r.kolvo);
    assert RemoveItemsSpec(s, data, now) == UpdateQuantityEffect(s, r.id, Num(k), now);
    assert HasId(s.rows, r.id);
    UpdateByIdRewritesOneRow(s.rows, i, SetQuantity(k), now);
  }

  /** A validated quantity the `INT` parameter takes, subtracted from a stored quantity that
      holds at least as much, gives a difference the `INT` parameter takes again; the `-` of the
      decrement reads the same number as the parameter. */
  lemma RemovalQuantityFits(data: RemovalRequest, stored: int)
    requires ValidateRemovalData(data) == [] && IntParam(data.kolvo).Value?
    requires IsInt32(stored) && IntParam(data.kolvo).v <= stored
    ensures var q := IntParam(data.kolvo).v;
      && Minus(stored, data.kolvo) == Num(stored - q)
      && IntParam(Num(stored - q)) == Value(stored - q)
      && q >= 1 && (data.kolvo.Num? ==> q == data.kolvo.n)
  {
    if data.kolvo.Str? {
      ParseIntAgreesWithNumber(data.kolvo.s);
    }
  }

  /** Removal never makes a stored quantity negative. */
  lemma RemoveItemsKeepsQuantitiesNonNegative(s: Table, data: RemovalRequest, now: nat)
    requires QuantitiesNonNegative(s.rows)
    ensures QuantitiesNonNegative(RemoveItemsSpec(s, data, now).1.rows)
  {
    var (res, s') := RemoveItemsSpec(s, data, now);
    if res.Ok? {
      var found := RemovalLookup(s.rows, data).value;
      if data.kolvo == Num(found.kolvo) {
        DeleteKeepsQuantitiesNonNegative(s.rows, found.id);
      } else {
        var q := IntParam(data.kolvo).v;
        assert ToNumber(data.kolvo) == Num(q);
        UpdateKeepsQuantitiesNonNegative(s.rows, found.id, SetQuantity(found.kolvo - q), now);
      }
    }
  }

  /** The quantity a removal is checked against is the `parseInt` reading of a text quantity,
      but the delete-or-decrement choice compares the text itself: a quantity sent as the
      decimal text of the stored quantity never equals it, so the row is decremented to 0
      instead of deleted. */
  lemma RemovalStepOnDecimalText(n: int)
    ensures RemovalStep(Str(IntToString(n)), n) == Decrement(Num(0))
  {
    StringToNumberOfIntToString(n);
  }

  /** Taking all of a row's quantity as text leaves the row in the table with quantity 0 and its
      cell still set: it is then listed neither as placed nor as unplaced. */
  lemma RemoveItemsTextQuantityLeavesEmptyRow(s: Table, data: RemovalRequest, now: nat, i: int)
    requires ValidTable(s) && 0 <= i < |s.rows|
    requires ValidateRemovalData(data) == [] && IntParam(data.kolvo).Value?
    requires RemovalLookup(s.rows, data) == Some(s.rows[i])
    requires data.kolvo == Str(IntToString(s.rows[i].kolvo))
    ensures var (res, s') := RemoveItemsSpec(s, data, now);
      && res == Ok(()) && |s'.rows| == |s.rows|
      && s'.rows[i] == s.rows[i].(kolvo := 0, dateUpd := Some(now))
      && !IsPlaced(s'.rows[i]) && !IsUnplaced(s'.rows[i])
  {
    var r := s.rows[i];
    RemovalStepOnDecimalText(r.kolvo);
    UpdateByIdRewritesOneRow(s.rows, i, SetQuantity(0), now);
    assert IsBlank("");
  }

  /** The choice the removal evidently intends, on the quantity as a number: delete when the
      request takes the whole stored quantity, otherwise leave at least 1. */
  function RemovalStepIntended(requested: int, stored: int): (step: Step)
    requires 1 <= requested <= stored
    ensures step.Delete? <==> requested == stored
    ensures step.Decrement? ==> step.newKolvo.Num? && 1 <= step.newKolvo.n == stored - requested
  {
    if requested == stored then Delete else Decrement(Num(stored - requested))
  }

  /** For a quantity sent as a number, the removal makes exactly the intended choice; for the
      decimal text of the stored quantity the intended choice deletes the row where the removal
      decrements it. */
  lemma RemovalStepMatchesIntendedOnNumbers(requested: int, stored: int)
    requires 1 <= requested <= stored
    ensures RemovalStep(Num(requested), stored) == RemovalStepIntended(requested, stored)
    ensures RemovalStepIntended(requested, requested) == Delete
    ensures RemovalStep(Str(IntToString(requested)), requested) != Delete
  {
    RemovalStepOnDecimalText(requested);
  }

  // ---------------------------------------------------------------- performInventory

  /** The lookup the inventory runs: the newest row in the cell with the barcode and
      condition, whatever its quantity. */
  function InventoryLookup(t: seq<Record>, data: InventoryRequest): Option<Record>
    requires ValidateInventoryData(data).0 == []
  {
    FindRecordForInventory(t, data.shk.s, data.wrShk.s, data.condition.s)
  }

  /** `performInventory`: validate (which reads a text quantity as a number), find the newest
      matching row, then delete it when the counted quantity is 0 and otherwise overwrite its
      quantity, condition and reason. */
  function PerformInventorySpec(s: Table, data: InventoryRequest, now: nat): (out: (Result<()>, Table))
    ensures ValidTable(s) ==> ValidTable(out.1)
    ensures out.0.Err? ==> out.1 == s
  {
    var (errors, data') := ValidateInventoryData(data);
    if errors != [] then (Err(ValidationFailed(errors)), s)
    else
      match InventoryLookup(s.rows, data)
      case None => (Err(RecordNotFound), s)
      case Some(found) =>
        if data'.kolvo == Num(0) then DeleteEffect(s, found.id)
        else UpdateInventoryEffect(s, found.id, data'.kolvo, data'.condition, data'.reason, now)
  }

  method PerformInventory(store: Store, data: InventoryRequest, now: nat) returns (res: Result<()>)
    requires store.Valid()
    modifies store
    ensures store.Valid()
    ensures (res, store.State()) == PerformInventorySpec(old(store.State()), data, now)
  {
    var errors, data' := ValidateInventoryData(data).0, ValidateInventoryData(data).1;
    if errors != [] {
      return Err(ValidationFailed(errors));
    }
    var found := FindRecordForInventory(store.rows, data'.shk.s, data'.wrShk.s, data'.condition.s);
    if found.None? {
      return Err(RecordNotFound);
    }
    if data'.kolvo == Num(0) {
      res := store.DeleteRecord(found.value.id);
    } else {
      res := store.UpdateRecordForInventory(found.value.id, data'.kolvo, data'.condition, data'.reason, now);
    }
  }

  /** An inventory request that passes validation answers "record not found", and writes
      nothing, exactly when no row of the cell has the barcode and the condition. */
  lemma PerformInventoryNotFound(s: Table, data: InventoryRequest, now: nat)
    requires ValidateInventoryData(data).0 == []
    ensures PerformInventorySpec(s, data, now) == (Err(RecordNotFound), s) <==>
      forall r :: r in s.rows ==> !(r.shk == data.shk.s && r.wrShk == Some(data.wrShk.s) && r.condition == Some(data.condition.s))
  {
    var found := InventoryLookup(s.rows, data);
    if found.Some? {
      var r := found.value;
      assert Matches(InventoryMatch(data.shk.s, data.wrShk.s, data.condition.s), r);
      assert HasId(s.rows, r.id) by {
        var i :| 0 <= i < |s.rows| && s.rows[i] == r;
      }
      var out := PerformInventorySpec(s, data, now);
      assert out.0 != Err(RecordNotFound) by {
        if out.0.Err? {
          assert out.0.error[0] == 'F';
        }
      }
    }
  }

  /** A count of 0 deletes the row found, and only it. */
  lemma PerformInventoryDeletesOnZero(s: Table, data: InventoryRequest, now: nat, i: int)
    requires ValidTable(s) && 0 <= i < |s.rows|
    requires ValidateInventoryData(data).0 == []
    requires InventoryLookup(s.rows, data) == Some(s.rows[i])
    requires CoerceQuantity(data.kolvo) == Num(0)
    ensures PerformInventorySpec(s, data, now) == (Ok(()), Table(s.rows[..i] + s.rows[i + 1..], s.nextId))
  {
    DeleteByIdRemovesOneRow(s.rows, i);
  }

  /** A positive count overwrites only the quantity, condition and reason of the row found, and
      its update time. */
  lemma PerformInventoryOverwrites(s: Table, data: InventoryRequest, now: nat, i: int, k: int)
    requires ValidTable(s) && 0 <= i < |s.rows|
    requires ValidateInventoryData(data).0 == []
    requires InventoryLookup(s.rows, data) == Some(s.rows[i])
    requires CoerceQuantity(data.kolvo) == Num(k) && 0 < k < Int32Limit
    requires data.reason.Str? || data.reason.Undefined? || data.reason.Null?
    ensures PerformInventorySpec(s, data, now) == (Ok(()), Table(s.rows[i := s.rows[i].(
      kolvo := k, condition := Some(data.condition.s),
      reason := if data.reason.Str? then Some(data.reason.s) else None, dateUpd := Some(now))], s.nextId))
  {
    var r := s.rows[i];
    var data' := ValidateInventoryData(data).1;
    assert PerformInventorySpec(s, data, now) == UpdateInventoryEffect(s, r.id, Num(k), data'.condition, data'.reason, now);
    var c := SetInventory(k, Some(data.condition.s), if data.reason.Str? then Some(data.reason.s) else None);
    assert Nullable(TextParam(data'.reason)) == c.reason;
    assert HasId(s.rows, r.id);
    UpdateByIdRewritesOneRow(s.rows, i, c, now);
  }

  /** Inventory never makes a stored quantity negative. */
  lemma PerformInventoryKeepsQuantitiesNonNegative(s: Table, data: InventoryRequest, now: nat)
    requires QuantitiesNonNegative(s.rows)
    ensures QuantitiesNonNegative(PerformInventorySpec(s, data, now).1.rows)
  {
    var (res, s') := PerformInventorySpec(s, data, now);
    if res.Ok? {
      var found := InventoryLookup(s.rows, data).value;
      var k := CoerceQuantity(data.kolvo);
      if k == Num(0) {
        DeleteKeepsQuantitiesNonNegative(s.rows, found.id);
      } else {
        var c := SetInventory(k.n, Some(data.condition.s), Nullable(TextParam(data.reason)));
        UpdateKeepsQuantitiesNonNegative(s.rows, found.id, c, now);
      }
    }
  }

  // ---------------------------------------------------------------- updateRecord

  /** What `updateRecord` returns on success: the row as updated, without its barcode, name
      and creation date. */
  datatype UpdatedView = UpdatedView(id: int, wrShk: Option<string>, wrName: Option<string>, kolvo: int,
                                     ispolnitel: Option<string>, condition: Option<string>,
                                     reason: Option<string>, dateUpd: Option<nat>)

  function ViewOf(r: Record): UpdatedView {
    UpdatedView(r.id, r.wrShk, r.wrName, r.kolvo, r.ispolnitel, r.condition, r.reason, r.dateUpd)
  }

  /** The column value of an optional text field that passed validation: the text, or NULL. */
  function OptionalText(v: JsValue): Option<string> {
    if v.Str? then Some(v.s) else None
  }

  /** `updateRecord` (the later of its two definitions, the one in effect): validate, check that
      the row exists, resolve the cell name, then overwrite the cell, its name, the quantity as
      sent, and the executor, condition and reason (NULL when absent). */
  function UpdateRecordSpec(s: Table, names: map<string, string>, data: UpdateRequest, now: nat): (out: (Result<UpdatedView>, Table))
    ensures ValidTable(s) ==> ValidTable(out.1)
    ensures out.0.Err? ==> out.1 == s
  {
    var errors := ValidateUpdateData(data);
    if errors != [] then (Err(ValidationFailed(errors)), s)
    else if FindRecordById(s.rows, data.id.n).None? then (Err(RecordIdNotFound(data.id.n)), s)
    else
      match ResolveWarehouse(names, data.wrShk.s)
      case None => (Err(WarehouseNotFound(data.wrShk.s)), s)
      case Some(wrName) =>
        var (r, s') := UpdateExtendedEffect(s, data.id.n, data.wrShk.s, wrName, data.kolvo,
                                            Or(data.ispolnitel, Null), Or(data.condition, Null), Or(data.reason, Null), now);
        match r
        case Ok(row) => (Ok(ViewOf(row)), s')
        case Err(e) => (Err(e), s')
  }

  method UpdateRecord(store: Store, names: map<string, string>, data: UpdateRequest, now: nat) returns (res: Result<UpdatedView>)
    requires store.Valid()
    modifies store
    ensures store.Valid()
    ensures (res, store.State()) == UpdateRecordSpec(old(store.State()), names, data, now)
  {
    var errors := ValidateUpdateData(data);
    if errors != [] {
      return Err(ValidationFailed(errors));
    }
    var existing := FindRecordById(store.rows, data.id.n);
    if existing.None? {
      return Err(RecordIdNotFound(data.id.n));
    }
    var wrName := ResolveWarehouse(names, data.wrShk.s);
    if wrName.None? {
      return Err(WarehouseNotFound(data.wrShk.s));
    }
    var updated := store.UpdateRecordExtended(data.id.n, data.wrShk.s, wrName.value, data.kolvo,
                                              Or(data.ispolnitel, Null), Or(data.condition, Null), Or(data.reason, Null), now);
    if updated.Ok? {
      res := Ok(ViewOf(updated.value));
    } else {
      res := Err(updated.error);
    }
  }

  /** A valid update request names a stored row and a known cell, or it writes nothing: a
      missing row is reported before the cell is looked up. */
  lemma UpdateRecordRejectsMissingRowOrCell(s: Table, names: map<string, string>, data: UpdateRequest, now: nat)
    requires ValidateUpdateData(data) == []
    ensures !HasId(s.rows, data.id.n) ==> UpdateRecordSpec(s, names, data, now) == (Err(RecordIdNotFound(data.id.n)), s)
    ensures HasId(s.rows, data.id.n) && ResolveWarehouse(names, data.wrShk.s).None? ==>
      UpdateRecordSpec(s, names, data, now) == (Err(WarehouseNotFound(data.wrShk.s)), s)
  {
  }

  /** A valid update of a stored row, in a known cell, with a quantity the `INT` parameter
      takes, rewrites only that row: its cell, the resolved cell name, the quantity (the number
      the validator read, so never negative), the optional texts or NULL, and the update time;
      the result shows the row as updated. */
  lemma UpdateRecordSetsFields(s: Table, names: map<string, string>, data: UpdateRequest, now: nat, i: int)
    requires ValidTable(s) && 0 <= i < |s.rows|
    requires ValidateUpdateData(data) == [] && data.id == Num(s.rows[i].id)
    requires ResolveWarehouse(names, data.wrShk.s).Some? && IntParam(data.kolvo).Value?
    ensures var r := s.rows[i];
      var r' := r.(wrShk := Some(data.wrShk.s), wrName := Some(names[data.wrShk.s]), kolvo := IntParam(data.kolvo).v,
                   ispolnitel := OptionalText(data.ispolnitel), condition := OptionalText(data.condition),
                   reason := OptionalText(data.reason), dateUpd := Some(now));
      && UpdateRecordSpec(s, names, data, now) == (Ok(ViewOf(r')), Table(s.rows[i := r'], s.nextId))
      && CoerceQuantity(data.kolvo) == Num(r'.kolvo) && r'.kolvo >= 0
  {
    var r := s.rows[i];
    assert HasId(s.rows, r.id);
    assert IsBlank("");
    var c := SetPlacement(data.wrShk.s, names[data.wrShk.s], IntParam(data.kolvo).v,
                          OptionalText(data.ispolnitel), OptionalText(data.condition), OptionalText(data.reason));
    assert Nullable(TextParam(Or(data.ispolnitel, Null))) == OptionalText(data.ispolnitel);
    assert Nullable(TextParam(Or(data.condition, Null))) == OptionalText(data.condition);
    assert Nullable(TextParam(Or(data.reason, Null))) == OptionalText(data.reason);
    UpdateByIdRewritesOneRow(s.rows, i, c, now);
    var s' := UpdateRecordSpec(s, names, data, now).1;
    assert s'.rows == s.rows[i := Apply(c, r, now)];
    var found := FindRecordById(s'.rows, r.id).value;
    var j :| 0 <= j < |s'.rows| && s'.rows[j] == found;
    assert s'.rows[j].id == s'.rows[i].id && UniqueIds(s'.rows);
    if data.kolvo.Str? {
      ParseIntAgreesWithNumber(data.kolvo.s);
    }
  }

  /** Updating never makes a stored quantity negative. */
  lemma UpdateRecordKeepsQuantitiesNonNegative(s: Table, names: map<string, string>, data: UpdateRequest, now: nat)
    requires QuantitiesNonNegative(s.rows)
    ensures QuantitiesNonNegative(UpdateRecordSpec(s, names, data, now).1.rows)
  {
    var (res, s') := UpdateRecordSpec(s, names, data, now);
    if res.Ok? {
      var k := IntParam(data.kolvo).v;
      if data.kolvo.Str? {
        ParseIntAgreesWithNumber(data.kolvo.s);
      }
      assert k >= 0;
      var c := SetPlacement(data.wrShk.s, names[data.wrShk.s], k, Nullable(TextParam(Or(data.ispolnitel, Null))),
                            Nullable(TextParam(Or(data.condition, Null))), Nullable(TextParam(Or(data.reason, Null))));
      UpdateKeepsQuantitiesNonNegative(s.rows, data.id.n, c, now);
    }
  }

  // ---------------------------------------------------------------- searches

  /** `searchByWrShk`: a blank cell barcode is refused; otherwise the rows of the cell named by
      the trimmed barcode, latest first. */
  function SearchByWrShk(t: seq<Record>, wrShk: JsValue): (res: Result<seq<Item>>)
    ensures res.Err? <==> MissingString(wrShk)
    ensures res.Err? ==> res.error == WrShkParameterRequired
    ensures res.Ok? ==> Trim(wrShk.s) != "" && ListsByDateDesc(res.value, t, CellIs(Trim(wrShk.s)))
    ensures res.Ok? ==> forall x :: x in res.value ==> x.wrShk == Some(Trim(wrShk.s))
  {
    if MissingString(wrShk) then Err(WrShkParameterRequired)
    else Ok(X3plRepository.SearchByWrShk(t, Trim(wrShk.s)))
  }

  /** The search parameters as the client sent them. */
  datatype SearchParams = SearchParams(wrName: JsValue, wrShk: JsValue, shk: JsValue, name: JsValue)

  /** A parameter is forwarded, trimmed, when it is a string that is not blank. */
  function SearchParam(v: JsValue): (p: Option<string>)
    ensures p.Some? <==> !MissingString(v)
    ensures p.Some? ==> v.Str? && p.value == Trim(v.s) && Supplied(p)
  {
    if MissingString(v) then None else Some(Trim(v.s))
  }

  function ForwardedParams(p: SearchParams): LikeParams {
    LikeParams(SearchParam(p.wrName), SearchParam(p.wrShk), SearchParam(p.shk), SearchParam(p.name))
  }

  /** `searchWithLike`: refused unless some parameter is a non-blank string; otherwise the
      substring search over the forwarded parameters. */
  function SearchWithLike(t: seq<Record>, p: SearchParams): (res: Result<seq<Item>>)
    ensures res.Err? ==> res.error == SearchParameterRequired
    ensures res.Ok? ==> ListsByDateDesc(res.value, t, LikeAny(SearchParam(p.wrName), SearchParam(p.wrShk), SearchParam(p.shk), SearchParam(p.name)))
  {
    var forwarded := ForwardedParams(p);
    if !AnySupplied(forwarded) then Err(SearchParameterRequired)
    else Ok(X3plRepository.SearchWithLike(t, forwarded))
  }

  /** A search runs exactly when at least one parameter holds a character that is not white
      space; each forwarded parameter is the trimmed text, and the others are left out. */
  lemma SearchWithLikeAcceptedIff(t: seq<Record>, p: SearchParams)
    ensures SearchWithLike(t, p).Ok? <==>
      FilledString(p.wrName) || FilledString(p.wrShk) || FilledString(p.shk) || FilledString(p.name)
    ensures FilledString(p.wrName) ==> ForwardedParams(p).wrName == Some(Trim(p.wrName.s))
    ensures !FilledString(p.wrName) ==> ForwardedParams(p).wrName == None
    ensures FilledString(p.wrShk) ==> ForwardedParams(p).wrShk == Some(Trim(p.wrShk.s))
    ensures !FilledString(p.wrShk) ==> ForwardedParams(p).wrShk == None
    ensures FilledString(p.shk) ==> ForwardedParams(p).shk == Some(Trim(p.shk.s))
    ensures !FilledString(p.shk) ==> ForwardedParams(p).shk == None
    ensures FilledString(p.name) ==> ForwardedParams(p).name == Some(Trim(p.name.s))
    ensures !FilledString(p.name) ==> ForwardedParams(p).name == None
  {
    MissingStringIffNotFilled(p.wrName);
    MissingStringIffNotFilled(p.wrShk);
    MissingStringIffNotFilled(p.shk);
    MissingStringIffNotFilled(p.name);
  }

  // ---------------------------------------------------------------- getAllRecords

  /** `Math.min(options.limit || 1000, 10000)`, where `None` stands for a limit that is absent or
      not a number. A negative limit is kept. */
  function EffectiveLimit(limit: Option<int>): (l: int)
    ensures l <= 10000
    ensures limit.None? || limit == Some(0) ==> l == 1000
    ensures limit.Some? && limit.value != 0 ==> l <= limit.value && (l == limit.value || l == 10000)
  {
    var l := if limit.None? || limit.value == 0 then 1000 else limit.value;
    if l < 10000 then l else 10000
  }

  /** `Math.max(options.offset || 0, 0)` */
  function EffectiveOffset(offset: Option<int>): (o: int)
    ensures o >= 0
    ensures offset.None? ==> o == 0
    ensures offset.Some? ==> o >= offset.value && (o == offset.value || o == 0)
  {
    var o := if offset.None? then 0 else offset.value;
    if o > 0 then o else 0
  }

  /** A page and where it sits in the whole listing. */
  datatype PageResult = PageResult(data: seq<Record>, total: nat, limit: int, offset: int, hasMore: bool)

  /** `getAllRecords`: one page of the rows, latest first, with the total count and whether rows
      follow the page. */
  function GetAllRecords(t: seq<Record>, limit: Option<int>, offset: Option<int>): (res: Result<PageResult>)
    ensures res.Ok? <==> EffectiveLimit(limit) > 0 && EffectiveOffset(offset) < Int32Limit
    ensures res.Ok? ==> && res.value.limit == EffectiveLimit(limit) && res.value.offset == EffectiveOffset(offset)
                        && res.value.total == |t|
                        && res.value.data == Page(SortByDateDesc(t), res.value.offset, res.value.limit)
                        && |res.value.data| <= res.value.limit <= 10000
  {
    var l, o := EffectiveLimit(limit), EffectiveOffset(offset);
    match X3plRepository.GetAllRecords(t, l, o)
    case Err(e) => Err(e)
    case Ok(rows) =>
      var total := TotalRecordsCount(t);
      Ok(PageResult(rows, total, l, o, o + l < total))
  }

  /** `hasMore` is set exactly when the row after the page exists. */
  lemma HasMoreIffRowsFollow(t: seq<Record>, limit: Option<int>, offset: Option<int>)
    requires GetAllRecords(t, limit, offset).Ok?
    ensures var p := GetAllRecords(t, limit, offset).value;
      p.hasMore <==> Page(SortByDateDesc(t), p.offset + p.limit, 1) != []
  {
  }

  /** The limit is capped at 10000 but never raised to a positive value, so a negative limit
      reaches the query, which refuses it. */
  lemma NegativeLimitIsRefused(t: seq<Record>, v: int, offset: Option<int>)
    requires v < 0
    ensures GetAllRecords(t, Some(v), offset).Err?
  {
  }
}
