/**
 * The repository over the stock table: what each SQL statement means on an in-memory table.
 *
 * Read-only statements (listings, lookups, searches, pagination) are functions of the rows.
 * Writing statements are methods of `Store`; each is proved equal to an effect function that
 * gives its result and the table after it, and the service composes those effect functions
 * in its own specifications.
 */
module X3plRepository {
  import opened Wrappers
  import opened JsValues
  import opened Tables

  // ---------------------------------------------------------------- parameter binding

  /** What the SQL driver makes of a JavaScript value bound to a typed parameter. */
  datatype Param<+T> = Value(v: T) | SqlNull | Refused

  /** `sql.Int`: undefined and null bind NULL; anything else is converted with ToNumber and is
      refused when that is NaN or outside the `INT` range. */
  function IntParam(v: JsValue): (p: Param<int>)
    ensures p.SqlNull? <==> v.Undefined? || v.Null?
    ensures p.Value? <==> !v.Undefined? && !v.Null? && ToNumber(v).Num? && IsInt32(ToNumber(v).n)
    ensures p.Value? ==> p.v == ToNumber(v).n && IsInt32(p.v)
  {
    if v.Undefined? || v.Null? then SqlNull
    else
      match ToNumber(v)
      case Num(n) => if IsInt32(n) then Value(n) else Refused
      case _ => Refused
  }

  /** `sql.NVarChar`: strings bind as they are, undefined and null bind NULL, other values are
      refused. */
  function TextParam(v: JsValue): Param<string> {
    match v
    case Str(s) => Value(s)
    case Undefined => SqlNull
    case Null => SqlNull
    case _ => Refused
  }

  /** `sql.DateTime`: a Date binds its clock reading, undefined and null bind NULL, other values
      are refused. */
  function DateParam(v: JsValue): Param<nat> {
    match v
    case Date(t) => Value(t)
    case Undefined => SqlNull
    case Null => SqlNull
    case _ => Refused
  }

  /** The value a nullable column receives from a bound parameter. */
  function Nullable<T>(p: Param<T>): Option<T> {
    if p.Value? then Some(p.v) else None
  }

  /** The row `INSERT ... VALUES (@shk, ..., @date_upd)` stores under identity `id`: none when a
      parameter is refused or a NOT NULL column (shk, name, kolvo, date) would receive NULL. */
  function BindRow(o: DbObject, id: int): (r: Option<Record>)
    ensures r.Some? <==>
      && TextParam(o.shk).Value? && TextParam(o.name).Value? && IntParam(o.kolvo).Value?
      && DateParam(o.date).Value?
      && !TextParam(o.wrShk).Refused? && !TextParam(o.wrName).Refused?
      && !TextParam(o.condition).Refused? && !TextParam(o.reason).Refused?
      && !TextParam(o.ispolnitel).Refused? && !DateParam(o.dateUpd).Refused?
    ensures r.Some? ==> r.value.id == id && IsInt32(r.value.kolvo)
  {
    var shk, name, wrShk, wrName := TextParam(o.shk), TextParam(o.name), TextParam(o.wrShk), TextParam(o.wrName);
    var kolvo, condition, reason := IntParam(o.kolvo), TextParam(o.condition), TextParam(o.reason);
    var ispolnitel, date, dateUpd := TextParam(o.ispolnitel), DateParam(o.date), DateParam(o.dateUpd);
    if shk.Value? && name.Value? && kolvo.Value? && date.Value?
       && !wrShk.Refused? && !wrName.Refused? && !condition.Refused? && !reason.Refused?
       && !ispolnitel.Refused? && !dateUpd.Refused?
    then
      Some(Record(id, shk.v, name.v, Nullable(wrShk), Nullable(wrName), kolvo.v,
                  Nullable(condition), Nullable(reason), Nullable(ispolnitel), date.v, Nullable(dateUpd)))
    else None
  }

  // ---------------------------------------------------------------- selections

  /** The WHERE clauses of the read statements. */
  datatype Where =
    | PlacedRows
    | UnplacedRows
    | CellIs(cell: string)
    | LikeAny(wrNamePart: Option<string>, wrShkPart: Option<string>, shkPart: Option<string>, namePart: Option<string>)
    | RemovalMatch(shk: string, wrShk: string, condition: string, atLeast: Option<int>)
    | InventoryMatch(shk: string, wrShk: string, condition: string)

  /** A search parameter takes part in the LIKE search when it is a non-empty string. */
  predicate Supplied(p: Option<string>) {
    p.Some? && p.value != ""
  }

  /** `column LIKE '%' + p + '%'`; a NULL column matches nothing. */
  predicate LikePart(column: Option<string>, p: Option<string>) {
    Supplied(p) && column.Some? && Contains(column.value, p.value)
  }

  predicate Matches(w: Where, r: Record) {
    match w
    case PlacedRows => IsPlaced(r)
    case UnplacedRows => IsUnplaced(r)
    case CellIs(cell) => r.wrShk == Some(cell)
    case LikeAny(wrNamePart, wrShkPart, shkPart, namePart) =>
      || LikePart(r.wrName, wrNamePart) || LikePart(r.wrShk, wrShkPart)
      || LikePart(Some(r.shk), shkPart) || LikePart(Some(r.name), namePart)
    case RemovalMatch(shk, wrShk, condition, atLeast) =>
      r.shk == shk && r.wrShk == Some(wrShk) && r.condition == Some(condition)
      && atLeast.Some? && r.kolvo >= atLeast.value
    case InventoryMatch(shk, wrShk, condition) =>
      r.shk == shk && r.wrShk == Some(wrShk) && r.condition == Some(condition)
  }

  /** The rows satisfying `w`, in table order, each as often as it occurs in the table. */
  function Filter(t: seq<Record>, w: Where): (rs: seq<Record>)
    ensures forall r :: multiset(rs)[r] == if Matches(w, r) then multiset(t)[r] else 0
    ensures forall r :: r in rs <==> r in t && Matches(w, r)
  {
    if t == [] then []
    else
      var rest := Filter(t[1..], w);
      assert t == [t[0]] + t[1..];
      if Matches(w, t[0]) then [t[0]] + rest else rest
  }

  /** `ORDER BY date DESC` */
  ghost predicate SortedByDateDesc(rs: seq<Record>) {
    forall i, j :: 0 <= i < j < |rs| ==> rs[i].date >= rs[j].date
  }

  /** Every row of a sorted sequence after its first is no later than the first. */
  lemma SortedTail(rs: seq<Record>)
    requires SortedByDateDesc(rs) && rs != []
    ensures SortedByDateDesc(rs[1..])
    ensures forall j :: 1 <= j < |rs| ==> rs[0].date >= rs[j].date
  {
  }

  /** `r` placed before the first row of `rs` no later than it. */
  function InsertByDate(r: Record, rs: seq<Record>): (res: seq<Record>)
    ensures |res| == |rs| + 1
    ensures res[0] == r || (rs != [] && res[0] == rs[0])
  {
    if rs == [] || r.date >= rs[0].date then [r] + rs
    else [rs[0]] + InsertByDate(r, rs[1..])
  }

  lemma {:induction false} InsertByDateSorted(r: Record, rs: seq<Record>)
    requires SortedByDateDesc(rs)
    ensures SortedByDateDesc(InsertByDate(r, rs))
  {
    if rs != [] && r.date < rs[0].date {
      SortedTail(rs);
      InsertByDateSorted(r, rs[1..]);
      var tail := InsertByDate(r, rs[1..]);
      assert rs[0].date >= tail[0].date;
    }
  }

  lemma {:induction false} InsertByDateAddsOne(r: Record, rs: seq<Record>)
    ensures multiset(InsertByDate(r, rs)) == multiset(rs) + multiset{r}
  {
    if rs != [] && r.date < rs[0].date {
      InsertByDateAddsOne(r, rs[1..]);
      assert rs == [rs[0]] + rs[1..];
    }
  }

  /** Inserting the first row into the sorted rest sorts the whole sequence. */
  lemma InsertFirstSorts(rs: seq<Record>, sorted: seq<Record>)
    requires rs != [] && SortedByDateDesc(sorted) && multiset(sorted) == multiset(rs[1..])
    ensures SortedByDateDesc(InsertByDate(rs[0], sorted))
    ensures multiset(InsertByDate(rs[0], sorted)) == multiset(rs)
  {
    InsertByDateSorted(rs[0], sorted);
    InsertByDateAddsOne(rs[0], sorted);
    assert rs == [rs[0]] + rs[1..];
  }

  /** The rows in date-descending order (an insertion sort; rows of equal date keep no
      particular order in SQL, so any fixed order is one the database may return). */
  function SortByDateDesc(rs: seq<Record>): (res: seq<Record>)
    ensures SortedByDateDesc(res)
    ensures multiset(res) == multiset(rs)
    ensures |res| == |rs|
  {
    if rs == [] then []
    else
      var sorted := SortByDateDesc(rs[1..]);
      InsertFirstSorts(rs, sorted);
      InsertByDate(rs[0], sorted)
  }

  /** `SELECT ... FROM X_Three_PL WHERE w ORDER BY date DESC`: exactly the rows satisfying `w`,
      as often as the table holds them, latest first. */
  ghost predicate SelectsByDateDesc(rs: seq<Record>, t: seq<Record>, w: Where) {
    && (forall r :: multiset(rs)[r] == if Matches(w, r) then multiset(t)[r] else 0)
    && SortedByDateDesc(rs)
  }

  function Selected(t: seq<Record>, w: Where): (rs: seq<Record>)
    ensures SelectsByDateDesc(rs, t, w)
    ensures forall r :: r in rs <==> r in t && Matches(w, r)
  {
    var f := Filter(t, w);
    var rs := SortByDateDesc(f);
    assert forall r :: r in rs <==> r in f by {
      forall r ensures r in rs <==> r in f {
        assert r in rs <==> multiset(rs)[r] > 0;
        assert r in f <==> multiset(f)[r] > 0;
      }
    }
    rs
  }

  function Items(rs: seq<Record>): (items: seq<Item>)
    ensures |items| == |rs|
    ensures forall i :: 0 <= i < |rs| ==> items[i] == ItemOf(rs[i])
  {
    seq(|rs|, i requires 0 <= i < |rs| => ItemOf(rs[i]))
  }

  /** The projected result of a listing over `w`. */
  ghost predicate ListsByDateDesc(items: seq<Item>, t: seq<Record>, w: Where) {
    exists rs :: SelectsByDateDesc(rs, t, w) && items == Items(rs)
  }

  /** Every listed item comes from a row of the table that satisfies `w`. */
  lemma ListedItemsMatch(t: seq<Record>, w: Where, x: Item)
    requires x in Items(Selected(t, w))
    ensures exists r :: r in t && Matches(w, r) && x == ItemOf(r)
  {
    var rs := Selected(t, w);
    var i :| 0 <= i < |rs| && Items(rs)[i] == x;
    assert rs[i] in rs;
  }

  /** `getRazmeshennye`: the placed rows, latest first. */
  function GetRazmeshennye(t: seq<Record>): (items: seq<Item>)
    ensures ListsByDateDesc(items, t, PlacedRows)
    ensures forall x :: x in items ==> x.kolvo > 0 && IsFilled(x.wrShk) && IsFilled(x.wrName)
  {
    var rs := Selected(t, PlacedRows);
    assert forall x :: x in Items(rs) ==> x.kolvo > 0 && IsFilled(x.wrShk) && IsFilled(x.wrName) by {
      forall x | x in Items(rs) ensures x.kolvo > 0 && IsFilled(x.wrShk) && IsFilled(x.wrName) {
        ListedItemsMatch(t, PlacedRows, x);
      }
    }
    Items(rs)
  }

  /** `getNerazmeshennye`: the unplaced rows, latest first. */
  function GetNerazmeshennye(t: seq<Record>): (items: seq<Item>)
    ensures ListsByDateDesc(items, t, UnplacedRows)
    ensures forall x :: x in items ==> x.kolvo == 0 && !IsFilled(x.wrShk) && !IsFilled(x.wrName)
  {
    var rs := Selected(t, UnplacedRows);
    assert forall x :: x in Items(rs) ==> x.kolvo == 0 && !IsFilled(x.wrShk) && !IsFilled(x.wrName) by {
      forall x | x in Items(rs) ensures x.kolvo == 0 && !IsFilled(x.wrShk) && !IsFilled(x.wrName) {
        ListedItemsMatch(t, UnplacedRows, x);
      }
    }
    Items(rs)
  }

  /** No item is listed both as placed and as unplaced. */
  lemma PlacedAndUnplacedDisjoint(t: seq<Record>)
    ensures forall x :: x in GetRazmeshennye(t) ==> x !in GetNerazmeshennye(t)
  {
  }

  /** A stored placed row is listed among the placed items and not among the unplaced ones. */
  lemma PlacedRowIsListed(t: seq<Record>, r: Record)
    requires r in t && IsPlaced(r)
    ensures ItemOf(r) in GetRazmeshennye(t) && ItemOf(r) !in GetNerazmeshennye(t)
  {
    var rs := Selected(t, PlacedRows);
    var k :| 0 <= k < |rs| && rs[k] == r;
    assert Items(rs)[k] == ItemOf(r);
  }

  /** `searchByWrShk`: the rows stored in cell `wrShk`, latest first. */
  function SearchByWrShk(t: seq<Record>, wrShk: string): (items: seq<Item>)
    ensures ListsByDateDesc(items, t, CellIs(wrShk))
    ensures forall x :: x in items ==> x.wrShk == Some(wrShk)
  {
    var rs := Selected(t, CellIs(wrShk));
    assert forall x :: x in Items(rs) ==> x.wrShk == Some(wrShk) by {
      forall x | x in Items(rs) ensures x.wrShk == Some(wrShk) {
        ListedItemsMatch(t, CellIs(wrShk), x);
      }
    }
    Items(rs)
  }

  /** The search parameters `searchWithLike` receives; absent ones are `None`. */
  datatype LikeParams = LikeParams(wrName: Option<string>, wrShk: Option<string>, shk: Option<string>, name: Option<string>)

  predicate AnySupplied(p: LikeParams) {
    Supplied(p.wrName) || Supplied(p.wrShk) || Supplied(p.shk) || Supplied(p.name)
  }

  /** `searchWithLike`: the rows where some supplied parameter occurs in its column, latest first;
      nothing at all when no parameter is supplied. */
  function SearchWithLike(t: seq<Record>, p: LikeParams): (items: seq<Item>)
    ensures !AnySupplied(p) ==> items == []
    ensures AnySupplied(p) ==> ListsByDateDesc(items, t, LikeAny(p.wrName, p.wrShk, p.shk, p.name))
  {
    if !AnySupplied(p) then []
    else
      var rs := Selected(t, LikeAny(p.wrName, p.wrShk, p.shk, p.name));
      Items(rs)
  }

  // ---------------------------------------------------------------- lookups

  /** The first row (in table order) satisfying `w` whose date no other such row undercuts. */
  function Oldest(t: seq<Record>, w: Where): (res: Option<Record>)
    ensures res.Some? ==> res.value in t && Matches(w, res.value)
    ensures res.Some? ==> forall r :: r in t && Matches(w, r) ==> res.value.date <= r.date
    ensures res.None? <==> forall r :: r in t ==> !Matches(w, r)
  {
    if t == [] then None
    else
      var rest := Oldest(t[1..], w);
      assert forall r :: r in t ==> r == t[0] || r in t[1..];
      if Matches(w, t[0]) && (rest.None? || t[0].date <= rest.value.date) then Some(t[0]) else rest
  }

  /** The first row (in table order) satisfying `w` whose date no other such row exceeds. */
  function Newest(t: seq<Record>, w: Where): (res: Option<Record>)
    ensures res.Some? ==> res.value in t && Matches(w, res.value)
    ensures res.Some? ==> forall r :: r in t && Matches(w, r) ==> res.value.date >= r.date
    ensures res.None? <==> forall r :: r in t ==> !Matches(w, r)
  {
    if t == [] then None
    else
      var rest := Newest(t[1..], w);
      assert forall r :: r in t ==> r == t[0] || r in t[1..];
      if Matches(w, t[0]) && (rest.None? || t[0].date >= rest.value.date) then Some(t[0]) else rest
  }

  const FindForRemovalFailed := "Failed to find record for removal"

  /** `findRecordForRemoval`: `SELECT TOP 1 ... WHERE shk = @shk AND wr_shk = @wr_shk AND
      condition = @condition AND kolvo >= @kolvo ORDER BY date ASC`. A NULL `@kolvo` matches no
      row. */
  function FindRecordForRemoval(t: seq<Record>, shk: string, wrShk: string, condition: string, kolvo: Option<int>): (res: Option<Record>)
    ensures res.Some? ==> && res.value in t && res.value.shk == shk && res.value.wrShk == Some(wrShk)
                          && res.value.condition == Some(condition)
                          && kolvo.Some? && res.value.kolvo >= kolvo.value
    ensures res.Some? ==> forall r :: r in t && Matches(RemovalMatch(shk, wrShk, condition, kolvo), r) ==> res.value.date <= r.date
    ensures res.None? <==> forall r :: r in t ==> !Matches(RemovalMatch(shk, wrShk, condition, kolvo), r)
  {
    Oldest(t, RemovalMatch(shk, wrShk, condition, kolvo))
  }

  /** `findRecordForInventory`: `SELECT TOP 1 ... WHERE shk = @shk AND wr_shk = @wr_shk AND
      condition = @condition ORDER BY date DESC`; the quantity plays no part. */
  function FindRecordForInventory(t: seq<Record>, shk: string, wrShk: string, condition: string): (res: Option<Record>)
    ensures res.Some? ==> && res.value in t && res.value.shk == shk && res.value.wrShk == Some(wrShk)
                          && res.value.condition == Some(condition)
    ensures res.Some? ==> forall r :: r in t && Matches(InventoryMatch(shk, wrShk, condition), r) ==> res.value.date >= r.date
    ensures res.None? <==> forall r :: r in t ==> !Matches(InventoryMatch(shk, wrShk, condition), r)
  {
    Newest(t, InventoryMatch(shk, wrShk, condition))
  }

  /** The row with identity `id`, if any (the lookup by id the update operation relies on). */
  function FindRecordById(t: seq<Record>, id: int): (res: Option<Record>)
    ensures res.Some? ==> res.value in t && res.value.id == id
    ensures res.None? <==> !HasId(t, id)
  {
    if t == [] then None
    else if t[0].id == id then Some(t[0])
    else
      assert forall i :: 1 <= i < |t| ==> t[i] == t[1..][i - 1];
      assert HasId(t[1..], id) ==> HasId(t, id);
      FindRecordById(t[1..], id)
  }

  // ---------------------------------------------------------------- pagination

  /** `OFFSET offset ROWS FETCH NEXT limit ROWS ONLY` over rows already in order. */
  function Page(rs: seq<Record>, offset: nat, limit: nat): (page: seq<Record>)
    ensures |page| <= limit
    ensures |page| == if offset >= |rs| then 0 else if offset + limit <= |rs| then limit else |rs| - offset
    ensures forall i :: 0 <= i < |page| ==> page[i] == rs[offset + i]
  {
    var lo := if offset < |rs| then offset else |rs|;
    var hi := if offset + limit < |rs| then offset + limit else |rs|;
    rs[lo..hi]
  }

  const FetchFailed := "Failed to get all records"

  /** `getAllRecords`: all rows, latest first, `limit` of them after skipping `offset`. The
      statement is rejected when the FETCH count is not positive, the OFFSET is negative, or
      either does not fit an `INT` parameter. */
  function GetAllRecords(t: seq<Record>, limit: int, offset: int): (res: Result<seq<Record>>)
    ensures res.Ok? <==> (limit == 0 || 0 < limit < Int32Limit) && 0 <= offset < Int32Limit
    ensures res.Ok? ==> |res.value| <= (if limit == 0 then 1000 else limit)
    ensures res.Ok? ==> res.value == Page(SortByDateDesc(t), offset, if limit == 0 then 1000 else limit)
  {
    var limit := if limit == 0 then 1000 else limit;
    if limit <= 0 || !IsInt32(limit) || offset < 0 || !IsInt32(offset) then Err(FetchFailed)
    else Ok(Page(SortByDateDesc(t), offset, limit))
  }

  /** Consecutive pages put together are the page that spans both. */
  lemma PagesConcatenate(rs: seq<Record>, offset: nat, a: nat, b: nat)
    ensures Page(rs, offset, a) + Page(rs, offset + a, b) == Page(rs, offset, a + b)
  {
    var p, q, pq := Page(rs, offset, a), Page(rs, offset + a, b), Page(rs, offset, a + b);
    assert |p + q| == |pq|;
    forall i | 0 <= i < |pq| ensures (p + q)[i] == pq[i] {
      if i >= |p| {
        assert (p + q)[i] == q[i - |p|];
      }
    }
  }

  /** `getTotalRecordsCount`: `SELECT COUNT(*)`. It is the least number of rows that, fetched
      from the start, returns every row. */
  function TotalRecordsCount(t: seq<Record>): (total: nat)
    ensures Page(SortByDateDesc(t), 0, total) == SortByDateDesc(t)
    ensures forall k: nat :: k < total ==> Page(SortByDateDesc(t), 0, k) != SortByDateDesc(t)
  {
    |t|
  }

  // ---------------------------------------------------------------- writes

  /** The table as the store holds it: its rows and the IDENTITY(1,1) counter, the identity the
      next insert receives. */
  datatype Table = Table(rows: seq<Record>, nextId: int)

  /** Identities are positive, distinct and below the counter, which stays within `INT`. */
  ghost predicate ValidTable(s: Table) {
    && 1 <= s.nextId <= Int32Limit
    && WellFormed(s.rows)
    && forall i :: 0 <= i < |s.rows| ==> 1 <= s.rows[i].id < s.nextId
  }

  /** The column assignments of the UPDATE statements. */
  datatype Change =
    | SetQuantity(kolvo: int)
    | SetInventory(kolvo: int, condition: Option<string>, reason: Option<string>)
    | SetPlacement(wrShk: string, wrName: string, kolvo: int, ispolnitel: Option<string>,
                   condition: Option<string>, reason: Option<string>)

  /** A row after an UPDATE: the listed columns take their new values and `date_upd` the time of
      the update; identity, barcode, name and creation date never change. */
  function Apply(c: Change, r: Record, now: nat): (r': Record)
    ensures r'.id == r.id && r'.shk == r.shk && r'.name == r.name && r'.date == r.date
    ensures r'.dateUpd == Some(now) && r'.kolvo == c.kolvo
    ensures !c.SetPlacement? ==> r'.wrShk == r.wrShk && r'.wrName == r.wrName && r'.ispolnitel == r.ispolnitel
    ensures c.SetQuantity? ==> r'.condition == r.condition && r'.reason == r.reason
    ensures c.SetInventory? ==> r'.condition == c.condition && r'.reason == c.reason
    ensures c.SetPlacement? ==> && r'.wrShk == Some(c.wrShk) && r'.wrName == Some(c.wrName)
                                && r'.ispolnitel == c.ispolnitel && r'.condition == c.condition
                                && r'.reason == c.reason
  {
    match c
    case SetQuantity(k) => r.(kolvo := k, dateUpd := Some(now))
    case SetInventory(k, condition, reason) =>
      r.(kolvo := k, condition := condition, reason := reason, dateUpd := Some(now))
    case SetPlacement(wrShk, wrName, k, ispolnitel, condition, reason) =>
      r.(wrShk := Some(wrShk), wrName := Some(wrName), kolvo := k, ispolnitel := ispolnitel,
         condition := condition, reason := reason, dateUpd := Some(now))
  }

  /** `UPDATE X_Three_PL SET ... WHERE id = @id` */
  function UpdateById(t: seq<Record>, id: int, c: Change, now: nat): (t': seq<Record>)
    ensures |t'| == |t|
  {
    seq(|t|, i requires 0 <= i < |t| => if t[i].id == id then Apply(c, t[i], now) else t[i])
  }

  /** `DELETE FROM X_Three_PL WHERE id = @id` */
  function DeleteById(t: seq<Record>, id: int): seq<Record> {
    if t == [] then []
    else (if t[0].id == id then [] else [t[0]]) + DeleteById(t[1..], id)
  }

  /** A delete by id keeps exactly the rows carrying another identity. */
  lemma {:induction false} DeleteByIdKeepsOthers(t: seq<Record>, id: int)
    ensures forall r :: r in DeleteById(t, id) <==> r in t && r.id != id
  {
    if t != [] {
      DeleteByIdKeepsOthers(t[1..], id);
      assert forall r :: r in t <==> r == t[0] || r in t[1..];
    }
  }

  /** An update that writes a non-negative quantity keeps every quantity non-negative. */
  lemma UpdateKeepsQuantitiesNonNegative(t: seq<Record>, id: int, c: Change, now: nat)
    requires QuantitiesNonNegative(t) && c.kolvo >= 0
    ensures QuantitiesNonNegative(UpdateById(t, id, c, now))
  {
  }

  /** A delete keeps every quantity non-negative. */
  lemma DeleteKeepsQuantitiesNonNegative(t: seq<Record>, id: int)
    requires QuantitiesNonNegative(t)
    ensures QuantitiesNonNegative(DeleteById(t, id))
  {
    var t' := DeleteById(t, id);
    DeleteByIdKeepsOthers(t, id);
    forall k | 0 <= k < |t'| ensures t'[k].kolvo >= 0 {
      assert t'[k] in t;
    }
  }

  /** With distinct identities, an update by id rewrites exactly the one row carrying it. */
  lemma UpdateByIdRewritesOneRow(t: seq<Record>, i: int, c: Change, now: nat)
    requires UniqueIds(t) && 0 <= i < |t|
    ensures UpdateById(t, t[i].id, c, now) == t[i := Apply(c, t[i], now)]
  {
    var u := UpdateById(t, t[i].id, c, now);
    forall j | 0 <= j < |t| ensures u[j] == t[i := Apply(c, t[i], now)][j] {
      if j != i {
        assert t[j].id != t[i].id by {
          if j < i { assert t[j].id != t[i].id; } else { assert t[i].id != t[j].id; }
        }
      }
    }
  }

  /** A delete by the identity that only the row at `i` carries removes that row and keeps the
      order of the others. */
  lemma {:induction false} DeleteByIdRemovesOnlyCarrier(t: seq<Record>, i: int)
    requires 0 <= i < |t|
    requires forall j :: 0 <= j < |t| && j != i ==> t[j].id != t[i].id
    ensures DeleteById(t, t[i].id) == t[..i] + t[i + 1..]
  {
    var id := t[i].id;
    var u := t[1..];
    assert DeleteById(t, id) == (if t[0].id == id then [] else [t[0]]) + DeleteById(u, id);
    if i == 0 {
      assert forall r :: r in u ==> r.id != id by {
        forall r | r in u ensures r.id != id {
          var k :| 0 <= k < |u| && u[k] == r;
          assert r == t[k + 1];
        }
      }
      DeleteByIdKeepsAll(u, id);
    } else {
      assert u[i - 1] == t[i];
      assert forall j :: 0 <= j < |u| && j != i - 1 ==> u[j].id != u[i - 1].id by {
        forall j | 0 <= j < |u| && j != i - 1 ensures u[j].id != u[i - 1].id {
          assert u[j] == t[j + 1];
        }
      }
      DeleteByIdRemovesOnlyCarrier(u, i - 1);
      assert u[..i - 1] == t[1..i] && u[i..] == t[i + 1..];
      assert t[..i] == [t[0]] + t[1..i];
    }
  }

  /** With distinct identities, a delete by id removes exactly the one row carrying it and keeps
      the order of the others. */
  lemma DeleteByIdRemovesOneRow(t: seq<Record>, i: int)
    requires UniqueIds(t) && 0 <= i < |t|
    ensures DeleteById(t, t[i].id) == t[..i] + t[i + 1..]
  {
    forall j | 0 <= j < |t| && j != i ensures t[j].id != t[i].id {
      if j < i { assert t[j].id != t[i].id; } else { assert t[i].id != t[j].id; }
    }
    DeleteByIdRemovesOnlyCarrier(t, i);
  }

  /** The rows left after dropping the one at `i`, by their old positions. */
  lemma DroppedRowShifts(t: seq<Record>, i: int, k: int)
    requires 0 <= i < |t| && 0 <= k < |t| - 1
    ensures (t[..i] + t[i + 1..])[k] == t[if k < i then k else k + 1]
  {
  }

  lemma DroppingKeepsUniqueIds(t: seq<Record>, i: int)
    requires UniqueIds(t) && 0 <= i < |t|
    ensures UniqueIds(t[..i] + t[i + 1..])
  {
    var t' := t[..i] + t[i + 1..];
    forall a, b | 0 <= a < b < |t'| ensures t'[a].id != t'[b].id {
      DroppedRowShifts(t, i, a);
      DroppedRowShifts(t, i, b);
    }
  }

  /** Deleting a stored row keeps the table valid. */
  lemma DeleteKeepsValid(s: Table, i: int)
    requires ValidTable(s) && 0 <= i < |s.rows|
    ensures ValidTable(Table(DeleteById(s.rows, s.rows[i].id), s.nextId))
  {
    var t := s.rows;
    DeleteByIdRemovesOneRow(t, i);
    DroppingKeepsUniqueIds(t, i);
    var t' := t[..i] + t[i + 1..];
    forall k | 0 <= k < |t'| ensures IsInt32(t'[k].kolvo) && 1 <= t'[k].id < s.nextId {
      DroppedRowShifts(t, i, k);
    }
  }

  /** A delete by an identity no row carries leaves the table as it is. */
  lemma {:induction false} DeleteByIdKeepsAll(t: seq<Record>, id: int)
    requires forall r :: r in t ==> r.id != id
    ensures DeleteById(t, id) == t
  {
    if t != [] {
      assert forall r :: r in t[1..] ==> r in t;
      DeleteByIdKeepsAll(t[1..], id);
      assert t == [t[0]] + t[1..];
    }
  }

  const InsertFailed := "Failed to insert record"
  const DeleteFailed := "Failed to delete record: No rows were deleted"
  const UpdateQuantityFailed := "Failed to update record quantity"
  const UpdateInventoryFailed := "Failed to update record for inventory"
  const UpdateExtendedFailed := "Failed to update record"

  /** What `insert` returns: the new identity and the object it was given. */
  datatype Inserted = Inserted(id: int, data: DbObject)

  /** `insert`: one row stored under the next identity, which is returned with the object
      echoed; nothing stored when a value cannot be bound or the identity range is exhausted. */
  function InsertEffect(s: Table, o: DbObject): (out: (Result<Inserted>, Table))
    ensures ValidTable(s) ==> ValidTable(out.1)
    ensures out.0.Ok? <==> s.nextId < Int32Limit && BindRow(o, s.nextId).Some?
    ensures out.0.Ok? ==> && out.0.value == Inserted(s.nextId, o)
                          && out.1 == Table(s.rows + [BindRow(o, s.nextId).value], s.nextId + 1)
    ensures out.0.Err? ==> out.1 == s
  {
    var r := BindRow(o, s.nextId);
    if s.nextId >= Int32Limit || r.None? then (Err(InsertFailed), s)
    else (Ok(Inserted(s.nextId, o)), Table(s.rows + [r.value], s.nextId + 1))
  }

  /** The identity an insert assigns is carried by no row already stored. */
  lemma InsertAssignsFreshId(s: Table, o: DbObject)
    requires ValidTable(s) && InsertEffect(s, o).0.Ok?
    ensures !HasId(s.rows, InsertEffect(s, o).0.value.id)
    ensures InsertEffect(s, o).1.rows[|s.rows|].id == InsertEffect(s, o).0.value.id
  {
  }

  /** The row the minimal insert stores: the barcode and name given, an empty cell, quantity 0,
      no condition, reason or executor, created `now`. */
  function MinimalRow(id: int, shk: string, name: string, now: nat): (r: Record)
    ensures IsUnplaced(r) && !IsPlaced(r)
  {
    Record(id, shk, name, Some(""), Some(""), 0, None, None, None, now, None)
  }

  /** The minimal insert the service relies on: one unplaced row under the next identity. */
  function InsertMinimalEffect(s: Table, shk: string, name: string, now: nat): (out: (Result<Record>, Table))
    ensures ValidTable(s) ==> ValidTable(out.1)
    ensures out.0.Ok? <==> s.nextId < Int32Limit
    ensures out.0.Ok? ==> && out.0.value == MinimalRow(s.nextId, shk, name, now)
                          && out.1 == Table(s.rows + [out.0.value], s.nextId + 1)
    ensures out.0.Err? ==> out.1 == s
  {
    if s.nextId >= Int32Limit then (Err(InsertFailed), s)
    else
      var r := MinimalRow(s.nextId, shk, name, now);
      (Ok(r), Table(s.rows + [r], s.nextId + 1))
  }

  /** `deleteRecord`: the row with identity `id` removed; an error when there is none. */
  function DeleteEffect(s: Table, id: int): (out: (Result<()>, Table))
    ensures ValidTable(s) ==> ValidTable(out.1)
    ensures out.0.Ok? <==> HasId(s.rows, id)
    ensures out.0.Ok? ==> out.1 == Table(DeleteById(s.rows, id), s.nextId)
    ensures out.0.Err? ==> out.1 == s
  {
    if HasId(s.rows, id) then
      var t' := DeleteById(s.rows, id);
      assert ValidTable(s) ==> ValidTable(Table(t', s.nextId)) by {
        if ValidTable(s) {
          var i :| 0 <= i < |s.rows| && s.rows[i].id == id;
          DeleteKeepsValid(s, i);
        }
      }
      (Ok(()), Table(t', s.nextId))
    else (Err(DeleteFailed), s)
  }

  /** An UPDATE by id: an error, and no change, when no row carries `id`. */
  function UpdateEffect(s: Table, id: int, c: Change, now: nat, failure: string): (out: (Result<()>, Table))
    requires IsInt32(c.kolvo)
    ensures ValidTable(s) ==> ValidTable(out.1)
    ensures out.0.Ok? <==> HasId(s.rows, id)
    ensures out.0.Ok? ==> out.1 == Table(UpdateById(s.rows, id, c, now), s.nextId)
    ensures out.0.Err? ==> out.1 == s
  {
    if HasId(s.rows, id) then
      var t' := UpdateById(s.rows, id, c, now);
      assert ValidTable(s) ==> ValidTable(Table(t', s.nextId)) by {
        if ValidTable(s) {
          var i :| 0 <= i < |s.rows| && s.rows[i].id == id;
          UpdateByIdRewritesOneRow(s.rows, i, c, now);
        }
      }
      (Ok(()), Table(t', s.nextId))
    else (Err(failure), s)
  }

  /** `updateRecordQuantity`: `SET kolvo = @newKolvo, date_upd = now WHERE id = @id`. */
  function UpdateQuantityEffect(s: Table, id: int, newKolvo: JsValue, now: nat): (out: (Result<()>, Table))
    ensures ValidTable(s) ==> ValidTable(out.1)
    ensures out.0.Ok? <==> IntParam(newKolvo).Value? && HasId(s.rows, id)
    ensures out.0.Ok? ==> out.1 == Table(UpdateById(s.rows, id, SetQuantity(IntParam(newKolvo).v), now), s.nextId)
    ensures out.0.Err? ==> out.1 == s
  {
    match IntParam(newKolvo)
    case Value(k) => UpdateEffect(s, id, SetQuantity(k), now, UpdateQuantityFailed + ": No rows were updated")
    case _ => (Err(UpdateQuantityFailed), s)
  }

  /** `updateRecordForInventory`: `SET kolvo, condition, reason, date_upd = now WHERE id = @id`. */
  function UpdateInventoryEffect(s: Table, id: int, kolvo: JsValue, condition: JsValue, reason: JsValue, now: nat): (out: (Result<()>, Table))
    ensures ValidTable(s) ==> ValidTable(out.1)
    ensures out.0.Ok? <==> && IntParam(kolvo).Value? && !TextParam(condition).Refused?
                           && !TextParam(reason).Refused? && HasId(s.rows, id)
    ensures out.0.Ok? ==> out.1 == Table(UpdateById(s.rows, id, SetInventory(IntParam(kolvo).v,
                                   Nullable(TextParam(condition)), Nullable(TextParam(reason))), now), s.nextId)
    ensures out.0.Err? ==> out.1 == s
  {
    var k, c, r := IntParam(kolvo), TextParam(condition), TextParam(reason);
    if k.Value? && !c.Refused? && !r.Refused? then
      UpdateEffect(s, id, SetInventory(k.v, Nullable(c), Nullable(r)), now, UpdateInventoryFailed + ": No rows were updated")
    else (Err(UpdateInventoryFailed), s)
  }

  /** The update the placement operation relies on: cell, cell name, quantity, executor,
      condition, reason and `date_upd` of the row `id`, returning the row as updated. */
  function UpdateExtendedEffect(s: Table, id: int, wrShk: string, wrName: string, kolvo: JsValue,
                                ispolnitel: JsValue, condition: JsValue, reason: JsValue, now: nat): (out: (Result<Record>, Table))
    ensures ValidTable(s) ==> ValidTable(out.1)
    ensures out.0.Ok? <==> && IntParam(kolvo).Value? && !TextParam(ispolnitel).Refused?
                           && !TextParam(condition).Refused? && !TextParam(reason).Refused? && HasId(s.rows, id)
    ensures out.0.Ok? ==> && out.1 == Table(UpdateById(s.rows, id, SetPlacement(wrShk, wrName, IntParam(kolvo).v,
                                   Nullable(TextParam(ispolnitel)), Nullable(TextParam(condition)),
                                   Nullable(TextParam(reason))), now), s.nextId)
                          && out.0.value in out.1.rows && out.0.value.id == id
    ensures out.0.Err? ==> out.1 == s
  {
    var k, e, c, r := IntParam(kolvo), TextParam(ispolnitel), TextParam(condition), TextParam(reason);
    if k.Value? && !e.Refused? && !c.Refused? && !r.Refused? && HasId(s.rows, id) then
      var change := SetPlacement(wrShk, wrName, k.v, Nullable(e), Nullable(c), Nullable(r));
      var (_, s') := UpdateEffect(s, id, change, now, UpdateExtendedFailed);
      assert HasId(s'.rows, id) by {
        var i :| 0 <= i < |s.rows| && s.rows[i].id == id;
        assert s'.rows[i] == Apply(change, s.rows[i], now);
      }
      (Ok(FindRecordById(s'.rows, id).value), s')
    else (Err(UpdateExtendedFailed), s)
  }

  // ---------------------------------------------------------------- the store

  /** The stock table, changed in place by the writing statements. */
  class Store {
    var rows: seq<Record>
    var nextId: int

    ghost predicate Valid()
      reads this
    {
      ValidTable(Table(rows, nextId))
    }

    function State(): Table
      reads this
    {
      Table(rows, nextId)
    }

    constructor ()
      ensures Valid() && rows == [] && nextId == 1
    {
      rows := [];
      nextId := 1;
    }

    method Insert(o: DbObject) returns (res: Result<Inserted>)
      requires Valid()
      modifies this
      ensures Valid()
      ensures (res, State()) == InsertEffect(old(State()), o)
    {
      var r := BindRow(o, nextId);
      if nextId >= Int32Limit || r.None? {
        res := Err(InsertFailed);
      } else {
        rows := rows + [r.value];
        res := Ok(Inserted(nextId, o));
        nextId := nextId + 1;
      }
    }

    method InsertMinimal(shk: string, name: string, now: nat) returns (res: Result<Record>)
      requires Valid()
      modifies this
      ensures Valid()
      ensures (res, State()) == InsertMinimalEffect(old(State()), shk, name, now)
    {
      if nextId >= Int32Limit {
        res := Err(InsertFailed);
      } else {
        var r := MinimalRow(nextId, shk, name, now);
        rows := rows + [r];
        nextId := nextId + 1;
        res := Ok(r);
      }
    }

    method DeleteRecord(id: int) returns (res: Result<()>)
      requires Valid()
      modifies this
      ensures Valid()
      ensures (res, State()) == DeleteEffect(old(State()), id)
    {
      ghost var out := DeleteEffect(State(), id);
      if HasId(rows, id) {
        rows := DeleteById(rows, id);
        res := Ok(());
      } else {
        res := Err(DeleteFailed);
      }
    }

    method UpdateRecordQuantity(id: int, newKolvo: JsValue, now: nat) returns (res: Result<()>)
      requires Valid()
      modifies this
      ensures Valid()
      ensures (res, State()) == UpdateQuantityEffect(old(State()), id, newKolvo, now)
    {
      ghost var out := UpdateQuantityEffect(State(), id, newKolvo, now);
      var k := IntParam(newKolvo);
      if k.Value? && HasId(rows, id) {
        rows := UpdateById(rows, id, SetQuantity(k.v), now);
        res := Ok(());
      } else if k.Value? {
        res := Err(UpdateQuantityFailed + ": No rows were updated");
      } else {
        res := Err(UpdateQuantityFailed);
      }
    }

    method UpdateRecordForInventory(id: int, kolvo: JsValue, condition: JsValue, reason: JsValue, now: nat) returns (res: Result<()>)
      requires Valid()
      modifies this
      ensures Valid()
      ensures (res, State()) == UpdateInventoryEffect(old(State()), id, kolvo, condition, reason, now)
    {
      ghost var out := UpdateInventoryEffect(State(), id, kolvo, condition, reason, now);
      var k, c, r := IntParam(kolvo), TextParam(condition), TextParam(reason);
      if k.Value? && !c.Refused? && !r.Refused? && HasId(rows, id) {
        rows := UpdateById(rows, id, SetInventory(k.v, Nullable(c), Nullable(r)), now);
        res := Ok(());
      } else if k.Value? && !c.Refused? && !r.Refused? {
        res := Err(UpdateInventoryFailed + ": No rows were updated");
      } else {
        res := Err(UpdateInventoryFailed);
      }
    }

    method UpdateRecordExtended(id: int, wrShk: string, wrName: string, kolvo: JsValue,
                                ispolnitel: JsValue, condition: JsValue, reason: JsValue, now: nat) returns (res: Result<Record>)
      requires Valid()
      modifies this
      ensures Valid()
      ensures (res, State()) == UpdateExtendedEffect(old(State()), id, wrShk, wrName, kolvo, ispolnitel, condition, reason, now)
    {
      ghost var out := UpdateExtendedEffect(State(), id, wrShk, wrName, kolvo, ispolnitel, condition, reason, now);
      var k, e, c, r := IntParam(kolvo), TextParam(ispolnitel), TextParam(condition), TextParam(reason);
      if k.Value? && !e.Refused? && !c.Refused? && !r.Refused? && HasId(rows, id) {
        rows := UpdateById(rows, id, SetPlacement(wrShk, wrName, k.v, Nullable(e), Nullable(c), Nullable(r)), now);
        res := Ok(FindRecordById(rows, id).value);
      } else {
        res := Err(UpdateExtendedFailed);
      }
    }
  }
}
