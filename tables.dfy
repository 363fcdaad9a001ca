/**
 * The rows of the stock table `X_Three_PL` and the shapes that travel to and from it.
 */
module Tables {
  import opened Wrappers
  import opened JsValues

  /** The largest value of an SQL `INT`, plus one. */
  const Int32Limit: int := 0x8000_0000

  predicate IsInt32(n: int) {
    -Int32Limit <= n < Int32Limit
  }

  /** One stock row. `shk`, `name`, `kolvo` and `date` are NOT NULL columns; the rest may be
      NULL (`None`). Timestamps are readings of an abstract clock. */
  datatype Record = Record(
    id: int,
    shk: string,
    name: string,
    wrShk: Option<string>,
    wrName: Option<string>,
    kolvo: int,
    condition: Option<string>,
    reason: Option<string>,
    ispolnitel: Option<string>,
    date: nat,
    dateUpd: Option<nat>)

  /** The JavaScript object the insert statement receives: the ten column values, as the caller
      built them. */
  datatype DbObject = DbObject(
    shk: JsValue,
    name: JsValue,
    wrShk: JsValue,
    wrName: JsValue,
    kolvo: JsValue,
    condition: JsValue,
    reason: JsValue,
    ispolnitel: JsValue,
    date: JsValue,
    dateUpd: JsValue)

  /** The columns the listings and searches select. */
  datatype Item = Item(
    shk: string,
    name: string,
    wrShk: Option<string>,
    wrName: Option<string>,
    kolvo: int,
    condition: Option<string>,
    reason: Option<string>)

  function ItemOf(r: Record): Item {
    Item(r.shk, r.name, r.wrShk, r.wrName, r.kolvo, r.condition, r.reason)
  }

  /** Neither NULL nor the empty string. */
  predicate IsFilled(v: Option<string>) {
    v.Some? && v.value != ""
  }

  /** `kolvo > 0 AND wr_shk IS NOT NULL AND wr_shk != '' AND wr_name IS NOT NULL AND wr_name != ''` */
  predicate IsPlaced(r: Record) {
    r.kolvo > 0 && IsFilled(r.wrShk) && IsFilled(r.wrName)
  }

  /** `kolvo = 0 AND (wr_shk IS NULL OR wr_shk = '') AND (wr_name IS NULL OR wr_name = '')` */
  predicate IsUnplaced(r: Record) {
    r.kolvo == 0 && !IsFilled(r.wrShk) && !IsFilled(r.wrName)
  }

  /** The identities in a table are distinct. */
  ghost predicate UniqueIds(t: seq<Record>) {
    forall i, j :: 0 <= i < j < |t| ==> t[i].id != t[j].id
  }

  /** What every stored table satisfies: distinct identities and `INT` quantities. */
  ghost predicate WellFormed(t: seq<Record>) {
    UniqueIds(t) && forall i :: 0 <= i < |t| ==> IsInt32(t[i].kolvo)
  }

  /** The quantity invariant the service keeps: no stored quantity is negative. */
  ghost predicate QuantitiesNonNegative(t: seq<Record>) {
    forall i :: 0 <= i < |t| ==> t[i].kolvo >= 0
  }

  predicate HasId(t: seq<Record>, id: int) {
    exists i :: 0 <= i < |t| && t[i].id == id
  }
}
