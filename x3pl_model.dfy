/**
 * The `X3PLModel` record built from a request body: its defaults and coercions, its own
 * validation, and the object it hands to the insert statement. Its fields are set once, when
 * it is built, so it is a value here.
 */
module X3plModel {
  import opened JsValues
  import opened FieldChecks
  import opened Tables

  /** A request body for a new stock row, field by field, as the client sent it. */
  datatype RecordData = RecordData(
    shk: JsValue,
    name: JsValue,
    wrShk: JsValue,
    wrName: JsValue,
    kolvo: JsValue,
    condition: JsValue,
    reason: JsValue,
    ispolnitel: JsValue,
    date: JsValue,
    dateUpd: JsValue)

  /** An `X3PLModel` instance. */
  datatype X3plRecord = X3plRecord(
    shk: JsValue,
    name: JsValue,
    wrShk: JsValue,
    wrName: JsValue,
    kolvo: JsValue,
    condition: JsValue,
    reason: JsValue,
    ispolnitel: JsValue,
    date: JsValue,
    dateUpd: JsValue)

  /** `new X3PLModel(data)`, where `now` is the clock reading `new Date()` would take. */
  function FromRequest(data: RecordData, now: nat): (m: X3plRecord)
    ensures m.shk == data.shk && m.name == data.name && m.wrShk == data.wrShk
    ensures m.condition == data.condition && m.ispolnitel == data.ispolnitel
    ensures !m.kolvo.Str?
    ensures data.kolvo.Str? ==> IsNumber(m.kolvo)
    ensures !data.kolvo.Str? ==> m.kolvo == data.kolvo
    ensures m.wrName == (if Truthy(data.wrName) then data.wrName else Null)
    ensures m.reason == (if Truthy(data.reason) then data.reason else Null)
    ensures m.dateUpd == (if Truthy(data.dateUpd) then data.dateUpd else Null)
    ensures Truthy(m.date) && (Truthy(data.date) ==> m.date == data.date)
    ensures !Truthy(data.date) ==> m.date == Date(now)
  {
    X3plRecord(
      data.shk,
      data.name,
      data.wrShk,
      Or(data.wrName, Null),
      CoerceQuantity(data.kolvo),
      data.condition,
      Or(data.reason, Null),
      data.ispolnitel,
      Or(data.date, Date(now)),
      Or(data.dateUpd, Null))
  }

  /** A quantity sent as the decimal text of an integer is stored as that integer. */
  lemma FromRequestReadsDecimalQuantity(data: RecordData, now: nat, n: int)
    requires data.kolvo == Str(IntToString(n))
    ensures FromRequest(data, now).kolvo == Num(n)
  {
    ParseIntOfIntToString(n);
  }

  /** The quantity test of the model: undefined, null, not a number, or below 1. NaN is not
      below 1, so it passes. */
  predicate BadModelQuantity(k: JsValue) {
    k.Undefined? || k.Null? || !IsNumber(k) || (k.Num? && k.n < 1)
  }

  /** `validate()`: one failure per failing field, in field order; none exactly when every
      field passes. */
  function Validate(m: X3plRecord): (errors: seq<Problem>)
    ensures IsSubsequence(errors, [ShkRequired, NameRequired, WrShkRequired, KolvoPositive, ConditionRequired, IspolnitelRequired])
    ensures errors == [] <==>
      && !MissingString(m.shk) && !MissingString(m.name) && !MissingString(m.wrShk)
      && !BadModelQuantity(m.kolvo) && !MissingString(m.condition) && !MissingString(m.ispolnitel)
  {
    Report6(MissingString(m.shk), ShkRequired, MissingString(m.name), NameRequired,
            MissingString(m.wrShk), WrShkRequired, BadModelQuantity(m.kolvo), KolvoPositive,
            MissingString(m.condition), ConditionRequired, MissingString(m.ispolnitel), IspolnitelRequired)
  }

  /** The field test behind each failure the model can report. */
  predicate ModelFails(m: X3plRecord, p: Problem) {
    match p
    case ShkRequired => MissingString(m.shk)
    case NameRequired => MissingString(m.name)
    case WrShkRequired => MissingString(m.wrShk)
    case KolvoPositive => BadModelQuantity(m.kolvo)
    case ConditionRequired => MissingString(m.condition)
    case IspolnitelRequired => MissingString(m.ispolnitel)
    case _ => false
  }

  /** Each failure is reported exactly when its field fails its test. */
  lemma ValidateReportsEachField(m: X3plRecord, p: Problem)
    ensures p in Validate(m) <==> ModelFails(m, p)
  {
  }

  /** A quantity sent as text in which no digit follows the leading white space and sign
      becomes NaN in the model; `"abc"` is such a text. */
  lemma UnparsableQuantityBecomesNaN(data: RecordData, now: nat)
    requires data.kolvo.Str? && LeadingDigits(SplitSign(TrimStart(data.kolvo.s)).1) == []
    ensures FromRequest(data, now).kolvo == NaN
    ensures LeadingDigits(SplitSign(TrimStart("abc")).1) == []
  {
    assert !IsWhiteSpace('a') && !IsDigit('a');
    assert TrimStart("abc") == "abc";
    assert SplitSign("abc") == (1, "abc");
  }

  /** Unlike the service validators, the model's own test lets NaN through: a record whose
      strings are filled and whose quantity is NaN validates without a failure. */
  lemma ModelAcceptsNaNQuantity(m: X3plRecord)
    requires FilledString(m.shk) && FilledString(m.name) && FilledString(m.wrShk)
    requires FilledString(m.condition) && FilledString(m.ispolnitel)
    requires m.kolvo == NaN
    ensures Validate(m) == []
  {
    MissingStringIffNotFilled(m.shk);
    MissingStringIffNotFilled(m.name);
    MissingStringIffNotFilled(m.wrShk);
    MissingStringIffNotFilled(m.condition);
    MissingStringIffNotFilled(m.ispolnitel);
  }

  /** `toDbObject()`: the ten stored fields, as the model holds them. */
  function ToDbObject(m: X3plRecord): (o: DbObject)
    ensures o.shk == m.shk && o.name == m.name && o.wrShk == m.wrShk && o.wrName == m.wrName
    ensures o.kolvo == m.kolvo && o.condition == m.condition && o.reason == m.reason
    ensures o.ispolnitel == m.ispolnitel && o.date == m.date && o.dateUpd == m.dateUpd
  {
    DbObject(m.shk, m.name, m.wrShk, m.wrName, m.kolvo, m.condition, m.reason, m.ispolnitel, m.date, m.dateUpd)
  }
}
