/**
 * The field tests the request validators are built from, their messages, and the way a
 * validator reports: it pushes the message of every failing test, in the order the tests are
 * written, onto one list.
 */
module FieldChecks {
  import opened JsValues

  /** The failures a validator can report, one per `errors.push`. */
  datatype Problem =
    | ShkRequired
    | NameRequired
    | WrShkRequired
    | ConditionRequired
    | IspolnitelRequired
    | KolvoPositive
    | KolvoNonNegative
    | IdRequired
    | IspolnitelOptional
    | ConditionOptional
    | ReasonOptional

  /** The message pushed for each failure. */
  function Message(p: Problem): string {
    match p
    case ShkRequired => "shk is required and must be a non-empty string"
    case NameRequired => "name is required and must be a non-empty string"
    case WrShkRequired => "wr_shk is required and must be a non-empty string"
    case ConditionRequired => "condition is required and must be a non-empty string"
    case IspolnitelRequired => "ispolnitel is required and must be a non-empty string"
    case KolvoPositive => "kolvo is required and must be a positive number"
    case KolvoNonNegative => "kolvo is required and must be a non-negative number"
    case IdRequired => "id is required and must be a positive number"
    case IspolnitelOptional => "ispolnitel must be a non-empty string if provided"
    case ConditionOptional => "condition must be a non-empty string if provided"
    case ReasonOptional => "reason must be a non-empty string if provided"
  }

  function Messages(ps: seq<Problem>): (ms: seq<string>)
    ensures |ms| == |ps|
    ensures forall i :: 0 <= i < |ps| ==> ms[i] == Message(ps[i])
  {
    seq(|ps|, i requires 0 <= i < |ps| => Message(ps[i]))
  }

  /** `!v || typeof v !== 'string' || v.trim() === ''`: the test a required string fails. */
  predicate MissingString(v: JsValue) {
    !Truthy(v) || !v.Str? || IsBlank(v.s)
  }

  /** A string holding at least one character that is not white space. */
  predicate FilledString(v: JsValue) {
    v.Str? && exists i :: 0 <= i < |v.s| && !IsWhiteSpace(v.s[i])
  }

  /** A required string field fails exactly when it is missing, not a string, or only white
      space. */
  lemma MissingStringIffNotFilled(v: JsValue)
    ensures MissingString(v) <==> !FilledString(v)
  {
    if v.Str? {
      BlankIffAllWhiteSpace(v.s);
    }
  }

  /** `v !== undefined && v !== null && (typeof v !== 'string' || v.trim() === '')`: the test an
      optional string field fails. */
  predicate BadOptionalString(v: JsValue) {
    !v.Undefined? && !v.Null? && (!v.Str? || IsBlank(v.s))
  }

  /** An optional string is absent, or present and filled. */
  lemma BadOptionalStringIffPresentUnfilled(v: JsValue)
    ensures BadOptionalString(v) <==> !(v.Undefined? || v.Null? || FilledString(v))
  {
    if v.Str? {
      BlankIffAllWhiteSpace(v.s);
    }
  }

  /** `typeof v === 'string' ? parseInt(v, 10) : v` */
  function CoerceQuantity(v: JsValue): (k: JsValue)
    ensures !k.Str?
    ensures v.Str? ==> IsNumber(k)
    ensures !v.Str? ==> k == v
  {
    if v.Str? then ParseInt(v.s) else v
  }

  /** `k === undefined || k === null || typeof k !== 'number' || k < min || isNaN(k)` */
  predicate BadQuantity(k: JsValue, min: int) {
    k.Undefined? || k.Null? || !IsNumber(k) || (k.Num? && k.n < min) || k.NaN?
  }

  /** The quantity, parsed when it is a string, is a number no smaller than `min`. */
  predicate QuantityAtLeast(v: JsValue, min: int) {
    CoerceQuantity(v).Num? && CoerceQuantity(v).n >= min
  }

  // ---------------------------------------------------------------- reporting

  /** `if (failed) errors.push(message)`: one step of a validator. */
  function Push(errors: seq<Problem>, failed: bool, p: Problem): (r: seq<Problem>)
    ensures forall q :: q in r <==> q in errors || (failed && q == p)
    ensures |r| == if failed then |errors| + 1 else |errors|
  {
    if failed then errors + [p] else errors
  }

  /** `a` is `b` with some elements left out. */
  predicate IsSubsequence(a: seq<Problem>, b: seq<Problem>) {
    a == [] || (b != [] && ((a[0] == b[0] && IsSubsequence(a[1..], b[1..])) || IsSubsequence(a, b[1..])))
  }

  lemma {:induction false} SubsequenceOfLonger(a: seq<Problem>, b: seq<Problem>, p: Problem)
    requires IsSubsequence(a, b)
    ensures IsSubsequence(a, b + [p])
  {
    if a != [] {
      assert (b + [p])[0] == b[0] && (b + [p])[1..] == b[1..] + [p];
      if a[0] == b[0] && IsSubsequence(a[1..], b[1..]) {
        SubsequenceOfLonger(a[1..], b[1..], p);
      } else {
        SubsequenceOfLonger(a, b[1..], p);
      }
    }
  }

  lemma {:induction false} SingletonSubsequence(b: seq<Problem>, p: Problem)
    ensures IsSubsequence([p], b + [p])
  {
    if b == [] {
      assert [p][1..] == [];
    } else {
      assert (b + [p])[1..] == b[1..] + [p];
      SingletonSubsequence(b[1..], p);
    }
  }

  lemma {:induction false} SubsequenceOfBothLonger(a: seq<Problem>, b: seq<Problem>, p: Problem)
    requires IsSubsequence(a, b)
    ensures IsSubsequence(a + [p], b + [p])
  {
    if a == [] {
      assert a + [p] == [p];
      SingletonSubsequence(b, p);
    } else {
      assert (a + [p])[0] == a[0] && (a + [p])[1..] == a[1..] + [p];
      assert (b + [p])[0] == b[0] && (b + [p])[1..] == b[1..] + [p];
      if a[0] == b[0] && IsSubsequence(a[1..], b[1..]) {
        SubsequenceOfBothLonger(a[1..], b[1..], p);
      } else {
        SubsequenceOfBothLonger(a, b[1..], p);
      }
    }
  }

  /** Pushing keeps the reported failures in the order of the tests. */
  lemma PushInOrder(errors: seq<Problem>, order: seq<Problem>, failed: bool, p: Problem)
    requires IsSubsequence(errors, order)
    ensures IsSubsequence(Push(errors, failed, p), order + [p])
  {
    if failed {
      SubsequenceOfBothLonger(errors, order, p);
    } else {
      SubsequenceOfLonger(errors, order, p);
    }
  }

  /** A validator with four tests: the failure of each failing test, in the order of the tests. */
  function Report4(f1: bool, p1: Problem, f2: bool, p2: Problem, f3: bool, p3: Problem, f4: bool, p4: Problem): (r: seq<Problem>)
    ensures IsSubsequence(r, [p1, p2, p3, p4])
    ensures r == [] <==> !f1 && !f2 && !f3 && !f4
    ensures forall q :: q in r <==> (f1 && q == p1) || (f2 && q == p2) || (f3 && q == p3) || (f4 && q == p4)
  {
    var e1 := Push([], f1, p1);
    var e2 := Push(e1, f2, p2);
    var e3 := Push(e2, f3, p3);
    PushInOrder([], [], f1, p1);
    PushInOrder(e1, [] + [p1], f2, p2);
    PushInOrder(e2, [] + [p1] + [p2], f3, p3);
    PushInOrder(e3, [] + [p1] + [p2] + [p3], f4, p4);
    assert [] + [p1] + [p2] + [p3] + [p4] == [p1, p2, p3, p4];
    Push(e3, f4, p4)
  }

  /** A validator with six tests: the failure of each failing test, in the order of the tests. */
  function Report6(f1: bool, p1: Problem, f2: bool, p2: Problem, f3: bool, p3: Problem,
                   f4: bool, p4: Problem, f5: bool, p5: Problem, f6: bool, p6: Problem): (r: seq<Problem>)
    ensures IsSubsequence(r, [p1, p2, p3, p4, p5, p6])
    ensures r == [] <==> !f1 && !f2 && !f3 && !f4 && !f5 && !f6
    ensures forall q :: q in r <==> || (f1 && q == p1) || (f2 && q == p2) || (f3 && q == p3)
                                    || (f4 && q == p4) || (f5 && q == p5) || (f6 && q == p6)
  {
    var e1 := Push([], f1, p1);
    var e2 := Push(e1, f2, p2);
    var e3 := Push(e2, f3, p3);
    var e4 := Push(e3, f4, p4);
    var e5 := Push(e4, f5, p5);
    PushInOrder([], [], f1, p1);
    PushInOrder(e1, [] + [p1], f2, p2);
    PushInOrder(e2, [] + [p1] + [p2], f3, p3);
    PushInOrder(e3, [] + [p1] + [p2] + [p3], f4, p4);
    PushInOrder(e4, [] + [p1] + [p2] + [p3] + [p4], f5, p5);
    PushInOrder(e5, [] + [p1] + [p2] + [p3] + [p4] + [p5], f6, p6);
    assert [] + [p1] + [p2] + [p3] + [p4] + [p5] + [p6] == [p1, p2, p3, p4, p5, p6];
    Push(e5, f6, p6)
  }
}
