/** The sort-clause validation shared by both list operations: turns the
    `sortby` field names and the `order` directions into the ORM's order-by
    fields, where a leading '-' means descending. */
module SortOrder {
  import opened Wrappers

  const InvalidOrder := "Error: Invalid order. Must be either [asc|desc]"
  const SizeMismatch := "Error: 'sortby', 'order' sizes mismatch or 'order' size is not 1"
  const UnusedOrder := "Error: unused 'order' fields"

  predicate ValidDirection(dir: string) {
    dir == "asc" || dir == "desc"
  }

  /** The order-by field for `field` sorted in direction `dir`. */
  function Directed(field: string, dir: string): (f: string)
    requires ValidDirection(dir)
    ensures dir == "desc" ==> f == "-" + field
    ensures dir == "asc" ==> f == field
  {
    if dir == "desc" then "-" + field else field
  }

  /** One direction per field: the i-th field takes the i-th direction, and
      any direction other than "asc" or "desc" rejects the whole clause. */
  function DirectEach(sortby: seq<string>, order: seq<string>): (r: Result<seq<string>, string>)
    requires |sortby| == |order|
    ensures r.Success? <==> forall i | 0 <= i < |order| :: ValidDirection(order[i])
    ensures r.Failure? ==> r.error == InvalidOrder
    ensures r.Success? ==> |r.value| == |sortby|
    ensures r.Success? ==>
      forall i | 0 <= i < |sortby| :: ValidDirection(order[i]) && r.value[i] == Directed(sortby[i], order[i])
    decreases |sortby|
  {
    if |sortby| == 0 then Success([])
    else if !ValidDirection(order[0]) then Failure(InvalidOrder)
    else
      match DirectEach(sortby[1..], order[1..])
      case Failure(e) => Failure(e)
      case Success(rest) => Success([Directed(sortby[0], order[0])] + rest)
  }

  /** One direction for every field. */
  function DirectAll(sortby: seq<string>, dir: string): (r: Result<seq<string>, string>)
    requires |sortby| > 0
    ensures r.Success? <==> ValidDirection(dir)
    ensures r.Failure? ==> r.error == InvalidOrder
    ensures r.Success? ==> |r.value| == |sortby|
    ensures r.Success? ==> forall i | 0 <= i < |sortby| :: r.value[i] == Directed(sortby[i], dir)
  {
    if !ValidDirection(dir) then Failure(InvalidOrder)
    else Success(seq(|sortby|, i requires 0 <= i < |sortby| => Directed(sortby[i], dir)))
  }

  /** The order-by fields for `sortby` and `order`, or the validation error. */
  function BuildSortFields(sortby: seq<string>, order: seq<string>): (r: Result<seq<string>, string>)
    ensures |sortby| == 0 && |order| == 0 ==> r == Success([])
    ensures |sortby| == 0 && |order| != 0 ==> r == Failure(UnusedOrder)
    ensures |sortby| != 0 && |order| != 1 && |order| != |sortby| ==> r == Failure(SizeMismatch)
    ensures |sortby| != 0 && |order| == |sortby| ==>
      && (r.Success? <==> forall i | 0 <= i < |order| :: ValidDirection(order[i]))
      && (r.Failure? ==> r.error == InvalidOrder)
      && (r.Success? ==>
            |r.value| == |sortby| &&
            forall i | 0 <= i < |sortby| :: r.value[i] == Directed(sortby[i], order[i]))
    ensures |sortby| > 1 && |order| == 1 ==>
      && (r.Success? <==> ValidDirection(order[0]))
      && (r.Failure? ==> r.error == InvalidOrder)
      && (r.Success? ==>
            |r.value| == |sortby| &&
            forall i | 0 <= i < |sortby| :: r.value[i] == Directed(sortby[i], order[0]))
  {
    if |sortby| != 0 then
      if |sortby| == |order| then DirectEach(sortby, order)
      else if |order| == 1 then DirectAll(sortby, order[0])
      else Failure(SizeMismatch)
    else if |order| != 0 then Failure(UnusedOrder)
    else Success([])
  }

  /** Whatever the branch, a successful clause names every field of `sortby`
      once, in order, each either as it is or with a '-' in front. */
  lemma SortFieldsShape(sortby: seq<string>, order: seq<string>)
    requires BuildSortFields(sortby, order).Success?
    ensures var fields := BuildSortFields(sortby, order).value;
      && |fields| == |sortby|
      && forall i | 0 <= i < |sortby| :: fields[i] == sortby[i] || fields[i] == "-" + sortby[i]
  {
  }

  /** A single direction behaves as that direction repeated for every field. */
  lemma {:induction false} SingleOrderIsRepeated(sortby: seq<string>, dir: string)
    requires |sortby| > 0
    ensures DirectAll(sortby, dir) == DirectEach(sortby, seq(|sortby|, _ => dir))
  {
    var each := DirectEach(sortby, seq(|sortby|, _ => dir));
    var all := DirectAll(sortby, dir);
    if ValidDirection(dir) {
      assert each.Success?;
      assert all.Success?;
      assert |each.value| == |all.value|;
      forall i | 0 <= i < |sortby|
        ensures each.value[i] == all.value[i]
      {
        assert seq(|sortby|, _ => dir)[i] == dir;
      }
      assert each.value == all.value;
    } else {
      assert !ValidDirection(seq(|sortby|, _ => dir)[0]);
    }
  }

  /** When no field name begins with '-', the directions can be read back
      from a successful clause: a field is descending exactly when its
      order-by entry carries the '-'. */
  lemma DirectionsRecoverable(sortby: seq<string>, order: seq<string>, i: int)
    requires forall j | 0 <= j < |sortby| :: |sortby[j]| == 0 || sortby[j][0] != '-'
    requires |sortby| == |order|
    requires BuildSortFields(sortby, order).Success?
    requires 0 <= i < |sortby|
    ensures var f := BuildSortFields(sortby, order).value[i];
      order[i] == "desc" <==> |f| > 0 && f[0] == '-'
  {
  }
}
