/** The batch translation handler: it validates each directive's `newKey`,
    creates one translation unit per (directive, item) whose source field is
    truthy, and, once every unit has settled, answers with the items as the
    units' callbacks left them.

    Units are all created synchronously, before any callback runs, so selection
    reads the items as they were received. The callbacks then run in whatever
    order the replies arrive; that order is the parameter `order`, a permutation
    of the unit indices, and every property below holds for every such order. */
module Engine {
  import opened Values
  import Client

  /** One entry of `keysToTranslate`. */
  datatype Directive = Directive(key: string, newKey: string, targetLang: string)

  /** One dispatched call: directive number `directive` applied to item number
      `item`, translating `text` (the item's `key` field as it was at selection)
      from `from` to `to`, to be stored under `newKey`. */
  datatype Unit = Unit(directive: nat, item: nat, key: string, newKey: string,
                       text: Value, from: string, to: string)

  /** The handler's answer. */
  datatype Response =
    | BadRequest(error: string)  // status 400 with `{ error }`
    | Success(body: seq<Item>)   // status 200 with the items array
    | ServerError                // `Promise.all` rejected and nothing catches it

  const MissingNewKey := "newKey is required."

  // ---------------------------------------------------------------------------
  // Validation

  /** The position of the first directive whose `newKey` is empty, if any. */
  function FirstMissingNewKey(ds: seq<Directive>): (r: Option<nat>)
    ensures r.None? <==> forall j :: 0 <= j < |ds| ==> ds[j].newKey != ""
    ensures r.Some? ==> r.value < |ds| && ds[r.value].newKey == ""
    ensures r.Some? ==> forall j :: 0 <= j < r.value ==> ds[j].newKey != ""
  {
    if |ds| == 0 then None
    else if ds[0].newKey == "" then Some(0)
    else match FirstMissingNewKey(ds[1..])
      case None => None
      case Some(i) => Some(i + 1)
  }

  // ---------------------------------------------------------------------------
  // Unit selection

  function UnitFor(items: seq<Item>, j: nat, d: Directive, from: string, i: nat): Unit
    requires i < |items|
  {
    Unit(j, i, d.key, d.newKey, Get(items[i], d.key), from, d.targetLang)
  }

  /** The units the inner loop creates for directive `d` (number `j`) over the
      first `n` items. */
  function DirectiveUnits(items: seq<Item>, j: nat, d: Directive, from: string, n: nat): seq<Unit>
    requires n <= |items|
  {
    if n == 0 then []
    else
      DirectiveUnits(items, j, d, from, n - 1)
      + (if Truthy(Get(items[n - 1], d.key)) then [UnitFor(items, j, d, from, n - 1)] else [])
  }

  /** The units the nested loops create for the first `m` directives. */
  function Units(items: seq<Item>, ds: seq<Directive>, from: string, m: nat): seq<Unit>
    requires m <= |ds|
  {
    if m == 0 then []
    else Units(items, ds, from, m - 1) + DirectiveUnits(items, m - 1, ds[m - 1], from, |items|)
  }

  /** What the loops leave behind: the units dispatched, and whether the loops
      ran to the end (`accepted`) or returned the 400 part-way. */
  datatype Dispatch = Dispatch(units: seq<Unit>, accepted: bool)

  function Select(items: seq<Item>, ds: seq<Directive>, from: string): Dispatch {
    match FirstMissingNewKey(ds)
    case Some(i) => Dispatch(Units(items, ds, from, i), false)
    case None => Dispatch(Units(items, ds, from, |ds|), true)
  }

  /** The nested `for…of` loops of the handler, up to the `Promise.all`. */
  method SelectUnits(items: seq<Item>, ds: seq<Directive>, from: string)
    returns (units: seq<Unit>, accepted: bool)
    ensures Dispatch(units, accepted) == Select(items, ds, from)
  {
    units := [];
    var j := 0;
    while j < |ds|
      invariant 0 <= j <= |ds|
      invariant units == Units(items, ds, from, j)
      invariant forall q :: 0 <= q < j ==> ds[q].newKey != ""
    {
      var d := ds[j];
      if d.newKey == "" {
        assert FirstMissingNewKey(ds) == Some(j);
        return units, false;
      }
      var i := 0;
      while i < |items|
        invariant 0 <= i <= |items|
        invariant units == Units(items, ds, from, j) + DirectiveUnits(items, j, d, from, i)
      {
        ghost var before := DirectiveUnits(items, j, d, from, i);
        if Truthy(Get(items[i], d.key)) {
          units := units + [UnitFor(items, j, d, from, i)];
          assert DirectiveUnits(items, j, d, from, i + 1) == before + [UnitFor(items, j, d, from, i)];
        } else {
          assert DirectiveUnits(items, j, d, from, i + 1) == before;
        }
        i := i + 1;
      }
      assert units == Units(items, ds, from, j + 1);
      j := j + 1;
    }
    assert FirstMissingNewKey(ds) == None;
    accepted := true;
  }

  // ---------------------------------------------------------------------------
  // Settlement

  /** The `.then` callback of a unit whose translation resolved to `text`: it
      writes `item[newKey]`, and deletes `item[key]` when the key was renamed. */
  function ApplyUnit(it: Item, u: Unit, text: Value): (r: Item)
    ensures Get(r, u.newKey) == text
    ensures u.newKey != u.key ==> u.key !in r.values
    ensures forall f :: f != u.key && f != u.newKey ==> Get(r, f) == Get(it, f)
    ensures u.newKey == u.key && u.key in it.values ==> r.order == it.order
    ensures r.values.Keys == (if u.newKey == u.key then it.values.Keys else it.values.Keys - {u.key}) + {u.newKey}
  {
    var written := Set(it, u.newKey, text);
    if u.newKey != u.key then Delete(written, u.key) else written
  }

  /** Unit `k` settling: on success its callback mutates its own item, on
      failure nothing changes. */
  function Settle1(items: seq<Item>, units: seq<Unit>, replies: seq<Option<Value>>, k: nat): (r: seq<Item>)
    requires k < |units| == |replies|
    ensures |r| == |items|
    ensures forall i :: 0 <= i < |items| && i != units[k].item ==> r[i] == items[i]
  {
    var u := units[k];
    match Client.Translate(replies[k])
    case Err(_) => items
    case Ok(text) =>
      if u.item < |items| then items[u.item := ApplyUnit(items[u.item], u, text)] else items
  }

  predicate InRange(order: seq<nat>, n: nat) {
    forall p :: 0 <= p < |order| ==> order[p] < n
  }

  /** The items after the units listed in `order` have settled, in that order. */
  function SettleAll(items: seq<Item>, units: seq<Unit>, replies: seq<Option<Value>>, order: seq<nat>): (r: seq<Item>)
    requires |units| == |replies| && InRange(order, |units|)
    ensures |r| == |items|
  {
    if |order| == 0 then items
    else Settle1(SettleAll(items, units, replies, order[..|order| - 1]), units, replies, order[|order| - 1])
  }

  function Indices(n: nat): (r: seq<nat>)
    ensures |r| == n && forall i :: 0 <= i < n ==> r[i] == i
  {
    if n == 0 then [] else Indices(n - 1) + [n - 1]
  }

  /** `order` lists every unit index below `n` exactly once. */
  predicate IsSchedule(order: seq<nat>, n: nat) {
    InRange(order, n) && multiset(order) == multiset(Indices(n))
  }

  lemma ScheduleCovers(order: seq<nat>, n: nat)
    requires IsSchedule(order, n)
    ensures forall k :: 0 <= k < n ==> k in order
  {
    forall k | 0 <= k < n ensures k in order {
      assert Indices(n)[k] == k;
      assert k in multiset(Indices(n));
    }
  }

  predicate AllTranslated(replies: seq<Option<Value>>) {
    forall k :: 0 <= k < |replies| ==> Client.Translate(replies[k]).Ok?
  }

  /** The handler's answer, given the service's reply to each dispatched call
      (in dispatch order) and the order in which those calls settled. */
  function Respond(items: seq<Item>, ds: seq<Directive>, from: string,
                   replies: seq<Option<Value>>, order: seq<nat>): (r: Response)
    requires |replies| == |Select(items, ds, from).units|
    requires IsSchedule(order, |replies|)
    ensures r.BadRequest? <==> FirstMissingNewKey(ds).Some?
    ensures r.BadRequest? ==> r.error == MissingNewKey
    ensures r.Success? <==> FirstMissingNewKey(ds).None? && AllTranslated(replies)
    ensures r.Success? ==> |r.body| == |items|
  {
    ScheduleCovers(order, |replies|);
    var dispatch := Select(items, ds, from);
    if !dispatch.accepted then BadRequest(MissingNewKey)
    else if !AllTranslated(replies) then ServerError
    else Success(SettleAll(items, dispatch.units, replies, order))
  }

  /** Some unit listed in `order` fails to translate. */
  predicate AnyFails(replies: seq<Option<Value>>, order: seq<nat>)
    requires InRange(order, |replies|)
  {
    && |order| > 0
    && (|| AnyFails(replies, order[..|order| - 1])
        || Client.Translate(replies[order[|order| - 1]]).Err?)
  }

  /** Settling one more unit of the schedule. */
  lemma SettleAllStep(items: seq<Item>, units: seq<Unit>, replies: seq<Option<Value>>, order: seq<nat>, p: nat)
    requires |units| == |replies| && InRange(order, |units|) && p < |order|
    ensures SettleAll(items, units, replies, order[..p + 1])
         == Settle1(SettleAll(items, units, replies, order[..p]), units, replies, order[p])
    ensures AnyFails(replies, order[..p + 1])
        <==> AnyFails(replies, order[..p]) || Client.Translate(replies[order[p]]).Err?
  {
    assert order[..p + 1][..p] == order[..p];
  }

  lemma {:induction false} AnyFailsAt(replies: seq<Option<Value>>, order: seq<nat>)
    requires InRange(order, |replies|)
    ensures AnyFails(replies, order)
        <==> exists q :: 0 <= q < |order| && Client.Translate(replies[order[q]]).Err?
  {
    if |order| > 0 {
      var prefix := order[..|order| - 1];
      AnyFailsAt(replies, prefix);
      if exists q :: 0 <= q < |order| && Client.Translate(replies[order[q]]).Err? {
        var q :| 0 <= q < |order| && Client.Translate(replies[order[q]]).Err?;
        if q < |order| - 1 {
          assert prefix[q] == order[q];
        }
      }
      if AnyFails(replies, prefix) {
        var q :| 0 <= q < |prefix| && Client.Translate(replies[prefix[q]]).Err?;
        assert order[q] == prefix[q];
      }
    }
  }

  /** Some settlement in a schedule fails iff some reply does not translate. */
  lemma ScheduleFails(replies: seq<Option<Value>>, order: seq<nat>)
    requires IsSchedule(order, |replies|)
    ensures AnyFails(replies, order) <==> !AllTranslated(replies)
  {
    ScheduleCovers(order, |replies|);
    AnyFailsAt(replies, order);
    if !AllTranslated(replies) {
      var k :| 0 <= k < |replies| && Client.Translate(replies[k]).Err?;
      assert k in order;
      var q :| 0 <= q < |order| && order[q] == k;
    }
  }

  /** The loop that `Promise.all` stands for: callbacks run in `order`; a failed
      unit makes the join fail but does not stop the other callbacks. */
  method Settle(items: seq<Item>, units: seq<Unit>, replies: seq<Option<Value>>, order: seq<nat>)
    returns (out: seq<Item>, failed: bool)
    requires |units| == |replies| && IsSchedule(order, |units|)
    ensures out == SettleAll(items, units, replies, order)
    ensures failed <==> !AllTranslated(replies)
  {
    out, failed := items, false;
    var p := 0;
    while p < |order|
      invariant 0 <= p <= |order|
      invariant out == SettleAll(items, units, replies, order[..p])
      invariant failed == AnyFails(replies, order[..p])
    {
      SettleAllStep(items, units, replies, order, p);
      var k := order[p];
      match Client.Translate(replies[k]) {
        case Err(_) =>
          failed := true;
        case Ok(text) =>
          var u := units[k];
          if u.item < |out| {
            out := out[u.item := ApplyUnit(out[u.item], u, text)];
          }
      }
      p := p + 1;
    }
    assert order[..p] == order;
    ScheduleFails(replies, order);
  }

  /** The whole POST handler. */
  method Handle(items: seq<Item>, ds: seq<Directive>, from: string,
                replies: seq<Option<Value>>, order: seq<nat>)
    returns (resp: Response)
    requires |replies| == |Select(items, ds, from).units|
    requires IsSchedule(order, |replies|)
    ensures resp == Respond(items, ds, from, replies, order)
  {
    var units, accepted := SelectUnits(items, ds, from);
    if !accepted {
      return BadRequest(MissingNewKey);
    }
    var out, failed := Settle(items, units, replies, order);
    if failed {
      return ServerError;
    }
    return Success(out);
  }
}
