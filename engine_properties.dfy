/** What the batch handler guarantees: which units it dispatches, in what order
    and how many, what a 400 leaves dispatched, and what the 200 body holds for
    every order in which the units can settle. */
module EngineProperties {
  import opened Values
  import opened Engine
  import Client

  // ---------------------------------------------------------------------------
  // Unit selection

  /** Some unit in `r` pairs directive `j` with item `i`. */
  predicate HasUnit(r: seq<Unit>, j: nat, i: nat) {
    exists k :: 0 <= k < |r| && r[k].directive == j && r[k].item == i
  }

  lemma HasUnitAppend(a: seq<Unit>, b: seq<Unit>, j: nat, i: nat)
    ensures HasUnit(a + b, j, i) <==> HasUnit(a, j, i) || HasUnit(b, j, i)
  {
    if HasUnit(a + b, j, i) {
      var k :| 0 <= k < |a + b| && (a + b)[k].directive == j && (a + b)[k].item == i;
      if k >= |a| {
        assert b[k - |a|] == (a + b)[k];
      } else {
        assert a[k] == (a + b)[k];
      }
    }
    if HasUnit(a, j, i) {
      var k :| 0 <= k < |a| && a[k].directive == j && a[k].item == i;
      assert (a + b)[k] == a[k];
    }
    if HasUnit(b, j, i) {
      var k :| 0 <= k < |b| && b[k].directive == j && b[k].item == i;
      assert (a + b)[|a| + k] == b[k];
      assert (a + b)[|a| + k].directive == j && (a + b)[|a| + k].item == i;
    }
  }

  /** `u` is the unit the loops build for its directive (among the first `m`)
      and its item: it carries that directive's keys and target language, the
      shared source language, and the item's source value as received, which
      is truthy. */
  predicate Dispatched(items: seq<Item>, ds: seq<Directive>, from: string, m: nat, u: Unit)
    requires m <= |ds|
  {
    && u.directive < m && u.item < |items|
    && u == UnitFor(items, u.directive, ds[u.directive], from, u.item)
    && Truthy(u.text)
  }

  /** Every unit in `r` belongs to directive `j` and to one of the first `n`
      items, whose source field it reads as received and which is truthy. */
  predicate InnerShape(items: seq<Item>, j: nat, d: Directive, from: string, n: nat, r: seq<Unit>)
    requires n <= |items|
  {
    forall k :: 0 <= k < |r| ==>
      && r[k].directive == j && r[k].item < n
      && r[k] == UnitFor(items, j, d, from, r[k].item)
      && Truthy(r[k].text)
  }

  predicate ItemsIncreasing(r: seq<Unit>) {
    forall a, b :: 0 <= a < b < |r| ==> r[a].item < r[b].item
  }

  /** The inner loop's units have that shape, with items in increasing order. */
  lemma {:induction false} DirectiveUnitsShape(items: seq<Item>, j: nat, d: Directive, from: string, n: nat)
    requires n <= |items|
    ensures InnerShape(items, j, d, from, n, DirectiveUnits(items, j, d, from, n))
    ensures ItemsIncreasing(DirectiveUnits(items, j, d, from, n))
  {
    if n > 0 {
      DirectiveUnitsShape(items, j, d, from, n - 1);
      var prev := DirectiveUnits(items, j, d, from, n - 1);
      var r := DirectiveUnits(items, j, d, from, n);
      if Truthy(Get(items[n - 1], d.key)) {
        var last := UnitFor(items, j, d, from, n - 1);
        assert r == prev + [last];
        forall k | 0 <= k < |r|
          ensures r[k].directive == j && r[k].item < n
          ensures r[k] == UnitFor(items, j, d, from, r[k].item) && Truthy(r[k].text)
        {
          if k < |prev| { assert r[k] == prev[k]; } else { assert r[k] == last; }
        }
        forall a, b | 0 <= a < b < |r| ensures r[a].item < r[b].item {
          assert r[a] == prev[a];
          if b < |prev| { assert r[b] == prev[b]; } else { assert r[b] == last; }
        }
      } else {
        assert r == prev;
      }
    }
  }

  /** The inner loop creates a unit for item `i` exactly when `item[key]` is truthy. */
  lemma {:induction false} DirectiveUnitsCover(items: seq<Item>, j: nat, d: Directive, from: string, n: nat, i: nat)
    requires i < n <= |items|
    ensures Truthy(Get(items[i], d.key)) <==> HasUnit(DirectiveUnits(items, j, d, from, n), j, i)
  {
    var prev := DirectiveUnits(items, j, d, from, n - 1);
    var extra := if Truthy(Get(items[n - 1], d.key)) then [UnitFor(items, j, d, from, n - 1)] else [];
    assert DirectiveUnits(items, j, d, from, n) == prev + extra;
    HasUnitAppend(prev, extra, j, i);
    if i < n - 1 {
      DirectiveUnitsCover(items, j, d, from, n - 1, i);
      assert !HasUnit(extra, j, i);
    } else {
      DirectiveUnitsShape(items, j, d, from, n - 1);
      assert !HasUnit(prev, j, i);
      if Truthy(Get(items[i], d.key)) {
        assert extra[0].directive == j && extra[0].item == i;
      }
    }
  }

  /** Every unit dispatched for the first `m` directives is the one the loops
      build for its directive and item. */
  lemma {:induction false} UnitsWellFormed(items: seq<Item>, ds: seq<Directive>, from: string, m: nat)
    requires m <= |ds|
    ensures forall k :: 0 <= k < |Units(items, ds, from, m)| ==>
      Dispatched(items, ds, from, m, Units(items, ds, from, m)[k])
  {
    if m > 0 {
      UnitsWellFormed(items, ds, from, m - 1);
      DirectiveUnitsShape(items, m - 1, ds[m - 1], from, |items|);
      var prev := Units(items, ds, from, m - 1);
      var tail := DirectiveUnits(items, m - 1, ds[m - 1], from, |items|);
      var r := Units(items, ds, from, m);
      assert r == prev + tail;
      forall k | 0 <= k < |r| ensures Dispatched(items, ds, from, m, r[k]) {
        if k < |prev| {
          assert r[k] == prev[k] && Dispatched(items, ds, from, m - 1, prev[k]);
        } else {
          assert r[k] == tail[k - |prev|];
        }
      }
    }
  }

  /** Loop order: directive-outer, item-inner. */
  predicate Precedes(u: Unit, v: Unit) {
    u.directive < v.directive || (u.directive == v.directive && u.item < v.item)
  }

  predicate InLoopOrder(r: seq<Unit>) {
    forall a, b :: 0 <= a < b < |r| ==> Precedes(r[a], r[b])
  }

  /** Units are dispatched directive-outer, item-inner. */
  lemma {:induction false} UnitsInLoopOrder(items: seq<Item>, ds: seq<Directive>, from: string, m: nat)
    requires m <= |ds|
    ensures InLoopOrder(Units(items, ds, from, m))
  {
    if m > 0 {
      UnitsInLoopOrder(items, ds, from, m - 1);
      UnitsWellFormed(items, ds, from, m - 1);
      DirectiveUnitsShape(items, m - 1, ds[m - 1], from, |items|);
      var prev := Units(items, ds, from, m - 1);
      var tail := DirectiveUnits(items, m - 1, ds[m - 1], from, |items|);
      var r := Units(items, ds, from, m);
      assert r == prev + tail;
      forall a, b | 0 <= a < b < |r| ensures Precedes(r[a], r[b]) {
        if b < |prev| {
          assert r[a] == prev[a] && r[b] == prev[b];
        } else if a < |prev| {
          assert r[a] == prev[a] && Dispatched(items, ds, from, m - 1, prev[a]);
          assert r[b] == tail[b - |prev|] && tail[b - |prev|].directive == m - 1;
        } else {
          assert r[a] == tail[a - |prev|] && r[b] == tail[b - |prev|];
          assert tail[a - |prev|].directive == m - 1 && tail[b - |prev|].directive == m - 1;
          assert tail[a - |prev|].item < tail[b - |prev|].item;
        }
      }
    }
  }

  /** Among the first `m` directives, directive `j` gets a unit for item `i`
      exactly when `items[i][ds[j].key]` is truthy. */
  lemma {:induction false} UnitExistsIffTruthy(items: seq<Item>, ds: seq<Directive>, from: string, m: nat, j: nat, i: nat)
    requires j < m <= |ds| && i < |items|
    ensures Truthy(Get(items[i], ds[j].key)) <==> HasUnit(Units(items, ds, from, m), j, i)
  {
    var prev := Units(items, ds, from, m - 1);
    var tail := DirectiveUnits(items, m - 1, ds[m - 1], from, |items|);
    assert Units(items, ds, from, m) == prev + tail;
    HasUnitAppend(prev, tail, j, i);
    if j < m - 1 {
      UnitExistsIffTruthy(items, ds, from, m - 1, j, i);
      DirectiveUnitsShape(items, m - 1, ds[m - 1], from, |items|);
      assert !HasUnit(tail, j, i);
    } else {
      UnitsWellFormed(items, ds, from, m - 1);
      DirectiveUnitsCover(items, m - 1, ds[m - 1], from, |items|, i);
      assert !HasUnit(prev, j, i);
    }
  }

  /** Item `i` exists and its `key` field is truthy. */
  predicate Hit(items: seq<Item>, key: string, i: int) {
    0 <= i < |items| && Truthy(Get(items[i], key))
  }

  /** How many items have a truthy `key`: an independent count. */
  function TruthyCount(items: seq<Item>, key: string): nat {
    |set i | 0 <= i < |items| && Hit(items, key, i)|
  }

  /** The number of calls a list of directives asks for. */
  function Workload(items: seq<Item>, ds: seq<Directive>): nat {
    if |ds| == 0 then 0 else TruthyCount(items, ds[0].key) + Workload(items, ds[1..])
  }

  lemma {:induction false} WorkloadAppend(items: seq<Item>, ds: seq<Directive>, d: Directive)
    ensures Workload(items, ds + [d]) == Workload(items, ds) + TruthyCount(items, d.key)
  {
    if |ds| > 0 {
      assert (ds + [d])[1..] == ds[1..] + [d];
      WorkloadAppend(items, ds[1..], d);
    }
  }

  /** Counting one more item adds one exactly when it is a hit. */
  lemma HitCountStep(items: seq<Item>, key: string, n: nat)
    requires 0 < n <= |items|
    ensures |set i | 0 <= i < n && Hit(items, key, i)|
         == |set i | 0 <= i < n - 1 && Hit(items, key, i)| + (if Hit(items, key, n - 1) then 1 else 0)
  {
    var before := set i | 0 <= i < n - 1 && Hit(items, key, i);
    var after := set i | 0 <= i < n && Hit(items, key, i);
    var last := if Hit(items, key, n - 1) then {n - 1} else {};
    assert after == before + last;
    assert before !! last;
  }

  lemma {:induction false} DirectiveUnitsCount(items: seq<Item>, j: nat, d: Directive, from: string, n: nat)
    requires n <= |items|
    ensures |DirectiveUnits(items, j, d, from, n)| == |set i | 0 <= i < n && Hit(items, d.key, i)|
  {
    if n > 0 {
      DirectiveUnitsCount(items, j, d, from, n - 1);
      HitCountStep(items, d.key, n);
    }
  }

  /** The loops dispatch, for the first `m` directives, one call per item whose
      source field is truthy: the sum over those directives of the count. */
  lemma {:induction false} UnitCount(items: seq<Item>, ds: seq<Directive>, from: string, m: nat)
    requires m <= |ds|
    ensures |Units(items, ds, from, m)| == Workload(items, ds[..m])
  {
    if m > 0 {
      UnitCount(items, ds, from, m - 1);
      DirectiveUnitsCount(items, m - 1, ds[m - 1], from, |items|);
      assert ds[..m] == ds[..m - 1] + [ds[m - 1]];
      WorkloadAppend(items, ds[..m - 1], ds[m - 1]);
    }
  }

  /** `units` are exactly what the loops dispatch for the first `n`
      directives: one per (directive, item) whose source field is truthy and
      no other, each built from its directive and item, in loop order, as many
      as the directives' truthy counts add up to. */
  predicate DispatchesExactly(items: seq<Item>, ds: seq<Directive>, from: string, n: nat, units: seq<Unit>)
    requires n <= |ds|
  {
    && (forall k :: 0 <= k < |units| ==> Dispatched(items, ds, from, n, units[k]))
    && (forall j, x :: 0 <= j < n && 0 <= x < |items| ==>
          (Truthy(Get(items[x], ds[j].key)) <==> HasUnit(units, j, x)))
    && InLoopOrder(units)
    && |units| == Workload(items, ds[..n])
  }

  lemma UnitsDispatchExactly(items: seq<Item>, ds: seq<Directive>, from: string, n: nat)
    requires n <= |ds|
    ensures DispatchesExactly(items, ds, from, n, Units(items, ds, from, n))
  {
    UnitsWellFormed(items, ds, from, n);
    UnitsInLoopOrder(items, ds, from, n);
    UnitCount(items, ds, from, n);
    forall j, x | 0 <= j < n && 0 <= x < |items|
      ensures Truthy(Get(items[x], ds[j].key)) <==> HasUnit(Units(items, ds, from, n), j, x)
    {
      UnitExistsIffTruthy(items, ds, from, n, j, x);
    }
  }

  /** A 400 leaves dispatched exactly the units of the directives before the
      first one with an empty `newKey`, and none for it or any later one. */
  lemma StopsAtFirstMissingNewKey(items: seq<Item>, ds: seq<Directive>, from: string, i: nat)
    requires FirstMissingNewKey(ds) == Some(i)
    ensures !Select(items, ds, from).accepted
    ensures DispatchesExactly(items, ds, from, i, Select(items, ds, from).units)
    ensures forall k :: 0 <= k < |Select(items, ds, from).units| ==> Select(items, ds, from).units[k].directive < i
  {
    UnitsDispatchExactly(items, ds, from, i);
  }

  /** With every `newKey` present, every directive is processed. */
  lemma AcceptedDispatchesAll(items: seq<Item>, ds: seq<Directive>, from: string)
    requires forall j :: 0 <= j < |ds| ==> ds[j].newKey != ""
    ensures Select(items, ds, from).accepted
    ensures DispatchesExactly(items, ds, from, |ds|, Select(items, ds, from).units)
    ensures |Select(items, ds, from).units| == Workload(items, ds)
  {
    UnitsDispatchExactly(items, ds, from, |ds|);
    assert ds[..|ds|] == ds;
  }

  // ---------------------------------------------------------------------------
  // Settlement, for any order

  /** An item no unit belongs to is never touched. */
  lemma {:induction false} SettleAllKeepsItem(items: seq<Item>, units: seq<Unit>, replies: seq<Option<Value>>, order: seq<nat>, i: nat)
    requires |units| == |replies| && InRange(order, |units|) && i < |items|
    requires forall k :: 0 <= k < |units| ==> units[k].item != i
    ensures SettleAll(items, units, replies, order)[i] == items[i]
  {
    if |order| > 0 {
      SettleAllKeepsItem(items, units, replies, order[..|order| - 1], i);
    }
  }

  /** A field no unit of the item reads or writes keeps its value. */
  lemma {:induction false} SettleAllKeepsField(items: seq<Item>, units: seq<Unit>, replies: seq<Option<Value>>, order: seq<nat>, i: nat, f: string)
    requires |units| == |replies| && InRange(order, |units|) && i < |items|
    requires forall k :: 0 <= k < |units| && units[k].item == i ==> units[k].key != f && units[k].newKey != f
    ensures Get(SettleAll(items, units, replies, order)[i], f) == Get(items[i], f)
  {
    if |order| > 0 {
      SettleAllKeepsField(items, units, replies, order[..|order| - 1], i, f);
    }
  }

  /** Last settlement wins: if unit `order[p]` succeeds and no unit of the same
      item that settles after it reads or writes its `newKey`, that field ends
      up holding its translation. */
  lemma {:induction false} LastWriterWins(items: seq<Item>, units: seq<Unit>, replies: seq<Option<Value>>, order: seq<nat>, p: nat)
    requires |units| == |replies| && InRange(order, |units|) && p < |order|
    requires units[order[p]].item < |items| && Client.Translate(replies[order[p]]).Ok?
    requires forall q :: p < q < |order| && units[order[q]].item == units[order[p]].item && order[q] != order[p] ==>
      units[order[q]].key != units[order[p]].newKey && units[order[q]].newKey != units[order[p]].newKey
    ensures Get(SettleAll(items, units, replies, order)[units[order[p]].item], units[order[p]].newKey)
         == Client.Translate(replies[order[p]]).value
  {
    var n := |order|;
    var prefix := order[..n - 1];
    if p < n - 1 {
      assert prefix[p] == order[p];
      forall q | p < q < |prefix| && units[prefix[q]].item == units[prefix[p]].item && prefix[q] != prefix[p]
        ensures units[prefix[q]].key != units[prefix[p]].newKey && units[prefix[q]].newKey != units[prefix[p]].newKey
      {
        assert prefix[q] == order[q];
      }
      LastWriterWins(items, units, replies, prefix, p);
    }
  }

  /** A renamed source field is gone if no unit of the same item that settles
      later writes it back. */
  lemma {:induction false} RenamedKeyStaysDeleted(items: seq<Item>, units: seq<Unit>, replies: seq<Option<Value>>, order: seq<nat>, p: nat)
    requires |units| == |replies| && InRange(order, |units|) && p < |order|
    requires units[order[p]].item < |items| && Client.Translate(replies[order[p]]).Ok?
    requires units[order[p]].newKey != units[order[p]].key
    requires forall q :: p < q < |order| && units[order[q]].item == units[order[p]].item ==>
      units[order[q]].newKey != units[order[p]].key
    ensures units[order[p]].key !in SettleAll(items, units, replies, order)[units[order[p]].item].values
  {
    var n := |order|;
    var prefix := order[..n - 1];
    if p < n - 1 {
      assert prefix[p] == order[p];
      forall q | p < q < |prefix| && units[prefix[q]].item == units[prefix[p]].item
        ensures units[prefix[q]].newKey != units[prefix[p]].key
      {
        assert prefix[q] == order[q];
      }
      RenamedKeyStaysDeleted(items, units, replies, prefix, p);
    }
  }

  // ---------------------------------------------------------------------------
  // The response

  /** The 200 body is the items array itself: same length, and every item for
      which no directive's source field is truthy is returned as received. */
  lemma UntouchedItemsUnchanged(items: seq<Item>, ds: seq<Directive>, from: string,
                                replies: seq<Option<Value>>, order: seq<nat>, i: nat)
    requires |replies| == |Select(items, ds, from).units| && IsSchedule(order, |replies|)
    requires Respond(items, ds, from, replies, order).Success?
    requires i < |items| && forall j :: 0 <= j < |ds| ==> !Truthy(Get(items[i], ds[j].key))
    ensures |Respond(items, ds, from, replies, order).body| == |items|
    ensures Respond(items, ds, from, replies, order).body[i] == items[i]
  {
    var units := Select(items, ds, from).units;
    UnitsWellFormed(items, ds, from, |ds|);
    SettleAllKeepsItem(items, units, replies, order, i);
  }

  /** A field that no directive with a truthy source on that item names, as
      `key` or as `newKey`, is returned as received. */
  lemma UnnamedFieldsUnchanged(items: seq<Item>, ds: seq<Directive>, from: string,
                               replies: seq<Option<Value>>, order: seq<nat>, i: nat, f: string)
    requires |replies| == |Select(items, ds, from).units| && IsSchedule(order, |replies|)
    requires Respond(items, ds, from, replies, order).Success?
    requires i < |items|
    requires forall j :: 0 <= j < |ds| && Truthy(Get(items[i], ds[j].key)) ==> ds[j].key != f && ds[j].newKey != f
    ensures Get(Respond(items, ds, from, replies, order).body[i], f) == Get(items[i], f)
  {
    var units := Select(items, ds, from).units;
    UnitsWellFormed(items, ds, from, |ds|);
    SettleAllKeepsField(items, units, replies, order, i, f);
  }

  /** For every completion order: a unit whose target field no other unit of the
      same item reads or writes leaves that field holding its translation, and
      when it renames, its source field is gone unless another unit of the item
      writes it. */
  lemma TranslationLandsInEveryOrder(items: seq<Item>, ds: seq<Directive>, from: string,
                                     replies: seq<Option<Value>>, order: seq<nat>, k: nat)
    requires |replies| == |Select(items, ds, from).units| && IsSchedule(order, |replies|)
    requires FirstMissingNewKey(ds) == None && AllTranslated(replies)
    requires k < |replies|
    requires var units := Select(items, ds, from).units;
      forall k' :: 0 <= k' < |units| && k' != k && units[k'].item == units[k].item ==>
        units[k'].key != units[k].newKey && units[k'].newKey != units[k].newKey
    ensures var units := Select(items, ds, from).units;
      var out := Respond(items, ds, from, replies, order).body;
      && units[k].item < |out|
      && Get(out[units[k].item], units[k].newKey) == Client.Translate(replies[k]).value
      && (units[k].newKey != units[k].key
          && (forall k' :: 0 <= k' < |units| && units[k'].item == units[k].item ==> units[k'].newKey != units[k].key)
          ==> units[k].key !in out[units[k].item].values)
  {
    var units := Select(items, ds, from).units;
    UnitsWellFormed(items, ds, from, |ds|);
    ScheduleCovers(order, |replies|);
    assert k in order;
    var p :| 0 <= p < |order| && order[p] == k;
    LastWriterWins(items, units, replies, order, p);
    if units[k].newKey != units[k].key
       && (forall k' :: 0 <= k' < |units| && units[k'].item == units[k].item ==> units[k'].newKey != units[k].key) {
      RenamedKeyStaysDeleted(items, units, replies, order, p);
    }
  }

  // ---------------------------------------------------------------------------
  // Worked examples

  /** One record `{"name": "salam"}` and the directive name -> name_en: the
      answer holds `{"name_en": <translation>}` and no `name`. */
  lemma RenameExample(item: Item, ds: seq<Directive>, reply: Option<Value>, translation: string)
    requires item == Entries(["name"], map["name" := Str("salam")])
    requires ds == [Directive("name", "name_en", "en")]
    requires reply == Some(Arr([Arr([Arr([Str(translation), Str("salam")])])]))
    ensures |Select([item], ds, "az").units| == 1 && IsSchedule([0], 1)
    ensures Respond([item], ds, "az", [reply], [0])
         == Success([Entries(["name_en"], map["name_en" := Str(translation)])])
  {
    var u := Unit(0, 0, "name", "name_en", Str("salam"), "az", "en");
    var after: Item := Entries(["name_en"], map["name_en" := Str(translation)]);
    RenameExampleSelect(item, ds, u);
    RenameExampleTranslate(reply, translation);
    RenameExampleApply(item, u, translation, after);
    RespondSingle(item, ds, "az", reply, u, Str(translation));
  }

  /** With every `newKey` present and every reply translated, the answer is
      the settled items. */
  lemma RespondAccepted(items: seq<Item>, ds: seq<Directive>, from: string,
                        replies: seq<Option<Value>>, order: seq<nat>)
    requires |replies| == |Select(items, ds, from).units|
    requires IsSchedule(order, |replies|)
    requires Select(items, ds, from).accepted && AllTranslated(replies)
    ensures Respond(items, ds, from, replies, order)
         == Success(SettleAll(items, Select(items, ds, from).units, replies, order))
  {
  }

  /** One record and one translated unit: the answer is that record with the
      unit applied. */
  lemma RespondSingle(item: Item, ds: seq<Directive>, from: string, reply: Option<Value>, u: Unit, text: Value)
    requires Select([item], ds, from) == Dispatch([u], true)
    requires u.item == 0 && Client.Translate(reply) == Ok(text)
    ensures IsSchedule([0], 1)
    ensures Respond([item], ds, from, [reply], [0]) == Success([ApplyUnit(item, u, text)])
  {
    assert Indices(1) == [0];
    SettleSingle(item, u, reply, text);
    RespondAccepted([item], ds, from, [reply], [0]);
  }

  lemma SettleSingle(item: Item, u: Unit, reply: Option<Value>, text: Value)
    requires u.item == 0 && Client.Translate(reply) == Ok(text)
    ensures SettleAll([item], [u], [reply], [0]) == [ApplyUnit(item, u, text)]
  {
  }

  lemma RenameExampleTranslate(reply: Option<Value>, translation: string)
    requires reply == Some(Arr([Arr([Arr([Str(translation), Str("salam")])])]))
    ensures Client.Translate(reply) == Ok(Str(translation))
  {
  }

  lemma RenameExampleSelect(item: Item, ds: seq<Directive>, u: Unit)
    requires item == Entries(["name"], map["name" := Str("salam")])
    requires ds == [Directive("name", "name_en", "en")]
    requires u == Unit(0, 0, "name", "name_en", Str("salam"), "az", "en")
    ensures Select([item], ds, "az") == Dispatch([u], true)
  {
    assert DirectiveUnits([item], 0, ds[0], "az", 1) == [u];
    assert Units([item], ds, "az", 1) == [u];
  }

  lemma RenameExampleApply(item: Item, u: Unit, translation: string, after: Item)
    requires item == Entries(["name"], map["name" := Str("salam")])
    requires u == Unit(0, 0, "name", "name_en", Str("salam"), "az", "en")
    requires after == Entries(["name_en"], map["name_en" := Str(translation)])
    ensures ApplyUnit(item, u, Str(translation)) == after
  {
    assert Without(["name", "name_en"], "name") == ["name_en"];
    assert (map["name" := Str("salam")])["name_en" := Str(translation)] - {"name"} == map["name_en" := Str(translation)];
  }

  /** One record `{"title": ""}`: no call is made and the record comes back as it was. */
  lemma EmptySourceExample()
    ensures var item := Entries(["title"], map["title" := Str("")]);
      var ds := [Directive("title", "title_en", "en")];
      && Select([item], ds, "az").units == []
      && Respond([item], ds, "az", [], []) == Success([item])
  {
  }
}
