/** JSON-like values as the translation handler sees them, JavaScript truthiness,
    and the flat records ("items") whose fields the handler reads, overwrites and
    deletes. */
module Values {

  datatype Option<T> = None | Some(value: T)

  datatype Result<T, E> = Ok(value: T) | Err(error: E)

  /** A JavaScript value as it can occur in a parsed JSON body, plus `undefined`,
      which is what reading a missing property or index yields. Numbers are
      integers here. */
  datatype Value =
    | Undefined
    | Null
    | Bool(b: bool)
    | Num(n: int)
    | Str(s: string)
    | Arr(elems: seq<Value>)
    | Obj(props: map<string, Value>)

  /** JavaScript truthiness, the test behind `if (item[key])` and `if (!newKey)`:
      `undefined`, `null`, `false`, `0` and `""` are falsy, everything else
      (arrays and objects included, even empty ones) is truthy. */
  predicate Truthy(v: Value) {
    match v
    case Undefined => false
    case Null => false
    case Bool(b) => b
    case Num(n) => n != 0
    case Str(s) => s != ""
    case Arr(_) => true
    case Obj(_) => true
  }

  /** Exactly five values are falsy. */
  lemma FalsyValues(v: Value)
    ensures !Truthy(v) <==> v in {Undefined, Null, Bool(false), Num(0), Str("")}
  {
  }

  predicate Distinct<T(==)>(s: seq<T>) {
    forall i, j :: 0 <= i < j < |s| ==> s[i] != s[j]
  }

  /** A plain JavaScript object: its own property names in insertion order, and
      the value of each. */
  datatype Entries = Entries(order: seq<string>, values: map<string, Value>)

  predicate WellFormed(e: Entries) {
    && Distinct(e.order)
    && (forall k :: k in e.values ==> k in e.order)
    && (forall k :: k in e.order ==> k in e.values)
  }

  /** One record of the uploaded array: every property listed once, in order. */
  type Item = e: Entries | WellFormed(e) witness Entries([], map[])

  /** `item[k]`: the value of own property `k`, or `undefined` when there is none. */
  function Get(it: Item, k: string): Value {
    if k in it.values then it.values[k] else Undefined
  }

  /** A listed own property reads its value; any other name reads `undefined`. */
  lemma GetOwnProperty(it: Item, k: string)
    ensures k !in it.order ==> Get(it, k) == Undefined
    ensures k in it.order ==> k in it.values && Get(it, k) == it.values[k]
  {
  }

  /** `item[k] = v`: an existing property keeps its position, a new one is
      appended after all others. */
  function Set(it: Item, k: string, v: Value): (r: Item)
    ensures k in r.values && Get(r, k) == v
    ensures forall f :: f != k ==> Get(r, f) == Get(it, f)
    ensures r.values.Keys == it.values.Keys + {k}
    ensures k in it.values ==> r.order == it.order
    ensures k !in it.values ==> r.order == it.order + [k]
  {
    Entries(if k in it.values then it.order else it.order + [k], it.values[k := v])
  }

  /** `s` with every occurrence of `k` removed, the rest in their order. */
  function Without(s: seq<string>, k: string): (r: seq<string>)
    ensures forall x :: x in r <==> x in s && x != k
    ensures Distinct(s) ==> Distinct(r)
    ensures k !in s ==> r == s
  {
    if |s| == 0 then []
    else if s[0] == k then Without(s[1..], k)
    else
      var rest := Without(s[1..], k);
      assert Distinct(s) ==> Distinct(s[1..]) && s[0] !in s[1..];
      [s[0]] + rest
  }

  /** In a list without repetitions, removing `k` drops exactly the one
      position that holds it. */
  lemma {:induction false} WithoutAt(s: seq<string>, i: nat)
    requires Distinct(s) && i < |s|
    ensures Without(s, s[i]) == s[..i] + s[i + 1..]
  {
    if i > 0 {
      assert Distinct(s[1..]);
      WithoutAt(s[1..], i - 1);
      assert s[1..][..i - 1] == s[1..i];
      assert s[1..][i..] == s[i + 1..];
      assert [s[0]] + s[1..i] == s[..i];
    } else {
      assert s[0] !in s[1..];
    }
  }

  /** `delete item[k]`: the property disappears, the others keep their values
      and their relative order. */
  function Delete(it: Item, k: string): (r: Item)
    ensures k !in r.values && Get(r, k) == Undefined
    ensures forall f :: f != k ==> Get(r, f) == Get(it, f)
    ensures r.values.Keys == it.values.Keys - {k}
    ensures k !in it.values ==> r == it
    ensures forall i :: 0 <= i < |it.order| && it.order[i] == k ==> r.order == it.order[..i] + it.order[i + 1..]
  {
    var r := Entries(Without(it.order, k), it.values - {k});
    forall i | 0 <= i < |it.order| && it.order[i] == k
      ensures r.order == it.order[..i] + it.order[i + 1..]
    {
      WithoutAt(it.order, i);
    }
    r
  }
}
