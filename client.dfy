/** The translation client: the one piece of local logic in `translate`, which
    picks `result[0][0][0]` out of the remote service's decoded JSON body. The
    HTTP request and the decoding of the body are the remote side; they are
    represented by a `reply` that is either the decoded body or a failure. */
module Client {
  import opened Values

  datatype Failure =
    | RequestFailed  // `fetch` or `response.json()` rejected
    | TypeError      // reading `[0]` of `undefined` or `null`

  predicate Nullish(v: Value) {
    v.Undefined? || v.Null?
  }

  /** What JavaScript's `v[0]` reads on a value that is not `undefined` or
      `null`: the first element of an array, the first character of a string,
      property "0" of an object; `undefined` where there is none. */
  function First(v: Value): (r: Value)
    requires !Nullish(v)
    ensures v.Bool? || v.Num? ==> r == Undefined
    ensures v.Arr? ==> (r == Undefined && |v.elems| == 0) || (|v.elems| > 0 && r == v.elems[0])
    ensures v.Str? ==> (r == Undefined && v.s == "") || (v.s != "" && r.Str? && |r.s| == 1 && r.s[0] == v.s[0])
    ensures v.Obj? ==> (r == Undefined && "0" !in v.props) || ("0" in v.props && r == v.props["0"])
  {
    match v
    case Arr(e) => if |e| > 0 then e[0] else Undefined
    case Str(s) => if |s| > 0 then Str([s[0]]) else Undefined
    case Obj(p) => if "0" in p then p["0"] else Undefined
    case _ => Undefined
  }

  /** `v[0]`, which throws a TypeError on `undefined` and `null`. */
  function Index0(v: Value): (r: Result<Value, Failure>)
    ensures r.Err? <==> Nullish(v)
    ensures v.Arr? ==> r == Ok(if |v.elems| > 0 then v.elems[0] else Undefined)
  {
    if Nullish(v) then Err(TypeError) else Ok(First(v))
  }

  /** `result[0][0][0]` evaluated left to right. It fails exactly when one of the
      three reads is made on `undefined` or `null`: on the service's usual shape,
      a list of lists of fragment lists, it yields the first element of the first
      fragment; when `result[0][0]` is an empty list it does NOT fail but yields
      `undefined`. */
  function Extract(body: Value): (r: Result<Value, Failure>)
    ensures r.Err? <==>
      || Nullish(body)
      || Nullish(First(body))
      || Nullish(First(First(body)))
    ensures r.Err? ==> r.error == TypeError
    ensures body.Arr? && |body.elems| > 0
         && body.elems[0].Arr? && |body.elems[0].elems| > 0
         && body.elems[0].elems[0].Arr? && |body.elems[0].elems[0].elems| > 0
         ==> r == Ok(body.elems[0].elems[0].elems[0])
    ensures body.Arr? && |body.elems| == 0 ==> r == Err(TypeError)
    ensures body.Arr? && |body.elems| > 0 && body.elems[0] == Arr([Arr([])]) ==> r == Ok(Undefined)
  {
    match Index0(body)
    case Err(e) => Err(e)
    case Ok(a) =>
      match Index0(a)
      case Err(e) => Err(e)
      case Ok(b) => Index0(b)
  }

  /** `translate(text, from, to)` given the service's reply to the request it
      builds: it rejects when the request or the decoding failed, and otherwise
      resolves to whatever `result[0][0][0]` reads, or rejects with its
      TypeError. */
  function Translate(reply: Option<Value>): Result<Value, Failure> {
    match reply
    case None => Err(RequestFailed)
    case Some(body) => Extract(body)
  }

  /** Only the first fragment is kept: when the service splits a text into two
      sentences, the second one's translation is dropped. */
  lemma FirstFragmentOnly(t1: string, s1: string, t2: string, s2: string, rest: seq<Value>)
    ensures Translate(Some(Arr([Arr([Arr([Str(t1), Str(s1)]), Arr([Str(t2), Str(s2)])])] + rest)))
         == Ok(Str(t1))
  {
  }
}
