/** The HTTP gateway's order routes: the checks it makes on a request before
    calling the order service, the status-name table, the paging defaults,
    and the mapping of a failed call to an HTTP status. */
module GatewayOrders {
  import opened Common
  import opened Paging
  import OrderModels
  import OrderService

  /** A JSON value as a handler sees it; `Undefined` is an absent field. */
  datatype Json = Undefined | Null | Bool(b: bool) | Num(x: real) | Str(s: string) | Arr(elems: seq<Json>) | Obj(fields: map<string, Json>)

  /** JavaScript truthiness. */
  predicate Truthy(v: Json) {
    match v
    case Undefined => false
    case Null => false
    case Bool(b) => b
    case Num(x) => x != 0.0
    case Str(s) => s != []
    case Arr(_) => true
    case Obj(_) => true
  }

  /** Reading a property of null or undefined throws a TypeError. */
  predicate Nullish(v: Json) {
    v == Undefined || v == Null
  }

  /** Property `key` of a value that is not nullish: the field of an
      object, and undefined for anything else (the three item fields are
      not built-in properties of strings, arrays or numbers). */
  function Get(v: Json, key: string): Json
    requires !Nullish(v)
  {
    if v.Obj? && key in v.fields then v.fields[key] else Undefined
  }

  /** An item with a truthy `product_name`, `quantity` and `price`. */
  predicate ItemOk(item: Json) {
    !Nullish(item) && Truthy(Get(item, "product_name")) && Truthy(Get(item, "quantity")) && Truthy(Get(item, "price"))
  }

  /** What the create route does with a body: answer 400, fail with 500
      (a TypeError thrown inside the handler lands in its catch, which has
      no error code), or call the order service. */
  datatype Check = BadRequest | ServerError | Forward

  /** The item check: the loop stops at the first item that is not OK;
      a null item throws, any other bad item gets 400. */
  method CheckItems(items: seq<Json>) returns (c: Check)
    ensures c == Forward <==> forall i :: 0 <= i < |items| ==> ItemOk(items[i])
    ensures c == ServerError <==> exists k :: 0 <= k < |items| && Nullish(items[k]) && forall j :: 0 <= j < k ==> ItemOk(items[j])
    ensures c == BadRequest <==> exists k :: 0 <= k < |items| && !Nullish(items[k]) && !ItemOk(items[k]) && forall j :: 0 <= j < k ==> ItemOk(items[j])
  {
    var i := 0;
    while i < |items|
      invariant 0 <= i <= |items|
      invariant forall j :: 0 <= j < i ==> ItemOk(items[j])
    {
      var item := items[i];
      if Nullish(item) {
        return ServerError;
      }
      if !Truthy(Get(item, "product_name")) || !Truthy(Get(item, "quantity")) || !Truthy(Get(item, "price")) {
        return BadRequest;
      }
      i := i + 1;
    }
    c := Forward;
  }

  /** The create route's checks on `user_id` and `items`: a falsy user id,
      or items that are missing, not an array or empty, get 400 before the
      items are looked at. */
  method CheckCreateBody(userId: Json, items: Json) returns (c: Check)
    ensures !Truthy(userId) || !items.Arr? || |items.elems| == 0 ==> c == BadRequest
    ensures c == Forward <==> Truthy(userId) && items.Arr? && |items.elems| > 0 && forall i :: 0 <= i < |items.elems| ==> ItemOk(items.elems[i])
    ensures c == ServerError <==> (Truthy(userId) && items.Arr? &&
      exists k :: 0 <= k < |items.elems| && Nullish(items.elems[k]) && forall j :: 0 <= j < k ==> ItemOk(items.elems[j]))
    ensures c == BadRequest <==> (!Truthy(userId) || !items.Arr? || |items.elems| == 0 ||
      exists k :: 0 <= k < |items.elems| && !Nullish(items.elems[k]) && !ItemOk(items.elems[k]) && forall j :: 0 <= j < k ==> ItemOk(items.elems[j]))
  {
    if !Truthy(userId) || !Truthy(items) || !items.Arr? || |items.elems| == 0 {
      return BadRequest;
    }
    c := CheckItems(items.elems);
  }

  /** An item whose quantity or price is 0 is refused like a missing one. */
  lemma ZeroQuantityRefused(name: string, price: real)
    ensures !ItemOk(Obj(map["product_name" := Str(name), "quantity" := Num(0.0), "price" := Num(price)]))
  {
    var item := Obj(map["product_name" := Str(name), "quantity" := Num(0.0), "price" := Num(price)]);
    assert Get(item, "quantity") == Num(0.0);
  }

  /** JavaScript `toUpperCase` on ASCII letters. */
  function UpperChar(c: char): (u: char)
    ensures 'a' <= c <= 'z' ==> 'A' <= u <= 'Z' && u as int == c as int - 32
    ensures !('a' <= c <= 'z') ==> u == c
  {
    if 'a' <= c <= 'z' then (c as int - 32) as char else c
  }

  function Upper(s: string): (u: string)
    ensures |u| == |s| && forall i :: 0 <= i < |s| ==> u[i] == UpperChar(s[i])
  {
    seq(|s|, i requires 0 <= i < |s| => UpperChar(s[i]))
  }

  /** Upper-casing twice is upper-casing once. */
  lemma UpperIdempotent(s: string)
    ensures Upper(Upper(s)) == Upper(s)
  {
    assert forall i :: 0 <= i < |s| ==> Upper(Upper(s))[i] == Upper(s)[i];
  }

  /** The route's `OrderStatus` table, looked up by the upper-cased name. */
  function StatusNumber(name: string): (r: Option<int>)
    ensures r.Some? <==> OrderModels.IsModelStatus(Upper(name))
    ensures r.Some? ==> 0 <= r.value <= 4
  {
    var u := Upper(name);
    if u == "PENDING" then Some(0)
    else if u == "PROCESSING" then Some(1)
    else if u == "SHIPPED" then Some(2)
    else if u == "DELIVERED" then Some(3)
    else if u == "CANCELLED" then Some(4)
    else None
  }

  /** The lookup ignores ASCII case. */
  lemma StatusNumberIgnoresCase(name: string)
    ensures StatusNumber(name) == StatusNumber(Upper(name))
  {
    UpperIdempotent(name);
  }

  lemma ShippedLowerCase()
    ensures StatusNumber("shipped") == Some(2)
  {
    assert Upper("shipped") == "SHIPPED";
  }

  /** The gateway's table and the order service agree: the number a status
      name is sent as is the wire number of that status, whose stored name
      is the upper-cased name. */
  lemma StatusTableMatchesService(name: string)
    requires StatusNumber(name).Some?
    ensures OrderService.ProtoStatusToModel(StatusNumber(name).value) == Upper(name)
    ensures OrderService.ModelStatusToProto(Upper(name)) == StatusNumber(name).value
  {
  }

  /** What `parseInt` gives for a status that is not a string: a number
      truncated toward zero, or NaN. */
  datatype StatusValue = Wire(n: int) | NotANumber

  function Truncate(x: real): (n: int)
    ensures x >= 0.0 ==> n as real <= x < n as real + 1.0
    ensures x < 0.0 ==> n as real - 1.0 < x <= n as real
  {
    if x >= 0.0 then x.Floor else -((-x).Floor)
  }

  /** The status-change route's reading of `status`: absent gets 400; a
      string is looked up case-insensitively and an unknown name gets 400;
      a number is passed on truncated. */
  function ParseStatus(status: Json): (r: Option<StatusValue>)
    ensures status == Undefined ==> r == None
    ensures status.Str? ==> (r.Some? <==> OrderModels.IsModelStatus(Upper(status.s)))
    ensures status.Str? && r.Some? ==> r.value == Wire(StatusNumber(status.s).value)
    ensures status.Num? ==> r == Some(Wire(Truncate(status.x)))
    ensures !status.Str? && !status.Num? && status != Undefined ==> r == Some(NotANumber)
  {
    match status
    case Undefined => None
    case Str(s) => if StatusNumber(s).Some? then Some(Wire(StatusNumber(s).value)) else None
    case Num(x) => Some(Wire(Truncate(x)))
    case _ => Some(NotANumber)
  }

  /** A path id that is not a number gets 400 before the status is read. */
  function CheckStatusRequest(id: Option<int>, status: Json): (r: Option<(int, StatusValue)>)
    ensures r.Some? <==> id.Some? && ParseStatus(status).Some?
    ensures r.Some? ==> r.value == (id.value, ParseStatus(status).value)
  {
    if id.None? then None
    else match ParseStatus(status)
      case None => None
      case Some(v) => Some((id.value, v))
  }

  /** The HTTP status for a failed create, get, status-change, user-orders
      or cancel call: 404 for gRPC code 5, 500 for every other error,
      including an error without a code. */
  function ErrorStatus(code: Option<int>): (http: int)
    ensures http == 404 <==> code == Some(5)
    ensures http != 404 ==> http == 500
  {
    if code == Some(5) then 404 else 500
  }

  /** The listing route has no not-found case: every failure is 500. */
  function ListErrorStatus(code: Option<int>): (http: int)
    ensures http == 500
  {
    500
  }

  /** Against the order service: NotFound becomes 404, and both Internal
      and InvalidArgument become 500. */
  lemma ServiceErrorsToHttp(c: Code)
    ensures ErrorStatus(Some(c.Number())) == (if c == NotFound then 404 else 500)
  {
  }

  /** `parseInt(x) || 1`: NaN (written None) and 0 become 1; any other
      number, negative ones included, is kept. */
  function PageDefault(page: Option<int>): (p: int)
    ensures p == 1 <==> page.None? || page.value == 0 || page.value == 1
    ensures page.Some? && page.value != 0 ==> p == page.value
  {
    if page.None? || page.value == 0 then 1 else page.value
  }

  /** `parseInt(x) || 10`. */
  function LimitDefault(limit: Option<int>): (l: int)
    ensures l == 10 <==> limit.None? || limit.value == 0 || limit.value == 10
    ensures limit.Some? && limit.value != 0 ==> l == limit.value
  {
    if limit.None? || limit.value == 0 then DefaultLimit else limit.value
  }

  /** After the gateway's defaults the store's normalisation gives a
      positive page and limit; a negative page that the gateway keeps (and
      echoes back in its response) is served as page 1. */
  lemma DefaultsThenNormalize(page: Option<int>, limit: Option<int>)
    ensures NormalizePage(PageDefault(page)) == (if page.Some? && page.value >= 1 then page.value else 1)
    ensures NormalizeLimit(LimitDefault(limit)) == (if limit.Some? && limit.value >= 1 then limit.value else DefaultLimit)
  {
  }
}
