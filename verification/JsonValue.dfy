/** JSON values, and the events document.h's Accept sends for one to any handler. N is how
    a number is carried and S how a string is: as plain text for the writers, as the flagged
    values for the trees. */
module JsonValue {
  import opened Bytes

  datatype Member<N, S> = Member(name: S, value: Value<N, S>)

  datatype Value<N, S> =
    | Null
    | Bool(b: bool)
    | Number(n: N)
    | String(s: S)
    | Array(elements: seq<Value<N, S>>)
    | Object(members: seq<Member<N, S>>)

  datatype Event<N, S> =
    | OnNull
    | OnBool(b: bool)
    | OnNumber(n: N)
    | OnString(s: S)
    | OnStartObject
    | OnKey(s: S)
    | OnEndObject(count: nat)
    | OnStartArray
    | OnEndArray(count: nat)

  /** GenericValue::Accept */
  function Events<N, S>(v: Value<N, S>): seq<Event<N, S>>
    decreases v
  {
    match v
    case Null => [OnNull]
    case Bool(b) => [OnBool(b)]
    case Number(n) => [OnNumber(n)]
    case String(s) => [OnString(s)]
    case Array(es) => [OnStartArray] + (ElementEvents(es) + [OnEndArray(|es|)])
    case Object(ms) => [OnStartObject] + (MemberEvents(ms) + [OnEndObject(|ms|)])
  }

  function ElementEvents<N, S>(es: seq<Value<N, S>>): seq<Event<N, S>>
    decreases es
  {
    if |es| == 0 then [] else Events(es[0]) + ElementEvents(es[1..])
  }

  function MemberEvents<N, S>(ms: seq<Member<N, S>>): seq<Event<N, S>>
    decreases ms
  {
    if |ms| == 0 then []
    else
      assert ms[0].value < ms[0];
      [OnKey(ms[0].name)] + (Events(ms[0].value) + MemberEvents(ms[1..]))
  }
}
