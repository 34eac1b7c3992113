/** Decoded JSON documents and the lookups that parsing makes in them. */
module Documents {
  import opened Contract

  datatype Json =
    | Null
    | Bool(flag: bool)
    | Int(number: int)
    | Real(fraction: real)
    | Str(text: string)
    | Arr(items: seq<Json>)
    | Obj(fields: map<string, Json>)

  /** `document.get(key, default)`. Nothing is found in a value that is not an object. */
  function FieldOr(document: Json, key: string, default: Json): Json {
    if document.Obj? && key in document.fields then document.fields[key] else default
  }

  /** `document.get(key)`. */
  function Field(document: Json, key: string): Json {
    FieldOr(document, key, Null)
  }

  function RequiredString(document: Json, key: string): Option<string> {
    var value := Field(document, key);
    if value.Str? && value.text != "" then Some(value.text) else None
  }

  /** `isinstance(value, int)`, under which a boolean is an integer. */
  function AsInt(value: Json): Option<int> {
    match value
    case Int(n) => Some(n)
    case Bool(flag) => Some(if flag then 1 else 0)
    case _ => None
  }

  /** An integer that is not a boolean. */
  function StrictInt(value: Json): Option<int> {
    if value.Int? then Some(value.number) else None
  }

  /** Parses every element, or none of them. */
  function ParseAll<T>(parse: Json -> Option<T>, raw: seq<Json>): Option<seq<T>> {
    if raw == [] then Some([])
    else
      match (ParseAll(parse, raw[..|raw| - 1]), parse(raw[|raw| - 1]))
      case (Some(front), Some(last)) => Some(front + [last])
      case _ => None
  }

  lemma {:induction false} ParseAllElementwise<T>(parse: Json -> Option<T>, raw: seq<Json>)
    ensures ParseAll(parse, raw).Some? <==> forall x :: x in raw ==> parse(x).Some?
    ensures ParseAll(parse, raw).Some? ==>
              && |ParseAll(parse, raw).value| == |raw|
              && forall i :: 0 <= i < |raw| ==> parse(raw[i]) == Some(ParseAll(parse, raw).value[i])
  {
    if raw != [] {
      ParseAllElementwise(parse, raw[..|raw| - 1]);
      assert raw == raw[..|raw| - 1] + [raw[|raw| - 1]];
    }
  }

  /** What is parsed of a prefix is a prefix of what is parsed. */
  lemma ParseAllPrefix<T>(parse: Json -> Option<T>, raw: seq<Json>, n: nat)
    requires n <= |raw| && ParseAll(parse, raw).Some?
    ensures |ParseAll(parse, raw).value| == |raw|
    ensures ParseAll(parse, raw[..n]).Some? && ParseAll(parse, raw[..n]).value == ParseAll(parse, raw).value[..n]
  {
    ParseAllElementwise(parse, raw);
    ParseAllElementwise(parse, raw[..n]);
  }

  lemma ParseAllStep<T>(parse: Json -> Option<T>, raw: seq<Json>, i: nat)
    requires i < |raw|
    ensures raw[..i + 1] == raw[..i] + [raw[i]]
    ensures ParseAll(parse, raw[..i]).Some? && parse(raw[i]).Some? ==>
              ParseAll(parse, raw[..i + 1]) == Some(ParseAll(parse, raw[..i]).value + [parse(raw[i]).value])
    ensures parse(raw[i]).None? ==> ParseAll(parse, raw).None?
  {
    assert raw[..i + 1][..i] == raw[..i];
    if parse(raw[i]).None? {
      hide ParseAll;
      ParseAllElementwise(parse, raw);
      assert raw[i] in raw;
    }
  }

  lemma ParseAllAlike<T>(parse: Json -> Option<T>, raw: seq<Json>, other: seq<Json>)
    requires |raw| == |other| && forall i :: 0 <= i < |raw| ==> parse(raw[i]) == parse(other[i])
    ensures ParseAll(parse, raw) == ParseAll(parse, other)
  {
    ParseAllElementwise(parse, raw);
    ParseAllElementwise(parse, other);
    if ParseAll(parse, raw).Some? {
      forall x | x in other
        ensures parse(x).Some?
      {
        var i :| 0 <= i < |other| && other[i] == x;
        assert raw[i] in raw;
      }
    } else {
      var x :| x in raw && parse(x).None?;
      var i :| 0 <= i < |raw| && raw[i] == x;
      assert other[i] in other;
    }
  }

  lemma {:induction false} ParseAllJoined<T>(parse: Json -> Option<T>, a: seq<Json>, b: seq<Json>)
    requires ParseAll(parse, a + b).Some?
    ensures ParseAll(parse, a).Some? && ParseAll(parse, b).Some?
    ensures ParseAll(parse, a + b).value == ParseAll(parse, a).value + ParseAll(parse, b).value
  {
    ParseAllElementwise(parse, a + b);
    ParseAllElementwise(parse, a);
    ParseAllElementwise(parse, b);
    assert forall x :: x in a || x in b ==> x in a + b;
    var whole, front, back := ParseAll(parse, a + b).value, ParseAll(parse, a).value, ParseAll(parse, b).value;
    forall i | 0 <= i < |whole|
      ensures whole[i] == (front + back)[i]
    {
      assert parse((a + b)[i]) == Some(whole[i]);
    }
  }

  lemma ParseAllAround<T>(parse: Json -> Option<T>, a: seq<Json>, x: Json, b: seq<Json>)
    requires ParseAll(parse, a + [x] + b).Some?
    ensures ParseAll(parse, a + b).Some? && parse(x).Some?
    ensures multiset(ParseAll(parse, a + [x] + b).value) == multiset(ParseAll(parse, a + b).value) + multiset{parse(x).value}
  {
    ParseAllElementwise(parse, a + [x] + b);
    ParseAllElementwise(parse, a + b);
    ParseAllElementwise(parse, [x]);
    assert forall y :: y in a + b ==> y in a + [x] + b;
    assert x in a + [x] + b;
    ParseAllJoined(parse, a + [x], b);
    ParseAllJoined(parse, a, [x]);
    ParseAllJoined(parse, a, b);
  }

  lemma TakeOut<T>(s: seq<T>, t: seq<T>, x: T) returns (k: nat)
    requires multiset(s) + multiset{x} == multiset(t)
    ensures k < |t| && t == t[..k] + [x] + t[k + 1..]
    ensures multiset(t[..k] + t[k + 1..]) == multiset(s)
  {
    assert x in multiset(t);
    k :| 0 <= k < |t| && t[k] == x;
    assert t == t[..k] + [x] + t[k + 1..];
    assert multiset(t) - multiset{x} == multiset(s);
    assert multiset(t) == multiset(t[..k]) + multiset{x} + multiset(t[k + 1..]);
    assert multiset(t) - multiset{x} == multiset(t[..k]) + multiset(t[k + 1..]);
  }

  /** Rearranging what is parsed only rearranges the result. */
  lemma {:induction false} ParseAllRearranged<T>(parse: Json -> Option<T>, raw: seq<Json>, other: seq<Json>)
    requires multiset(raw) == multiset(other) && ParseAll(parse, raw).Some?
    ensures ParseAll(parse, other).Some?
    ensures multiset(ParseAll(parse, raw).value) == multiset(ParseAll(parse, other).value)
  {
    hide ParseAll;
    assert ParseAll(parse, other).Some? by {
      ParseAllElementwise(parse, raw);
      ParseAllElementwise(parse, other);
      assert forall x :: x in other ==> x in multiset(raw);
    }
    if raw == [] {
      assert |other| == |multiset(other)| == 0;
    } else {
      var front, x := raw[..|raw| - 1], raw[|raw| - 1];
      assert raw == front + [x] + [];
      var k := TakeOut(front, other, x);
      assert front + [] == front;
      ParseAllAround(parse, front, x, []);
      ParseAllAround(parse, other[..k], x, other[k + 1..]);
      ParseAllRearranged(parse, front, other[..k] + other[k + 1..]);
    }
  }
}
