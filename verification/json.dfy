/** Already-parsed JSON and the few navigation primitives the controllers use on it.
    Two .NET libraries walk these trees: Newtonsoft.Json (JToken, in the match controller)
    and System.Text.Json (JsonElement, in the upload controllers). Both answer a member
    lookup on an object and throw when asked for a member of anything else, so the lookup
    is defined once. */
module Json {
  import opened Wrappers

  datatype Json =
    | Null
    | Bool(b: bool)
    | Num(lexeme: string)
    | Str(s: string)
    | Arr(items: seq<Json>)
    | Obj(members: seq<Member>)

  datatype Member = Member(name: string, value: Json)

  /** The value of the member called `name`, or null when there is none. When several
      members share the name, the last one is answered: `TryGetProperty` matches the last
      definition, and JObject's parser keeps the last value under a repeated name. */
  function Find(ms: seq<Member>, name: string): (r: Option<Json>)
    ensures r.None? <==> forall i :: 0 <= i < |ms| ==> ms[i].name != name
  {
    if |ms| == 0 then None
    else
      var later := Find(ms[1..], name);
      if later.Some? then later
      else if ms[0].name == name then Some(ms[0].value)
      else None
  }

  /** What Find answers is the value of the last member with that name. */
  lemma {:induction false} FindLast(ms: seq<Member>, name: string)
    requires Find(ms, name).Some?
    ensures exists i ::
              && 0 <= i < |ms| && ms[i] == Member(name, Find(ms, name).value)
              && forall k :: i < k < |ms| ==> ms[k].name != name
  {
    if Find(ms[1..], name).Some? {
      FindLast(ms[1..], name);
      var i :| 0 <= i < |ms[1..]| && ms[1..][i] == Member(name, Find(ms, name).value)
        && forall k :: i < k < |ms[1..]| ==> ms[1..][k].name != name;
      assert ms[i + 1] == Member(name, Find(ms, name).value);
      forall k | i + 1 < k < |ms| ensures ms[k].name != name {
        assert ms[k] == ms[1..][k - 1];
      }
    } else {
      assert ms[0] == Member(name, Find(ms, name).value);
      forall k | 0 < k < |ms| ensures ms[k].name != name {
        assert ms[k] == ms[1..][k - 1];
      }
    }
  }

  /** A member appended at the end is the one a lookup of its name finds. */
  lemma {:induction false} FindAppended(ms: seq<Member>, m: Member, name: string)
    ensures Find(ms + [m], name) == if m.name == name then Some(m.value) else Find(ms, name)
  {
    if |ms| > 0 {
      assert (ms + [m])[1..] == ms[1..] + [m];
      FindAppended(ms[1..], m, name);
    } else {
      assert (ms + [m])[1..] == [];
    }
  }

  /** `tok[name]` on a JToken, and `TryGetProperty(name, out v)` on a JsonElement:
      an object answers its member (or null), any other token throws. */
  function Get(tok: Json, name: string): (r: Result<Option<Json>>)
    ensures r.Thrown? <==> !tok.Obj?
    ensures r.Success? ==> r.value == Find(tok.members, name)
  {
    if tok.Obj? then Success(Find(tok.members, name)) else Thrown
  }

  /** A member of a token already known to be an object, where indexing cannot throw. */
  function MemberOf(obj: Json, name: string): Option<Json>
    requires obj.Obj?
  {
    Find(obj.members, name)
  }

  /** `GetProperty(name)` on a JsonElement: a missing member throws as well. */
  function GetProperty(el: Json, name: string): (r: Result<Json>)
    ensures r.Success? <==> Get(el, name).Success? && Get(el, name).value.Some?
    ensures r.Success? ==> Some(r.value) == Get(el, name).value
  {
    var m :- Get(el, name);
    if m.Some? then Success(m.value) else Thrown
  }

  /** `GetString()` on a JsonElement: a string, null for JSON null, and throws otherwise. */
  function GetString(el: Json): (r: Result<Option<string>>)
    ensures r.Thrown? <==> !(el.Str? || el.Null?)
    ensures r == Success(None) <==> el.Null?
    ensures el.Str? ==> r == Success(Some(el.s))
  {
    match el
    case Str(s) => Success(Some(s))
    case Null => Success(None)
    case _ => Thrown
  }

  /** `el.TryGetProperty(name, out var v) ? v.GetString() : null` on a JsonElement:
      null when the member is absent or JSON null; throws on an element that is not an
      object and on a member that is neither a string nor null. */
  function StringMember(el: Json, name: string): (r: Result<Option<string>>)
    ensures r.Thrown? <==> !el.Obj? || (Find(el.members, name).Some? && !(Find(el.members, name).value.Str? || Find(el.members, name).value.Null?))
    ensures r.Success? && r.value.Some? ==> Find(el.members, name) == Some(Str(r.value.value))
    ensures el.Obj? && Find(el.members, name).Some? && Find(el.members, name).value.Str? ==>
      r == Success(Some(Find(el.members, name).value.s))
    ensures el.Obj? && (Find(el.members, name).None? || Find(el.members, name).value.Null?) ==>
      r == Success(None)
  {
    var m :- Get(el, name);
    if m.None? then Success(None) else GetString(m.value)
  }

  /** `EnumerateArray()` on a JsonElement: the items of an array, and throws otherwise. */
  function EnumerateArray(el: Json): (r: Result<seq<Json>>)
    ensures r.Thrown? <==> !el.Arr?
  {
    if el.Arr? then Success(el.items) else Thrown
  }

  /** `el[i]` on a JsonElement: an item of an array, and throws otherwise. */
  function At(el: Json, i: int): (r: Result<Json>)
    ensures r.Success? <==> el.Arr? && 0 <= i < |el.items|
    ensures r.Success? ==> r.value == el.items[i]
  {
    if el.Arr? && 0 <= i < |el.items| then Success(el.items[i]) else Thrown
  }

  /** `tok as JArray`, read through `?.` or `?? Enumerable.Empty`: the items of an array;
      a missing token or one that is not an array behaves as no items at all. */
  function ItemsOf(tok: Option<Json>): (r: seq<Json>)
    ensures tok.Some? && tok.value.Arr? ==> r == tok.value.items
    ensures !(tok.Some? && tok.value.Arr?) ==> r == []
  {
    if tok.Some? && tok.value.Arr? then tok.value.items else []
  }

  /** Concatenation of `parts` separated by `sep`. */
  function Join(parts: seq<string>, sep: string): string
  {
    if |parts| == 0 then ""
    else if |parts| == 1 then parts[0]
    else parts[0] + sep + Join(parts[1..], sep)
  }

  /** Compact JSON text of a token (strings are quoted without escaping). */
  function Serialize(tok: Json): string
    decreases tok
  {
    match tok
    case Null => "null"
    case Bool(b) => if b then "true" else "false"
    case Num(l) => l
    case Str(s) => "\"" + s + "\""
    case Arr(items) =>
      "[" + Join(seq(|items|, i requires 0 <= i < |items| => Serialize(items[i])), ",") + "]"
    case Obj(ms) =>
      "{" + Join(seq(|ms|, i requires 0 <= i < |ms| =>
                       assert ms[i] in ms;
                       "\"" + ms[i].name + "\":" + Serialize(ms[i].value)), ",") + "}"
  }

  /** `tok.ToString()` on a JToken: a string is its own text, null renders empty,
      booleans as "True"/"False", numbers as written, containers as JSON text. */
  function Text(tok: Json): string
  {
    match tok
    case Null => ""
    case Bool(b) => if b then "True" else "False"
    case Num(l) => l
    case Str(s) => s
    case _ => Serialize(tok)
  }

  /** `tok?.ToString()`: null stays null. */
  function TextOf(tok: Option<Json>): (r: Option<string>)
    ensures r.None? <==> tok.None?
  {
    if tok.Some? then Some(Text(tok.value)) else None
  }

  /** The predicate `x => x[key]?.ToString() == wanted` that the match controller hands
      to FirstOrDefault: throws on a token that is not an object. */
  function HasText(x: Json, key: string, wanted: string): (r: Result<bool>)
    ensures r.Thrown? <==> !x.Obj?
  {
    var v :- Get(x, key);
    Success(TextOf(v) == Some(wanted))
  }

  /** `items.FirstOrDefault(x => x[key]?.ToString() == wanted)`: the predicate is tried
      item by item, and the first exception it throws ends the search. */
  function FirstWith(items: seq<Json>, key: string, wanted: string): (r: Result<Option<Json>>)
    ensures r.Success? && r.value.Some? ==> r.value.value.Obj?
    ensures r.Success? && r.value.Some? ==>
      exists i :: 0 <= i < |items| && items[i] == r.value.value
        && HasText(items[i], key, wanted) == Success(true)
        && forall k :: 0 <= k < i ==> HasText(items[k], key, wanted) == Success(false)
    ensures r == Success(None) <==>
      forall i :: 0 <= i < |items| ==> HasText(items[i], key, wanted) == Success(false)
    ensures r.Thrown? ==>
      exists i :: 0 <= i < |items| && !items[i].Obj?
        && forall k :: 0 <= k < i ==> HasText(items[k], key, wanted) == Success(false)
  {
    if |items| == 0 then Success(None)
    else
      var hit :- HasText(items[0], key, wanted);
      if hit then Success(Some(items[0]))
      else
        var r := FirstWith(items[1..], key, wanted);
        assert forall i :: 1 <= i < |items| ==> items[i] == items[1..][i - 1];
        r
  }

  /** FirstOrDefault applied to a JToken that may be null, enumerating its children:
      an array yields its items; an object yields JProperty tokens, which throw when
      indexed by name; any other token has no children. */
  function FirstChildWith(tok: Option<Json>, key: string, wanted: string): (r: Result<Option<Json>>)
    ensures r.Success? && r.value.Some? ==> r.value.value.Obj?
    ensures tok.None? || !(tok.value.Arr? || tok.value.Obj?) ==> r == Success(None)
    ensures tok.Some? && tok.value.Obj? ==> (r.Thrown? <==> |tok.value.members| > 0)
  {
    if tok.None? then Success(None)
    else match tok.value
      case Arr(items) => FirstWith(items, key, wanted)
      case Obj(ms) => if |ms| == 0 then Success(None) else Thrown
      case _ => Success(None)
  }

  /** Every member called `name` given the value `value`, every other member as it was. */
  function Overwrite(ms: seq<Member>, name: string, value: Json): (r: seq<Member>)
    ensures |r| == |ms|
    ensures forall i :: 0 <= i < |ms| ==> r[i] == if ms[i].name == name then Member(name, value) else ms[i]
    ensures Find(ms, name).Some? ==> Find(r, name) == Some(value)
    ensures forall other :: other != name ==> Find(r, other) == Find(ms, other)
  {
    if |ms| == 0 then []
    else
      var rest := Overwrite(ms[1..], name, value);
      assert ([if ms[0].name == name then Member(name, value) else ms[0]] + rest)[1..] == rest;
      [if ms[0].name == name then Member(name, value) else ms[0]] + rest
  }

  /** `dict[name] = value` on the members of an object: the member keeps its position and
      gets the new value; a new member is appended. A repeated name gets the new value
      everywhere, so no stale value stays behind it. */
  function SetMember(ms: seq<Member>, name: string, value: Json): (r: seq<Member>)
    ensures Find(r, name) == Some(value)
    ensures forall i :: 0 <= i < |r| && r[i].name == name ==> r[i].value == value
    ensures forall other :: other != name ==> Find(r, other) == Find(ms, other)
    ensures Find(ms, name).Some? ==> |r| == |ms|
    ensures Find(ms, name).None? ==> r == ms + [Member(name, value)]
  {
    if Find(ms, name).Some? then Overwrite(ms, name, value)
    else
      FindAppended(ms, Member(name, value), name);
      forall other | other != name ensures Find(ms + [Member(name, value)], other) == Find(ms, other) {
        FindAppended(ms, Member(name, value), other);
      }
      ms + [Member(name, value)]
  }
}
