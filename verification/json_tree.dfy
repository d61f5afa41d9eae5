/** A parsed JSON value and the recursive-descent filter query `$..[?(@.pathid == id)]` that the
    metadata mapper runs over the BioPax document. */
module JsonTree {
  import opened Wrappers

  /** A JSON value as `JSON.parse` produces it. Object members are kept in document order. */
  datatype Json =
    | JNull
    | JBool(b: bool)
    | JNumber(n: real)
    | JString(s: string)
    | JArray(items: seq<Json>)
    | JObject(members: seq<Member>)

  datatype Member = Member(key: string, value: Json)

  /** Member `k` is the first member carrying `key`. */
  predicate FirstWithKey(members: seq<Member>, key: string, k: int) {
    0 <= k < |members| && members[k].key == key && forall i :: 0 <= i < k ==> members[i].key != key
  }

  /** Property access `obj[key]` on an object's members; `None` stands for `undefined`. */
  function Get(members: seq<Member>, key: string): (r: Option<Json>)
    ensures r.Some? ==> exists k :: FirstWithKey(members, key, k) && members[k].value == r.value
    ensures r.None? <==> forall k :: 0 <= k < |members| ==> members[k].key != key
  {
    if |members| == 0 then None
    else if members[0].key == key then
      assert FirstWithKey(members, key, 0);
      Some(members[0].value)
    else
      var r := Get(members[1..], key);
      assert forall k :: 1 <= k < |members| ==> members[k] == members[1..][k - 1];
      assert r.Some? ==> exists k :: FirstWithKey(members, key, k) && members[k].value == r.value by {
        if r.Some? {
          var k :| FirstWithKey(members[1..], key, k) && members[1..][k].value == r.value;
          assert FirstWithKey(members, key, k + 1);
        }
      }
      r
  }

  /** The values a JSONPath step descends into: array elements and object member values, in
      document order. Scalars have none. */
  function Children(j: Json): seq<Json> {
    match j
    case JArray(items) => items
    case JObject(members) => seq(|members|, k requires 0 <= k < |members| => members[k].value)
    case _ => []
  }

  /** The value reached from `j` by following child indices along `path`. */
  function At(j: Json, path: seq<nat>): Option<Json>
    decreases |path|
  {
    if |path| == 0 then Some(j)
    else if path[0] < |Children(j)| then At(Children(j)[path[0]], path[1..])
    else None
  }

  /** The filter `@.pathid == id`: an object whose `pathid` member is the string `id`. */
  predicate IsMatch(j: Json, id: string) {
    j.JObject? && Get(j.members, "pathid") == Some(JString(id))
  }

  /** Some value strictly below the root, reached along `path`, passes the filter. The query
      tests children of visited nodes, so the root itself is never a candidate. */
  predicate MatchAt(j: Json, path: seq<nat>, id: string) {
    |path| > 0 && At(j, path).Some? && IsMatch(At(j, path).value, id)
  }

  /** The children that pass the filter, in order. */
  function Hits(cs: seq<Json>, id: string): (r: seq<Json>)
    ensures forall x :: x in r ==> x in cs && IsMatch(x, id)
  {
    if |cs| == 0 then []
    else
      var rest := Hits(cs[1..], id);
      if IsMatch(cs[0], id) then [cs[0]] + rest else rest
  }

  /** Every child that passes the filter is among the hits. */
  lemma {:induction false} HitsHas(cs: seq<Json>, id: string, k: nat)
    requires k < |cs| && IsMatch(cs[k], id)
    ensures cs[k] in Hits(cs, id)
    decreases k
  {
    var rest := Hits(cs[1..], id);
    if k == 0 {
      assert Hits(cs, id) == [cs[0]] + rest;
    } else {
      assert cs[1..][k - 1] == cs[k];
      HitsHas(cs[1..], id, k - 1);
      assert Hits(cs, id) == rest || Hits(cs, id) == [cs[0]] + rest;
    }
  }

  /** `$..[?(@.pathid == id)]` evaluated at `j`: the children of `j` that pass the filter,
      followed by the results of the same query on each child in turn. */
  function Search(j: Json, id: string): (r: seq<Json>)
    ensures forall x :: x in r ==> IsMatch(x, id)
    decreases j, 1
  {
    Hits(Children(j), id) + Descend(j, id)
  }

  /** The query applied to every child of `j`, results concatenated in child order. */
  function Descend(j: Json, id: string): (r: seq<Json>)
    ensures forall x :: x in r ==> IsMatch(x, id)
    decreases j, 0
  {
    match j
    case JArray(items) => SearchItems(items, id)
    case JObject(members) => SearchMembers(members, id)
    case _ => []
  }

  function SearchItems(items: seq<Json>, id: string): (r: seq<Json>)
    ensures forall x :: x in r ==> IsMatch(x, id)
    decreases items
  {
    if |items| == 0 then [] else Search(items[0], id) + SearchItems(items[1..], id)
  }

  function SearchMembers(members: seq<Member>, id: string): (r: seq<Json>)
    ensures forall x :: x in r ==> IsMatch(x, id)
    decreases members
  {
    if |members| == 0 then [] else Search(members[0].value, id) + SearchMembers(members[1..], id)
  }

  /** A result of the query on one array element is a result of the query on the array. */
  lemma {:induction false} SearchItemsHas(items: seq<Json>, id: string, k: nat, x: Json)
    requires k < |items| && x in Search(items[k], id)
    ensures x in SearchItems(items, id)
    decreases k
  {
    var r := SearchItems(items, id);
    assert r == Search(items[0], id) + SearchItems(items[1..], id);
    if k == 0 {
      assert x in Search(items[0], id);
    } else {
      assert items[1..][k - 1] == items[k];
      SearchItemsHas(items[1..], id, k - 1, x);
      assert x in SearchItems(items[1..], id);
    }
  }

  /** A result of the query on an array comes from the query on one of its elements. */
  lemma {:induction false} SearchItemsFrom(items: seq<Json>, id: string, x: Json) returns (k: nat)
    requires x in SearchItems(items, id)
    ensures k < |items| && x in Search(items[k], id)
    decreases |items|
  {
    if x in Search(items[0], id) {
      k := 0;
    } else {
      var k' := SearchItemsFrom(items[1..], id, x);
      k := k' + 1;
    }
  }

  lemma {:induction false} SearchMembersHas(members: seq<Member>, id: string, k: nat, x: Json)
    requires k < |members| && x in Search(members[k].value, id)
    ensures x in SearchMembers(members, id)
    decreases k
  {
    var r := SearchMembers(members, id);
    assert r == Search(members[0].value, id) + SearchMembers(members[1..], id);
    if k == 0 {
      assert x in Search(members[0].value, id);
    } else {
      assert members[1..][k - 1] == members[k];
      SearchMembersHas(members[1..], id, k - 1, x);
      assert x in SearchMembers(members[1..], id);
    }
  }

  lemma {:induction false} SearchMembersFrom(members: seq<Member>, id: string, x: Json) returns (k: nat)
    requires x in SearchMembers(members, id)
    ensures k < |members| && x in Search(members[k].value, id)
    decreases |members|
  {
    if x in Search(members[0].value, id) {
      k := 0;
    } else {
      var k' := SearchMembersFrom(members[1..], id, x);
      k := k' + 1;
    }
  }

  /** Following `k` then `rest` from `j` is following `rest` from the `k`-th child. */
  lemma AtStep(j: Json, k: nat, rest: seq<nat>)
    requires k < |Children(j)|
    ensures At(j, [k] + rest) == At(Children(j)[k], rest)
  {
    assert ([k] + rest)[1..] == rest;
  }

  /** Completeness: every value below the root that passes the filter is in the query result. */
  lemma {:induction false} SearchComplete(j: Json, id: string, path: seq<nat>)
    requires MatchAt(j, path, id)
    ensures At(j, path).value in Search(j, id)
    decreases |path|
  {
    var k := path[0];
    var rest := path[1..];
    assert path == [k] + rest;
    AtStep(j, k, rest);
    var c := Children(j)[k];
    var x := At(j, path).value;
    if |rest| == 0 {
      assert x == c;
      HitsHas(Children(j), id, k);
    } else {
      SearchComplete(c, id, rest);
      match j
      case JArray(items) =>
        SearchItemsHas(items, id, k, x);
      case JObject(members) =>
        SearchMembersHas(members, id, k, x);
    }
  }

  /** Soundness: every value in the query result sits below the root and passes the filter. */
  lemma {:induction false} SearchSound(j: Json, id: string, x: Json) returns (path: seq<nat>)
    requires x in Search(j, id)
    ensures MatchAt(j, path, id) && At(j, path) == Some(x)
    decreases j
  {
    var cs := Children(j);
    if x in Hits(cs, id) {
      var k :| 0 <= k < |cs| && cs[k] == x;
      AtStep(j, k, []);
      path := [k];
    } else {
      assert x in Descend(j, id);
      var k: nat;
      var rest: seq<nat>;
      match j {
        case JArray(items) =>
          k := SearchItemsFrom(items, id, x);
          rest := SearchSound(items[k], id, x);
        case JObject(members) =>
          k := SearchMembersFrom(members, id, x);
          rest := SearchSound(members[k].value, id, x);
      }
      AtStep(j, k, rest);
      path := [k] + rest;
    }
  }

  /** The query returns exactly the values below the root that pass the filter; in particular it
      is empty exactly when no such value exists at any depth. */
  lemma SearchCharacterisation(j: Json, id: string)
    ensures forall x :: x in Search(j, id) <==> exists path :: MatchAt(j, path, id) && At(j, path) == Some(x)
    ensures |Search(j, id)| == 0 <==> forall path :: !MatchAt(j, path, id)
  {
    forall x | x in Search(j, id)
      ensures exists path :: MatchAt(j, path, id) && At(j, path) == Some(x)
    {
      var path := SearchSound(j, id, x);
    }
    forall path | MatchAt(j, path, id)
      ensures At(j, path).value in Search(j, id)
    {
      SearchComplete(j, id, path);
    }
    if |Search(j, id)| > 0 {
      var path := SearchSound(j, id, Search(j, id)[0]);
    }
  }
}
