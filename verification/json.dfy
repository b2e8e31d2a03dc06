/**
 Decoded JSON values as Python holds them after `json.loads`, and the `dict` operations the
 core performs on them. An object is an association list in insertion order, because Python
 dicts are ordered and the case-insensitive lookup scans them in order.
 */
module Json {
  import opened Outcomes

  datatype Json =
    | JNull
    | JBool(b: bool)
    | JNum(n: real)
    | JStr(s: string)
    | JArr(items: seq<Json>)
    | JObj(fields: seq<(string, Json)>)

  type Fields = seq<(string, Json)>

  /** The position of the first entry with key `k`, or `|fields|` when there is none. */
  function IndexOf<V>(fields: seq<(string, V)>, k: string): (i: nat)
    ensures i <= |fields|
    ensures i < |fields| ==> fields[i].0 == k
    ensures forall j :: 0 <= j < i ==> fields[j].0 != k
    decreases |fields|
  {
    if |fields| == 0 then 0
    else if fields[0].0 == k then 0
    else 1 + IndexOf(fields[1..], k)
  }

  /** `k in d`. */
  predicate HasKey<V>(fields: seq<(string, V)>, k: string) {
    IndexOf(fields, k) < |fields|
  }

  lemma HasKeyAt<V>(fields: seq<(string, V)>, k: string, i: nat)
    requires i < |fields| && fields[i].0 == k
    ensures HasKey(fields, k) && IndexOf(fields, k) <= i
  {
  }

  lemma KeyAbsent<V>(fields: seq<(string, V)>, k: string)
    requires forall i :: 0 <= i < |fields| ==> fields[i].0 != k
    ensures !HasKey(fields, k)
  {
  }

  /** `d[k]`, or `None` where Python would raise KeyError. */
  function Lookup<V>(fields: seq<(string, V)>, k: string): (r: Option<V>)
    ensures r.Some? <==> HasKey(fields, k)
  {
    if HasKey(fields, k) then Some(fields[IndexOf(fields, k)].1) else None
  }

  /** With distinct keys, the entry at `i` is the one found under its key. */
  lemma {:induction false} LookupAt<V>(fields: seq<(string, V)>, i: nat)
    requires i < |fields| && forall j :: 0 <= j < i ==> fields[j].0 != fields[i].0
    ensures IndexOf(fields, fields[i].0) == i
    ensures Lookup(fields, fields[i].0) == Some(fields[i].1)
    decreases i
  {
    if i > 0 {
      LookupAt(fields[1..], i - 1);
    }
  }

  /** `d.get(k, default)`. */
  function GetOr<V>(fields: seq<(string, V)>, k: string, default: V): V {
    match Lookup(fields, k)
    case Some(v) => v
    case None => default
  }

  /** `list(d.keys())`. */
  function KeyList<V>(fields: seq<(string, V)>): (r: seq<string>)
    ensures |r| == |fields|
    ensures forall i :: 0 <= i < |fields| ==> r[i] == fields[i].0
  {
    seq(|fields|, i requires 0 <= i < |fields| => fields[i].0)
  }

  /** `d[k] = v`: replaces the value in place when `k` is present, appends otherwise. */
  function Put<V>(fields: seq<(string, V)>, k: string, v: V): (r: seq<(string, V)>)
    ensures Lookup(r, k) == Some(v)
    ensures forall k' :: k' != k ==> Lookup(r, k') == Lookup(fields, k')
    ensures HasKey(fields, k) ==> KeyList(r) == KeyList(fields)
    ensures !HasKey(fields, k) ==> KeyList(r) == KeyList(fields) + [k]
    ensures HasKey(fields, k) ==> r == fields[IndexOf(fields, k) := (k, v)]
    ensures !HasKey(fields, k) ==> r == fields + [(k, v)]
  {
    if HasKey(fields, k) then
      var i := IndexOf(fields, k);
      var r := fields[i := (k, v)];
      assert IndexOf(r, k) == i by {
        HasKeyAt(r, k, i);
      }
      forall k' | k' != k ensures Lookup(r, k') == Lookup(fields, k') {
        PutKeepsOther(fields, i, k, v, k');
      }
      assert KeyList(r) == KeyList(fields);
      r
    else
      var r := fields + [(k, v)];
      assert IndexOf(r, k) == |fields| by {
        HasKeyAt(r, k, |fields|);
      }
      forall k' | k' != k ensures Lookup(r, k') == Lookup(fields, k') {
        AppendKeepsOther(fields, k, v, k');
      }
      r
  }

  lemma {:induction false} PutKeepsOther<V>(fields: seq<(string, V)>, i: nat, k: string, v: V, k': string)
    requires i < |fields| && fields[i].0 == k && k' != k
    ensures IndexOf(fields[i := (k, v)], k') == IndexOf(fields, k')
    ensures Lookup(fields[i := (k, v)], k') == Lookup(fields, k')
    decreases |fields|
  {
    var r := fields[i := (k, v)];
    if fields[0].0 != k' && i > 0 {
      assert r[1..] == fields[1..][i - 1 := (k, v)];
      PutKeepsOther(fields[1..], i - 1, k, v, k');
    }
  }

  lemma {:induction false} AppendKeepsOther<V>(fields: seq<(string, V)>, k: string, v: V, k': string)
    requires k' != k
    ensures IndexOf(fields + [(k, v)], k') == (if HasKey(fields, k') then IndexOf(fields, k') else |fields| + 1)
    ensures Lookup(fields + [(k, v)], k') == Lookup(fields, k')
    decreases |fields|
  {
    var r := fields + [(k, v)];
    if |fields| > 0 && fields[0].0 != k' {
      assert r[1..] == fields[1..] + [(k, v)];
      AppendKeepsOther(fields[1..], k, v, k');
    }
  }

  /** `d.update(extra)`, also the meaning of `{**d, **extra}`: entries of `extra` applied in order. */
  function Update<V>(fields: seq<(string, V)>, extra: seq<(string, V)>): (r: seq<(string, V)>)
    ensures forall k :: !HasKey(extra, k) ==> Lookup(r, k) == Lookup(fields, k)
    decreases |extra|
  {
    if |extra| == 0 then fields
    else
      var r := Update(Put(fields, extra[0].0, extra[0].1), extra[1..]);
      assert forall k :: !HasKey(extra, k) ==> IndexOf(extra, k) == 1 + IndexOf(extra[1..], k);
      r
  }

  /** No key occurs twice, as in every Python dict. */
  predicate DistinctKeys<V>(fields: seq<(string, V)>) {
    forall i, j :: 0 <= i < j < |fields| ==> fields[i].0 != fields[j].0
  }

  /** With distinct keys in `extra`, its entries win over those of `fields`. */
  lemma {:induction false} UpdateOverrides<V>(fields: seq<(string, V)>, extra: seq<(string, V)>, k: string)
    requires DistinctKeys(extra) && HasKey(extra, k)
    ensures Lookup(Update(fields, extra), k) == Lookup(extra, k)
    decreases |extra|
  {
    var put := Put(fields, extra[0].0, extra[0].1);
    if extra[0].0 == k {
      assert forall i :: 0 <= i < |extra[1..]| ==> extra[1..][i].0 != k by {
        forall i | 0 <= i < |extra[1..]| ensures extra[1..][i].0 != k {
          assert extra[1..][i] == extra[i + 1];
        }
      }
      KeyAbsent(extra[1..], k);
    } else {
      assert IndexOf(extra, k) == 1 + IndexOf(extra[1..], k);
      UpdateOverrides(put, extra[1..], k);
    }
  }

  /** Python truthiness of a decoded value: `bool(v)`. */
  predicate Truthy(v: Json) {
    match v
    case JNull => false
    case JBool(b) => b
    case JNum(n) => n != 0.0
    case JStr(s) => s != ""
    case JArr(items) => |items| > 0
    case JObj(fields) => |fields| > 0
  }

  /** `v or default`. */
  function Or(v: Json, default: Json): (r: Json)
    ensures Truthy(v) ==> r == v
    ensures !Truthy(v) ==> r == default
  {
    if Truthy(v) then v else default
  }

  /** `v.get(k, default)` where `v` may be any decoded value: only a dict has `.get`. */
  function Get(v: Json, k: string, default: Json): (r: Result<Json>)
    ensures r.Err? <==> !v.JObj?
    ensures r.Err? ==> r.error == AttributeError
    ensures v.JObj? ==> r == Ok(GetOr(v.fields, k, default))
  {
    if v.JObj? then Ok(GetOr(v.fields, k, default)) else Err(AttributeError)
  }
}
