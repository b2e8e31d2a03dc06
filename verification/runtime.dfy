/**
 The parts of the Python runtime the core calls into but whose internals are not modelled:
 SHA-256, the `json` module, `float()` on text, the printed form of numbers and containers,
 and `shlex.split`. They are fields of a `Host` value that the operations take as a parameter.
 The module also holds Python's built-in conversions applied to decoded JSON values.
 */
module Runtime {
  import opened Outcomes
  import opened Json

  predicate IsLowerHex(c: char) {
    ('0' <= c <= '9') || ('a' <= c <= 'f')
  }

  /** `hashlib.sha256(...).hexdigest()`: 64 lower-case hexadecimal digits. */
  type Digest = s: string | |s| == 64 && forall i :: 0 <= i < |s| ==> IsLowerHex(s[i])
    witness seq(64, _ => '0')

  datatype Host = Host(
    sha256: string -> Digest,                  // SHA-256 of the UTF-8 encoding, as hex
    dumps: Json -> string,                     // json.dumps(value, indent=2)
    loads: string -> Option<Json>,             // json.loads; None where it raises JSONDecodeError
    parseFloat: string -> Option<real>,        // float(text); None where it raises ValueError
    repr: Json -> string,                      // str() of a number, list or dict
    shlexSplit: string -> Option<seq<string>>  // shlex.split; None where it raises ValueError
  )

  /** Every object, at every depth, has distinct keys: the values Python dicts can hold. */
  predicate WellFormed(v: Json)
    decreases v
  {
    match v
    case JArr(items) => forall i :: 0 <= i < |items| ==> WellFormed(items[i])
    case JObj(fields) =>
      DistinctKeys(fields) && forall i :: 0 <= i < |fields| ==> WellFormed(fields[i].1)
    case _ => true
  }

  /** Setting a well-formed value keeps an object well formed. */
  lemma PutWellFormed(fields: Fields, k: string, v: Json)
    requires WellFormed(JObj(fields)) && WellFormed(v)
    ensures WellFormed(JObj(Put(fields, k, v)))
  {
    var r := Put(fields, k, v);
    assert forall i :: 0 <= i < |r| ==> r[i].0 == KeyList(r)[i];
    assert forall i :: 0 <= i < |fields| ==> fields[i].0 == KeyList(fields)[i];
    if !HasKey(fields, k) {
      assert forall i :: 0 <= i < |fields| ==> fields[i].0 != k;
    }
  }

  /** `d.update(extra)` of two well-formed objects is well formed. */
  lemma {:induction false} UpdateWellFormed(fields: Fields, extra: Fields)
    requires WellFormed(JObj(fields)) && WellFormed(JObj(extra))
    ensures WellFormed(JObj(Update(fields, extra)))
    decreases |extra|
  {
    if |extra| > 0 {
      PutWellFormed(fields, extra[0].0, extra[0].1);
      assert WellFormed(JObj(extra[1..])) by {
        assert forall i :: 0 <= i < |extra[1..]| ==> extra[1..][i] == extra[i + 1];
      }
      UpdateWellFormed(Put(fields, extra[0].0, extra[0].1), extra[1..]);
    }
  }

  /**
   What the core relies on from the `json` module: decoding an encoded well-formed value
   gives it back, and the encoder escapes carriage returns inside strings, so that reading
   the text back through universal-newline translation leaves it unchanged.
   */
  ghost predicate JsonSound(h: Host) {
    forall v :: WellFormed(v) ==> h.loads(h.dumps(v)) == Some(v) && '\r' !in h.dumps(v)
  }

  /** `str(v)`. */
  function Str(h: Host, v: Json): (r: string)
    ensures v.JStr? ==> r == v.s
    ensures v.JNull? ==> r == "None"
    ensures v.JBool? ==> r == (if v.b then "True" else "False")
  {
    match v
    case JStr(s) => s
    case JNull => "None"
    case JBool(b) => if b then "True" else "False"
    case _ => h.repr(v)
  }

  /** `float(v)`. */
  function Float(h: Host, v: Json): (r: Result<real>)
    ensures r.Err? ==> r.error == ValueError || r.error == TypeError
    ensures r.Err? && r.error == ValueError <==> v.JStr? && h.parseFloat(v.s).None?
    ensures v.JNum? ==> r == Ok(v.n)
  {
    match v
    case JNum(n) => Ok(n)
    case JBool(b) => Ok(if b then 1.0 else 0.0)
    case JStr(s) =>
      (match h.parseFloat(s)
       case Some(x) => Ok(x)
       case None => Err(ValueError))
    case _ => Err(TypeError)
  }

  /**
   `list(v)` for a value the core goes on to treat as a list of strings. A list with a
   non-string element is `Unmodelled`: the source would carry on with it.
   */
  function StringList(v: Json): (r: Result<seq<string>>)
    ensures v.JArr? ==> (r.Ok? <==> forall i :: 0 <= i < |v.items| ==> v.items[i].JStr?)
    ensures v.JArr? && r.Ok? ==>
              |r.value| == |v.items| && forall i :: 0 <= i < |v.items| ==> r.value[i] == v.items[i].s
    ensures v.JStr? ==>
              r.Ok? && |r.value| == |v.s| && forall i :: 0 <= i < |v.s| ==> r.value[i] == [v.s[i]]
    ensures v.JObj? ==> r == Ok(KeyList(v.fields))
    ensures (v.JNull? || v.JBool? || v.JNum?) ==> r == Err(TypeError)
  {
    match v
    case JArr(items) =>
      if forall i :: 0 <= i < |items| ==> items[i].JStr? then
        Ok(seq(|items|, i requires 0 <= i < |items| => items[i].s))
      else Err(Unmodelled)
    case JStr(s) => Ok(seq(|s|, i requires 0 <= i < |s| => [s[i]]))
    case JObj(fields) => Ok(KeyList(fields))
    case _ => Err(TypeError)
  }

  /** The encoding of a list of strings as a JSON array. */
  function StringArray(xs: seq<string>): (r: Json)
    ensures r.JArr? && |r.items| == |xs|
    ensures forall i :: 0 <= i < |xs| ==> r.items[i] == JStr(xs[i])
  {
    JArr(seq(|xs|, i requires 0 <= i < |xs| => JStr(xs[i])))
  }

  lemma StringListOfArray(xs: seq<string>)
    ensures StringList(StringArray(xs)) == Ok(xs)
  {
    var a := StringArray(xs);
    assert forall i :: 0 <= i < |a.items| ==> a.items[i].JStr?;
    assert StringList(a).value == xs;
  }

  /**
   One element of the iterable given to `dict(...)`, unpacked into a key and a value. A string
   or a list of two items, or a dict of two keys, unpacks; an element of any other length
   raises ValueError and a number, boolean or null TypeError, as does a list or dict used as
   a key (it is unhashable). A number, boolean or null key is `Unmodelled`: Python accepts it,
   but the model's dicts have string keys.
   */
  function PairOf(v: Json): (r: Result<(string, Json)>)
    ensures (v.JNull? || v.JBool? || v.JNum?) ==> r == Err(TypeError)
    ensures v.JStr? && |v.s| != 2 ==> r == Err(ValueError)
    ensures v.JStr? && |v.s| == 2 ==> r == Ok((v.s[..1], JStr(v.s[1..])))
    ensures v.JArr? && |v.items| != 2 ==> r == Err(ValueError)
    ensures v.JArr? && |v.items| == 2 && v.items[0].JStr? ==> r == Ok((v.items[0].s, v.items[1]))
    ensures v.JArr? && |v.items| == 2 && (v.items[0].JArr? || v.items[0].JObj?) ==> r == Err(TypeError)
    ensures v.JObj? && |v.fields| != 2 ==> r == Err(ValueError)
    ensures v.JObj? && |v.fields| == 2 ==> r == Ok((v.fields[0].0, JStr(v.fields[1].0)))
    ensures r.Err? && r.error == Unmodelled <==>
              v.JArr? && |v.items| == 2 && (v.items[0].JNull? || v.items[0].JBool? || v.items[0].JNum?)
  {
    match v
    case JStr(s) => if |s| == 2 then Ok((s[..1], JStr(s[1..]))) else Err(ValueError)
    case JObj(fields) => if |fields| == 2 then Ok((fields[0].0, JStr(fields[1].0))) else Err(ValueError)
    case JArr(items) =>
      if |items| != 2 then Err(ValueError)
      else if items[0].JStr? then Ok((items[0].s, items[1]))
      else if items[0].JArr? || items[0].JObj? then Err(TypeError)
      else Err(Unmodelled)
    case _ => Err(TypeError)
  }

  /** The index of the first element that does not unpack into a pair, or the length when all do. */
  function FirstBad(items: seq<Json>): (r: nat)
    ensures r <= |items|
    ensures forall j :: 0 <= j < r ==> PairOf(items[j]).Ok?
    ensures r < |items| ==> PairOf(items[r]).Err?
    decreases |items|
  {
    if |items| == 0 || PairOf(items[0]).Err? then 0 else 1 + FirstBad(items[1..])
  }

  /**
   The dict built from `items` one pair at a time onto `acc`: a later pair with a key already
   present replaces its value in place. The first element that does not unpack raises.
   */
  function DictFrom(acc: Fields, items: seq<Json>): (r: Result<Fields>)
    ensures r.Ok? <==> FirstBad(items) == |items|
    ensures r.Err? ==> FirstBad(items) < |items| && PairOf(items[FirstBad(items)]) == Err(r.error)
    decreases |items|
  {
    if |items| == 0 then Ok(acc)
    else
      match PairOf(items[0])
      case Err(e) => Err(e)
      case Ok(kv) => DictFrom(Put(acc, kv.0, kv.1), items[1..])
  }

  /** `dict(v)`. A non-empty string fails because its items are single characters, not pairs. */
  function DictItems(v: Json): (r: Result<Fields>)
    ensures v.JObj? ==> r == Ok(v.fields)
    ensures v.JStr? ==> r == (if v.s == "" then Ok([]) else Err(ValueError))
    ensures v.JArr? ==> r == DictFrom([], v.items)
    ensures (v.JNull? || v.JBool? || v.JNum?) ==> r == Err(TypeError)
  {
    match v
    case JObj(fields) => Ok(fields)
    case JStr(s) => if s == "" then Ok([]) else Err(ValueError)
    case JArr(items) => DictFrom([], items)
    case _ => Err(TypeError)
  }

  /** The entries of a dict as the list of `[key, value]` pairs `dict(...)` accepts. */
  function PairList(fields: Fields): (r: seq<Json>)
    ensures |r| == |fields|
    ensures forall i :: 0 <= i < |fields| ==> r[i] == JArr([JStr(fields[i].0), fields[i].1])
  {
    seq(|fields|, i requires 0 <= i < |fields| => JArr([JStr(fields[i].0), fields[i].1]))
  }

  /** Building a dict from a list of pairs applies the pairs in order, as `update` does. */
  lemma {:induction false} DictFromPairList(acc: Fields, fields: Fields)
    ensures DictFrom(acc, PairList(fields)) == Ok(Update(acc, fields))
    decreases |fields|
  {
    if |fields| > 0 {
      var items := PairList(fields);
      assert PairOf(items[0]) == Ok((fields[0].0, fields[0].1));
      assert items[1..] == PairList(fields[1..]);
      DictFromPairList(Put(acc, fields[0].0, fields[0].1), fields[1..]);
    }
  }
}
