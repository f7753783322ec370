/** An already-decoded JSON document (nlohmann::json), as the decoder and
    the vector-shape code read it: typed getters that throw on the wrong
    kind, member lookup, and the element walk of items(). */
module JsonValue {
  import opened Basics

  /** Object members are listed in std::map order (ascending keys), as
      nlohmann's default object type stores them. Floating-point numbers
      are not modelled. */
  datatype Json =
    | JNull
    | JBool(b: bool)
    | JNum(n: int)
    | JStr(s: string)
    | JArr(elems: seq<Json>)
    | JObj(fields: seq<(string, Json)>)

  /** Outcome of get<T>(): the converted value, or the type_error exception. */
  datatype Conv<T> = Ok(value: T) | TypeError

  /** get<int>(): numbers are static_cast to int (wrapping to 32 bits),
      booleans become 0 or 1, every other kind throws. */
  function GetInt(j: Json): (r: Conv<int>)
    ensures r.Ok? <==> j.JNum? || j.JBool?
    ensures r.Ok? ==> IsInt32(r.value)
    ensures j.JNum? && IsInt32(j.n) ==> r == Ok(j.n)
  {
    match j
    case JNum(n) => Ok(ToInt32(n))
    case JBool(b) => Ok(if b then 1 else 0)
    case _ => TypeError
  }

  /** get<std::string>(): only strings convert. */
  function GetString(j: Json): (r: Conv<string>)
    ensures r.Ok? <==> j.JStr?
    ensures r.Ok? ==> r.value == j.s
  {
    if j.JStr? then Ok(j.s) else TypeError
  }

  /** The (key, value) pairs a decoder walks: the members of an object.
      Other kinds yield keys ("0", "1", ... or "") that no decoder table
      contains, so they are represented by no pairs at all. */
  function Fields(j: Json): seq<(string, Json)> {
    if j.JObj? then j.fields else []
  }

  /** The values items() visits: array elements, object member values,
      nothing for null, the value itself for any other kind. */
  function Items(j: Json): (r: seq<Json>)
    ensures j.JArr? ==> r == j.elems
    ensures j.JNull? ==> r == []
    ensures j.JObj? ==> |r| == |j.fields|
    ensures !j.JArr? && !j.JNull? && !j.JObj? ==> r == [j]
  {
    match j
    case JArr(xs) => xs
    case JObj(fs) => seq(|fs|, i requires 0 <= i < |fs| => fs[i].1)
    case JNull => []
    case _ => [j]
  }

  /** The value of the first member named key. */
  function Lookup(fs: seq<(string, Json)>, key: string): Option<Json>
    decreases |fs|
  {
    if fs == [] then None
    else if fs[0].0 == key then Some(fs[0].1)
    else Lookup(fs[1..], key)
  }

  /** Lookup finds exactly the keys some member carries. */
  lemma {:induction false} LookupFindsMember(fs: seq<(string, Json)>, key: string)
    ensures Lookup(fs, key).Some? <==> exists i :: 0 <= i < |fs| && fs[i].0 == key
    ensures Lookup(fs, key).Some? ==> exists i :: 0 <= i < |fs| && fs[i] == (key, Lookup(fs, key).value)
    decreases |fs|
  {
    if fs != [] && fs[0].0 != key {
      LookupFindsMember(fs[1..], key);
      if exists i :: 0 <= i < |fs| && fs[i].0 == key {
        var i :| 0 <= i < |fs| && fs[i].0 == key;
        assert fs[1..][i - 1] == fs[i];
      }
      if Lookup(fs, key).Some? {
        var i :| 0 <= i < |fs[1..]| && fs[1..][i] == (key, Lookup(fs, key).value);
        assert fs[i + 1] == fs[1..][i];
      }
    } else if fs != [] {
      assert fs[0] == (key, Lookup(fs, key).value);
    }
  }

  /** Member lookup `val[key]` on a const value: None stands for the
      non-object and missing-key cases, which the library answers with an
      exception or an assertion failure. */
  function Member(j: Json, key: string): Option<Json> {
    if j.JObj? then Lookup(j.fields, key) else None
  }

  /** contains(key): an object holding a member with that key. */
  predicate Contains(j: Json, key: string) {
    Member(j, key).Some?
  }

  /** `val[key].get<int>()`: the integer member, or None when reading it throws. */
  function IntMember(j: Json, key: string): (r: Option<int>)
    ensures r.Some? ==> IsInt32(r.value)
  {
    match Member(j, key)
    case None => None
    case Some(v) => if GetInt(v).Ok? then Some(GetInt(v).value) else None
  }

  /** size(): elements of an array or object, 0 for null, 1 otherwise. */
  function Size(j: Json): (r: nat)
    ensures r == |Items(j)|
  {
    match j
    case JArr(xs) => |xs|
    case JObj(fs) => |fs|
    case JNull => 0
    case _ => 1
  }
}
