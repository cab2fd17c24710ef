/** JSON values as json.loads hands them to the spiders, and the few
    dict operations the spiders apply to them. A dict keeps its items in
    insertion order, as a Python dict does. */
module Json {
  import opened Text

  datatype Json =
    | JNull
    | JBool(b: bool)
    | JNum(n: int)
    | JStr(s: string)
    | JArr(items: seq<Json>)
    | JObj(members: seq<Member>)

  datatype Member = Member(key: string, value: Json)

  /** dict.get(k): the value stored under k, or None when k is absent. */
  function Get(members: seq<Member>, k: string): Option<Json> {
    if members == [] then None
    else if members[0].key == k then Some(members[0].value)
    else Get(members[1..], k)
  }

  /** What dict.get finds is the value of one of the dict's items. */
  lemma {:induction false} GetFindsMember(members: seq<Member>, k: string)
    ensures Get(members, k).Some? ==> exists i :: 0 <= i < |members| && members[i] == Member(k, Get(members, k).value)
  {
    if members != [] && members[0].key != k {
      GetFindsMember(members[1..], k);
      if Get(members, k).Some? {
        var i :| 0 <= i < |members[1..]| && members[1..][i] == Member(k, Get(members, k).value);
        assert members[i + 1] == members[1..][i];
      }
    }
  }

  /** A key no item carries is absent. */
  lemma {:induction false} GetAbsent(members: seq<Member>, k: string)
    requires forall i :: 0 <= i < |members| ==> members[i].key != k
    ensures Get(members, k) == None
  {
    if members != [] {
      GetAbsent(members[1..], k);
    }
  }

  /** k in d */
  predicate HasKey(members: seq<Member>, k: string) {
    Get(members, k).Some?
  }

  /** `v is None` for a looked-up value: the key is absent or holds JSON null. */
  predicate IsNone(v: Option<Json>) {
    v.None? || v.value.JNull?
  }

  /** Python truthiness of a looked-up value. */
  predicate Truthy(v: Option<Json>) {
    match v
    case None => false
    case Some(j) =>
      match j
      case JNull => false
      case JBool(b) => b
      case JNum(n) => n != 0
      case JStr(s) => s != []
      case JArr(xs) => xs != []
      case JObj(ms) => ms != []
  }

  /** Python's `a or b`: a when a is truthy, else b. */
  function Or(a: Option<Json>, b: Option<Json>): (r: Option<Json>)
    ensures Truthy(r) <==> Truthy(a) || Truthy(b)
    ensures Truthy(a) ==> r == a
    ensures !Truthy(a) ==> r == b
  {
    if Truthy(a) then a else b
  }
}
