/** JSON values with ordered members; lookup takes the first matching key, as
    cJSON_GetObjectItemCaseSensitive does. VInt is what the sink's val_i64 printed
    and VDbl what val_double printed; whoever parses the text gets a double either
    way. */
module Json {
  import opened Wrappers
  import opened Doubles

  datatype Value =
    | VNull
    | VBool(b: bool)
    | VInt(i: int)
    | VDbl(r: real)
    | VStr(s: string)
    | VArr(xs: seq<Value>)
    | VObj(ms: seq<Member>)

  datatype Member = Member(key: string, val: Value)

  predicate IsNumber(v: Value) {
    v.VInt? || v.VDbl?
  }

  /** valuedouble: cJSON has doubles only. */
  function AsReal(v: Value): real
    requires IsNumber(v)
  {
    if v.VInt? then AsDouble(v.i as real) else v.r
  }

  function GetItem(ms: seq<Member>, key: string): Option<Value> {
    if ms == [] then None
    else if ms[0].key == key then Some(ms[0].val)
    else GetItem(ms[1..], key)
  }

  predicate HasKey(ms: seq<Member>, key: string) {
    GetItem(ms, key).Some?
  }

  lemma {:induction false} GetItemConcat(a: seq<Member>, b: seq<Member>, key: string)
    ensures GetItem(a + b, key) == if HasKey(a, key) then GetItem(a, key) else GetItem(b, key)
  {
    if a == [] {
      assert a + b == b;
    } else {
      assert (a + b)[1..] == a[1..] + b;
      GetItemConcat(a[1..], b, key);
    }
  }
}
