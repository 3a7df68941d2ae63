/** Decoded JSON values and Python's loose equality on them. */
module Json {
  datatype Json =
    | Null
    | Bool(b: bool)
    | Int(n: int)
    | Real(r: real)
    | Str(s: string)
    | List(items: seq<Json>)
    | Obj(fields: map<string, Json>)

  predicate IsNumber(j: Json) {
    j.Bool? || j.Int? || j.Real?
  }

  function NumberOf(j: Json): real
    requires IsNumber(j)
  {
    match j
    case Bool(b) => (if b then 1.0 else 0.0)
    case Int(n) => n as real
    case Real(r) => r
  }

  /** `==`: numbers compare by value whatever their type, and booleans are numbers. */
  predicate Equal(a: Json, b: Json) {
    if IsNumber(a) && IsNumber(b) then NumberOf(a) == NumberOf(b)
    else
      match (a, b)
      case (Null, Null) => true
      case (Str(s), Str(t)) => s == t
      case (List(xs), List(ys)) => |xs| == |ys| && forall i :: 0 <= i < |xs| ==> Equal(xs[i], ys[i])
      case (Obj(f), Obj(g)) => f.Keys == g.Keys && forall k :: k in f && k in g ==> Equal(f[k], g[k])
      case _ => false
  }

  /** `dict.get`: a missing key reads as null. */
  function Get(j: Json, key: string): Json
    requires j.Obj?
  {
    if key in j.fields then j.fields[key] else Null
  }

  /** The value with every number as a real. */
  function Normal(j: Json): Json {
    if IsNumber(j) then Real(NumberOf(j))
    else
      match j
      case List(items) => List(seq(|items|, i requires 0 <= i < |items| => Normal(items[i])))
      case Obj(fields) => Obj(map k | k in fields :: Normal(fields[k]))
      case _ => j
  }

  /** Two values are equal exactly if they differ only in how their numbers are typed. */
  lemma {:induction false} EqualExactly(a: Json, b: Json)
    ensures Equal(a, b) <==> Normal(a) == Normal(b)
  {
    if a.List? && b.List? && |a.items| == |b.items| {
      forall i | 0 <= i < |a.items| ensures Equal(a.items[i], b.items[i]) <==> Normal(a).items[i] == Normal(b).items[i] {
        EqualExactly(a.items[i], b.items[i]);
      }
    } else if a.Obj? && b.Obj? {
      assert Normal(a).fields.Keys == a.fields.Keys && Normal(b).fields.Keys == b.fields.Keys;
      if a.fields.Keys == b.fields.Keys {
        forall k | k in a.fields ensures Equal(a.fields[k], b.fields[k]) <==> Normal(a).fields[k] == Normal(b).fields[k] {
          EqualExactly(a.fields[k], b.fields[k]);
        }
      }
    }
  }
}
