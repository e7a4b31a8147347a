/** Parsed JSON, and what Python takes as equal in it. */
module Json {

  /** A number with a point or an exponent is the real it stands for. */
  datatype Json =
    | Null
    | Bool(b: bool)
    | Int(n: int)
    | Float(x: real)
    | Str(s: string)
    | List(items: seq<Json>)
    | Obj(fields: Fields)

  type Fields = map<string, Json>

  /** The value with each boolean and integer as the number Python compares it as. */
  function Norm(j: Json): (r: Json) {
    match j
    case Bool(b) => Float(if b then 1.0 else 0.0)
    case Int(n) => Float(n as real)
    case List(items) => List(seq(|items|, i requires 0 <= i < |items| => Norm(items[i])))
    case Obj(fields) => Obj(map k | k in fields :: Norm(fields[k]))
    case _ => j
  }

  /** Python's `==`. */
  predicate Equal(a: Json, b: Json) {
    Norm(a) == Norm(b)
  }

  /** `dict.get`: what is absent reads as null. */
  function Get(fields: Fields, k: string): (j: Json) {
    if k in fields then fields[k] else Null
  }

  lemma GetMeans(fields: Fields, k: string)
    ensures k in fields ==> Get(fields, k) == fields[k]
    ensures k !in fields ==> Get(fields, k) == Null
  {
  }

  /** Lists and objects are in no set and are no key. */
  predicate Unhashable(j: Json) {
    j.List? || j.Obj?
  }

  predicate OneOf(j: Json, names: set<string>) {
    j.Str? && j.s in names
  }

  /** A text's code points, which is what text is ordered by. */
  function Codes(s: string): (r: seq<int>)
    ensures |r| == |s|
  {
    seq(|s|, i requires 0 <= i < |s| => s[i] as int)
  }

  lemma CodesInjective(a: string, b: string)
    requires Codes(a) == Codes(b)
    ensures a == b
  {
    assert forall i :: 0 <= i < |a| ==> Codes(a)[i] == a[i] as int && Codes(b)[i] == b[i] as int;
  }

  /** Objects that Python takes as equal have equal texts in the same fields. */
  lemma EqualFields(a: Json, b: Json, k: string)
    requires a.Obj? && b.Obj? && Equal(a, b) && k in a.fields && a.fields[k].Str?
    ensures k in b.fields && b.fields[k] == a.fields[k]
  {
    assert k in Norm(a).fields && Norm(a).fields[k] == a.fields[k];
    assert k in Norm(b).fields && Norm(b).fields[k] == Norm(b.fields[k]);
  }
}
