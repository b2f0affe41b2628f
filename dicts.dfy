/** The Python `dict` of file name to résumé text, which iterates in insertion order. */
module Dicts {

  /** A `dict[str, str]`: its keys in insertion order, and its entries. */
  datatype Dict = Dict(order: seq<string>, entries: map<string, string>)
  {
    ghost predicate Valid()
    {
      && (forall i, j :: 0 <= i < j < |order| ==> order[i] != order[j])
      && (forall k :: k in entries <==> k in order)
    }
  }

  const Empty: Dict := Dict([], map[])

  /** `d[k] = v`: a new key goes to the end of the iteration order; an existing key keeps its place and takes the new value. */
  function Put(d: Dict, k: string, v: string): (r: Dict)
    requires d.Valid()
    ensures r.Valid()
    ensures r.entries == d.entries[k := v]
    ensures k in d.entries ==> r.order == d.order
    ensures k !in d.entries ==> r.order == d.order + [k]
  {
    Dict(if k in d.entries then d.order else d.order + [k], d.entries[k := v])
  }
}
