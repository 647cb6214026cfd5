/** Product records, the field validation applied before a record is written, and
    lookup by id over the stored, insertion-ordered collection. */
module Products {
  import opened Text

  datatype Option<T> = None | Some(value: T)

  /** One product as stored in the backing file: `id`, `nombre`, `descripcion`,
      `precio` and `cantidad`. */
  datatype Record = Record(id: int, name: string, description: string, price: real, quantity: int)

  /** The field a validation failure is about. */
  datatype Field = Name | Price | Quantity

  datatype Check = Valid | Invalid(field: Field)

  /** What every record written by the manager satisfies: a non-empty name and a
      price and a quantity that are not negative. */
  predicate WellFormed(r: Record) {
    r.name != [] && r.price >= 0.0 && r.quantity >= 0
  }

  predicate AllWellFormed(rs: seq<Record>) {
    forall k :: 0 <= k < |rs| ==> WellFormed(rs[k])
  }

  /** The checks of `_validar_datos_producto`, in the order they are made: the name
      must keep a character after stripping, then the price and then the quantity
      must not be negative. The first failing check is reported. */
  function Validate(name: string, price: real, quantity: int): (c: Check)
    ensures c == Valid <==> !IsBlank(name) && price >= 0.0 && quantity >= 0
    ensures c == Invalid(Name) <==> IsBlank(name)
    ensures c == Invalid(Price) <==> !IsBlank(name) && price < 0.0
    ensures c == Invalid(Quantity) <==> !IsBlank(name) && price >= 0.0 && quantity < 0
  {
    if Strip(name) == [] then Invalid(Name)
    else if price < 0.0 then Invalid(Price)
    else if quantity < 0 then Invalid(Quantity)
    else Valid
  }

  /** What a passing validation guarantees about the stripped name, the price and
      the quantity. */
  lemma ValidFields(name: string, price: real, quantity: int)
    requires Validate(name, price, quantity) == Valid
    ensures Strip(name) != [] && price >= 0.0 && quantity >= 0
  {
  }

  /** `_producto_existe`: some stored record has this id. */
  predicate HasId(rs: seq<Record>, id: int) {
    exists k :: 0 <= k < |rs| && rs[k].id == id
  }

  /** No two stored records share an id. */
  predicate UniqueIds(rs: seq<Record>) {
    forall i, j :: 0 <= i < j < |rs| ==> rs[i].id != rs[j].id
  }

  /** The position of the first record with this id, or None when there is none. */
  function FindIndex(rs: seq<Record>, id: int): (r: Option<nat>)
    ensures r.Some? ==> r.value < |rs| && rs[r.value].id == id
    ensures r.Some? ==> forall j :: 0 <= j < r.value ==> rs[j].id != id
    ensures r.None? <==> !HasId(rs, id)
  {
    if rs == [] then None
    else if rs[0].id == id then Some(0)
    else
      match FindIndex(rs[1..], id)
      case None =>
        assert forall k :: 0 < k < |rs| ==> rs[k] == rs[1..][k - 1];
        None
      case Some(k) => Some(k + 1)
  }

  /** `_obtener_producto_por_id`: the first record with this id, if any. */
  function Lookup(rs: seq<Record>, id: int): (r: Option<Record>)
    ensures r.Some? <==> HasId(rs, id)
    ensures r.Some? ==> r.value.id == id
    ensures r.Some? ==> exists k :: 0 <= k < |rs| && rs[k] == r.value && forall j :: 0 <= j < k ==> rs[j].id != id
  {
    match FindIndex(rs, id)
    case None => None
    case Some(i) => Some(rs[i])
  }

  /** With unique ids, the record found for an id is the only one carrying it. */
  lemma LookupUnique(rs: seq<Record>, i: nat)
    requires UniqueIds(rs) && i < |rs|
    ensures Lookup(rs, rs[i].id) == Some(rs[i])
  {
  }

  /** Appending a record whose id is new keeps the ids unique, makes the new
      record the answer for its id, and leaves the answer for every other id as it was. */
  lemma {:induction false} AppendFresh(rs: seq<Record>, r: Record)
    requires !HasId(rs, r.id)
    ensures UniqueIds(rs) ==> UniqueIds(rs + [r])
    ensures Lookup(rs + [r], r.id) == Some(r)
    ensures forall x :: x != r.id ==> Lookup(rs + [r], x) == Lookup(rs, x)
  {
    forall x | x != r.id ensures Lookup(rs + [r], x) == Lookup(rs, x) {
      AppendOther(rs, r, x);
    }
    assert FindIndex(rs + [r], r.id) == Some(|rs|) by {
      assert (rs + [r])[|rs|] == r;
      assert forall j :: 0 <= j < |rs| ==> (rs + [r])[j] == rs[j];
    }
  }

  lemma {:induction false} AppendOther(rs: seq<Record>, r: Record, x: int)
    requires x != r.id
    ensures FindIndex(rs + [r], x) == FindIndex(rs, x)
  {
    if rs != [] {
      assert (rs + [r])[1..] == rs[1..] + [r];
      AppendOther(rs[1..], r, x);
    }
  }

  /** Appending a well-formed record keeps every record well-formed. */
  lemma AppendWellFormed(rs: seq<Record>, r: Record)
    requires AllWellFormed(rs) && WellFormed(r)
    ensures AllWellFormed(rs + [r])
  {
  }

  /** Replacing the record at position `i` by one with the same id changes no id:
      uniqueness is kept and every id is found at the same position as before. */
  lemma {:induction false} ReplaceKeepsIds(rs: seq<Record>, i: nat, r: Record)
    requires i < |rs| && r.id == rs[i].id
    ensures forall k :: 0 <= k < |rs| ==> rs[i := r][k].id == rs[k].id
    ensures UniqueIds(rs[i := r]) <==> UniqueIds(rs)
    ensures forall x :: FindIndex(rs[i := r], x) == FindIndex(rs, x)
  {
    forall x ensures FindIndex(rs[i := r], x) == FindIndex(rs, x) {
      SameIdsFind(rs[i := r], rs, x);
    }
  }

  /** FindIndex looks at ids only: sequences with the same id at every position
      give the same answer. */
  lemma SameIdsFind(rs: seq<Record>, ts: seq<Record>, x: int)
    requires |rs| == |ts| && forall k :: 0 <= k < |rs| ==> rs[k].id == ts[k].id
    ensures FindIndex(rs, x) == FindIndex(ts, x)
  {
    var a, b := FindIndex(rs, x), FindIndex(ts, x);
    if a.Some? {
      assert ts[a.value].id == x;
      assert b.Some? && b.value <= a.value;
      assert rs[b.value].id == x;
    }
  }

  /** Replacing one record by a well-formed one keeps every record well-formed. */
  lemma ReplaceWellFormed(rs: seq<Record>, i: nat, r: Record)
    requires AllWellFormed(rs) && i < |rs| && WellFormed(r)
    ensures AllWellFormed(rs[i := r])
  {
  }

  /** Removing the record at position `i` keeps the order of the others. */
  function RemoveAt(rs: seq<Record>, i: nat): (r: seq<Record>)
    requires i < |rs|
    ensures |r| == |rs| - 1
    ensures forall k :: 0 <= k < i ==> r[k] == rs[k]
    ensures forall k :: i <= k < |r| ==> r[k] == rs[k + 1]
  {
    rs[..i] + rs[i + 1..]
  }

  /** Removing one record keeps the ids unique, and, when they were unique, its id
      is no longer found; every other id is still present exactly when it was before. */
  lemma RemoveAtIds(rs: seq<Record>, i: nat)
    requires i < |rs|
    ensures UniqueIds(rs) ==> UniqueIds(RemoveAt(rs, i))
    ensures UniqueIds(rs) ==> Lookup(RemoveAt(rs, i), rs[i].id) == None
    ensures forall x :: x != rs[i].id ==> (HasId(RemoveAt(rs, i), x) <==> HasId(rs, x))
    ensures AllWellFormed(rs) ==> AllWellFormed(RemoveAt(rs, i))
  {
    var t := RemoveAt(rs, i);
    forall x | x != rs[i].id ensures HasId(t, x) <==> HasId(rs, x) {
      if HasId(rs, x) {
        var k :| 0 <= k < |rs| && rs[k].id == x;
        assert k != i;
        if k < i { assert t[k] == rs[k]; } else { assert t[k - 1] == rs[k]; }
      }
    }
    if UniqueIds(rs) {
      forall k | 0 <= k < |t| ensures t[k].id != rs[i].id {
        if k < i { assert t[k] == rs[k]; } else { assert t[k] == rs[k + 1]; }
      }
    }
  }
}
