/** The product manager: the operations that read the backing file, change the
    list of records and write it back. The file is the field `records`; the
    outcome of the write is the parameter `writeOk` (false: the file keeps its old
    contents). */
module Inventory {
  import opened Text
  import opened Money
  import opened Products
  import opened Queries

  /** The outcome of an operation, in place of the result strings. */
  datatype Status = Ok | DuplicateKey | NotFound | InvalidInput(field: Field) | StorageFailure

  /** What `listar_productos` reports: nothing stored, or every record in stored
      order with the total inventory value and the number of records. */
  datatype Listing = NoRecords | Listed(items: seq<Record>, totalValue: real, distinct: nat)

  /** The record a successful create stores: name and description stripped,
      price rounded to cents. */
  function NewRecord(id: int, name: string, description: string, price: real, quantity: int): (r: Record)
    ensures r.id == id && r.quantity == quantity
    ensures r.name == Strip(name) && r.description == Strip(description)
    ensures r.price == RoundCents(price) && IsCents(r.price)
    ensures Validate(name, price, quantity) == Valid ==> WellFormed(r)
  {
    var r := Record(id, Strip(name), Strip(description), RoundCents(price), quantity);
    assert Validate(name, price, quantity) == Valid ==> WellFormed(r) by {
      if Validate(name, price, quantity) == Valid {
        ValidFields(name, price, quantity);
      }
    }
    r
  }

  /** `producto.update(...)` in `actualizar_producto`: every field but the id is
      replaced, stripped and rounded as on create. */
  function Revised(r: Record, name: string, description: string, price: real, quantity: int): (r': Record)
    ensures r' == NewRecord(r.id, name, description, price, quantity)
  {
    r.(name := Strip(name), description := Strip(description), price := RoundCents(price), quantity := quantity)
  }

  class ProductManager {
    /** The contents of the backing file, in stored order. */
    var records: seq<Record>

    /** A manager over a backing file that holds `stored`. */
    constructor (stored: seq<Record>)
      ensures records == stored
    {
      records := stored;
    }

    /** `_obtener_producto_por_id`: the first stored record with this id, if any. */
    method GetById(id: int) returns (found: Option<Record>)
      ensures found == Lookup(records, id)
    {
      var items := records;
      var i := 0;
      while i < |items|
        invariant 0 <= i <= |items|
        invariant forall j :: 0 <= j < i ==> items[j].id != id
      {
        if items[i].id == id {
          return Some(items[i]);
        }
        i := i + 1;
      }
      return None;
    }

    /** `crear_producto`: the duplicate check comes before validation; a new record
        is appended at the end; nothing changes unless the write succeeds. */
    method Create(id: int, name: string, description: string, price: real, quantity: int, writeOk: bool)
      returns (status: Status)
      modifies this
      ensures HasId(old(records), id) ==> status == DuplicateKey
      ensures !HasId(old(records), id) && Validate(name, price, quantity).Invalid? ==>
                status == InvalidInput(Validate(name, price, quantity).field)
      ensures !HasId(old(records), id) && Validate(name, price, quantity) == Valid ==>
                status == if writeOk then Ok else StorageFailure
      ensures status == Ok ==> records == old(records) + [NewRecord(id, name, description, price, quantity)]
      ensures status != Ok ==> records == old(records)
      ensures forall x :: x != id ==> Lookup(records, x) == Lookup(old(records), x)
      ensures UniqueIds(old(records)) ==> UniqueIds(records)
      ensures AllWellFormed(old(records)) ==> AllWellFormed(records)
    {
      if HasId(records, id) {
        return DuplicateKey;
      }
      var check := Validate(name, price, quantity);
      if check.Invalid? {
        return InvalidInput(check.field);
      }
      var items := records;
      var added := NewRecord(id, name, description, price, quantity);
      items := items + [added];
      AppendFresh(records, added);
      if AllWellFormed(records) {
        AppendWellFormed(records, added);
      }
      if writeOk {
        records := items;
        status := Ok;
      } else {
        status := StorageFailure;
      }
    }

    /** `actualizar_producto`: the existence check comes before validation; the
        first record with the id gets new fields, keeping its id and its position. */
    method Update(id: int, name: string, description: string, price: real, quantity: int, writeOk: bool)
      returns (status: Status)
      modifies this
      ensures !HasId(old(records), id) ==> status == NotFound
      ensures HasId(old(records), id) && Validate(name, price, quantity).Invalid? ==>
                status == InvalidInput(Validate(name, price, quantity).field)
      ensures HasId(old(records), id) && Validate(name, price, quantity) == Valid ==>
                status == if writeOk then Ok else StorageFailure
      ensures status == Ok ==>
                var i := FindIndex(old(records), id).value;
                records == old(records)[i := Revised(old(records)[i], name, description, price, quantity)]
      ensures status != Ok ==> records == old(records)
      ensures |records| == |old(records)|
      ensures forall k :: 0 <= k < |records| ==> records[k].id == old(records)[k].id
      ensures UniqueIds(old(records)) ==> UniqueIds(records)
      ensures AllWellFormed(old(records)) ==> AllWellFormed(records)
    {
      if !HasId(records, id) {
        return NotFound;
      }
      var check := Validate(name, price, quantity);
      if check.Invalid? {
        return InvalidInput(check.field);
      }
      ghost var k := FindIndex(records, id).value;
      ghost var revised := Revised(records[k], name, description, price, quantity);
      var items := records;
      var i := 0;
      while i < |items|
        invariant 0 <= i <= k
        invariant items == records
        invariant forall j :: 0 <= j < i ==> items[j].id != id
      {
        if items[i].id == id {
          items := items[i := Revised(items[i], name, description, price, quantity)];
          break;
        }
        i := i + 1;
      }
      assert i == k && items == records[k := revised];
      ReplaceKeepsIds(records, k, revised);
      if AllWellFormed(records) {
        ValidFields(name, price, quantity);
        ReplaceWellFormed(records, k, revised);
      }
      if writeOk {
        records := items;
        status := Ok;
      } else {
        status := StorageFailure;
      }
    }

    /** `eliminar_producto`: the first record with the id is removed, the others
        keep their order. The removed record is returned with the status. */
    method Remove(id: int, writeOk: bool) returns (status: Status, removed: Option<Record>)
      modifies this
      ensures !HasId(old(records), id) ==> status == NotFound
      ensures HasId(old(records), id) ==> status == if writeOk then Ok else StorageFailure
      ensures removed == Lookup(old(records), id)
      ensures status == Ok ==> records == RemoveAt(old(records), FindIndex(old(records), id).value)
      ensures status != Ok ==> records == old(records)
      ensures UniqueIds(old(records)) ==> UniqueIds(records)
      ensures UniqueIds(old(records)) && status == Ok ==> Lookup(records, id) == None
      ensures forall x :: x != id ==> (HasId(records, x) <==> HasId(old(records), x))
      ensures AllWellFormed(old(records)) ==> AllWellFormed(records)
    {
      var items := records;
      removed := None;
      var i := 0;
      while i < |items|
        invariant 0 <= i <= |items|
        invariant items == records && removed == None
        invariant forall j :: 0 <= j < i ==> items[j].id != id
      {
        if items[i].id == id {
          removed := Some(items[i]);
          items := RemoveAt(items, i);
          break;
        }
        i := i + 1;
      }
      if removed == None {
        return NotFound, None;
      }
      RemoveAtIds(records, i);
      if writeOk {
        records := items;
        status := Ok;
      } else {
        status := StorageFailure;
      }
    }

    /** `modificar`, the compatibility update: the name is only required to be
        non-empty, nothing is stripped or rounded, and every failure, a failed
        write included, is reported as NotFound. */
    method Modify(id: int, name: string, description: string, price: real, quantity: int, writeOk: bool)
      returns (status: Status)
      modifies this
      ensures status == Ok || status == NotFound
      ensures status == Ok <==> HasId(old(records), id) && name != [] && price >= 0.0 && quantity >= 0 && writeOk
      ensures status == Ok ==>
                var i := FindIndex(old(records), id).value;
                records == old(records)[i := Record(id, name, description, price, quantity)]
      ensures status != Ok ==> records == old(records)
      ensures UniqueIds(old(records)) ==> UniqueIds(records)
      ensures AllWellFormed(old(records)) ==> AllWellFormed(records)
    {
      if !HasId(records, id) {
        return NotFound;
      }
      if name == [] || price < 0.0 || quantity < 0 {
        return NotFound;
      }
      ghost var k := FindIndex(records, id).value;
      var items := records;
      var i := 0;
      while i < |items|
        invariant 0 <= i <= k
        invariant items == records
        invariant forall j :: 0 <= j < i ==> items[j].id != id
      {
        if items[i].id == id {
          items := items[i := items[i].(name := name, description := description,
                                                    price := price, quantity := quantity)];
          break;
        }
        i := i + 1;
      }
      ReplaceKeepsIds(records, k, Record(id, name, description, price, quantity));
      if AllWellFormed(records) {
        ReplaceWellFormed(records, k, Record(id, name, description, price, quantity));
      }
      if writeOk {
        records := items;
        status := Ok;
      } else {
        status := NotFound;
      }
    }

    /** `eliminar`, the compatibility delete: like Remove, but the outcome of the
        write is not looked at, so a present id is reported removed even when the
        file kept its old contents. */
    method Delete(id: int, writeOk: bool) returns (status: Status)
      modifies this
      ensures status == Ok || status == NotFound
      ensures status == Ok <==> HasId(old(records), id)
      ensures status == Ok && writeOk ==> records == RemoveAt(old(records), FindIndex(old(records), id).value)
      ensures !(status == Ok && writeOk) ==> records == old(records)
      ensures UniqueIds(old(records)) ==> UniqueIds(records)
      ensures AllWellFormed(old(records)) ==> AllWellFormed(records)
    {
      var items := records;
      var i := 0;
      while i < |items|
        invariant 0 <= i <= |items|
        invariant items == records
        invariant forall j :: 0 <= j < i ==> items[j].id != id
      {
        if items[i].id == id {
          items := RemoveAt(items, i);
          RemoveAtIds(records, i);
          if writeOk {
            records := items;
          }
          return Ok;
        }
        i := i + 1;
      }
      return NotFound;
    }

    /** `listar_productos`: the records in stored order with the total value
        accumulated record by record, or NoRecords for an empty file. */
    method ListInventory() returns (listing: Listing)
      ensures listing.NoRecords? <==> records == []
      ensures listing.Listed? ==>
                listing.items == records && listing.distinct == |records| &&
                listing.totalValue == InventoryValue(records)
    {
      var items := records;
      if items == [] {
        return NoRecords;
      }
      var total := 0.0;
      var i := 0;
      while i < |items|
        invariant 0 <= i <= |items|
        invariant total == InventoryValue(items[..i])
      {
        var worth := items[i].price * items[i].quantity as real;
        assert items[..i + 1][..i] == items[..i];
        total := total + worth;
        i := i + 1;
      }
      assert items[..i] == items;
      listing := Listed(items, total, |items|);
    }
  }

  /** The create, read, update, delete flow of the integration tests, on an empty
      store whose every write succeeds: each step succeeds, the update is seen by
      the next read, and after the delete the id is gone. */
  method CrudFlow() returns (created: Status, read: Option<Record>, updated: Status,
                             reread: Option<Record>, deleted: Status, gone: Option<Record>)
    ensures created == Ok && read.Some? && read.value.id == 1 && read.value.name == "Producto Test"
    ensures updated == Ok && reread.Some? && reread.value.name == "Producto Modificado"
    ensures reread.value.price == 2000.0 && reread.value.quantity == 75
    ensures deleted == Ok && gone == None
  {
    NotBlank("Producto Test", 0);
    StripPlain("Producto Test");
    NotBlank("Producto Modificado", 0);
    StripPlain("Producto Modificado");
    assert IsCents(2000.0) by { assert (2000.0 * 100.0).Floor == 200000; }
    var m := new ProductManager([]);
    created := m.Create(1, "Producto Test", "Descripción test", 1000.0, 50, true);
    assert |m.records| == 1 && m.records[0].id == 1 && UniqueIds(m.records);
    read := m.GetById(1);
    ghost var before := m.records;
    updated := m.Update(1, "Producto Modificado", "Nueva desc", 2000.0, 75, true);
    assert FindIndex(before, 1) == Some(0);
    assert |m.records| == 1 && m.records[0].id == 1 && m.records[0].price == 2000.0;
    assert m.records[0].name == "Producto Modificado";
    reread := m.GetById(1);
    var removed;
    deleted, removed := m.Remove(1, true);
    gone := m.GetById(1);
  }

  /** The consistency test, from a store holding records 1, 2 and 3: removing the
      middle one leaves the other two findable, the removed one gone, and the
      listing in stored order. */
  method ConsistencyFlow() returns (first: Option<Record>, second: Option<Record>, third: Option<Record>,
                                    listing: Listing)
    ensures first.Some? && second == None && third.Some?
    ensures listing.Listed? && listing.distinct == 2
    ensures |listing.items| == 2 && listing.items[0].id == 1 && listing.items[1].id == 3
  {
    var m := new ProductManager([Record(1, "Producto 1", "Desc 1", 1000.0, 10),
                                 Record(2, "Producto 2", "Desc 2", 2000.0, 20),
                                 Record(3, "Producto 3", "Desc 3", 3000.0, 30)]);
    assert UniqueIds(m.records);
    assert FindIndex(m.records, 2) == Some(1);
    var status, removed := m.Remove(2, true);
    assert |m.records| == 2 && m.records[0].id == 1 && m.records[1].id == 3;
    first := m.GetById(1);
    second := m.GetById(2);
    third := m.GetById(3);
    listing := m.ListInventory();
  }
}
