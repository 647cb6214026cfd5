/** The read-only queries over the stored collection: search by name and the
    inventory figures of the listing and the statistics. */
module Queries {
  import opened Text
  import opened Products

  // ---------------------------------------------------------------- search

  /** The test of `buscar_por_nombre`: the lower-cased query occurs in the
      lower-cased name. */
  predicate Matches(r: Record, query: string) {
    Contains(Lower(r.name), Lower(query))
  }

  /** The empty query matches every record, and a query longer than the name
      matches none. */
  lemma MatchesEdges(r: Record, query: string)
    ensures query == [] ==> Matches(r, query)
    ensures Matches(r, query) ==> |query| <= |r.name|
  {
  }

  /** `buscar_por_nombre`'s comprehension: the records whose name matches, in stored
      order. A record is in the result exactly when it is stored and matches. */
  function Search(rs: seq<Record>, query: string): (found: seq<Record>)
    ensures |found| <= |rs|
    ensures forall r :: r in found <==> r in rs && Matches(r, query)
  {
    if rs == [] then []
    else (if Matches(rs[0], query) then [rs[0]] else []) + Search(rs[1..], query)
  }

  /** Search keeps stored order: searching a concatenation is concatenating the
      searches. With `Search([r], q)` this determines the result completely. */
  lemma {:induction false} SearchConcat(a: seq<Record>, b: seq<Record>, query: string)
    ensures Search(a + b, query) == Search(a, query) + Search(b, query)
  {
    if a != [] {
      var head := if Matches(a[0], query) then [a[0]] else [];
      assert (a + b)[0] == a[0] && (a + b)[1..] == a[1..] + b;
      assert Search(a, query) == head + Search(a[1..], query);
      assert Search(a + b, query) == head + Search(a[1..] + b, query);
      SearchConcat(a[1..], b, query);
      assert head + (Search(a[1..], query) + Search(b, query)) == (head + Search(a[1..], query)) + Search(b, query);
    } else {
      assert a + b == b;
    }
  }


  /** The case of the query does not matter: a query and its lower-cased form
      find the same records. */
  lemma {:induction false} SearchIgnoresQueryCase(rs: seq<Record>, query: string)
    ensures Search(rs, Lower(query)) == Search(rs, query)
  {
    LowerIdempotent(query);
    if rs != [] {
      SearchIgnoresQueryCase(rs[1..], query);
    }
  }

  /** The empty query occurs in every name, so it finds every record. */
  lemma {:induction false} SearchEmptyQuery(rs: seq<Record>)
    ensures Search(rs, "") == rs
  {
    if rs != [] {
      assert OccursAt(Lower(rs[0].name), Lower(""), 0);
      SearchEmptyQuery(rs[1..]);
    }
  }

  /** Upper-case Latin-1 letters are found by their small forms: the stored name
      "LÁPIZ PROFESIONAL" matches the query "lápiz". */
  lemma SearchLatinExample()
    ensures Matches(Record(1, "LÁPIZ PROFESIONAL", "Desc", 1500.0, 100), "lápiz")
  {
    var name := "LÁPIZ PROFESIONAL";
    assert Lower(name)[..5] == Lower("lápiz");
    assert OccursAt(Lower(name), Lower("lápiz"), 0);
  }

  /** The search tests: "profesional" finds the pencil and not the eraser, and
      "cuaderno" finds nothing in a store holding only "Lápiz". */
  lemma SearchExamples()
    ensures Search([Record(1, "Lápiz profesional", "Desc", 1500.0, 100),
                    Record(2, "Borrador pequeño", "Desc", 800.0, 50)], "profesional")
            == [Record(1, "Lápiz profesional", "Desc", 1500.0, 100)]
    ensures Search([Record(1, "Lápiz", "Desc", 1500.0, 100)], "cuaderno") == []
  {
    var a := Record(1, "Lápiz profesional", "Desc", 1500.0, 100);
    var b := Record(2, "Borrador pequeño", "Desc", 800.0, 50);
    ProfesionalMatches(a);
    ProfesionalMisses(b);
    assert [a, b][1..] == [b];
    assert [b][1..] == [];
  }

  lemma ProfesionalMatches(a: Record)
    requires a.name == "Lápiz profesional"
    ensures Matches(a, "profesional")
  {
    var q := Lower("profesional");
    assert q == "profesional";
    assert Lower(a.name)[6..17] == q;
    assert OccursAt(Lower(a.name), q, 6);
  }

  lemma ProfesionalMisses(b: Record)
    requires b.name == "Borrador pequeño"
    ensures !Matches(b, "profesional")
  {
    var h, q := Lower(b.name), Lower("profesional");
    assert q[0] == 'p';
    assert forall i :: 0 <= i <= 5 ==> h[i] == LowerChar(b.name[i]);
    NoOccurrence(h, q);
  }

  // ---------------------------------------------------------------- sums

  /** The value one record adds to the inventory: `precio * cantidad`. */
  function Worth(r: Record): real {
    r.price * r.quantity as real
  }

  /** A record adds nothing negative to the value when its price and quantity are
      not negative, and nothing at all when it has no units. */
  lemma WorthSign(r: Record)
    ensures r.price >= 0.0 && r.quantity >= 0 ==> Worth(r) >= 0.0
    ensures r.quantity == 0 ==> Worth(r) == 0.0
  {
  }

  /** `sum(p['cantidad'] for p in productos)`, accumulated front to back. */
  function TotalUnits(rs: seq<Record>): (n: int)
    ensures AllWellFormed(rs) ==> n >= 0
  {
    if rs == [] then 0 else TotalUnits(rs[..|rs| - 1]) + rs[|rs| - 1].quantity
  }

  /** `sum(p['precio'] * p['cantidad'] for p in productos)`, accumulated front to
      back, as the listing's loop does. */
  function InventoryValue(rs: seq<Record>): (v: real)
    ensures AllWellFormed(rs) ==> v >= 0.0
  {
    if rs == [] then 0.0 else InventoryValue(rs[..|rs| - 1]) + Worth(rs[|rs| - 1])
  }

  /** Both sums distribute over concatenation. */
  lemma {:induction false} SumsConcat(a: seq<Record>, b: seq<Record>)
    ensures TotalUnits(a + b) == TotalUnits(a) + TotalUnits(b)
    ensures InventoryValue(a + b) == InventoryValue(a) + InventoryValue(b)
  {
    if b != [] {
      assert (a + b)[..|a + b| - 1] == a + b[..|b| - 1];
      assert (a + b)[|a + b| - 1] == b[|b| - 1];
      SumsConcat(a, b[..|b| - 1]);
    } else {
      assert a + b == a;
    }
  }

  /** Removing the record at `i` takes exactly its quantity and its worth off the sums. */
  lemma {:induction false} SumsRemoveAt(rs: seq<Record>, i: nat)
    requires i < |rs|
    ensures TotalUnits(RemoveAt(rs, i)) == TotalUnits(rs) - rs[i].quantity
    ensures InventoryValue(RemoveAt(rs, i)) == InventoryValue(rs) - Worth(rs[i])
  {
    var before, after := rs[..i], rs[i + 1..];
    assert RemoveAt(rs, i) == before + after;
    assert rs == before + [rs[i]] + after;
    SumsAround(before, rs[i], after);
  }

  lemma {:induction false} SumsAround(a: seq<Record>, x: Record, b: seq<Record>)
    ensures TotalUnits(a + [x] + b) == TotalUnits(a + b) + x.quantity
    ensures InventoryValue(a + [x] + b) == InventoryValue(a + b) + Worth(x)
  {
    SumsConcat(a + [x], b);
    SumsConcat(a, [x]);
    SumsConcat(a, b);
    assert [x][..0] == [];
  }

  /** Replacing the record at `i` swaps its contribution to the sums for the new one's. */
  lemma {:induction false} SumsReplace(rs: seq<Record>, i: nat, r: Record)
    requires i < |rs|
    ensures TotalUnits(rs[i := r]) == TotalUnits(rs) - rs[i].quantity + r.quantity
    ensures InventoryValue(rs[i := r]) == InventoryValue(rs) - Worth(rs[i]) + Worth(r)
  {
    var t := rs[i := r];
    assert t == rs[..i] + ([r] + rs[i + 1..]);
    assert rs == rs[..i] + ([rs[i]] + rs[i + 1..]);
    SumsConcat(rs[..i], [r] + rs[i + 1..]);
    SumsConcat([r], rs[i + 1..]);
    SumsConcat(rs[..i], [rs[i]] + rs[i + 1..]);
    SumsConcat([rs[i]], rs[i + 1..]);
    assert TotalUnits([r]) == r.quantity;
    assert TotalUnits([rs[i]]) == rs[i].quantity;
  }

  /** With quantities that are not negative, the value is at least the units
      priced at a lower bound of the prices... */
  lemma {:induction false} ValueAtLeast(rs: seq<Record>, lo: real)
    requires AllWellFormed(rs) && forall k :: 0 <= k < |rs| ==> lo <= rs[k].price
    ensures lo * TotalUnits(rs) as real <= InventoryValue(rs)
  {
    if rs != [] {
      var init, last := rs[..|rs| - 1], rs[|rs| - 1];
      assert forall k :: 0 <= k < |init| ==> init[k] == rs[k];
      ValueAtLeast(init, lo);
      assert WellFormed(last);
      assert TotalUnits(rs) == TotalUnits(init) + last.quantity;
      assert InventoryValue(rs) == InventoryValue(init) + Worth(last);
      StepAtLeast(lo, TotalUnits(init) as real, InventoryValue(init), last.price, last.quantity as real,
                  Worth(last), TotalUnits(rs) as real, InventoryValue(rs));
    }
  }

  /** ... and at most the units priced at an upper bound of the prices. */
  lemma {:induction false} ValueAtMost(rs: seq<Record>, hi: real)
    requires AllWellFormed(rs) && forall k :: 0 <= k < |rs| ==> rs[k].price <= hi
    ensures InventoryValue(rs) <= hi * TotalUnits(rs) as real
  {
    if rs != [] {
      var init, last := rs[..|rs| - 1], rs[|rs| - 1];
      assert forall k :: 0 <= k < |init| ==> init[k] == rs[k];
      ValueAtMost(init, hi);
      assert WellFormed(last);
      assert TotalUnits(rs) == TotalUnits(init) + last.quantity;
      assert InventoryValue(rs) == InventoryValue(init) + Worth(last);
      StepAtMost(hi, TotalUnits(init) as real, InventoryValue(init), last.price, last.quantity as real,
                 Worth(last), TotalUnits(rs) as real, InventoryValue(rs));
    }
  }

  /** One step of ValueAtLeast, on numbers alone. */
  lemma StepAtLeast(lo: real, u: real, v: real, p: real, q: real, w: real, u': real, v': real)
    requires lo * u <= v && lo <= p && q >= 0.0 && w == p * q
    requires u' == u + q && v' == v + w
    ensures lo * u' <= v'
  {
    assert (p - lo) * q >= 0.0;
  }

  /** One step of ValueAtMost, on numbers alone. */
  lemma StepAtMost(hi: real, u: real, v: real, p: real, q: real, w: real, u': real, v': real)
    requires v <= hi * u && p <= hi && q >= 0.0 && w == p * q
    requires u' == u + q && v' == v + w
    ensures v' <= hi * u'
  {
    assert (hi - p) * q >= 0.0;
  }

  // ---------------------------------------------------------------- max and min

  /** Position `k` holds the first record with the highest price: what
      `max(productos, key=precio)` returns. */
  predicate IsFirstMaxPrice(rs: seq<Record>, k: int) {
    0 <= k < |rs| &&
    (forall j :: 0 <= j < |rs| ==> rs[j].price <= rs[k].price) &&
    (forall j :: 0 <= j < k ==> rs[j].price < rs[k].price)
  }

  /** Position `k` holds the first record with the lowest price: what
      `min(productos, key=precio)` returns. */
  predicate IsFirstMinPrice(rs: seq<Record>, k: int) {
    0 <= k < |rs| &&
    (forall j :: 0 <= j < |rs| ==> rs[k].price <= rs[j].price) &&
    (forall j :: 0 <= j < k ==> rs[k].price < rs[j].price)
  }

  /** The single pass of `max`: a later record replaces the best so far only when
      it is strictly more expensive. */
  function MaxPriceIndex(rs: seq<Record>): (k: nat)
    requires rs != []
    ensures IsFirstMaxPrice(rs, k)
  {
    if |rs| == 1 then 0
    else
      var k := MaxPriceIndex(rs[..|rs| - 1]);
      if rs[|rs| - 1].price > rs[k].price then |rs| - 1 else k
  }

  /** The single pass of `min`: a later record replaces the best so far only when
      it is strictly cheaper. */
  function MinPriceIndex(rs: seq<Record>): (k: nat)
    requires rs != []
    ensures IsFirstMinPrice(rs, k)
  {
    if |rs| == 1 then 0
    else
      var k := MinPriceIndex(rs[..|rs| - 1]);
      if rs[|rs| - 1].price < rs[k].price then |rs| - 1 else k
  }

  // ---------------------------------------------------------------- statistics

  /** `valor_total / total_productos if total_productos > 0 else 0`: the average
      price per unit, guarded against a division by zero. */
  function AveragePrice(value: real, units: int): (a: real)
    ensures units > 0 ==> a * units as real == value
    ensures units <= 0 ==> a == 0.0
  {
    if units > 0 then value / units as real else 0.0
  }

  /** The figures of `obtener_estadisticas`, or NoData for an empty store. */
  datatype Stats =
    | NoData
    | Stats(distinct: nat, units: int, value: real, average: real, mostExpensive: Record, cheapest: Record)

  /** `obtener_estadisticas`: the record count, the unit and value sums, the average
      price per unit (0 when there are no units), and the first most expensive and
      first cheapest records. An empty store gives NoData, never a division by zero. */
  function Statistics(rs: seq<Record>): (s: Stats)
    ensures s.NoData? <==> rs == []
    ensures s.Stats? ==> s.distinct == |rs| && s.units == TotalUnits(rs) && s.value == InventoryValue(rs)
    ensures s.Stats? ==> s.average == AveragePrice(s.value, s.units)
    ensures s.Stats? ==> exists k :: IsFirstMaxPrice(rs, k) && s.mostExpensive == rs[k]
    ensures s.Stats? ==> exists k :: IsFirstMinPrice(rs, k) && s.cheapest == rs[k]
    ensures s.Stats? ==> PricesWithin(rs, s.cheapest.price, s.mostExpensive.price)
  {
    if rs == [] then NoData
    else
      var units := TotalUnits(rs);
      var value := InventoryValue(rs);
      var hi := MaxPriceIndex(rs);
      var lo := MinPriceIndex(rs);
      Stats(|rs|, units, value,
            AveragePrice(value, units),
            rs[hi], rs[lo])
  }

  /** With well-formed records and at least one unit in stock, the average price per
      unit lies between the cheapest and the most expensive record's price. */
  lemma AverageBetweenExtremes(rs: seq<Record>, s: Stats)
    requires AllWellFormed(rs) && s == Statistics(rs)
    requires s.Stats? && s.units > 0
    ensures s.cheapest.price <= s.average <= s.mostExpensive.price
  {
    AverageWithin(rs, s.cheapest.price, s.mostExpensive.price, s.units, s.value, s.average);
  }

  /** Every stored price lies in [lo, hi]. */
  predicate PricesWithin(rs: seq<Record>, lo: real, hi: real) {
    forall k :: 0 <= k < |rs| ==> lo <= rs[k].price <= hi
  }

  /** An average price per unit over records priced within [lo, hi] is within [lo, hi]. */
  lemma AverageWithin(rs: seq<Record>, lo: real, hi: real, units: int, value: real, a: real)
    requires AllWellFormed(rs) && PricesWithin(rs, lo, hi)
    requires units == TotalUnits(rs) && value == InventoryValue(rs)
    requires units > 0 && a == AveragePrice(value, units)
    ensures lo <= a <= hi
  {
    ValueAtLeast(rs, lo);
    ValueAtMost(rs, hi);
    AverageBounds(lo, hi, units as real, value, a);
  }

  /** On numbers alone: if `a` is the average of a value `v` over `u > 0` units and
      `v` lies between `lo * u` and `hi * u`, then `a` lies between `lo` and `hi`. */
  lemma AverageBounds(lo: real, hi: real, u: real, v: real, a: real)
    requires u > 0.0 && a * u == v
    requires lo * u <= v
    requires v <= hi * u
    ensures lo <= a <= hi
  {
  }

  /** The statistics of two records priced 1000 and 2000 with 10 and 5 units:
      15 units, a value of 20000, an average of 20000 / 15 per unit, and the two
      records as the extremes. */
  lemma StatisticsExample()
    ensures
      var a := Record(1, "Producto A", "Desc A", 1000.0, 10);
      var b := Record(2, "Producto B", "Desc B", 2000.0, 5);
      var s := Statistics([a, b]);
      s.Stats? && s.distinct == 2 && s.units == 15 && s.value == 20000.0 &&
      s.average * 15.0 == 20000.0 && s.mostExpensive == b && s.cheapest == a
  {
    var a := Record(1, "Producto A", "Desc A", 1000.0, 10);
    var b := Record(2, "Producto B", "Desc B", 2000.0, 5);
    assert [a, b][..1] == [a];
    assert [a][..0] == [];
    assert TotalUnits([a]) == 10;
    assert InventoryValue([a]) == 10000.0;
    assert TotalUnits([a, b]) == 15;
    assert InventoryValue([a, b]) == 20000.0;
    assert MaxPriceIndex([a, b]) == 1;
    assert MinPriceIndex([a, b]) == 0;
  }

  /** The extremes test: among prices 500, 5000 and 2000, the most expensive record
      is the 5000 one and the cheapest the 500 one. */
  lemma ExtremesExample()
    ensures
      var cheap := Record(1, "Barato", "Desc", 500.0, 10);
      var dear := Record(2, "Caro", "Desc", 5000.0, 5);
      var middle := Record(3, "Medio", "Desc", 2000.0, 8);
      var s := Statistics([cheap, dear, middle]);
      s.Stats? && s.mostExpensive == dear && s.cheapest == cheap
  {
    var cheap := Record(1, "Barato", "Desc", 500.0, 10);
    var dear := Record(2, "Caro", "Desc", 5000.0, 5);
    var middle := Record(3, "Medio", "Desc", 2000.0, 8);
    var rs := [cheap, dear, middle];
    assert rs[..2] == [cheap, dear] && [cheap, dear][..1] == [cheap];
    assert MaxPriceIndex(rs) == 1;
    assert MinPriceIndex(rs) == 0;
  }
}
