/** The content fingerprint of the replicator: the debug text of a row, whose
    top-level attributes are sorted and whose nested maps are printed in an order
    that may differ each time. */
module Fingerprint {
  import opened DynamoCodec
  import opened DynamoService

  /** A printed value. The text determines it: strings are printed escaped. */
  datatype Print =
    | Plain(value: AttributeValue)
    | Elements(parts: seq<Print>)
    | Entries(pairs: seq<Named>)

  datatype Named = Named(name: string, printed: Print)

  /** Each of the keys exactly once, in some order. */
  ghost predicate Lists(pairs: seq<Named>, keys: set<string>) {
    && (forall i | 0 <= i < |pairs| :: pairs[i].name in keys)
    && (forall k | k in keys :: exists i :: 0 <= i < |pairs| && pairs[i].name == k)
    && (forall i, j | 0 <= i < j < |pairs| :: pairs[i].name != pairs[j].name)
  }

  /** The prints a value can have: one for every order of every map in it. */
  ghost predicate Prints(v: AttributeValue, p: Print) {
    match v
    case AttrL(es) => p.Elements? && |p.parts| == |es| && forall i | 0 <= i < |es| :: Prints(es[i], p.parts[i])
    case AttrM(m) =>
      && p.Entries? && Lists(p.pairs, m.Keys)
      && forall i | 0 <= i < |p.pairs| :: p.pairs[i].name in m && Prints(m[p.pairs[i].name], p.pairs[i].printed)
    case _ => p == Plain(v)
  }

  ghost predicate AtMostOne(keys: set<string>) {
    forall a, b | a in keys && b in keys :: a == b
  }

  /** No map of two or more entries, at any depth. */
  ghost predicate Steady(v: AttributeValue) {
    match v
    case AttrL(es) => forall i | 0 <= i < |es| :: Steady(es[i])
    case AttrM(m) => AtMostOne(m.Keys) && forall k | k in m :: Steady(m[k])
    case _ => true
  }

  // ----- Prints exist -----

  ghost function SomeOrder(keys: set<string>): (names: seq<string>)
    ensures forall k :: k in names <==> k in keys
    ensures forall i, j | 0 <= i < j < |names| :: names[i] != names[j]
  {
    if keys == {} then []
    else var k :| k in keys; [k] + SomeOrder(keys - {k})
  }

  ghost function SomePrint(v: AttributeValue): Print {
    match v
    case AttrL(es) => Elements(seq(|es|, i requires 0 <= i < |es| => SomePrint(es[i])))
    case AttrM(m) =>
      var names := SomeOrder(m.Keys);
      Entries(seq(|names|, i requires 0 <= i < |names| && names[i] in m => Named(names[i], SomePrint(m[names[i]]))))
    case _ => Plain(v)
  }

  lemma OrderLists(names: seq<string>, keys: set<string>, pairs: seq<Named>)
    requires forall k :: k in names <==> k in keys
    requires forall i, j | 0 <= i < j < |names| :: names[i] != names[j]
    requires |pairs| == |names| && forall i | 0 <= i < |names| :: pairs[i].name == names[i]
    ensures Lists(pairs, keys)
  {
    forall k | k in keys ensures exists i :: 0 <= i < |pairs| && pairs[i].name == k {
      var i :| 0 <= i < |names| && names[i] == k;
      assert pairs[i].name == k;
    }
  }

  lemma {:induction false} SomePrintPrints(v: AttributeValue)
    ensures Prints(v, SomePrint(v))
  {
    match v
    case AttrL(es) =>
      forall i | 0 <= i < |es| ensures Prints(es[i], SomePrint(es[i])) {
        SomePrintPrints(es[i]);
      }
    case AttrM(m) =>
      forall k | k in m ensures Prints(m[k], SomePrint(m[k])) {
        SomePrintPrints(m[k]);
      }
      OrderLists(SomeOrder(m.Keys), m.Keys, SomePrint(v).pairs);
    case _ =>
  }

  // ----- When a print is unique -----

  lemma OnePair(pairs: seq<Named>, keys: set<string>)
    requires Lists(pairs, keys) && AtMostOne(keys)
    ensures |pairs| == if keys == {} then 0 else 1
  {
    if |pairs| > 0 {
      assert pairs[0].name in keys;
    }
    if k :| k in keys {
      assert exists i :: 0 <= i < |pairs| && pairs[i].name == k;
      if |pairs| > 1 {
        assert pairs[0].name in keys && pairs[1].name in keys;
      }
    }
  }

  lemma {:induction false} PrintUnique(v: AttributeValue, p: Print, q: Print)
    requires Steady(v) && Prints(v, p) && Prints(v, q)
    ensures p == q
  {
    match v
    case AttrL(es) =>
      forall i | 0 <= i < |es| ensures p.parts[i] == q.parts[i] {
        PrintUnique(es[i], p.parts[i], q.parts[i]);
      }
      assert p.parts == q.parts;
    case AttrM(m) =>
      OnePair(p.pairs, m.Keys);
      OnePair(q.pairs, m.Keys);
      forall i | 0 <= i < |p.pairs| ensures p.pairs[i] == q.pairs[i] {
        assert p.pairs[i].name in m.Keys && q.pairs[i].name in m.Keys;
        PrintUnique(m[p.pairs[i].name], p.pairs[i].printed, q.pairs[i].printed);
      }
      assert p.pairs == q.pairs;
    case _ =>
  }

  /** A print determines what was printed, whatever the orders. */
  lemma {:induction false} PrintDetermines(v: AttributeValue, w: AttributeValue, p: Print)
    requires Prints(v, p) && Prints(w, p)
    ensures v == w
  {
    match v
    case AttrL(es) =>
      forall i | 0 <= i < |es| ensures es[i] == w.elements[i] {
        PrintDetermines(es[i], w.elements[i], p.parts[i]);
      }
      assert es == w.elements;
    case AttrM(m) =>
      forall k ensures k in m <==> k in w.entries {
      }
      forall k | k in m ensures m[k] == w.entries[k] {
        var i :| 0 <= i < |p.pairs| && p.pairs[i].name == k;
        PrintDetermines(m[k], w.entries[k], p.pairs[i].printed);
      }
      assert m == w.entries;
    case _ =>
  }

  /** Two different prints of a value with a map of two or more entries. */
  lemma {:induction false} TwoPrints(v: AttributeValue) returns (p: Print, q: Print)
    requires !Steady(v)
    ensures Prints(v, p) && Prints(v, q) && p != q
  {
    p := SomePrint(v);
    SomePrintPrints(v);
    match v
    case AttrL(es) =>
      var i :| 0 <= i < |es| && !Steady(es[i]);
      var a, b := TwoPrints(es[i]);
      p, q := Elements(p.parts[i := a]), Elements(p.parts[i := b]);
      assert p.parts[i] != q.parts[i];
    case AttrM(m) =>
      if AtMostOne(m.Keys) {
        var k :| k in m && !Steady(m[k]);
        var a, b := TwoPrints(m[k]);
        p, q := Entries([Named(k, a)]), Entries([Named(k, b)]);
        OneEntry(m, k, a);
        OneEntry(m, k, b);
        assert p.pairs[0] != q.pairs[0];
      } else {
        q := Entries(Swapped(p.pairs));
        SwappedPrints(m, p.pairs);
      }
  }

  lemma OneEntry(m: map<string, AttributeValue>, k: string, a: Print)
    requires AtMostOne(m.Keys) && k in m && Prints(m[k], a)
    ensures Prints(AttrM(m), Entries([Named(k, a)]))
  {
    assert [Named(k, a)][0].name == k;
  }

  function Swapped(pairs: seq<Named>): seq<Named>
    requires |pairs| >= 2
  {
    pairs[0 := pairs[1]][1 := pairs[0]]
  }

  lemma SwappedPrints(m: map<string, AttributeValue>, pairs: seq<Named>)
    requires !AtMostOne(m.Keys) && Prints(AttrM(m), Entries(pairs))
    ensures |pairs| >= 2 && Prints(AttrM(m), Entries(Swapped(pairs))) && Swapped(pairs) != pairs
  {
    TwoNames(m.Keys, pairs);
    SwappedLists(m.Keys, pairs);
    var other := Swapped(pairs);
    forall i | 0 <= i < |other| ensures other[i].name in m && Prints(m[other[i].name], other[i].printed) {
      assert other[i] == pairs[if i == 0 then 1 else if i == 1 then 0 else i];
    }
  }

  lemma SwappedLists(keys: set<string>, pairs: seq<Named>)
    requires |pairs| >= 2 && Lists(pairs, keys)
    ensures Lists(Swapped(pairs), keys) && Swapped(pairs) != pairs
  {
    var other := Swapped(pairs);
    assert forall i | 0 <= i < |other| :: other[i] == pairs[if i == 0 then 1 else if i == 1 then 0 else i];
    assert other[0].name != pairs[0].name;
    forall k | k in keys ensures exists i :: 0 <= i < |other| && other[i].name == k {
      var i :| 0 <= i < |pairs| && pairs[i].name == k;
      assert other[if i == 0 then 1 else if i == 1 then 0 else i].name == k;
    }
  }

  lemma TwoNames(keys: set<string>, pairs: seq<Named>)
    requires Lists(pairs, keys) && !AtMostOne(keys)
    ensures |pairs| >= 2
  {
    var a, b :| a in keys && b in keys && a != b;
    var i :| 0 <= i < |pairs| && pairs[i].name == a;
    var j :| 0 <= j < |pairs| && pairs[j].name == b;
    assert i != j;
  }

  // ----- Rows -----

  /** The top level is sorted, so its order is no freedom. */
  type RowPrint = map<string, Print>

  ghost predicate RowPrints(row: Row, p: RowPrint) {
    row.Keys == p.Keys && forall k | k in row :: Prints(row[k], p[k])
  }

  ghost predicate SteadyRow(row: Row) {
    forall k | k in row :: Steady(row[k])
  }

  lemma RowPrintUnique(row: Row, p: RowPrint, q: RowPrint)
    requires SteadyRow(row) && RowPrints(row, p) && RowPrints(row, q)
    ensures p == q
  {
    forall k | k in row ensures p[k] == q[k] {
      PrintUnique(row[k], p[k], q[k]);
    }
  }

  lemma RowPrintDetermines(a: Row, b: Row, p: RowPrint)
    requires RowPrints(a, p) && RowPrints(b, p)
    ensures a == b
  {
    forall k | k in a ensures a[k] == b[k] {
      PrintDetermines(a[k], b[k], p[k]);
    }
  }

  lemma TwoRowPrints(row: Row) returns (p: RowPrint, q: RowPrint)
    requires !SteadyRow(row)
    ensures RowPrints(row, p) && RowPrints(row, q) && p != q
  {
    p := map k | k in row :: SomePrint(row[k]);
    forall k | k in row ensures Prints(row[k], p[k]) {
      SomePrintPrints(row[k]);
    }
    var k :| k in row && !Steady(row[k]);
    var a, b := TwoPrints(row[k]);
    p, q := p[k := a], p[k := b];
    assert p[k] != q[k];
  }
}
