/** Prefix queries: a partition query when the prefix pins a partition, a scan
    otherwise, drained page by page and sorted. */
module DynamoQuery {
  import opened Base
  import opened ReplicatedKv
  import opened DynamoCodec
  import opened DynamoExpressions
  import opened DynamoService
  import Dynamo = DynamoKv
  import opened DynamoSimulation

  // ----- The split -----

  /** The rows the chosen access path asks for. */
  predicate Selects(prefix: string, t: TableKey) {
    match SplitOnce(prefix)
    case Some(p) => t.pk == p.pk && p.sk <= t.sk
    case None => prefix <= t.pk
  }

  /** Rendered keys extend each other exactly when they share a partition. */
  lemma {:induction false} RenderedPrefix(a: TableKey, b: TableKey)
    requires '/' !in a.pk && '/' !in b.pk
    ensures RenderKey(a) <= RenderKey(b) <==> a.pk == b.pk && a.sk <= b.sk
    decreases |a.pk|
  {
    var x, y := RenderKey(a), RenderKey(b);
    if a.pk == [] {
      assert x == ['/'] + a.sk && x[1..] == a.sk;
      assert b.pk == [] ==> y == ['/'] + b.sk && y[1..] == b.sk;
      PeelHead(x, y);
    } else if b.pk == [] {
      assert y[0] == '/' && x[0] != '/';
    } else {
      var a', b' := TableKey(a.pk[1..], a.sk), TableKey(b.pk[1..], b.sk);
      RenderedPrefix(a', b');
      assert x[1..] == RenderKey(a') && y[1..] == RenderKey(b');
      assert a.pk == [a.pk[0]] + a'.pk && b.pk == [b.pk[0]] + b'.pk;
      PeelHead(x, y);
    }
  }

  lemma PeelHead(x: string, y: string)
    requires x != [] && y != []
    ensures x <= y <==> x[0] == y[0] && x[1..] <= y[1..]
  {
    if x[0] == y[0] && x[1..] <= y[1..] {
      assert x == [x[0]] + x[1..] && y == [y[0]] + y[1..];
    }
  }

  lemma {:induction false} SlashFreePrefix(prefix: string, t: TableKey)
    requires '/' !in prefix
    ensures prefix <= RenderKey(t) <==> prefix <= t.pk
    decreases |prefix|
  {
    var y := RenderKey(t);
    if prefix != [] && t.pk != [] {
      assert y[1..] == RenderKey(TableKey(t.pk[1..], t.sk));
      SlashFreePrefix(prefix[1..], TableKey(t.pk[1..], t.sk));
      PeelHead(prefix, y);
      PeelHead(prefix, t.pk);
    } else if prefix != [] {
      assert y[0] == '/';
    }
  }

  /** The split is exact: over accepted keys, the selected rows are those whose
      rendered key starts with the prefix. */
  lemma SelectsExactly(prefix: string, key: Key, t: TableKey)
    requires SplitKey(key) == Some(t)
    ensures Selects(prefix, t) <==> prefix <= key
  {
    SplitRenderInverse(key, t);
    SplitOnceFindsFirstSlash(prefix);
    match SplitOnce(prefix)
    case Some(p) => RenderedPrefix(p, t);
    case None => SlashFreePrefix(prefix, t);
  }

  /** A prefix that starts with a slash pins an empty partition, which the
      service refuses; no accepted key starts with a slash, so the reference
      answers with nothing. */
  lemma LeadingSlashMatchesNothing(table: Table, store: map<Key, Value>, prefix: string)
    requires Represents(table, store)
    ensures prefix != [] && prefix[0] == '/' <==> SplitOnce(prefix).Some? && SplitOnce(prefix).value.pk == ""
    ensures prefix != [] && prefix[0] == '/' ==> IsQueryResult(store, prefix, [])
  {
    SplitOnceFindsFirstSlash(prefix);
    if prefix != [] && prefix[0] == '/' {
      forall k | k in store ensures !(prefix <= k) {
        SplitRenderInverse(k, SplitKey(k).value);
        SelectsExactly(prefix, k, SplitKey(k).value);
      }
    }
  }

  // ----- Pages -----

  /** The rows, in the order given, that pass the filter. */
  function Matching(table: Table, keys: seq<TableKey>, filter: Option<Clause<AttributeValue>>): seq<Row>
    requires forall t | t in keys :: t in table
  {
    if keys == [] then []
    else
      var last := keys[|keys| - 1];
      Matching(table, keys[..|keys| - 1], filter) +
      if filter.None? || Evaluate(Some(table[last]), filter.value) then [table[last]] else []
  }

  /** A read request: a filter with its placeholders, and an opaque cursor. */
  datatype ReadRequest = ReadRequest(filter: Option<Clause<string>>, names: Option<map<string, string>>,
                                     values: Option<map<string, AttributeValue>>, cursor: nat)

  /** The same placeholder rules as for writes. */
  function ResolveFilter(r: ReadRequest): Option<Option<Clause<AttributeValue>>> {
    var b := Bindings(if r.names.Some? then r.names.value else map[], if r.values.Some? then r.values.value else map[]);
    if r.names == Some(map[]) || r.values == Some(map[]) then None
    else if r.filter.None? then (if b == Bindings(map[], map[]) then Some(None) else None)
    else if b.names.Keys != ClauseNames(r.filter.value) || b.values.Keys != ClauseValues(r.filter.value) then None
    else
      match ResolveClause(b, r.filter.value)
      case None => None
      case Some(c) => Some(Some(c))
  }

  /** The service examines some further rows, in its own order, and returns the
      ones that pass. How many it examines is up to it, and so is whether it
      hands out a cursor when the last row has just been examined. */
  method ReadPage(table: Table, order: seq<TableKey>, request: ReadRequest, ghost meant: Option<Clause<AttributeValue>>)
    returns (rows: seq<Row>, next: Option<nat>)
    requires forall t | t in order :: t in table
    requires request.cursor <= |order|
    requires ResolveFilter(request) == Some(meant)
    ensures next.Some? ==> request.cursor < next.value <= |order|
    ensures var end := if next.Some? then next.value else |order|;
            rows == Matching(table, order[request.cursor..end], meant)
  {
    var filter := ResolveFilter(request).value;
    if request.cursor == |order| {
      return [], None;
    }
    var end :| request.cursor < end <= |order|;
    var exhausted :| exhausted in {false, true} && (exhausted ==> end == |order|);
    var page := order[request.cursor..end];
    forall t | t in page ensures t in table {
      assert t in order;
    }
    return Matching(table, page, filter), if exhausted then None else Some(end);
  }

  /** Rebuilds the key of a returned row and decodes its value. */
  function DecodeScanned(row: Row): Result<Item, CloudError> {
    if PK_ATTR in row && row[PK_ATTR].AttrS? && SK_ATTR in row && row[SK_ATTR].AttrS?
    then Dynamo.DecodeItem(RenderKey(TableKey(row[PK_ATTR].text, row[SK_ATTR].text)), row)
    else Err(Dynamo.TERMINAL)
  }

  /** Decodes rows in order; the first that does not decode fails them all. */
  function DecodeRows(rows: seq<Row>): Result<seq<Item>, CloudError> {
    if rows == [] then Ok([])
    else
      match DecodeRows(rows[..|rows| - 1])
      case Err(e) => Err(e)
      case Ok(items) =>
        match DecodeScanned(rows[|rows| - 1])
        case Err(e) => Err(e)
        case Ok(item) => Ok(items + [item])
  }

  lemma {:induction false} DecodeRowsConcat(a: seq<Row>, b: seq<Row>)
    ensures DecodeRows(a + b) ==
            match DecodeRows(a)
            case Err(e) => Err(e)
            case Ok(x) => match DecodeRows(b) case Err(e) => Err(e) case Ok(y) => Ok(x + y)
  {
    if b == [] {
      assert a + b == a && forall x: seq<Item> :: x + [] == x;
    } else {
      assert (a + b)[..|a + b| - 1] == a + b[..|b| - 1] && (a + b)[|a + b| - 1] == b[|b| - 1];
      DecodeRowsConcat(a, b[..|b| - 1]);
      assert forall x: seq<Item>, y: seq<Item>, item: Item :: (x + y) + [item] == x + (y + [item]);
    }
  }

  lemma {:induction false} MatchingConcat(table: Table, a: seq<TableKey>, b: seq<TableKey>,
                                          filter: Option<Clause<AttributeValue>>)
    requires forall t | t in a + b :: t in table
    ensures forall t | t in a || t in b :: t in table
    ensures Matching(table, a + b, filter) == Matching(table, a, filter) + Matching(table, b, filter)
  {
    assert forall t | t in a || t in b :: t in a + b;
    if b == [] {
      assert a + b == a;
    } else {
      assert (a + b)[..|a + b| - 1] == a + b[..|b| - 1];
      MatchingConcat(table, a, b[..|b| - 1], filter);
    }
  }

  method DecodePage(rows: seq<Row>) returns (r: Result<seq<Item>, CloudError>)
    ensures r == DecodeRows(rows)
  {
    var out := [];
    for i := 0 to |rows|
      invariant DecodeRows(rows[..i]) == Ok(out)
    {
      assert rows[..i + 1][..i] == rows[..i];
      var decoded := DecodeScanned(rows[i]);
      if decoded.Err? {
        DecodeRowsConcat(rows[..i + 1], rows[i + 1..]);
        assert rows[..i + 1] + rows[i + 1..] == rows;
        return Err(decoded.error);
      }
      out := out + [decoded.value];
    }
    assert rows[..|rows|] == rows;
    return Ok(out);
  }

  /** Every row of the table, once, in the service's order. */
  ghost predicate Enumerates(order: seq<TableKey>, table: Table) {
    && (forall t | t in order :: t in table)
    && (forall t | t in table :: t in order)
    && (forall i, j | 0 <= i < j < |order| :: order[i] != order[j])
  }

  // ----- The two access paths -----

  function KeyCondition(pk: string, skPrefix: string): Clause<AttributeValue> {
    var partition := Equals(Top(PK_ATTR), AttrS(pk));
    if skPrefix == "" then partition else And(partition, BeginsWith(Top(SK_ATTR), AttrS(skPrefix)))
  }

  /** A filter that uses exactly the placeholders it binds resolves. */
  lemma FilterResolves(names: map<string, string>, values: map<string, AttributeValue>, w: Clause<string>,
                       meant: Clause<AttributeValue>, cursor: nat)
    requires names.Keys == ClauseNames(w) != {} && values.Keys == ClauseValues(w) != {}
    requires ResolveClause(Bindings(names, values), w) == Some(meant)
    ensures ResolveFilter(ReadRequest(Some(w), Some(names), Some(values), cursor)) == Some(Some(meant))
  {
    assert names != map[] && values != map[];
  }

  lemma PartitionResolves(b: Bindings, pkAlias: string, pkValue: string, pk: string)
    requires b == Bindings(map[pkAlias := PK_ATTR], map[pkValue := AttrS(pk)])
    ensures var w: Clause<string> := Equals(Top(pkAlias), pkValue);
            && ResolveClause(b, w) == Some(KeyCondition(pk, ""))
            && b.names.Keys == ClauseNames(w) && b.values.Keys == ClauseValues(w)
  {
  }

  lemma SortPrefixResolves(b: Bindings, pkAlias: string, pkValue: string, pk: string,
                           skAlias: string, skValue: string, skPrefix: string)
    requires pkAlias != skAlias && pkValue != skValue && skPrefix != ""
    requires b == Bindings(map[pkAlias := PK_ATTR][skAlias := SK_ATTR],
                           map[pkValue := AttrS(pk)][skValue := AttrS(skPrefix)])
    ensures var w: Clause<string> := And(Equals(Top(pkAlias), pkValue), BeginsWith(Top(skAlias), skValue));
            && ResolveClause(b, w) == Some(KeyCondition(pk, skPrefix))
            && b.names.Keys == ClauseNames(w) && b.values.Keys == ClauseValues(w)
  {
    assert b.names[pkAlias] == PK_ATTR && b.names[skAlias] == SK_ATTR;
    assert b.values[pkValue] == AttrS(pk) && b.values[skValue] == AttrS(skPrefix);
    var l: Clause<string>, r: Clause<string> := Equals(Top(pkAlias), pkValue), BeginsWith(Top(skAlias), skValue);
    assert ClauseNames(And(l, r)) == {pkAlias, skAlias} && ClauseValues(And(l, r)) == {pkValue, skValue};
  }

  method BuildKeyCondition(pk: string, skPrefix: string, cursor: nat) returns (r: ReadRequest)
    ensures ResolveFilter(r) == Some(Some(KeyCondition(pk, skPrefix))) && r.cursor == cursor
  {
    var builder := new ExprBuilder();
    var pkAlias := builder.AliasName(PK_ATTR);
    var pkValue := builder.AliasValue(AttrS(pk));
    var condition: Clause<string> := Equals(Top(pkAlias), pkValue);
    if skPrefix != "" {
      var skAlias := builder.AliasName(SK_ATTR);
      var skValue := builder.AliasValue(AttrS(skPrefix));
      condition := And(condition, BeginsWith(Top(skAlias), skValue));
      SortPrefixResolves(builder.Bound(), pkAlias, pkValue, pk, skAlias, skValue, skPrefix);
    } else {
      PartitionResolves(builder.Bound(), pkAlias, pkValue, pk);
    }
    assert pkAlias in builder.names && pkValue in builder.values;
    FilterResolves(builder.names, builder.values, condition, KeyCondition(pk, skPrefix), cursor);
    r := ReadRequest(Some(condition), Some(builder.names), Some(builder.values), cursor);
  }

  method BuildScanFilter(pkPrefix: Option<string>, cursor: nat) returns (r: ReadRequest)
    ensures ResolveFilter(r) == Some(ScanFilter(pkPrefix))
    ensures r.cursor == cursor
  {
    if pkPrefix.None? {
      return ReadRequest(None, None, None, cursor);
    }
    var builder := new ExprBuilder();
    var pkAlias := builder.AliasName(PK_ATTR);
    var pkValue := builder.AliasValue(AttrS(pkPrefix.value));
    var condition: Clause<string> := BeginsWith(Top(pkAlias), pkValue);
    assert builder.names == map[pkAlias := PK_ATTR] && builder.values == map[pkValue := AttrS(pkPrefix.value)];
    assert pkAlias in builder.names && pkValue in builder.values;
    assert ClauseNames(condition) == {pkAlias} && ClauseValues(condition) == {pkValue};
    r := ReadRequest(Some(condition), Some(builder.names), Some(builder.values), cursor);
  }

  /** The rows of the first `n` keys, decoded. */
  function Collected(table: Table, order: seq<TableKey>, n: nat, filter: Option<Clause<AttributeValue>>)
    : Result<seq<Item>, CloudError>
    requires n <= |order| && forall t | t in order :: t in table
  {
    DecodeRows(Matching(table, order[..n], filter))
  }

  /** A page extends what has been collected, or fails the whole answer. */
  lemma PageCollects(table: Table, order: seq<TableKey>, start: nat, end: nat, filter: Option<Clause<AttributeValue>>)
    requires start <= end <= |order| && forall t | t in order :: t in table
    ensures forall t | t in order[start..end] :: t in table
    ensures Collected(table, order, end, filter) ==
            match Collected(table, order, start, filter)
            case Err(e) => Err(e)
            case Ok(sofar) =>
              match DecodeRows(Matching(table, order[start..end], filter))
              case Err(e) => Err(e)
              case Ok(items) => Ok(sofar + items)
  {
    assert order[..end] == order[..start] + order[start..end];
    MatchingConcat(table, order[..start], order[start..end], filter);
    DecodeRowsConcat(Matching(table, order[..start], filter), Matching(table, order[start..end], filter));
  }

  /** One drained page appended to the items collected so far. */
  method Drain(table: Table, order: seq<TableKey>, request: ReadRequest, sofar: seq<Item>,
               ghost meant: Option<Clause<AttributeValue>>)
    returns (r: Result<seq<Item>, CloudError>, next: Option<nat>)
    requires forall t | t in order :: t in table
    requires request.cursor <= |order| && ResolveFilter(request) == Some(meant)
    requires Collected(table, order, request.cursor, meant) == Ok(sofar)
    ensures next.Some? ==> request.cursor < next.value <= |order|
    ensures r.Ok? ==> r == Collected(table, order, if next.Some? then next.value else |order|, meant)
    ensures r.Err? ==> r == Collected(table, order, |order|, meant)
  {
    var rows;
    rows, next := ReadPage(table, order, request, meant);
    ghost var end := if next.Some? then next.value else |order|;
    PageCollects(table, order, request.cursor, end, meant);
    PageCollects(table, order, end, |order|, meant);
    var decoded := DecodePage(rows);
    match decoded {
      case Err(e) => r := Err(e);
      case Ok(items) => r := Ok(sofar + items);
    }
  }

  method QueryWithinPartition(table: Table, order: seq<TableKey>, pk: string, skPrefix: string)
    returns (r: Result<seq<Item>, CloudError>)
    requires forall t | t in order :: t in table
    ensures r == if pk == "" then Err(Dynamo.TERMINAL)
                 else DecodeRows(Matching(table, order, Some(KeyCondition(pk, skPrefix))))
  {
    if pk == "" {
      return Err(Dynamo.TERMINAL);
    }
    var out := [];
    var cursor := Some(0);
    assert order[..|order|] == order;
    while cursor.Some?
      invariant cursor.Some? ==> cursor.value <= |order|
      invariant Collected(table, order, if cursor.Some? then cursor.value else |order|,
                          Some(KeyCondition(pk, skPrefix))) == Ok(out)
      decreases if cursor.Some? then |order| - cursor.value + 1 else 0
    {
      var request := BuildKeyCondition(pk, skPrefix, cursor.value);
      var page;
      page, cursor := Drain(table, order, request, out, Some(KeyCondition(pk, skPrefix)));
      if page.Err? {
        return page;
      }
      out := page.value;
    }
    return Ok(out);
  }

  function ScanFilter(pkPrefix: Option<string>): Option<Clause<AttributeValue>> {
    if pkPrefix.Some? then Some(BeginsWith(Top(PK_ATTR), AttrS(pkPrefix.value))) else None
  }

  method Scan(table: Table, order: seq<TableKey>, pkPrefix: Option<string>)
    returns (r: Result<seq<Item>, CloudError>)
    requires forall t | t in order :: t in table
    ensures r == DecodeRows(Matching(table, order, ScanFilter(pkPrefix)))
  {
    var out := [];
    var cursor := Some(0);
    assert order[..|order|] == order;
    while cursor.Some?
      invariant cursor.Some? ==> cursor.value <= |order|
      invariant Collected(table, order, if cursor.Some? then cursor.value else |order|, ScanFilter(pkPrefix)) == Ok(out)
      decreases if cursor.Some? then |order| - cursor.value + 1 else 0
    {
      var request := BuildScanFilter(pkPrefix, cursor.value);
      var page;
      page, cursor := Drain(table, order, request, out, ScanFilter(pkPrefix));
      if page.Err? {
        return page;
      }
      out := page.value;
    }
    return Ok(out);
  }

  // ----- The query -----

  /** The answer to a query when the service keeps its rows in this order. How
      the pages are cut makes no difference. */
  function QueryAnswer(table: Table, order: seq<TableKey>, prefix: string): Result<seq<Item>, CloudError>
    requires forall t | t in order :: t in table
  {
    var decoded :=
      match SplitOnce(prefix)
      case Some(p) =>
        if p.pk == "" then Err(Dynamo.TERMINAL)
        else DecodeRows(Matching(table, order, Some(KeyCondition(p.pk, p.sk))))
      case None => DecodeRows(Matching(table, order, ScanFilter(if prefix == "" then None else Some(prefix))));
    match decoded
    case Err(e) => Err(e)
    case Ok(items) => Ok(SortByKey(items))
  }

  method Query(table: Table, order: seq<TableKey>, prefix: string) returns (r: Result<seq<Item>, CloudError>)
    requires forall t | t in order :: t in table
    ensures r == QueryAnswer(table, order, prefix)
  {
    var items;
    match SplitOnce(prefix) {
      case Some(p) => items := QueryWithinPartition(table, order, p.pk, p.sk);
      case None => items := Scan(table, order, if prefix == "" then None else Some(prefix));
    }
    match items {
      case Err(e) => return Err(e);
      case Ok(found) => return Ok(SortByKey(found));
    }
  }

  // ----- Agreement with the reference -----

  /** A filter that passes exactly the selected rows. */
  ghost predicate FiltersFor(filter: Option<Clause<AttributeValue>>, prefix: string) {
    forall row, t, v | RowHolds(row, t, v) ::
      (filter.None? || Evaluate(Some(row), filter.value)) <==> Selects(prefix, t)
  }

  /** Exactly the items under the prefix at these table keys, each once. */
  ghost predicate ItemsUnder(store: map<Key, Value>, keys: seq<TableKey>, prefix: string, items: seq<Item>) {
    && DistinctItems(items)
    && (forall i | i in items :: i.key in store && store[i.key] == i.value && prefix <= i.key && KeyIn(i.key, keys))
    && (forall t | t in keys && RenderKey(t) in store && prefix <= RenderKey(t) ::
          Item(RenderKey(t), store[RenderKey(t)]) in items)
  }

  predicate KeyIn(key: Key, keys: seq<TableKey>) {
    SplitKey(key).Some? && SplitKey(key).value in keys
  }

  lemma DecodesStored(table: Table, store: map<Key, Value>, t: TableKey)
    requires Represents(table, store) && t in table
    ensures SplitKey(RenderKey(t)) == Some(t) && RenderKey(t) in store
    ensures RowHolds(table[t], t, store[RenderKey(t)])
    ensures DecodeScanned(table[t]) == Ok(Item(RenderKey(t), store[RenderKey(t)]))
  {
    RowMatches(table, store, RenderKey(t), t);
    DecodeEncodeValue(store[RenderKey(t)]);
  }

  /** One more key, examined after the others. */
  lemma KeyCollected(store: map<Key, Value>, front: seq<TableKey>, last: TableKey, prefix: string, items: seq<Item>)
    requires ItemsUnder(store, front, prefix, items) && last !in front
    requires SplitKey(RenderKey(last)) == Some(last) && RenderKey(last) in store
    ensures prefix <= RenderKey(last) ==>
              ItemsUnder(store, front + [last], prefix, items + [Item(RenderKey(last), store[RenderKey(last)])])
    ensures !(prefix <= RenderKey(last)) ==> ItemsUnder(store, front + [last], prefix, items)
  {
    var item := Item(RenderKey(last), store[RenderKey(last)]);
    assert forall i | i in items :: i.key != item.key;
    assert forall t :: t in front + [last] <==> t in front || t == last;
    assert forall i :: i in items + [item] <==> i in items || i == item;
    DistinctAppend(items, item);
  }

  /** Keys of the table, none twice. */
  ghost predicate Listed(keys: seq<TableKey>, table: Table) {
    && (forall t | t in keys :: t in table)
    && (forall i, j | 0 <= i < j < |keys| :: keys[i] != keys[j])
  }

  lemma ListedFront(keys: seq<TableKey>, table: Table)
    requires Listed(keys, table) && keys != []
    ensures var front, last := keys[..|keys| - 1], keys[|keys| - 1];
            keys == front + [last] && Listed(front, table) && last in table && last !in front
  {
    assert keys[|keys| - 1] in keys;
    assert forall t | t in keys[..|keys| - 1] :: t in keys;
  }

  lemma {:induction false} RowsCollected(table: Table, store: map<Key, Value>, keys: seq<TableKey>,
                                         filter: Option<Clause<AttributeValue>>, prefix: string)
    requires Represents(table, store) && FiltersFor(filter, prefix) && Listed(keys, table)
    ensures Gathered(table, store, keys, filter, prefix)
  {
    if keys != [] {
      var front, last := keys[..|keys| - 1], keys[|keys| - 1];
      ListedFront(keys, table);
      RowsCollected(table, store, front, filter, prefix);
      RowCollected(table, store, last, filter, prefix);
      LastRowCollected(table, store, front, last, filter, prefix, keys);
    }
  }

  /** The rows of these keys decode to exactly the items under the prefix. */
  ghost predicate Gathered(table: Table, store: map<Key, Value>, keys: seq<TableKey>,
                           filter: Option<Clause<AttributeValue>>, prefix: string)
    requires forall t | t in keys :: t in table
  {
    var decoded := DecodeRows(Matching(table, keys, filter));
    decoded.Ok? && ItemsUnder(store, keys, prefix, decoded.value)
  }

  lemma LastRowCollected(table: Table, store: map<Key, Value>, front: seq<TableKey>, last: TableKey,
                         filter: Option<Clause<AttributeValue>>, prefix: string, keys: seq<TableKey>)
    requires last in table && (forall t | t in front :: t in table) && keys == front + [last]
    requires Gathered(table, store, front, filter, prefix) && last !in front
    requires SplitKey(RenderKey(last)) == Some(last) && RenderKey(last) in store
    requires (filter.None? || Evaluate(Some(table[last]), filter.value)) <==> prefix <= RenderKey(last)
    requires DecodeScanned(table[last]) == Ok(Item(RenderKey(last), store[RenderKey(last)]))
    ensures Gathered(table, store, keys, filter, prefix)
  {
    var rows := Matching(table, front, filter);
    KeyCollected(store, front, last, prefix, DecodeRows(rows).value);
    MatchingAppend(table, front, last, filter);
    assert (rows + [table[last]])[..|rows|] == rows;
  }

  lemma MatchingAppend(table: Table, front: seq<TableKey>, last: TableKey, filter: Option<Clause<AttributeValue>>)
    requires last in table && forall t | t in front :: t in table
    ensures Matching(table, front + [last], filter) ==
            if filter.None? || Evaluate(Some(table[last]), filter.value)
            then Matching(table, front, filter) + [table[last]] else Matching(table, front, filter)
  {
    assert (front + [last])[..|front|] == front;
  }

  lemma RowCollected(table: Table, store: map<Key, Value>, t: TableKey, filter: Option<Clause<AttributeValue>>,
                     prefix: string)
    requires Represents(table, store) && FiltersFor(filter, prefix) && t in table
    ensures SplitKey(RenderKey(t)) == Some(t) && RenderKey(t) in store
    ensures (filter.None? || Evaluate(Some(table[t]), filter.value)) <==> prefix <= RenderKey(t)
    ensures DecodeScanned(table[t]) == Ok(Item(RenderKey(t), store[RenderKey(t)]))
  {
    DecodesStored(table, store, t);
    SelectsExactly(prefix, RenderKey(t), t);
  }

  lemma CollectedIsAnswer(table: Table, store: map<Key, Value>, order: seq<TableKey>, prefix: string, items: seq<Item>)
    requires Represents(table, store) && Enumerates(order, table) && ItemsUnder(store, order, prefix, items)
    ensures IsQueryResult(store, prefix, SortByKey(items))
  {
    SortSorts(items);
    forall k | k in store && prefix <= k ensures Item(k, store[k]) in items {
      assert KeyHeld(table, k, store[k]);
      SplitRenderInverse(k, SplitKey(k).value);
    }
  }

  lemma PartitionFilters(prefix: string, p: TableKey)
    requires SplitOnce(prefix) == Some(p)
    ensures FiltersFor(Some(KeyCondition(p.pk, p.sk)), prefix)
  {
    forall row, t, v | RowHolds(row, t, v)
      ensures Evaluate(Some(row), KeyCondition(p.pk, p.sk)) <==> Selects(prefix, t) {
      assert Fetch(Some(row), Top(PK_ATTR)) == Some(AttrS(t.pk));
      assert Fetch(Some(row), Top(SK_ATTR)) == Some(AttrS(t.sk));
    }
  }

  lemma ScanFilters(prefix: string)
    requires SplitOnce(prefix).None?
    ensures FiltersFor(ScanFilter(if prefix == "" then None else Some(prefix)), prefix)
  {
    forall row, t, v | RowHolds(row, t, v)
      ensures Evaluate(Some(row), BeginsWith(Top(PK_ATTR), AttrS(prefix))) <==> Selects(prefix, t) {
      assert Fetch(Some(row), Top(PK_ATTR)) == Some(AttrS(t.pk));
    }
  }

  predicate StartsWithSlash(prefix: string) {
    prefix != [] && prefix[0] == '/'
  }

  /** Whatever order and page sizes the service chooses, the answer is the one
      the reference backend gives; except that a prefix starting with a slash is
      refused, where the reference answers with nothing. */
  lemma QueryAgrees(table: Table, store: map<Key, Value>, order: seq<TableKey>, prefix: string)
    requires Represents(table, store) && Enumerates(order, table)
    ensures StartsWithSlash(prefix) ==>
              QueryAnswer(table, order, prefix) == Err(Dynamo.TERMINAL) && QueryOp(store, prefix) == []
    ensures !StartsWithSlash(prefix) ==> QueryAnswer(table, order, prefix) == Ok(QueryOp(store, prefix))
  {
    LeadingSlashMatchesNothing(table, store, prefix);
    if StartsWithSlash(prefix) {
      QueryResultUnique(store, prefix, QueryOp(store, prefix), []);
    } else {
      var filter := match SplitOnce(prefix)
                    case Some(p) => Some(KeyCondition(p.pk, p.sk))
                    case None => ScanFilter(if prefix == "" then None else Some(prefix));
      if SplitOnce(prefix).Some? {
        PartitionFilters(prefix, SplitOnce(prefix).value);
      } else {
        ScanFilters(prefix);
      }
      RowsCollected(table, store, order, filter, prefix);
      var items := DecodeRows(Matching(table, order, filter)).value;
      CollectedIsAnswer(table, store, order, prefix, items);
      QueryResultUnique(store, prefix, QueryOp(store, prefix), SortByKey(items));
    }
  }
}
