/** The DynamoDB backend simulates the in-memory one. */
module DynamoSimulation {
  import opened Base
  import opened ReplicatedKv
  import opened DynamoCodec
  import opened DynamoExpressions
  import opened DynamoService
  import Memory = MemoryKv
  import Dynamo = DynamoKv
  import Transactions
  import Decimal

  // ----- The relation between a table and a store -----

  ghost predicate RowHolds(row: Row, t: TableKey, value: Value) {
    && PK_ATTR in row && row[PK_ATTR] == AttrS(t.pk)
    && SK_ATTR in row && row[SK_ATTR] == AttrS(t.sk)
    && VALUE_ATTR in row && row[VALUE_ATTR] == EncodeValue(value)
  }

  ghost predicate Represents(table: Table, store: Memory.Store) {
    && (forall k | k in store :: KeyHeld(table, k, store[k]))
    && (forall t | t in table :: SplitKey(RenderKey(t)) == Some(t) && RenderKey(t) in store)
  }

  ghost predicate KeyHeld(table: Table, key: Key, value: Value) {
    match SplitKey(key)
    case None => false
    case Some(t) => t in table && RowHolds(table[t], t, value)
  }

  /** An optional row that holds an optional value. */
  ghost predicate Matches(row: Option<Row>, t: TableKey, value: Option<Value>) {
    && (row.Some? <==> value.Some?)
    && (row.Some? ==> RowHolds(row.value, t, value.value))
  }

  lemma RowMatches(table: Table, store: Memory.Store, key: Key, t: TableKey)
    requires Represents(table, store) && SplitKey(key) == Some(t)
    ensures Matches(RowAt(table, t), t, Memory.Lookup(store, key))
  {
    SplitRenderInverse(key, t);
    if key in store { assert KeyHeld(table, key, store[key]); }
  }

  function SetItem(store: Memory.Store, key: Key, value: Option<Value>): Memory.Store {
    if value.Some? then store[key := value.value] else store - {key}
  }

  /** Writing matching rows and values at one key keeps the relation. */
  lemma WriteKeeps(table: Table, store: Memory.Store, key: Key, t: TableKey, row: Option<Row>, value: Option<Value>)
    requires Represents(table, store) && SplitKey(key) == Some(t) && Matches(row, t, value)
    ensures Represents(Store(table, t, row), SetItem(store, key, value))
  {
    KeysStayHeld(table, store, key, t, row, value);
    RowsStayKnown(table, store, key, t, row, value);
  }

  lemma KeysStayHeld(table: Table, store: Memory.Store, key: Key, t: TableKey, row: Option<Row>, value: Option<Value>)
    requires Represents(table, store) && SplitKey(key) == Some(t) && Matches(row, t, value)
    ensures forall k | k in SetItem(store, key, value) ::
              KeyHeld(Store(table, t, row), k, SetItem(store, key, value)[k])
  {
    OtherRows(table, store, key, t);
    forall k | k in SetItem(store, key, value)
      ensures KeyHeld(Store(table, t, row), k, SetItem(store, key, value)[k]) {
      if k != key { assert KeyHeld(table, k, store[k]); }
    }
  }

  lemma RowsStayKnown(table: Table, store: Memory.Store, key: Key, t: TableKey, row: Option<Row>, value: Option<Value>)
    requires Represents(table, store) && SplitKey(key) == Some(t) && Matches(row, t, value)
    ensures forall u | u in Store(table, t, row) ::
              SplitKey(RenderKey(u)) == Some(u) && RenderKey(u) in SetItem(store, key, value)
  {
    forall u | u in Store(table, t, row)
      ensures SplitKey(RenderKey(u)) == Some(u) && RenderKey(u) in SetItem(store, key, value) {
      RowStaysKnown(table, store, key, t, row, value, u);
    }
  }

  lemma RowStaysKnown(table: Table, store: Memory.Store, key: Key, t: TableKey, row: Option<Row>, value: Option<Value>,
                      u: TableKey)
    requires Represents(table, store) && SplitKey(key) == Some(t) && (row.Some? <==> value.Some?)
    requires u in Store(table, t, row)
    ensures SplitKey(RenderKey(u)) == Some(u) && RenderKey(u) in SetItem(store, key, value)
  {
    if u == t {
      SplitRenderInverse(key, t);
    } else {
      OtherRows(table, store, key, t);
      assert u in table;
    }
  }

  lemma OtherRows(table: Table, store: Memory.Store, key: Key, t: TableKey)
    requires Represents(table, store) && SplitKey(key) == Some(t)
    ensures forall k | k in store && k != key :: SplitKey(k) != Some(t)
    ensures forall u | u in table && u != t :: RenderKey(u) in store && RenderKey(u) != key
  {
    forall k | k in store && k != key ensures SplitKey(k) != Some(t) {
      if SplitKey(k) == Some(t) { SplitInjective(k, key); }
    }
    forall u | u in table && u != t ensures RenderKey(u) != key {
      assert SplitKey(RenderKey(u)) == Some(u);
    }
  }

  // ----- Conditions -----

  lemma ConditionAgrees(row: Option<Row>, t: TableKey, value: Option<Value>, c: Condition)
    requires Matches(row, t, value)
    ensures Evaluate(row, ConditionMeaning(c)) <==> Memory.Holds(value, c)
  {
    match c
    case AttributeEquals(attribute, expected) =>
      if value.Some? {
        EncodeInjective(value.value, expected);
        if value.value.Map? && attribute in value.value.entries {
          EncodeInjective(value.value.entries[attribute], expected);
        }
      }
    case _ =>
  }

  lemma {:induction false} ConditionsAgree(row: Option<Row>, t: TableKey, value: Option<Value>, cs: seq<Condition>)
    requires Matches(row, t, value) && cs != []
    ensures Evaluate(row, ConditionsMeaning(cs)) <==> Memory.AllHold(value, cs)
  {
    var front, last := cs[..|cs| - 1], cs[|cs| - 1];
    assert cs == front + [last];
    ConditionAgrees(row, t, value, last);
    if |cs| > 1 {
      ConditionsAgree(row, t, value, front);
    }
  }

  lemma CallerConditionAgrees(table: Table, store: Memory.Store, key: Key, m: Meant, cs: seq<Condition>)
    requires Represents(table, store) && SplitKey(key) == Some(m.key)
    requires m.condition == Dynamo.CallerCondition(cs)
    ensures ConditionHolds(table, m) <==> Memory.AllHold(Memory.Lookup(store, key), cs)
  {
    RowMatches(table, store, key, m.key);
    if cs != [] {
      ConditionsAgree(RowAt(table, m.key), m.key, Memory.Lookup(store, key), cs);
    }
  }

  // ----- Updates of a map-valued item -----

  /** Attributes are named and no two actions share one. */
  ghost predicate DistinctAttributes(actions: seq<UpdateAction>) {
    && (forall a | a in actions :: a.attribute != "")
    && (forall i, j | 0 <= i < j < |actions| :: actions[i].attribute != actions[j].attribute)
  }

  lemma DistinctFront(actions: seq<UpdateAction>)
    requires DistinctAttributes(actions) && actions != []
    ensures var front, last := actions[..|actions| - 1], actions[|actions| - 1];
            && actions == front + [last]
            && DistinctAttributes(front)
            && last.attribute != ""
            && forall a | a in front :: a.attribute != last.attribute
  {
    assert actions == actions[..|actions| - 1] + [actions[|actions| - 1]];
  }

  predicate IsNumber(entries: Memory.Attributes, attribute: string) {
    attribute in entries && entries[attribute].U64?
  }

  /** The guards of all increments hold. */
  ghost predicate Countable(entries: Memory.Attributes, actions: seq<UpdateAction>) {
    forall a | a in actions && a.Increment? :: IsNumber(entries, a.attribute)
  }

  /** Some increment leaves the 64-bit range. */
  ghost predicate OutOfRange(entries: Memory.Attributes, actions: seq<UpdateAction>) {
    exists a :: a in actions && a.Increment? && IsNumber(entries, a.attribute) &&
                entries[a.attribute].number + a.amount > U64_MAX
  }

  function Entry(entries: map<string, Value>, attribute: string): Option<Value> {
    if attribute in entries then Some(entries[attribute]) else None
  }

  function WireEntry(entries: map<string, AttributeValue>, attribute: string): Option<AttributeValue> {
    if attribute in entries then Some(entries[attribute]) else None
  }

  /** What one action leaves at its attribute, computed on unbounded numbers. */
  function WireEffect(entries: Memory.Attributes, a: UpdateAction): Option<AttributeValue>
    requires a.Increment? ==> IsNumber(entries, a.attribute)
  {
    match a
    case Set(_, value) => Some(EncodeValue(value))
    case Increment(attribute, amount) => Some(AttrN(Decimal.Render(entries[attribute].number + amount)))
    case Remove(_) => None
  }

  /** The reference semantics, attribute by attribute. */
  lemma {:induction false} MemoryPointwise(entries: Memory.Attributes, actions: seq<UpdateAction>)
    requires DistinctAttributes(actions)
    ensures Memory.ApplyActions(entries, actions).Some? <==>
            Countable(entries, actions) && !OutOfRange(entries, actions)
    ensures Memory.ApplyActions(entries, actions).Some? ==>
              var after := EncodeEntries(Memory.ApplyActions(entries, actions).value);
              && (forall a | a in actions :: WireEntry(after, a.attribute) == WireEffect(entries, a))
              && (forall x | (forall a | a in actions :: a.attribute != x) ::
                    WireEntry(after, x) == WireEntry(EncodeEntries(entries), x))
  {
    if actions != [] {
      var front, last := actions[..|actions| - 1], actions[|actions| - 1];
      DistinctFront(actions);
      MemoryPointwise(entries, front);
      var before := Memory.ApplyActions(entries, front);
      CountableAppend(entries, front, last);
      OutOfRangeAppend(entries, front, last);
      if before.Some? {
        SameEntry(before.value, entries, last.attribute);
        if Memory.ApplyAction(before.value, last).Some? {
          LastEntry(entries, before.value, last);
        }
      }
    }
  }

  /** One action after others that left its attribute alone. */
  lemma LastEntry(entries: Memory.Attributes, before: Memory.Attributes, last: UpdateAction)
    requires Memory.ApplyAction(before, last).Some?
    requires Entry(before, last.attribute) == Entry(entries, last.attribute)
    ensures last.Increment? ==> IsNumber(entries, last.attribute)
    ensures var after := EncodeEntries(Memory.ApplyAction(before, last).value);
            && WireEntry(after, last.attribute) == WireEffect(entries, last)
            && forall x | x != last.attribute :: WireEntry(after, x) == WireEntry(EncodeEntries(before), x)
  {
  }

  lemma SameEntry(a: Memory.Attributes, b: Memory.Attributes, attribute: string)
    requires WireEntry(EncodeEntries(a), attribute) == WireEntry(EncodeEntries(b), attribute)
    ensures Entry(a, attribute) == Entry(b, attribute)
  {
    if attribute in a && attribute in b {
      EncodeInjective(a[attribute], b[attribute]);
    }
  }

  /** The encoded entries after the `SET` section. */
  function AfterSets(entries: Memory.Attributes, actions: seq<UpdateAction>): map<string, AttributeValue>
    requires Countable(entries, actions)
  {
    if actions == [] then EncodeEntries(entries)
    else
      var front, last := actions[..|actions| - 1], actions[|actions| - 1];
      var before := AfterSets(entries, front);
      if last.Remove? then before else before[last.attribute := WireEffect(entries, last).value]
  }

  /** The attributes the `REMOVE` section names. */
  function Removed(actions: seq<UpdateAction>): set<string> {
    set a | a in actions && a.Remove? :: a.attribute
  }

  function AfterUpdate(entries: Memory.Attributes, actions: seq<UpdateAction>): map<string, AttributeValue>
    requires Countable(entries, actions)
  {
    AfterSets(entries, actions) - Removed(actions)
  }

  lemma {:induction false} SetsPointwise(entries: Memory.Attributes, actions: seq<UpdateAction>)
    requires DistinctAttributes(actions) && Countable(entries, actions)
    ensures var after := AfterSets(entries, actions);
            && (forall a | a in actions && !a.Remove? :: WireEntry(after, a.attribute) == WireEffect(entries, a))
            && (forall x | (forall a | a in actions && !a.Remove? :: a.attribute != x) ::
                  WireEntry(after, x) == WireEntry(EncodeEntries(entries), x))
  {
    if actions != [] {
      DistinctFront(actions);
      SetsPointwise(entries, actions[..|actions| - 1]);
    }
  }

  /** The sectioned semantics, attribute by attribute. */
  lemma WirePointwise(entries: Memory.Attributes, actions: seq<UpdateAction>)
    requires DistinctAttributes(actions) && Countable(entries, actions)
    ensures var after := AfterUpdate(entries, actions);
            && (forall a | a in actions :: WireEntry(after, a.attribute) == WireEffect(entries, a))
            && (forall x | (forall a | a in actions :: a.attribute != x) ::
                  WireEntry(after, x) == WireEntry(EncodeEntries(entries), x))
  {
    SetsPointwise(entries, actions);
    forall a | a in actions ensures WireEntry(AfterUpdate(entries, actions), a.attribute) == WireEffect(entries, a) {
      if !a.Remove? {
        NotRemoved(actions, a);
      }
    }
  }

  lemma NotRemoved(actions: seq<UpdateAction>, a: UpdateAction)
    requires DistinctAttributes(actions) && a in actions && !a.Remove?
    ensures a.attribute !in Removed(actions)
  {
    forall b | b in actions && b.attribute == a.attribute ensures !b.Remove? {
      SameAction(actions, a, b);
    }
  }

  lemma SameAction(actions: seq<UpdateAction>, a: UpdateAction, b: UpdateAction)
    requires DistinctAttributes(actions) && a in actions && b in actions && a.attribute == b.attribute
    ensures a == b
  {
    var i :| 0 <= i < |actions| && actions[i] == a;
    var j :| 0 <= j < |actions| && actions[j] == b;
    assert i == j;
  }

  /** Actions applied in order and actions applied by section agree, as long as
      every sum stays in range. */
  lemma SectionsEqualOrder(entries: Memory.Attributes, actions: seq<UpdateAction>)
    requires DistinctAttributes(actions) && Countable(entries, actions) && !OutOfRange(entries, actions)
    ensures Memory.ApplyActions(entries, actions).Some?
    ensures AfterUpdate(entries, actions) == EncodeEntries(Memory.ApplyActions(entries, actions).value)
  {
    MemoryPointwise(entries, actions);
    WirePointwise(entries, actions);
    var left := AfterUpdate(entries, actions);
    var right := EncodeEntries(Memory.ApplyActions(entries, actions).value);
    forall x ensures WireEntry(left, x) == WireEntry(right, x) {
      if a :| a in actions && a.attribute == x {
        assert WireEntry(left, a.attribute) == WireEntry(right, a.attribute);
      }
    }
    SameWireEntries(left, right);
  }

  lemma SameWireEntries(a: map<string, AttributeValue>, b: map<string, AttributeValue>)
    requires forall x :: WireEntry(a, x) == WireEntry(b, x)
    ensures a == b
  {
    forall x ensures x in a <==> x in b {
      assert WireEntry(a, x) == WireEntry(b, x);
    }
    forall x | x in a ensures a[x] == b[x] {
      assert WireEntry(a, x) == WireEntry(b, x);
    }
  }

  /** A sum beyond 64 bits is stored and can no longer be decoded. */
  lemma OverflowUndecodable(entries: Memory.Attributes, actions: seq<UpdateAction>)
    requires DistinctAttributes(actions) && Countable(entries, actions) && OutOfRange(entries, actions)
    ensures DecodeValue(AttrM(AfterUpdate(entries, actions))).None?
  {
    WirePointwise(entries, actions);
    var a :| a in actions && a.Increment? && IsNumber(entries, a.attribute) &&
             entries[a.attribute].number + a.amount > U64_MAX;
    assert a in actions;
    SumUndecodable(AfterUpdate(entries, actions), a.attribute, entries[a.attribute].number + a.amount);
  }

  lemma SumUndecodable(wire: map<string, AttributeValue>, attribute: string, sum: nat)
    requires sum > U64_MAX && WireEntry(wire, attribute) == Some(AttrN(Decimal.Render(sum)))
    ensures DecodeValue(AttrM(wire)).None?
  {
    Decimal.ParseU64Render(sum);
    UndecodableEntry(wire, attribute);
  }

  // ----- The service's view of such an update -----

  lemma EntryWritten(row: Row, wire: map<string, AttributeValue>, attribute: string, v: AttributeValue)
    requires attribute != ""
    ensures var below := row[VALUE_ATTR := AttrM(wire)];
            && SetAt(below, ValuePathOf(attribute), v) == Some(row[VALUE_ATTR := AttrM(wire[attribute := v])])
            && RemoveAt(below, ValuePathOf(attribute)) == Some(row[VALUE_ATTR := AttrM(wire - {attribute})])
  {
    var below := row[VALUE_ATTR := AttrM(wire)];
    assert below[VALUE_ATTR := AttrM(wire[attribute := v])] == row[VALUE_ATTR := AttrM(wire[attribute := v])];
    assert below[VALUE_ATTR := AttrM(wire - {attribute})] == row[VALUE_ATTR := AttrM(wire - {attribute})];
  }

  lemma {:induction false} SetsOnRow(row: Row, t: TableKey, entries: Memory.Attributes, actions: seq<UpdateAction>)
    requires RowHolds(row, t, Map(entries)) && DistinctAttributes(actions) && Countable(entries, actions)
    ensures ApplySets(row, SetMeanings(actions)) == Some(row[VALUE_ATTR := AttrM(AfterSets(entries, actions))])
  {
    if actions == [] {
      EncodeMap(entries);
      assert row[VALUE_ATTR := AttrM(EncodeEntries(entries))] == row;
    } else {
      var front, last := actions[..|actions| - 1], actions[|actions| - 1];
      DistinctFront(actions);
      SetsOnRow(row, t, entries, front);
      MeaningsAppend(front, last);
      if last.Remove? {
        assert SetMeanings(actions) == SetMeanings(front);
      } else {
        OperandIsEffect(row, t, entries, last);
        SetsAppend(row, SetMeanings(front), SetMeaning(last)[0]);
        assert SetMeaning(last) == [SetMeaning(last)[0]];
        EntryWritten(row, AfterSets(entries, front), last.attribute, WireEffect(entries, last).value);
      }
    }
  }

  lemma SetsAppend(row: Row, sets: seq<Assignment<AttributeValue>>, a: Assignment<AttributeValue>)
    requires ApplySets(row, sets).Some? && Operand(row, a).Some?
    ensures ApplySets(row, sets + [a]) == SetAt(ApplySets(row, sets).value, a.path, Operand(row, a).value)
  {
    assert (sets + [a])[..|sets|] == sets;
  }

  lemma OperandIsEffect(row: Row, t: TableKey, entries: Memory.Attributes, a: UpdateAction)
    requires RowHolds(row, t, Map(entries)) && a.attribute != "" && !a.Remove?
    requires a.Increment? ==> IsNumber(entries, a.attribute)
    ensures Operand(row, SetMeaning(a)[0]) == WireEffect(entries, a)
  {
    if a.Increment? {
      Decimal.ParseRender(entries[a.attribute].number);
      Decimal.ParseRender(a.amount);
      EncodeMap(entries);
      assert Fetch(Some(row), ValuePathOf(a.attribute)) == Some(EncodeValue(entries[a.attribute]));
    }
  }

  lemma RemovedGrows(front: seq<UpdateAction>, last: UpdateAction)
    ensures Removed(front + [last]) == Removed(front) + if last.Remove? then {last.attribute} else {}
  {
    assert forall a :: a in front + [last] <==> a in front || a == last;
  }

  lemma RemovesAppend(row: Row, removes: seq<Path>, path: Path)
    requires ApplyRemoves(row, removes).Some?
    ensures ApplyRemoves(row, removes + [path]) == RemoveAt(ApplyRemoves(row, removes).value, path)
  {
    assert (removes + [path])[..|removes|] == removes;
  }

  lemma {:induction false} RemovesOnRow(row: Row, wire: map<string, AttributeValue>, actions: seq<UpdateAction>)
    requires DistinctAttributes(actions)
    ensures ApplyRemoves(row[VALUE_ATTR := AttrM(wire)], RemoveMeanings(actions)) ==
            Some(row[VALUE_ATTR := AttrM(wire - Removed(actions))])
  {
    if actions == [] {
      assert wire - Removed(actions) == wire;
    } else {
      var front, last := actions[..|actions| - 1], actions[|actions| - 1];
      DistinctFront(actions);
      RemovesOnRow(row, wire, front);
      RemovedGrows(front, last);
      MeaningsAppend(front, last);
      if last.Remove? {
        RemovesAppend(row[VALUE_ATTR := AttrM(wire)], RemoveMeanings(front), ValuePathOf(last.attribute));
        EntryWritten(row, wire - Removed(front), last.attribute, Other);
        assert wire - Removed(front) - {last.attribute} == wire - Removed(actions);
      } else {
        assert RemoveMeanings(actions) == RemoveMeanings(front);
        assert Removed(actions) == Removed(front);
      }
    }
  }

  /** A row at its key whose value attribute is a map of the given entries. */
  ghost predicate RowWith(row: Row, t: TableKey, wire: map<string, AttributeValue>) {
    && PK_ATTR in row && row[PK_ATTR] == AttrS(t.pk)
    && SK_ATTR in row && row[SK_ATTR] == AttrS(t.sk)
    && VALUE_ATTR in row && row[VALUE_ATTR] == AttrM(wire)
  }

  lemma NoopOnRow(row: Row)
    ensures Mutate(row, MutationMeaning([])) == Some(row[NOOP_MARKER_ATTR := AttrBool(true)])
  {
    var sets := MutationMeaning([]).sets;
    assert sets[..0] == [] && ApplySets(row, sets[..0]) == Some(row);
    assert ApplySets(row, sets) == Some(row[NOOP_MARKER_ATTR := AttrBool(true)]);
  }

  /** The row an update of a map-valued item leaves. */
  lemma MutateOnRow(row: Row, t: TableKey, entries: Memory.Attributes, actions: seq<UpdateAction>)
    requires RowHolds(row, t, Map(entries)) && DistinctAttributes(actions) && Countable(entries, actions)
    ensures Mutate(row, MutationMeaning(actions)).Some?
    ensures RowWith(Mutate(row, MutationMeaning(actions)).value, t, AfterUpdate(entries, actions))
  {
    if actions == [] {
      NoopOnRow(row);
      EncodeMap(entries);
      assert AfterUpdate(entries, actions) == EncodeEntries(entries);
    } else {
      SetsOnRow(row, t, entries, actions);
      RemovesOnRow(row, AfterSets(entries, actions), actions);
      assert Mutate(row, MutationMeaning(actions)) == Some(row[VALUE_ATTR := AttrM(AfterUpdate(entries, actions))]);
    }
  }

  lemma GuardAgrees(row: Row, t: TableKey, entries: Memory.Attributes, attribute: string)
    requires RowHolds(row, t, Map(entries)) && attribute != ""
    ensures Evaluate(Some(row), GuardMeaning(attribute)) <==> IsNumber(entries, attribute)
  {
    EncodeMap(entries);
    assert Fetch(Some(row), ValuePathOf(attribute)) == WireEntry(EncodeEntries(entries), attribute);
  }

  lemma {:induction false} GuardsAgree(row: Row, t: TableKey, entries: Memory.Attributes, base: Clause<AttributeValue>,
                                       actions: seq<UpdateAction>)
    requires RowHolds(row, t, Map(entries)) && DistinctAttributes(actions)
    ensures Evaluate(Some(row), Joined(base, GuardMeanings(actions))) <==>
            Evaluate(Some(row), base) && Countable(entries, actions)
  {
    if actions != [] {
      var front, last := actions[..|actions| - 1], actions[|actions| - 1];
      DistinctFront(actions);
      assert actions == front + [last];
      GuardsAgree(row, t, entries, base, front);
      CountableAppend(entries, front, last);
      GuardsJoin(base, front, last);
      if last.Increment? {
        GuardAgrees(row, t, entries, last.attribute);
      }
    }
  }

  /** The guards of one more action, joined to those before. */
  lemma GuardsJoin(base: Clause<AttributeValue>, front: seq<UpdateAction>, last: UpdateAction)
    ensures Joined(base, GuardMeanings(front + [last])) ==
            if last.Increment? then And(Joined(base, GuardMeanings(front)), GuardMeaning(last.attribute))
            else Joined(base, GuardMeanings(front))
  {
    MeaningsAppend(front, last);
    if last.Increment? {
      JoinedAppend(base, GuardMeanings(front), GuardMeaning(last.attribute));
    } else {
      assert GuardMeanings(front) + [] == GuardMeanings(front);
    }
  }

  lemma OutOfRangeAppend(entries: Memory.Attributes, front: seq<UpdateAction>, last: UpdateAction)
    ensures OutOfRange(entries, front + [last]) <==>
            || OutOfRange(entries, front)
            || (last.Increment? && IsNumber(entries, last.attribute) &&
                entries[last.attribute].number + last.amount > U64_MAX)
  {
    assert forall a :: a in front + [last] <==> a in front || a == last;
  }

  lemma CountableAppend(entries: Memory.Attributes, front: seq<UpdateAction>, last: UpdateAction)
    ensures Countable(entries, front + [last]) <==>
            Countable(entries, front) && (last.Increment? ==> IsNumber(entries, last.attribute))
  {
    assert forall a :: a in front + [last] <==> a in front || a == last;
  }

  lemma JoinedAppend(base: Clause<AttributeValue>, guards: seq<Clause<AttributeValue>>, guard: Clause<AttributeValue>)
    ensures Joined(base, guards + [guard]) == And(Joined(base, guards), guard)
  {
    assert (guards + [guard])[..|guards|] == guards;
  }

  lemma {:induction false} MissingRowFails(base: Clause<AttributeValue>, guards: seq<Clause<AttributeValue>>)
    requires !Evaluate(None, base)
    ensures !Evaluate(None, Joined(base, guards))
  {
    if guards != [] {
      MissingRowFails(base, guards[..|guards| - 1]);
    }
  }

  lemma UpdateConditionAgrees(row: Option<Row>, t: TableKey, value: Option<Value>, conditions: seq<Condition>,
                              actions: seq<UpdateAction>)
    requires Matches(row, t, value) && (value.Some? ==> value.value.Map?) && DistinctAttributes(actions)
    ensures Evaluate(row, UpdateConditionMeaning(conditions, actions)) <==>
            value.Some? && Memory.AllHold(value, conditions) && Countable(value.value.entries, actions)
  {
    var exist := AttributeExists(Top(PK_ATTR));
    var base := if conditions == [] then exist else And(exist, ConditionsMeaning(conditions));
    if conditions != [] {
      ConditionsAgree(row, t, value, conditions);
    }
    if row.None? {
      MissingRowFails(base, GuardMeanings(actions));
    } else {
      GuardsAgree(row.value, t, value.value.entries, base, actions);
    }
  }

  // ----- No two paths of such an update overlap -----

  lemma DisjointInsert(paths: seq<Path>, k: nat, p: Path)
    requires k <= |paths| && Disjoint(paths)
    requires forall q | q in paths :: !Overlap(q, p)
    ensures Disjoint(paths[..k] + [p] + paths[k..])
  {
    var all := paths[..k] + [p] + paths[k..];
    forall i, j | 0 <= i < j < |all| ensures !Overlap(all[i], all[j]) {
      if i < k { assert all[i] == paths[i] && all[i] in paths; }
      if i > k { assert all[i] == paths[i - 1]; }
      if j < k { assert all[j] == paths[j]; }
      if j > k { assert all[j] == paths[j - 1] && all[j] in paths; }
    }
  }

  function MeaningOf(actions: seq<UpdateAction>): Mutation<AttributeValue> {
    Mutation(SetMeanings(actions), RemoveMeanings(actions))
  }

  /** Every path is the one of some action. */
  ghost predicate PathsOf(paths: seq<Path>, actions: seq<UpdateAction>) {
    forall p | p in paths :: exists a :: a in actions && p == ValuePathOf(a.attribute)
  }

  lemma PathsInsert(paths: seq<Path>, k: nat, front: seq<UpdateAction>, last: UpdateAction)
    requires k <= |paths| && Disjoint(paths) && PathsOf(paths, front)
    requires DistinctAttributes(front + [last])
    ensures Disjoint(paths[..k] + [ValuePathOf(last.attribute)] + paths[k..])
    ensures PathsOf(paths[..k] + [ValuePathOf(last.attribute)] + paths[k..], front + [last])
  {
    var actions, p := front + [last], ValuePathOf(last.attribute);
    assert last in actions && actions[..|front|] == front;
    DistinctFront(actions);
    forall q | q in paths ensures !Overlap(q, p) && exists a :: a in actions && q == ValuePathOf(a.attribute) {
      var a :| a in front && q == ValuePathOf(a.attribute);
      assert a in actions;
    }
    DisjointInsert(paths, k, p);
    assert forall q :: q in paths[..k] + [p] + paths[k..] <==> q in paths || q == p;
  }

  lemma TargetsAppend(front: seq<UpdateAction>, last: UpdateAction)
    ensures var n := MeaningOf(front);
            var k := if last.Remove? then |Targets(n)| else |n.sets|;
            Targets(MeaningOf(front + [last])) == Targets(n)[..k] + [ValuePathOf(last.attribute)] + Targets(n)[k..]
  {
    MeaningsAppend(front, last);
  }

  lemma {:induction false} PathsDisjoint(actions: seq<UpdateAction>)
    requires DistinctAttributes(actions)
    ensures Disjoint(Targets(MeaningOf(actions))) && PathsOf(Targets(MeaningOf(actions)), actions)
  {
    if actions != [] {
      var front, last := actions[..|actions| - 1], actions[|actions| - 1];
      DistinctFront(actions);
      PathsDisjoint(front);
      var n := MeaningOf(front);
      TargetsAppend(front, last);
      PathsInsert(Targets(n), if last.Remove? then |Targets(n)| else |n.sets|, front, last);
    }
  }

  lemma UpdateValid(t: TableKey, actions: seq<UpdateAction>, condition: Clause<AttributeValue>)
    requires t.pk != "" && t.sk != "" && DistinctAttributes(actions)
    ensures StaticallyValid(Meant(t, UpdateRow(MutationMeaning(actions)), Some(condition)))
  {
    PathsDisjoint(actions);
  }

  // ----- One call on both backends -----

  /** The updates on which the two backends are meant to agree: an absent or
      map-valued item, and named, pairwise different attributes. */
  ghost predicate Updatable(store: Memory.Store, key: Key, actions: seq<UpdateAction>) {
    (key in store ==> store[key].Map?) && DistinctAttributes(actions)
  }

  /** An update that gets past every condition and every guard, and then leaves
      the 64-bit range. */
  ghost predicate Overflows(store: Memory.Store, key: Key, actions: seq<UpdateAction>, conditions: seq<Condition>) {
    && key in store && store[key].Map?
    && Memory.AllHold(Some(store[key]), conditions)
    && Countable(store[key].entries, actions) && OutOfRange(store[key].entries, actions)
  }

  lemma GetAgrees(table: Table, store: Memory.Store, key: Key)
    requires Represents(table, store) && SplitKey(key).Some?
    ensures Dynamo.GetOp(table, key) == Memory.GetOp(store, key)
  {
    RowMatches(table, store, key, SplitKey(key).value);
    if key in store {
      DecodeEncodeValue(store[key]);
    }
  }

  lemma PutAgrees(table: Table, store: Memory.Store, key: Key, value: Value, conditions: seq<Condition>)
    requires Represents(table, store) && SplitKey(key).Some?
    ensures var d, m := Dynamo.PutOp(table, key, value, conditions), Memory.PutOp(store, key, value, conditions);
            d.result == m.result && Represents(d.table, m.store)
  {
    var t := SplitKey(key).value;
    var meant := Dynamo.MeantOf(Put(key, value, conditions)).value;
    CallerConditionAgrees(table, store, key, meant, conditions);
    WriteKeeps(table, store, key, t, Some(Dynamo.RowFor(t, value)), Some(value));
  }

  /** What the request of an update does, against what the reference does. */
  lemma UpdateEffects(table: Table, store: Memory.Store, key: Key, t: TableKey, actions: seq<UpdateAction>,
                      conditions: seq<Condition>)
    requires Represents(table, store) && SplitKey(key) == Some(t) && Updatable(store, key, actions)
    ensures var m := Dynamo.MeantOf(Update(key, actions, conditions)).value;
            && StaticallyValid(m)
            && (ConditionHolds(table, m) <==>
                  && key in store
                  && Memory.AllHold(Some(store[key]), conditions)
                  && Countable(store[key].entries, actions))
            && (ConditionHolds(table, m) ==> t in table && RowHolds(table[t], t, store[key]))
  {
    RowMatches(table, store, key, t);
    UpdateConditionAgrees(RowAt(table, t), t, Memory.Lookup(store, key), conditions, actions);
    UpdateValid(t, actions, UpdateConditionMeaning(conditions, actions));
  }

  /** Within range, the row left behind holds the reference result. */
  lemma UpdatedRowHolds(row: Row, t: TableKey, entries: Memory.Attributes, actions: seq<UpdateAction>)
    requires RowHolds(row, t, Map(entries)) && DistinctAttributes(actions)
    requires Countable(entries, actions) && !OutOfRange(entries, actions)
    ensures Memory.Updated(Map(entries), actions).Some?
    ensures Mutate(row, MutationMeaning(actions)).Some?
    ensures RowHolds(Mutate(row, MutationMeaning(actions)).value, t, Memory.Updated(Map(entries), actions).value)
  {
    MutateOnRow(row, t, entries, actions);
    SectionsEqualOrder(entries, actions);
    EncodeMap(Memory.ApplyActions(entries, actions).value);
  }

  lemma UpdateRefused(table: Table, store: Memory.Store, key: Key, actions: seq<UpdateAction>,
                      conditions: seq<Condition>)
    requires Represents(table, store) && SplitKey(key).Some?
    requires var m := Dynamo.MeantOf(Update(key, actions, conditions)).value;
             StaticallyValid(m) && !ConditionHolds(table, m)
    ensures Dynamo.AtomicUpdateOp(table, key, actions, conditions) ==
            Dynamo.Outcome(table, Err(if key in store then ConditionFailed else NotFound(key)))
  {
    GetAgrees(table, store, key);
  }

  lemma UpdateStored(table: Table, key: Key, t: TableKey, actions: seq<UpdateAction>, conditions: seq<Condition>,
                     row: Row, value: Value)
    requires SplitKey(key) == Some(t) && t in table
    requires var m := Dynamo.MeantOf(Update(key, actions, conditions)).value;
             StaticallyValid(m) && ConditionHolds(table, m)
    requires Mutate(table[t], MutationMeaning(actions)) == Some(row) && RowHolds(row, t, value)
    ensures Dynamo.AtomicUpdateOp(table, key, actions, conditions) ==
            Dynamo.Outcome(table[t := row], Ok(Item(key, value)))
  {
    DecodeEncodeValue(value);
  }

  /** What the reference does with an update that does not overflow. */
  lemma MemoryUpdates(store: Memory.Store, key: Key, actions: seq<UpdateAction>, conditions: seq<Condition>)
    requires Updatable(store, key, actions) && !Overflows(store, key, actions, conditions)
    ensures if key in store && Memory.AllHold(Some(store[key]), conditions) && Countable(store[key].entries, actions)
            then && Memory.Updated(store[key], actions).Some?
                 && var value := Memory.Updated(store[key], actions).value;
                    Memory.AtomicUpdateOp(store, key, actions, conditions) ==
                    Memory.Outcome(store[key := value], Ok(Item(key, value)))
            else Memory.AtomicUpdateOp(store, key, actions, conditions) ==
                 Memory.Outcome(store, Err(if key in store then ConditionFailed else NotFound(key)))
  {
    if key in store {
      MemoryPointwise(store[key].entries, actions);
    }
  }

  /** The two backends answer an update alike, and stay related, unless the
      update overflows. */
  lemma UpdateAgrees(table: Table, store: Memory.Store, key: Key, actions: seq<UpdateAction>,
                     conditions: seq<Condition>)
    requires Represents(table, store) && SplitKey(key).Some? && Updatable(store, key, actions)
    requires !Overflows(store, key, actions, conditions)
    ensures var d := Dynamo.AtomicUpdateOp(table, key, actions, conditions);
            var m := Memory.AtomicUpdateOp(store, key, actions, conditions);
            d.result == m.result && Represents(d.table, m.store)
  {
    var t := SplitKey(key).value;
    UpdateEffects(table, store, key, t, actions, conditions);
    MemoryUpdates(store, key, actions, conditions);
    if ConditionHolds(table, Dynamo.MeantOf(Update(key, actions, conditions)).value) {
      UpdatedRowHolds(table[t], t, store[key].entries, actions);
      var row, value := Mutate(table[t], MutationMeaning(actions)).value, Memory.Updated(store[key], actions).value;
      UpdateStored(table, key, t, actions, conditions, row, value);
      WriteKeeps(table, store, key, t, Some(row), Some(value));
    } else {
      UpdateRefused(table, store, key, actions, conditions);
    }
  }

  /** The documented difference, exactly: the answers differ if and only if the
      update overflows. Then the reference refuses and writes nothing, while the
      table is left with a row that no store value encodes. */
  lemma UpdateDiffersIff(table: Table, store: Memory.Store, key: Key, actions: seq<UpdateAction>,
                         conditions: seq<Condition>)
    requires Represents(table, store) && SplitKey(key).Some? && Updatable(store, key, actions)
    ensures var d := Dynamo.AtomicUpdateOp(table, key, actions, conditions);
            var m := Memory.AtomicUpdateOp(store, key, actions, conditions);
            && (d.result != m.result <==> Overflows(store, key, actions, conditions))
            && (Overflows(store, key, actions, conditions) ==>
                  && m.result == Err(ConditionFailed) && m.store == store
                  && d.result == Err(Dynamo.TERMINAL) && Dynamo.GetOp(d.table, key) == Err(Dynamo.TERMINAL))
  {
    if Overflows(store, key, actions, conditions) {
      OverflowDiverges(table, store, key, SplitKey(key).value, actions, conditions);
      MemoryPointwise(store[key].entries, actions);
    } else {
      UpdateAgrees(table, store, key, actions, conditions);
    }
  }

  lemma OverflowDiverges(table: Table, store: Memory.Store, key: Key, t: TableKey, actions: seq<UpdateAction>,
                         conditions: seq<Condition>)
    requires Represents(table, store) && SplitKey(key) == Some(t) && Updatable(store, key, actions)
    requires Overflows(store, key, actions, conditions)
    ensures var d := Dynamo.AtomicUpdateOp(table, key, actions, conditions);
            d.result == Err(Dynamo.TERMINAL) && Dynamo.GetOp(d.table, key) == Err(Dynamo.TERMINAL)
  {
    UpdateEffects(table, store, key, t, actions, conditions);
    OverflowedRow(table[t], t, key, store[key].entries, actions);
    UndecodableStored(table, key, t, actions, conditions, Mutate(table[t], MutationMeaning(actions)).value);
  }

  lemma UndecodableStored(table: Table, key: Key, t: TableKey, actions: seq<UpdateAction>, conditions: seq<Condition>,
                          row: Row)
    requires SplitKey(key) == Some(t) && t in table
    requires var m := Dynamo.MeantOf(Update(key, actions, conditions)).value;
             StaticallyValid(m) && ConditionHolds(table, m)
    requires Mutate(table[t], MutationMeaning(actions)) == Some(row)
    requires Dynamo.DecodeItem(key, row) == Err(Dynamo.TERMINAL)
    ensures var d := Dynamo.AtomicUpdateOp(table, key, actions, conditions);
            d.result == Err(Dynamo.TERMINAL) && Dynamo.GetOp(d.table, key) == Err(Dynamo.TERMINAL)
  {
  }

  // ----- Transactions on both backends -----

  /** An operation both backends accept for judging. */
  ghost predicate Shaped(store: Memory.Store, op: Operation) {
    SplitKey(op.key).Some? && (op.Update? ==> Updatable(store, op.key, op.actions))
  }

  ghost predicate OpOverflows(store: Memory.Store, op: Operation) {
    op.Update? && Overflows(store, op.key, op.actions, op.conditions)
  }

  /** An operation on which the backends are meant to agree. */
  ghost predicate Simple(store: Memory.Store, op: Operation) {
    Shaped(store, op) && !OpOverflows(store, op)
  }

  ghost predicate ShapedTransaction(store: Memory.Store, ops: seq<Operation>) {
    && ops != [] && Transactions.DistinctKeys(ops) && Dynamo.Splittable(ops)
    && forall op | op in ops :: Shaped(store, op)
  }

  ghost predicate SimpleTransaction(store: Memory.Store, ops: seq<Operation>) {
    ShapedTransaction(store, ops) && forall op | op in ops :: Simple(store, op)
  }

  /** Same verdict, matching effect. */
  ghost predicate Agrees(table: Table, store: Memory.Store, op: Operation, m: Meant) {
    && StaticallyValid(m)
    && (ConditionHolds(table, m) <==> Memory.Plan(store, op).Some?)
    && (ConditionHolds(table, m) ==>
          && NewRow(table, m).Some?
          && Matches(NewRow(table, m).value, m.key, Transactions.Effect(store, op)))
  }

  lemma UpdatePlans(store: Memory.Store, op: Operation)
    requires op.Update? && Updatable(store, op.key, op.actions)
    requires !Overflows(store, op.key, op.actions, op.conditions)
    ensures Memory.Plan(store, op).Some? <==>
            && op.key in store
            && Memory.AllHold(Some(store[op.key]), op.conditions)
            && Countable(store[op.key].entries, op.actions)
    ensures Memory.Plan(store, op).Some? ==>
              Memory.Updated(store[op.key], op.actions).Some?
              && Transactions.Effect(store, op) == Memory.Updated(store[op.key], op.actions)
  {
    if op.key in store {
      MemoryPointwise(store[op.key].entries, op.actions);
    }
  }

  lemma UpdateVerdictAgrees(table: Table, store: Memory.Store, op: Operation)
    requires Represents(table, store) && Simple(store, op) && op.Update?
    ensures var m := Dynamo.MeantOf(op).value;
            && StaticallyValid(m)
            && (ConditionHolds(table, m) <==> Memory.Plan(store, op).Some?)
            && (ConditionHolds(table, m) ==> m.key in table && RowHolds(table[m.key], m.key, store[op.key]))
  {
    UpdateEffects(table, store, op.key, SplitKey(op.key).value, op.actions, op.conditions);
    UpdatePlans(store, op);
  }

  lemma UpdateOperationAgrees(table: Table, store: Memory.Store, op: Operation)
    requires Represents(table, store) && Simple(store, op) && op.Update?
    ensures Agrees(table, store, op, Dynamo.MeantOf(op).value)
  {
    var t := SplitKey(op.key).value;
    UpdateVerdictAgrees(table, store, op);
    if Memory.Plan(store, op).Some? {
      UpdateEffectMatches(table, store, op, t);
    }
  }

  lemma UpdateEffectMatches(table: Table, store: Memory.Store, op: Operation, t: TableKey)
    requires Simple(store, op) && op.Update? && SplitKey(op.key) == Some(t) && Memory.Plan(store, op).Some?
    requires t in table && RowHolds(table[t], t, store[op.key])
    ensures var m := Dynamo.MeantOf(op).value;
            NewRow(table, m).Some? && Matches(NewRow(table, m).value, t, Transactions.Effect(store, op))
  {
    UpdatePlans(store, op);
    NewRowOfUpdate(table, op, t);
    UpdatedRowHolds(table[t], t, store[op.key].entries, op.actions);
  }

  lemma NewRowOfUpdate(table: Table, op: Operation, t: TableKey)
    requires op.Update? && SplitKey(op.key) == Some(t) && t in table
    ensures NewRow(table, Dynamo.MeantOf(op).value) ==
            match Mutate(table[t], MutationMeaning(op.actions)) case None => None case Some(row) => Some(Some(row))
  {
  }

  lemma CheckConditionAgrees(table: Table, store: Memory.Store, key: Key, conditions: seq<Condition>, m: Meant)
    requires Represents(table, store) && SplitKey(key) == Some(m.key)
    requires m.condition == if conditions == [] then Some(Dynamo.Tautology()) else Dynamo.CallerCondition(conditions)
    ensures ConditionHolds(table, m) <==> Memory.AllHold(Memory.Lookup(store, key), conditions)
  {
    if conditions == [] {
      TautologyHolds(RowAt(table, m.key));
    } else {
      CallerConditionAgrees(table, store, key, m, conditions);
    }
  }

  lemma TautologyHolds(row: Option<Row>)
    ensures Evaluate(row, Dynamo.Tautology())
  {
    assert Evaluate(row, AttributeExists(Top(PK_ATTR))) || Evaluate(row, AttributeNotExists(Top(PK_ATTR)));
  }

  lemma CheckOperationAgrees(table: Table, store: Memory.Store, op: Operation)
    requires Represents(table, store) && Simple(store, op) && op.ConditionCheck?
    ensures Agrees(table, store, op, Dynamo.MeantOf(op).value)
  {
    var m := Dynamo.MeantOf(op).value;
    CheckConditionAgrees(table, store, op.key, op.conditions, m);
    SplitRenderInverse(op.key, m.key);
    assert StaticallyValid(m);
    assert NewRow(table, m) == Some(RowAt(table, m.key));
    if Memory.Plan(store, op).Some? {
      assert Transactions.Effect(store, op) == Memory.Lookup(store, op.key);
    }
    RowMatches(table, store, op.key, m.key);
  }

  lemma WriteOperationAgrees(table: Table, store: Memory.Store, op: Operation)
    requires Represents(table, store) && Simple(store, op) && (op.Put? || op.Delete?)
    ensures Agrees(table, store, op, Dynamo.MeantOf(op).value)
  {
    CallerConditionAgrees(table, store, op.key, Dynamo.MeantOf(op).value, op.conditions);
  }

  /** One operation of a transaction, judged by both backends in related states. */
  lemma OperationAgrees(table: Table, store: Memory.Store, op: Operation)
    requires Represents(table, store) && Simple(store, op)
    ensures Agrees(table, store, op, Dynamo.MeantOf(op).value)
  {
    match op
    case Update(_, _, _) => UpdateOperationAgrees(table, store, op);
    case ConditionCheck(_, _) => CheckOperationAgrees(table, store, op);
    case _ => WriteOperationAgrees(table, store, op);
  }

  /** Storing the last operation's row matches applying its planned write. */
  lemma LastCommitAgrees(table: Table, store: Memory.Store, front: seq<Operation>, last: Operation, before: Table)
    requires Represents(table, store) && Simple(store, last) && Memory.Plan(store, last).Some?
    requires Memory.AllPlannable(store, front) && Transactions.DistinctKeys(front + [last])
    requires Represents(before, Memory.ApplyPlans(store, front))
    ensures var m := Dynamo.MeantOf(last).value;
            && NewRow(table, m).Some?
            && Represents(Store(before, m.key, NewRow(table, m).value),
                          Memory.Apply(Memory.ApplyPlans(store, front), Memory.Plan(store, last).value))
  {
    OperationAgrees(table, store, last);
    var m := Dynamo.MeantOf(last).value;
    var planned := Memory.ApplyPlans(store, front);
    var effect := Transactions.Effect(store, last);
    assert SplitKey(last.key) == Some(m.key);
    WriteKeeps(before, planned, last.key, m.key, NewRow(table, m).value, effect);
    DistinctFromLast(front, last);
    Transactions.CommitPointwise(store, front, last.key);
    EffectIsApplied(store, planned, last);
  }

  lemma EffectIsApplied(store: Memory.Store, planned: Memory.Store, op: Operation)
    requires Memory.Plan(store, op).Some?
    requires Memory.Lookup(planned, op.key) == Memory.Lookup(store, op.key)
    ensures SetItem(planned, op.key, Transactions.Effect(store, op)) ==
            Memory.Apply(planned, Memory.Plan(store, op).value)
  {
  }

  lemma DistinctFromLast(front: seq<Operation>, last: Operation)
    requires Transactions.DistinctKeys(front + [last])
    ensures Transactions.OneOperationPerKey(front)
    ensures forall op | op in front :: op.key != last.key
  {
    var all := front + [last];
    assert forall i | 0 <= i < |front| :: all[i] == front[i];
    assert Transactions.DistinctKeys(front);
    Transactions.DistinctImpliesOnePerKey(front);
    forall op | op in front ensures op.key != last.key {
      var i :| 0 <= i < |front| && front[i] == op;
      assert all[i] == op && all[|front|] == last;
    }
  }

  lemma MeantAllAppend(front: seq<Operation>, last: Operation)
    requires Dynamo.Splittable(front + [last])
    ensures Dynamo.Splittable(front)
    ensures Dynamo.MeantAll(front + [last]) == Dynamo.MeantAll(front) + [Dynamo.MeantOf(last).value]
  {
    assert forall op | op in front :: op in front + [last];
  }

  lemma StoreAllAppend(before: Table, front: seq<Meant>, last: Meant)
    requires forall m | m in front + [last] :: NewRow(before, m).Some?
    ensures forall m | m in front :: NewRow(before, m).Some?
    ensures NewRow(before, last).Some?
    ensures StoreAll(before, front + [last]) == Store(StoreAll(before, front), last.key, NewRow(before, last).value)
  {
    assert forall m | m in front :: m in front + [last];
    assert last in front + [last];
    assert (front + [last])[..|front|] == front;
  }

  lemma {:induction false} CommitsAgree(table: Table, store: Memory.Store, ops: seq<Operation>)
    requires Represents(table, store) && Transactions.DistinctKeys(ops) && forall op | op in ops :: Simple(store, op)
    requires Dynamo.Splittable(ops) && Memory.AllPlannable(store, ops)
    ensures forall m | m in Dynamo.MeantAll(ops) :: NewRow(table, m).Some?
    ensures Represents(StoreAll(table, Dynamo.MeantAll(ops)), Memory.ApplyPlans(store, ops))
  {
    if ops != [] {
      var front, last := ops[..|ops| - 1], ops[|ops| - 1];
      assert ops == front + [last];
      MeantAllAppend(front, last);
      CommitsAgree(table, store, front);
      LastCommitAgrees(table, store, front, last, StoreAll(table, Dynamo.MeantAll(front)));
      StoreAllAppend(table, Dynamo.MeantAll(front), Dynamo.MeantOf(last).value);
    }
  }

  /** Requests the service accepts as one transaction. */
  ghost predicate ValidTransaction(ms: seq<Meant>) {
    && ms != []
    && (forall i, j | 0 <= i < j < |ms| :: ms[i].key != ms[j].key)
    && (forall m | m in ms :: StaticallyValid(m))
  }

  lemma TransactionCommits(table: Table, ms: seq<Meant>)
    requires ValidTransaction(ms)
    requires forall m | m in ms :: ConditionHolds(table, m)
    requires forall m | m in ms :: NewRow(table, m).Some?
    ensures PerformAll(table, ms) == Answer(StoreAll(table, ms), Ok(Unit.Unit))
  {
  }

  lemma TransactionRefused(table: Table, ms: seq<Meant>, m: Meant)
    requires ValidTransaction(ms)
    requires m in ms && !ConditionHolds(table, m)
    ensures PerformAll(table, ms) == Answer(table, Err(ConditionalCheckFailed))
  {
  }

  /** What the service makes of an operation that overflows: it accepts it and
      would store a row that does not decode. The reference plans nothing. */
  lemma OverflowAccepted(table: Table, store: Memory.Store, op: Operation)
    requires Represents(table, store) && Shaped(store, op) && OpOverflows(store, op)
    ensures var m := Dynamo.MeantOf(op).value;
            && StaticallyValid(m) && ConditionHolds(table, m)
            && NewRow(table, m).Some? && NewRow(table, m).value.Some?
            && Dynamo.DecodeItem(op.key, NewRow(table, m).value.value) == Err(Dynamo.TERMINAL)
  {
    var t, entries := SplitKey(op.key).value, store[op.key].entries;
    UpdateEffects(table, store, op.key, t, op.actions, op.conditions);
    NewRowOfUpdate(table, op, t);
    OverflowedRow(table[t], t, op.key, entries, op.actions);
  }

  lemma OverflowUnplanned(store: Memory.Store, op: Operation)
    requires Shaped(store, op) && OpOverflows(store, op)
    ensures Memory.Plan(store, op).None?
  {
    MemoryPointwise(store[op.key].entries, op.actions);
  }

  lemma OverflowedRow(row: Row, t: TableKey, key: Key, entries: Memory.Attributes, actions: seq<UpdateAction>)
    requires RowHolds(row, t, Map(entries)) && DistinctAttributes(actions)
    requires Countable(entries, actions) && OutOfRange(entries, actions)
    ensures Mutate(row, MutationMeaning(actions)).Some?
    ensures Dynamo.DecodeItem(key, Mutate(row, MutationMeaning(actions)).value) == Err(Dynamo.TERMINAL)
  {
    MutateOnRow(row, t, entries, actions);
    OverflowUndecodable(entries, actions);
  }

  /** The service's verdict on any operation it can judge. */
  lemma Verdict(table: Table, store: Memory.Store, op: Operation)
    requires Represents(table, store) && Shaped(store, op)
    ensures var m := Dynamo.MeantOf(op).value;
            && m.key == SplitKey(op.key).value
            && StaticallyValid(m)
            && (ConditionHolds(table, m) <==> Memory.Plan(store, op).Some? || OpOverflows(store, op))
            && (ConditionHolds(table, m) ==> NewRow(table, m).Some?)
    ensures OpOverflows(store, op) ==> Memory.Plan(store, op).None?
  {
    if OpOverflows(store, op) {
      OverflowAccepted(table, store, op);
      OverflowUnplanned(store, op);
    } else {
      OperationAgrees(table, store, op);
    }
  }

  lemma MeantAllValid(table: Table, store: Memory.Store, ops: seq<Operation>)
    requires Represents(table, store) && ShapedTransaction(store, ops)
    ensures ValidTransaction(Dynamo.MeantAll(ops))
  {
    var ms := Dynamo.MeantAll(ops);
    forall i, j | 0 <= i < j < |ms| ensures ms[i].key != ms[j].key {
      assert ops[i] in ops && ops[j] in ops;
      if SplitKey(ops[i].key) == SplitKey(ops[j].key) {
        SplitInjective(ops[i].key, ops[j].key);
      }
    }
    forall m | m in ms ensures StaticallyValid(m) {
      var i :| 0 <= i < |ms| && ms[i] == m;
      assert ops[i] in ops;
      Verdict(table, store, ops[i]);
    }
  }

  /** Every operation passes its conditions and guards. */
  ghost predicate AllAccepted(store: Memory.Store, ops: seq<Operation>) {
    forall op | op in ops :: Memory.Plan(store, op).Some? || OpOverflows(store, op)
  }

  lemma MeantAllHold(table: Table, store: Memory.Store, ops: seq<Operation>)
    requires Represents(table, store) && ShapedTransaction(store, ops)
    ensures AllAccepted(store, ops) <==> forall m | m in Dynamo.MeantAll(ops) :: ConditionHolds(table, m)
    ensures AllAccepted(store, ops) ==> forall m | m in Dynamo.MeantAll(ops) :: NewRow(table, m).Some?
  {
    var ms := Dynamo.MeantAll(ops);
    forall op | op in ops ensures Dynamo.MeantOf(op).value in ms {
      MeantIn(ops, op);
    }
    forall m | m in ms ensures exists op :: op in ops && Dynamo.MeantOf(op).value == m {
      var i :| 0 <= i < |ms| && ms[i] == m;
      assert ops[i] in ops && Dynamo.MeantOf(ops[i]).value == m;
    }
    forall op | op in ops
      ensures ConditionHolds(table, Dynamo.MeantOf(op).value) <==>
              Memory.Plan(store, op).Some? || OpOverflows(store, op)
      ensures ConditionHolds(table, Dynamo.MeantOf(op).value) ==> NewRow(table, Dynamo.MeantOf(op).value).Some? {
      Verdict(table, store, op);
    }
  }

  lemma MeantIn(ops: seq<Operation>, op: Operation)
    requires Dynamo.Splittable(ops) && op in ops
    ensures Dynamo.MeantOf(op).value in Dynamo.MeantAll(ops)
  {
    var i :| 0 <= i < |ops| && ops[i] == op;
    assert Dynamo.MeantAll(ops)[i] == Dynamo.MeantOf(op).value;
  }

  /** The verdict of the service on a whole transaction. */
  lemma TransactVerdict(table: Table, store: Memory.Store, ops: seq<Operation>)
    requires Represents(table, store) && ShapedTransaction(store, ops)
    ensures if AllAccepted(store, ops)
            then && (forall m | m in Dynamo.MeantAll(ops) :: NewRow(table, m).Some?)
                 && Dynamo.TransactOp(table, ops) ==
                    Dynamo.Outcome(StoreAll(table, Dynamo.MeantAll(ops)), Ok(Unit.Unit))
            else Dynamo.TransactOp(table, ops) == Dynamo.Outcome(table, Err(ConditionFailed))
  {
    var ms := Dynamo.MeantAll(ops);
    MeantAllValid(table, store, ops);
    MeantAllHold(table, store, ops);
    if AllAccepted(store, ops) {
      TransactionCommits(table, ms);
      OutcomeIs(table, ops, Answer(StoreAll(table, ms), Ok(Unit.Unit)));
    } else {
      var m :| m in ms && !ConditionHolds(table, m);
      TransactionRefused(table, ms, m);
      OutcomeIs(table, ops, Answer(table, Err(ConditionalCheckFailed)));
    }
  }

  lemma OutcomeIs(table: Table, ops: seq<Operation>, answer: Answer<Unit>)
    requires Dynamo.Splittable(ops) && PerformAll(table, Dynamo.MeantAll(ops)) == answer
    ensures Dynamo.TransactOp(table, ops) ==
            Dynamo.Outcome(answer.table,
                           if answer.result.Ok? then Ok(Unit.Unit) else Err(Dynamo.MapError(answer.result.error)))
  {
  }

  lemma TransactAgrees(table: Table, store: Memory.Store, ops: seq<Operation>)
    requires Represents(table, store) && SimpleTransaction(store, ops)
    ensures var d, m := Dynamo.TransactOp(table, ops), Memory.TransactOp(store, ops);
            d.result == m.result && Represents(d.table, m.store)
  {
    TransactVerdict(table, store, ops);
    assert AllAccepted(store, ops) <==> Memory.AllPlannable(store, ops);
    if Memory.AllPlannable(store, ops) {
      CommitsAgree(table, store, ops);
    }
  }

  /** Row by row, a committed transaction stores what each request computed from
      the table before it. */
  lemma {:induction false} StoreAllPointwise(before: Table, ms: seq<Meant>, t: TableKey)
    requires forall m | m in ms :: NewRow(before, m).Some?
    requires forall i, j | 0 <= i < j < |ms| :: ms[i].key != ms[j].key
    ensures forall m | m in ms && m.key == t :: RowAt(StoreAll(before, ms), t) == NewRow(before, m).value
    ensures (forall m | m in ms :: m.key != t) ==> RowAt(StoreAll(before, ms), t) == RowAt(before, t)
  {
    if ms != [] {
      var front, last := ms[..|ms| - 1], ms[|ms| - 1];
      assert ms == front + [last];
      StoreAllPointwise(before, front, t);
      assert forall m | m in front :: m.key != last.key;
    }
  }

  /** What a read of one key finds after the transaction. */
  function AfterEffect(store: Memory.Store, op: Operation): Result<Item, CloudError>
    requires Memory.Plan(store, op).Some?
  {
    match Transactions.Effect(store, op)
    case Some(value) => Ok(Item(op.key, value))
    case None => Err(NotFound(op.key))
  }

  lemma StoredByOperation(table: Table, store: Memory.Store, ops: seq<Operation>, op: Operation)
    requires Represents(table, store) && ShapedTransaction(store, ops) && AllAccepted(store, ops) && op in ops
    ensures var after := Dynamo.TransactOp(table, ops).table;
            Dynamo.GetOp(after, op.key) ==
            if OpOverflows(store, op) then Err(Dynamo.TERMINAL) else AfterEffect(store, op)
  {
    var ms, m := Dynamo.MeantAll(ops), Dynamo.MeantOf(op).value;
    TransactVerdict(table, store, ops);
    MeantAllValid(table, store, ops);
    var i :| 0 <= i < |ops| && ops[i] == op;
    assert ms[i] == m && m in ms;
    Verdict(table, store, op);
    StoreAllPointwise(table, ms, m.key);
    if OpOverflows(store, op) {
      OverflowAccepted(table, store, op);
    } else {
      OperationAgrees(table, store, op);
      if Transactions.Effect(store, op).Some? {
        DecodeEncodeValue(Transactions.Effect(store, op).value);
      }
    }
  }

  lemma OtherKeysUntouched(table: Table, store: Memory.Store, ops: seq<Operation>, key: Key)
    requires Represents(table, store) && ShapedTransaction(store, ops) && AllAccepted(store, ops)
    requires SplitKey(key).Some? && forall op | op in ops :: op.key != key
    ensures Dynamo.GetOp(Dynamo.TransactOp(table, ops).table, key) == Memory.GetOp(store, key)
  {
    var ms, t := Dynamo.MeantAll(ops), SplitKey(key).value;
    TransactVerdict(table, store, ops);
    MeantAllValid(table, store, ops);
    forall m | m in ms ensures m.key != t {
      var i :| 0 <= i < |ms| && ms[i] == m;
      assert ops[i] in ops;
      if SplitKey(ops[i].key) == SplitKey(key) { SplitInjective(ops[i].key, key); }
    }
    StoreAllPointwise(table, ms, t);
    GetAgrees(table, store, key);
  }

  /** The documented difference in a transaction, exactly: the answers differ if
      and only if every operation passes its conditions and guards and some update
      overflows. Then the reference refuses and writes nothing, while the service
      commits: reads of the overflowing keys fail from then on, every other
      operation has taken effect, and the rest of the table is untouched. */
  lemma TransactDiffersIff(table: Table, store: Memory.Store, ops: seq<Operation>)
    requires Represents(table, store) && ShapedTransaction(store, ops)
    ensures var d, m := Dynamo.TransactOp(table, ops), Memory.TransactOp(store, ops);
            var differs := AllAccepted(store, ops) && exists op :: op in ops && OpOverflows(store, op);
            && (d.result != m.result <==> differs)
            && (!differs ==> Represents(d.table, m.store))
            && (differs ==>
                  && d.result == Ok(Unit.Unit) && m == Memory.Outcome(store, Err(ConditionFailed))
                  && (forall op | op in ops :: Dynamo.GetOp(d.table, op.key) ==
                        if OpOverflows(store, op) then Err(Dynamo.TERMINAL) else AfterEffect(store, op))
                  && (forall key | SplitKey(key).Some? && (forall op | op in ops :: op.key != key) ::
                        Dynamo.GetOp(d.table, key) == Memory.GetOp(store, key)))
  {
    TransactVerdict(table, store, ops);
    forall op | op in ops ensures OpOverflows(store, op) ==> Memory.Plan(store, op).None? {
      Verdict(table, store, op);
    }
    if exists op :: op in ops && OpOverflows(store, op) {
      assert !Memory.AllPlannable(store, ops);
      if AllAccepted(store, ops) {
        forall op | op in ops ensures Dynamo.GetOp(Dynamo.TransactOp(table, ops).table, op.key) ==
                        if OpOverflows(store, op) then Err(Dynamo.TERMINAL) else AfterEffect(store, op) {
          StoredByOperation(table, store, ops, op);
        }
        forall key | SplitKey(key).Some? && forall op | op in ops :: op.key != key
          ensures Dynamo.GetOp(Dynamo.TransactOp(table, ops).table, key) == Memory.GetOp(store, key) {
          OtherKeysUntouched(table, store, ops, key);
        }
      }
    } else {
      assert SimpleTransaction(store, ops);
      TransactAgrees(table, store, ops);
    }
  }
}
