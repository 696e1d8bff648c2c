/** The table service, reduced to what this backend asks of it: evaluating the
    expressions of a request against one table. */
module DynamoService {
  import opened Base
  import opened DynamoCodec
  import opened DynamoExpressions
  import Decimal

  type Row = map<string, AttributeValue>

  type Table = map<TableKey, Row>

  datatype ServiceError = ConditionalCheckFailed | Validation

  // ----- Evaluating expressions -----

  function Fetch(row: Option<Row>, p: Path): Option<AttributeValue> {
    if row.None? || p.attr !in row.value then None
    else
      match p
      case Top(attr) => Some(row.value[attr])
      case Nested(attr, entry) =>
        if row.value[attr].AttrM? && entry in row.value[attr].entries
        then Some(row.value[attr].entries[entry]) else None
  }

  function TypeName(a: AttributeValue): string {
    match a
    case AttrBool(_) => "BOOL"
    case AttrN(_) => "N"
    case AttrS(_) => "S"
    case AttrB(_) => "B"
    case AttrM(_) => "M"
    case AttrL(_) => "L"
    case Other => "NULL"
  }

  /** A comparison with an absent path is false. Stored numbers are canonical
      decimal text, so comparing text compares numbers. */
  predicate Evaluate(row: Option<Row>, c: Clause<AttributeValue>) {
    match c
    case AttributeExists(path) => Fetch(row, path).Some?
    case AttributeNotExists(path) => Fetch(row, path).None?
    case AttributeType(path, v) => Fetch(row, path).Some? && v == AttrS(TypeName(Fetch(row, path).value))
    case Equals(path, v) => Fetch(row, path) == Some(v)
    case BeginsWith(path, v) =>
      && Fetch(row, path).Some? && Fetch(row, path).value.AttrS? && v.AttrS?
      && v.text <= Fetch(row, path).value.text
    case And(left, right) => Evaluate(row, left) && Evaluate(row, right)
    case Or(left, right) => Evaluate(row, left) || Evaluate(row, right)
  }

  /** Writing below an attribute that is not a map is a validation error. */
  function SetAt(row: Row, p: Path, v: AttributeValue): Option<Row> {
    match p
    case Top(attr) => Some(row[attr := v])
    case Nested(attr, entry) =>
      if attr in row && row[attr].AttrM? then Some(row[attr := AttrM(row[attr].entries[entry := v])]) else None
  }

  function RemoveAt(row: Row, p: Path): Option<Row> {
    match p
    case Top(attr) => Some(row - {attr})
    case Nested(attr, entry) =>
      if attr in row && row[attr].AttrM? then Some(row[attr := AttrM(row[attr].entries - {entry})]) else None
  }

  /** Operands are read from the row as it was before the update; sums have far
      more than 64 bits. */
  function Operand(original: Row, a: Assignment<AttributeValue>): Option<AttributeValue> {
    match a
    case Assign(_, v) => Some(v)
    case AssignSum(path, v) =>
      match Fetch(Some(original), path)
      case Some(AttrN(digits)) =>
        if v.AttrN? && Decimal.ParseNat(digits).Some? && Decimal.ParseNat(v.digits).Some?
        then Some(AttrN(Decimal.Render(Decimal.ParseNat(digits).value + Decimal.ParseNat(v.digits).value)))
        else None
      case _ => None
  }

  function ApplySets(original: Row, sets: seq<Assignment<AttributeValue>>): Option<Row> {
    if sets == [] then Some(original)
    else
      var last := sets[|sets| - 1];
      match ApplySets(original, sets[..|sets| - 1])
      case None => None
      case Some(row) =>
        match Operand(original, last)
        case None => None
        case Some(v) => SetAt(row, last.path, v)
  }

  function ApplyRemoves(row: Row, removes: seq<Path>): Option<Row> {
    if removes == [] then Some(row)
    else
      match ApplyRemoves(row, removes[..|removes| - 1])
      case None => None
      case Some(before) => RemoveAt(before, removes[|removes| - 1])
  }

  function Mutate(row: Row, m: Mutation<AttributeValue>): Option<Row> {
    match ApplySets(row, m.sets)
    case None => None
    case Some(set') => ApplyRemoves(set', m.removes)
  }

  predicate Overlap(p: Path, q: Path) {
    p.attr == q.attr && (p.Top? || q.Top? || p == q)
  }

  function Targets(m: Mutation<AttributeValue>): seq<Path> {
    seq(|m.sets|, i requires 0 <= i < |m.sets| => m.sets[i].path) + m.removes
  }

  /** Two document paths of one expression must not overlap. */
  predicate Disjoint(paths: seq<Path>) {
    forall i, j | 0 <= i < j < |paths| :: !Overlap(paths[i], paths[j])
  }

  // ----- Requests -----

  datatype Action<V> = PutRow(row: Row) | UpdateRow(mutation: Mutation<V>) | DeleteRow | CheckRow

  /** A write request as sent. The placeholder maps are omitted when empty. */
  datatype Request = Request(key: TableKey, action: Action<string>, condition: Option<Clause<string>>,
                             names: Option<map<string, string>>, values: Option<map<string, AttributeValue>>)

  /** The same request with its placeholders replaced. */
  datatype Meant = Meant(key: TableKey, action: Action<AttributeValue>, condition: Option<Clause<AttributeValue>>)

  function BindingsOf(r: Request): Bindings {
    Bindings(if r.names.Some? then r.names.value else map[], if r.values.Some? then r.values.value else map[])
  }

  function UsedNames(r: Request): set<string> {
    (if r.condition.Some? then ClauseNames(r.condition.value) else {}) +
    (if r.action.UpdateRow? then MutationNames(r.action.mutation) else {})
  }

  function UsedValues(r: Request): set<string> {
    (if r.condition.Some? then ClauseValues(r.condition.value) else {}) +
    (if r.action.UpdateRow? then MutationValues(r.action.mutation) else {})
  }

  /** The service rejects explicitly empty placeholder maps, placeholders that
      are mentioned but not bound, and placeholders bound but not mentioned. */
  function Resolve(r: Request): Option<Meant> {
    var b := BindingsOf(r);
    if r.names == Some(map[]) || r.values == Some(map[]) ||
       b.names.Keys != UsedNames(r) || b.values.Keys != UsedValues(r) ||
       (r.condition.Some? && ResolveClause(b, r.condition.value).None?) ||
       (r.action.UpdateRow? && ResolveMutation(b, r.action.mutation).None?)
    then None
    else
      var condition := if r.condition.Some? then ResolveClause(b, r.condition.value) else None;
      match r.action
      case PutRow(row) => Some(Meant(r.key, PutRow(row), condition))
      case UpdateRow(m) => Some(Meant(r.key, UpdateRow(ResolveMutation(b, m).value), condition))
      case DeleteRow => Some(Meant(r.key, DeleteRow, condition))
      case CheckRow => Some(Meant(r.key, CheckRow, condition))
  }

  function RowAt(table: Table, key: TableKey): Option<Row> {
    if key in table then Some(table[key]) else None
  }

  /** Checks that do not depend on the stored data. */
  predicate StaticallyValid(m: Meant) {
    && m.key.pk != "" && m.key.sk != ""
    && (m.action.UpdateRow? ==> Disjoint(Targets(m.action.mutation)))
    && (m.action.CheckRow? ==> m.condition.Some?)
  }

  predicate ConditionHolds(table: Table, m: Meant) {
    m.condition.Some? ==> Evaluate(RowAt(table, m.key), m.condition.value)
  }

  /** The row an update starts from; a missing one begins with its key. */
  function BaseRow(table: Table, key: TableKey): Row {
    if key in table then table[key] else map[PK_ATTR := AttrS(key.pk), SK_ATTR := AttrS(key.sk)]
  }

  /** The stored row after the write; the inner `None` is a deleted row, the
      outer one a validation error met while updating. */
  function NewRow(table: Table, m: Meant): Option<Option<Row>> {
    match m.action
    case PutRow(row) => Some(Some(row))
    case UpdateRow(mutation) =>
      (match Mutate(BaseRow(table, m.key), mutation)
       case None => None
       case Some(row) => Some(Some(row)))
    case DeleteRow => Some(None)
    case CheckRow => Some(RowAt(table, m.key))
  }

  function Store(table: Table, key: TableKey, row: Option<Row>): Table {
    if row.Some? then table[key := row.value] else table - {key}
  }

  /** What a call leaves and answers: the row after the write, or an error. */
  datatype Answer<T> = Answer(table: Table, result: Result<T, ServiceError>)

  function Perform(table: Table, m: Meant): Answer<Option<Row>> {
    if !StaticallyValid(m) then Answer(table, Err(Validation))
    else if !ConditionHolds(table, m) then Answer(table, Err(ConditionalCheckFailed))
    else
      match NewRow(table, m)
      case None => Answer(table, Err(Validation))
      case Some(row) => Answer(Store(table, m.key, row), Ok(row))
  }

  /** Stores the new rows of all requests, each computed from `before`. */
  function StoreAll(before: Table, ms: seq<Meant>): Table
    requires forall m | m in ms :: NewRow(before, m).Some?
  {
    if ms == [] then before
    else
      var last := ms[|ms| - 1];
      Store(StoreAll(before, ms[..|ms| - 1]), last.key, NewRow(before, last).value)
  }

  /** All or nothing; a transaction is never empty and never names a key twice. */
  function PerformAll(table: Table, ms: seq<Meant>): Answer<Unit> {
    if || ms == []
       || (exists i, j | 0 <= i < j < |ms| :: ms[i].key == ms[j].key)
       || (exists m | m in ms :: !StaticallyValid(m))
    then Answer(table, Err(Validation))
    else if exists m | m in ms :: !ConditionHolds(table, m) then Answer(table, Err(ConditionalCheckFailed))
    else if exists m | m in ms :: NewRow(table, m).None? then Answer(table, Err(Validation))
    else Answer(StoreAll(table, ms), Ok(Unit.Unit))
  }

  function Execute(table: Table, r: Request): Answer<Option<Row>> {
    match Resolve(r)
    case None => Answer(table, Err(Validation))
    case Some(m) => Perform(table, m)
  }

  function ExecuteAll(table: Table, rs: seq<Request>): Answer<Unit> {
    if exists r | r in rs :: Resolve(r).None? then Answer(table, Err(Validation))
    else PerformAll(table, seq(|rs|, i requires 0 <= i < |rs| && Resolve(rs[i]).Some? => Resolve(rs[i]).value))
  }
}
