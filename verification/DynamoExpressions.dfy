/** The expressions a request carries, written with placeholders, and the
    builder that mints the placeholders. */
module DynamoExpressions {
  import opened Base
  import opened ReplicatedKv
  import opened DynamoCodec
  import Decimal

  const PK_ATTR := "PK"
  const SK_ATTR := "SK"
  const VALUE_ATTR := "value"
  const NOOP_MARKER_ATTR := "_touched"

  /** A document path: a top-level attribute, or an entry of one that is a map. */
  datatype Path = Top(attr: string) | Nested(attr: string, entry: string)

  /** A condition over operands `V`: placeholders when written, attribute values
      when resolved. */
  datatype Clause<V> =
    | AttributeExists(path: Path)
    | AttributeNotExists(path: Path)
    | AttributeType(path: Path, operand: V)
    | Equals(path: Path, operand: V)
    | BeginsWith(path: Path, operand: V)
    | And(left: Clause<V>, right: Clause<V>)
    | Or(left: Clause<V>, right: Clause<V>)

  /** One assignment of a `SET` section: `path = v` or `path = path + v`. */
  datatype Assignment<V> = Assign(path: Path, operand: V) | AssignSum(path: Path, operand: V)

  datatype Mutation<V> = Mutation(sets: seq<Assignment<V>>, removes: seq<Path>)

  // ----- Placeholders -----

  datatype Bindings = Bindings(names: map<string, string>, values: map<string, AttributeValue>)

  function NamePlaceholder(n: nat): string {
    "#n" + Decimal.Render(n)
  }

  function ValuePlaceholder(n: nat): string {
    ":v" + Decimal.Render(n)
  }

  lemma PlaceholdersInjective(m: nat, n: nat)
    ensures NamePlaceholder(m) == NamePlaceholder(n) ==> m == n
    ensures ValuePlaceholder(m) == ValuePlaceholder(n) ==> m == n
  {
    assert NamePlaceholder(m)[2..] == Decimal.Render(m) && NamePlaceholder(n)[2..] == Decimal.Render(n);
    assert ValuePlaceholder(m)[2..] == Decimal.Render(m) && ValuePlaceholder(n)[2..] == Decimal.Render(n);
    if Decimal.Render(m) == Decimal.Render(n) {
      Decimal.RenderInjective(m, n);
    }
  }

  /** Nothing bound is ever rebound. */
  ghost predicate Extends(b: Bindings, c: Bindings) {
    && (forall p | p in b.names :: p in c.names && c.names[p] == b.names[p])
    && (forall p | p in b.values :: p in c.values && c.values[p] == b.values[p])
  }

  function ResolvePath(b: Bindings, p: Path): Option<Path> {
    match p
    case Top(attr) => if attr in b.names then Some(Top(b.names[attr])) else None
    case Nested(attr, entry) =>
      if attr in b.names && entry in b.names then Some(Nested(b.names[attr], b.names[entry])) else None
  }

  /** The meaning of a written clause; `None` when a placeholder is unbound. */
  function ResolveClause(b: Bindings, c: Clause<string>): Option<Clause<AttributeValue>> {
    match c
    case AttributeExists(path) =>
      (match ResolvePath(b, path)
       case None => None
       case Some(p) => Some(AttributeExists(p)))
    case AttributeNotExists(path) =>
      (match ResolvePath(b, path)
       case None => None
       case Some(p) => Some(AttributeNotExists(p)))
    case AttributeType(path, v) =>
      if ResolvePath(b, path).None? || v !in b.values then None
      else Some(AttributeType(ResolvePath(b, path).value, b.values[v]))
    case Equals(path, v) =>
      if ResolvePath(b, path).None? || v !in b.values then None
      else Some(Equals(ResolvePath(b, path).value, b.values[v]))
    case BeginsWith(path, v) =>
      if ResolvePath(b, path).None? || v !in b.values then None
      else Some(BeginsWith(ResolvePath(b, path).value, b.values[v]))
    case And(left, right) =>
      if ResolveClause(b, left).None? || ResolveClause(b, right).None? then None
      else Some(And(ResolveClause(b, left).value, ResolveClause(b, right).value))
    case Or(left, right) =>
      if ResolveClause(b, left).None? || ResolveClause(b, right).None? then None
      else Some(Or(ResolveClause(b, left).value, ResolveClause(b, right).value))
  }

  function ResolveAssignment(b: Bindings, a: Assignment<string>): Option<Assignment<AttributeValue>> {
    if ResolvePath(b, a.path).None? || a.operand !in b.values then None
    else
      var path, operand := ResolvePath(b, a.path).value, b.values[a.operand];
      match a
      case Assign(_, _) => Some(Assign(path, operand))
      case AssignSum(_, _) => Some(AssignSum(path, operand))
  }

  function ResolveMutation(b: Bindings, m: Mutation<string>): Option<Mutation<AttributeValue>> {
    if (forall i | 0 <= i < |m.sets| :: ResolveAssignment(b, m.sets[i]).Some?) &&
       (forall i | 0 <= i < |m.removes| :: ResolvePath(b, m.removes[i]).Some?)
    then Some(Mutation(
                seq(|m.sets|, i requires 0 <= i < |m.sets| && ResolveAssignment(b, m.sets[i]).Some? =>
                      ResolveAssignment(b, m.sets[i]).value),
                seq(|m.removes|, i requires 0 <= i < |m.removes| && ResolvePath(b, m.removes[i]).Some? =>
                      ResolvePath(b, m.removes[i]).value)))
    else None
  }

  lemma {:induction false} ResolveClauseStable(b: Bindings, c: Bindings, w: Clause<string>)
    requires Extends(b, c) && ResolveClause(b, w).Some?
    ensures ResolveClause(c, w) == ResolveClause(b, w)
  {
    match w
    case And(left, right) =>
      ResolveClauseStable(b, c, left);
      ResolveClauseStable(b, c, right);
    case Or(left, right) =>
      ResolveClauseStable(b, c, left);
      ResolveClauseStable(b, c, right);
    case _ =>
  }

  /** Which placeholders an expression mentions. */
  function PathNames(p: Path): set<string> {
    if p.Top? then {p.attr} else {p.attr, p.entry}
  }

  function ClauseNames(c: Clause<string>): set<string> {
    if c.And? || c.Or? then ClauseNames(c.left) + ClauseNames(c.right) else PathNames(c.path)
  }

  function ClauseValues(c: Clause<string>): set<string> {
    match c
    case AttributeExists(_) => {}
    case AttributeNotExists(_) => {}
    case And(left, right) => ClauseValues(left) + ClauseValues(right)
    case Or(left, right) => ClauseValues(left) + ClauseValues(right)
    case _ => {c.operand}
  }

  function MutationNames(m: Mutation<string>): set<string> {
    (set i, n | 0 <= i < |m.sets| && n in PathNames(m.sets[i].path) :: n) +
    (set i, n | 0 <= i < |m.removes| && n in PathNames(m.removes[i]) :: n)
  }

  function MutationValues(m: Mutation<string>): set<string> {
    set i | 0 <= i < |m.sets| :: m.sets[i].operand
  }

  // ----- What each construct is meant to say -----

  function ValuePathOf(attribute: string): Path {
    if attribute == "" then Top(VALUE_ATTR) else Nested(VALUE_ATTR, attribute)
  }

  function ConditionMeaning(c: Condition): Clause<AttributeValue> {
    match c
    case NotExists => AttributeNotExists(Top(PK_ATTR))
    case Exists => AttributeExists(Top(PK_ATTR))
    case AttributeEquals(attribute, expected) => Equals(ValuePathOf(attribute), EncodeValue(expected))
  }

  function ConditionsMeaning(cs: seq<Condition>): Clause<AttributeValue>
    requires cs != []
  {
    if |cs| == 1 then ConditionMeaning(cs[0])
    else And(ConditionsMeaning(cs[..|cs| - 1]), ConditionMeaning(cs[|cs| - 1]))
  }

  function SetMeaning(a: UpdateAction): seq<Assignment<AttributeValue>> {
    match a
    case Set(attribute, value) => [Assign(ValuePathOf(attribute), EncodeValue(value))]
    case Increment(attribute, amount) => [AssignSum(ValuePathOf(attribute), AttrN(Decimal.Render(amount)))]
    case Remove(_) => []
  }

  function GuardMeaning(attribute: string): Clause<AttributeValue> {
    And(AttributeExists(ValuePathOf(attribute)), AttributeType(ValuePathOf(attribute), AttrS("N")))
  }

  function SetMeanings(actions: seq<UpdateAction>): seq<Assignment<AttributeValue>> {
    if actions == [] then []
    else SetMeanings(actions[..|actions| - 1]) + SetMeaning(actions[|actions| - 1])
  }

  function RemoveMeanings(actions: seq<UpdateAction>): seq<Path> {
    if actions == [] then []
    else
      var last := actions[|actions| - 1];
      RemoveMeanings(actions[..|actions| - 1]) + if last.Remove? then [ValuePathOf(last.attribute)] else []
  }

  function GuardMeanings(actions: seq<UpdateAction>): seq<Clause<AttributeValue>> {
    if actions == [] then []
    else
      var last := actions[|actions| - 1];
      GuardMeanings(actions[..|actions| - 1]) + if last.Increment? then [GuardMeaning(last.attribute)] else []
  }

  function MutationMeaning(actions: seq<UpdateAction>): Mutation<AttributeValue> {
    if actions == [] then Mutation([Assign(Top(NOOP_MARKER_ATTR), AttrBool(true))], [])
    else Mutation(SetMeanings(actions), RemoveMeanings(actions))
  }

  /** A clause followed by further clauses, all joined by AND. */
  function Joined(first: Clause<AttributeValue>, rest: seq<Clause<AttributeValue>>): Clause<AttributeValue> {
    if rest == [] then first else And(Joined(first, rest[..|rest| - 1]), rest[|rest| - 1])
  }

  function UpdateConditionMeaning(conditions: seq<Condition>, actions: seq<UpdateAction>): Clause<AttributeValue> {
    var exist := AttributeExists(Top(PK_ATTR));
    Joined(if conditions == [] then exist else And(exist, ConditionsMeaning(conditions)), GuardMeanings(actions))
  }

  // ----- The builder -----

  ghost predicate MintedName(p: string, next: nat) {
    exists n: nat :: n < next && p == NamePlaceholder(n)
  }

  ghost predicate MintedValue(p: string, next: nat) {
    exists n: nat :: n < next && p == ValuePlaceholder(n)
  }

  class ExprBuilder {
    var names: map<string, string>
    var values: map<string, AttributeValue>
    var next: nat
    var cachedValueAlias: Option<string>

    ghost function Bound(): Bindings
      reads this
    {
      Bindings(names, values)
    }

    ghost predicate Valid()
      reads this
    {
      && (forall p | p in names :: MintedName(p, next))
      && (forall p | p in values :: MintedValue(p, next))
      && (cachedValueAlias.Some? ==> cachedValueAlias.value in names && names[cachedValueAlias.value] == VALUE_ATTR)
    }

    constructor ()
      ensures Valid() && names == map[] && values == map[]
    {
      names, values, next, cachedValueAlias := map[], map[], 0, None;
    }

    /** Mints a fresh name placeholder. */
    method AliasName(name: string) returns (placeholder: string)
      requires Valid()
      modifies this
      ensures Valid()
      ensures placeholder !in old(Bound()).names
      ensures Bound() == Bindings(old(Bound()).names[placeholder := name], old(Bound()).values)
    {
      placeholder := NamePlaceholder(next);
      forall n: nat | n < next ensures NamePlaceholder(n) != placeholder {
        PlaceholdersInjective(n, next);
      }
      names := names[placeholder := name];
      next := next + 1;
      assert NamePlaceholder(next - 1) == placeholder;
    }

    /** Mints a fresh value placeholder. */
    method AliasValue(value: AttributeValue) returns (placeholder: string)
      requires Valid()
      modifies this
      ensures Valid()
      ensures placeholder !in old(Bound()).values
      ensures Bound() == Bindings(old(Bound()).names, old(Bound()).values[placeholder := value])
    {
      placeholder := ValuePlaceholder(next);
      forall n: nat | n < next ensures ValuePlaceholder(n) != placeholder {
        PlaceholdersInjective(n, next);
      }
      values := values[placeholder := value];
      next := next + 1;
      assert ValuePlaceholder(next - 1) == placeholder;
    }

    /** The cached placeholder of the reserved value attribute. */
    method ValueAlias() returns (placeholder: string)
      requires Valid()
      modifies this
      ensures Valid()
      ensures placeholder in Bound().names && Bound().names[placeholder] == VALUE_ATTR
      ensures Bound().names.Keys == old(Bound()).names.Keys + {placeholder}
      ensures Bound().values == old(Bound()).values
      ensures Extends(old(Bound()), Bound())
    {
      if cachedValueAlias.Some? {
        return cachedValueAlias.value;
      }
      placeholder := AliasName(VALUE_ATTR);
      cachedValueAlias := Some(placeholder);
    }

    /** The document path of an attribute inside the reserved value attribute. */
    method ValuePath(attribute: string) returns (path: Path)
      requires Valid()
      modifies this
      ensures Valid()
      ensures ResolvePath(Bound(), path) == Some(ValuePathOf(attribute))
      ensures Bound().names.Keys == old(Bound()).names.Keys + PathNames(path)
      ensures Bound().values == old(Bound()).values
      ensures Extends(old(Bound()), Bound())
    {
      var v := ValueAlias();
      if attribute == "" {
        return Top(v);
      }
      var a := AliasName(attribute);
      return Nested(v, a);
    }
  }

  // ----- Compiling conditions -----

  /** What compiling something into a written clause means for the bindings:
      nothing is rebound, the clause resolves to what was meant, and exactly
      the placeholders it mentions were added. */
  ghost predicate Compiled(b: Bindings, c: Bindings, w: Clause<string>, meant: Clause<AttributeValue>) {
    && Extends(b, c)
    && ResolveClause(c, w) == Some(meant)
    && c.names.Keys == b.names.Keys + ClauseNames(w)
    && c.values.Keys == b.values.Keys + ClauseValues(w)
  }

  lemma CompiledAnd(b: Bindings, c: Bindings, d: Bindings, l: Clause<string>, r: Clause<string>,
                    left: Clause<AttributeValue>, right: Clause<AttributeValue>)
    requires Compiled(b, c, l, left) && Compiled(c, d, r, right)
    ensures Compiled(b, d, And(l, r), And(left, right))
  {
    ExtendsTransitive(b, c, d);
    AndResolves(c, d, l, r, left, right);
    AndMentions(l, r);
    UnionSteps(b.names.Keys, c.names.Keys, d.names.Keys, ClauseNames(l), ClauseNames(r));
    UnionSteps(b.values.Keys, c.values.Keys, d.values.Keys, ClauseValues(l), ClauseValues(r));
  }

  lemma AndMentions(l: Clause<string>, r: Clause<string>)
    ensures ClauseNames(And(l, r)) == ClauseNames(l) + ClauseNames(r)
    ensures ClauseValues(And(l, r)) == ClauseValues(l) + ClauseValues(r)
  {
  }

  lemma AndResolves(c: Bindings, d: Bindings, l: Clause<string>, r: Clause<string>,
                    left: Clause<AttributeValue>, right: Clause<AttributeValue>)
    requires Extends(c, d) && ResolveClause(c, l) == Some(left) && ResolveClause(d, r) == Some(right)
    ensures ResolveClause(d, And(l, r)) == Some(And(left, right))
  {
    ResolveClauseStable(c, d, l);
  }

  lemma UnionSteps<T>(b: set<T>, c: set<T>, d: set<T>, l: set<T>, r: set<T>)
    requires c == b + l && d == c + r
    ensures d == b + (l + r)
  {
  }

  lemma UnionAssociates<T>(a: set<T>, b: set<T>, c: set<T>)
    ensures a + b + c == a + (b + c)
  {
  }

  lemma ExtendsTransitive(b: Bindings, c: Bindings, d: Bindings)
    requires Extends(b, c) && Extends(c, d)
    ensures Extends(b, d)
  {
  }

  lemma CompiledEquals(b: Bindings, c: Bindings, path: Path, meant: Path, placeholder: string, value: AttributeValue)
    requires Extends(b, c) && ResolvePath(c, path) == Some(meant)
    requires c.names.Keys == b.names.Keys + PathNames(path) && c.values == b.values
    requires placeholder !in c.values
    ensures Compiled(b, Bindings(c.names, c.values[placeholder := value]),
                     Equals(path, placeholder), Equals(meant, value))
  {
  }

  method ConditionClause(builder: ExprBuilder, condition: Condition) returns (clause: Clause<string>)
    requires builder.Valid()
    modifies builder
    ensures builder.Valid()
    ensures Compiled(old(builder.Bound()), builder.Bound(), clause, ConditionMeaning(condition))
  {
    match condition
    case NotExists =>
      var pk := builder.AliasName(PK_ATTR);
      clause := AttributeNotExists(Top(pk));
    case Exists =>
      var pk := builder.AliasName(PK_ATTR);
      clause := AttributeExists(Top(pk));
    case AttributeEquals(attribute, expected) =>
      var path := builder.ValuePath(attribute);
      ghost var bound := builder.Bound();
      var val := builder.AliasValue(EncodeValue(expected));
      clause := Equals(path, val);
      CompiledEquals(old(builder.Bound()), bound, path, ValuePathOf(attribute), val, EncodeValue(expected));
  }

  lemma CompiledNext(b: Bindings, c: Bindings, d: Bindings, joined: Clause<string>, clause: Clause<string>,
                     conditions: seq<Condition>, i: nat)
    requires 1 <= i < |conditions|
    requires Compiled(b, c, joined, ConditionsMeaning(conditions[..i]))
    requires Compiled(c, d, clause, ConditionMeaning(conditions[i]))
    ensures Compiled(b, d, And(joined, clause), ConditionsMeaning(conditions[..i + 1]))
  {
    assert conditions[..i + 1][..i] == conditions[..i];
    CompiledAnd(b, c, d, joined, clause, ConditionsMeaning(conditions[..i]), ConditionMeaning(conditions[i]));
  }

  /** All conditions joined by AND, `None` for no conditions. */
  method ConditionsClause(builder: ExprBuilder, conditions: seq<Condition>) returns (clause: Option<Clause<string>>)
    requires builder.Valid()
    modifies builder
    ensures builder.Valid()
    ensures clause.None? <==> conditions == []
    ensures clause.None? ==> builder.Bound() == old(builder.Bound())
    ensures clause.Some? ==>
              Compiled(old(builder.Bound()), builder.Bound(), clause.value, ConditionsMeaning(conditions))
  {
    if conditions == [] {
      return None;
    }
    ghost var start := builder.Bound();
    var joined := ConditionClause(builder, conditions[0]);
    assert conditions[..1] == [conditions[0]];
    for i := 1 to |conditions|
      invariant builder.Valid()
      invariant Compiled(start, builder.Bound(), joined, ConditionsMeaning(conditions[..i]))
    {
      ghost var bound := builder.Bound();
      var clause := ConditionClause(builder, conditions[i]);
      CompiledNext(start, bound, builder.Bound(), joined, clause, conditions, i);
      joined := And(joined, clause);
    }
    assert conditions[..|conditions|] == conditions;
    return Some(joined);
  }

  // ----- Compiling updates -----

  function GuardsValues(guards: seq<Clause<string>>): set<string> {
    set i, v | 0 <= i < |guards| && v in ClauseValues(guards[i]) :: v
  }

  /** Guards that resolve to what they were meant to say, over bound names. */
  ghost predicate GuardsCompiled(c: Bindings, guards: seq<Clause<string>>, meant: seq<Clause<AttributeValue>>) {
    && |guards| == |meant|
    && (forall i | 0 <= i < |guards| :: ResolveClause(c, guards[i]) == Some(meant[i]))
    && (forall i | 0 <= i < |guards| :: ClauseNames(guards[i]) <= c.names.Keys)
    && (forall i | 0 <= i < |guards| :: ClauseValues(guards[i]) <= c.values.Keys)
  }

  /** An expression that resolves, part by part, to what the actions mean. */
  ghost predicate ActionsResolve(c: Bindings, m: Mutation<string>, actions: seq<UpdateAction>) {
    var sets, removes := SetMeanings(actions), RemoveMeanings(actions);
    && |m.sets| == |sets| && (forall i | 0 <= i < |sets| :: ResolveAssignment(c, m.sets[i]) == Some(sets[i]))
    && |m.removes| == |removes| && (forall i | 0 <= i < |removes| :: ResolvePath(c, m.removes[i]) == Some(removes[i]))
  }

  /** What compiling a list of actions means for the bindings. */
  ghost predicate ActionsCompiled(b: Bindings, c: Bindings, m: Mutation<string>, guards: seq<Clause<string>>,
                                  actions: seq<UpdateAction>)
  {
    && Extends(b, c)
    && ActionsResolve(c, m, actions)
    && GuardsCompiled(c, guards, GuardMeanings(actions))
    && c.names.Keys == b.names.Keys + MutationNames(m)
    && c.values.Keys == b.values.Keys + MutationValues(m) + GuardsValues(guards)
  }

  lemma NamesAfterSet(m: Mutation<string>, a: Assignment<string>)
    ensures MutationNames(m.(sets := m.sets + [a])) == MutationNames(m) + PathNames(a.path)
    ensures MutationValues(m.(sets := m.sets + [a])) == MutationValues(m) + {a.operand}
  {
    var sets := m.sets + [a];
    assert sets[|m.sets|] == a;
    assert forall i | 0 <= i < |m.sets| :: sets[i] == m.sets[i];
  }

  lemma NamesAfterRemove(m: Mutation<string>, p: Path)
    ensures MutationNames(m.(removes := m.removes + [p])) == MutationNames(m) + PathNames(p)
    ensures MutationValues(m.(removes := m.removes + [p])) == MutationValues(m)
  {
    var removes := m.removes + [p];
    assert removes[|m.removes|] == p;
    assert forall i | 0 <= i < |m.removes| :: removes[i] == m.removes[i];
  }

  lemma GuardsValuesAfter(guards: seq<Clause<string>>, g: Clause<string>)
    ensures GuardsValues(guards + [g]) == GuardsValues(guards) + ClauseValues(g)
  {
    var all := guards + [g];
    assert all[|guards|] == g;
    assert forall i | 0 <= i < |guards| :: all[i] == guards[i];
  }

  lemma GuardsStable(c: Bindings, d: Bindings, guards: seq<Clause<string>>, meant: seq<Clause<AttributeValue>>)
    requires GuardsCompiled(c, guards, meant) && Extends(c, d)
    ensures GuardsCompiled(d, guards, meant)
  {
    assert forall p | p in c.names.Keys :: p in d.names.Keys;
    assert forall p | p in c.values.Keys :: p in d.values.Keys;
    forall i | 0 <= i < |guards| ensures ResolveClause(d, guards[i]) == ResolveClause(c, guards[i]) {
      ResolveClauseStable(c, d, guards[i]);
    }
  }

  lemma AppendSet(c: Bindings, d: Bindings, m: Mutation<string>, actions: seq<UpdateAction>, a: Assignment<string>,
                  action: UpdateAction)
    requires ActionsResolve(c, m, actions) && Extends(c, d)
    requires !action.Remove? && ResolveAssignment(d, a) == Some(SetMeaning(action)[0])
    ensures ActionsResolve(d, m.(sets := m.sets + [a]), actions + [action])
  {
    MeaningsAppend(actions, action);
    ResolvesStay(c, d, m, actions);
  }

  lemma MeaningsAppend(actions: seq<UpdateAction>, action: UpdateAction)
    ensures SetMeanings(actions + [action]) == SetMeanings(actions) + SetMeaning(action)
    ensures RemoveMeanings(actions + [action]) ==
            RemoveMeanings(actions) + if action.Remove? then [ValuePathOf(action.attribute)] else []
    ensures GuardMeanings(actions + [action]) ==
            GuardMeanings(actions) + if action.Increment? then [GuardMeaning(action.attribute)] else []
  {
    assert (actions + [action])[..|actions|] == actions;
  }

  lemma ResolvesStay(c: Bindings, d: Bindings, m: Mutation<string>, actions: seq<UpdateAction>)
    requires ActionsResolve(c, m, actions) && Extends(c, d)
    ensures ActionsResolve(d, m, actions)
  {
  }

  lemma AppendRemove(c: Bindings, d: Bindings, m: Mutation<string>, actions: seq<UpdateAction>, path: Path,
                     action: UpdateAction)
    requires ActionsResolve(c, m, actions) && Extends(c, d)
    requires action.Remove? && ResolvePath(d, path) == Some(ValuePathOf(action.attribute))
    ensures ActionsResolve(d, m.(removes := m.removes + [path]), actions + [action])
  {
    MeaningsAppend(actions, action);
    ResolvesStay(c, d, m, actions);
  }

  lemma SameGuards(actions: seq<UpdateAction>, action: UpdateAction)
    requires !action.Increment?
    ensures GuardMeanings(actions + [action]) == GuardMeanings(actions)
  {
    MeaningsAppend(actions, action);
  }

  lemma SetsAccounted<T>(start: set<T>, m: set<T>, g: set<T>, m': set<T>, g': set<T>)
    ensures start + m + g + (m' + g') == start + (m + m') + (g + g')
  {
  }

  lemma SetCompiled(b: Bindings, c: Bindings, m: Mutation<string>, guards: seq<Clause<string>>,
                    actions: seq<UpdateAction>,
                    d: Bindings, path: Path, placeholder: string, action: UpdateAction)
    requires ActionsCompiled(b, c, m, guards, actions) && Extends(c, d)
    requires action.Set?
    requires ResolvePath(d, path) == Some(ValuePathOf(action.attribute))
    requires placeholder in d.values && d.values[placeholder] == EncodeValue(action.value)
    requires d.names.Keys == c.names.Keys + PathNames(path) && d.values.Keys == c.values.Keys + {placeholder}
    ensures ActionsCompiled(b, d, m.(sets := m.sets + [Assign(path, placeholder)]), guards, actions + [action])
  {
    AppendSet(c, d, m, actions, Assign(path, placeholder), action);
    GuardsStable(c, d, guards, GuardMeanings(actions));
    SameGuards(actions, action);
    ExtendsTransitive(b, c, d);
    NamesAfterSet(m, Assign(path, placeholder));
    UnionAssociates(b.names.Keys, MutationNames(m), PathNames(path));
    SetsAccounted(b.values.Keys, MutationValues(m), GuardsValues(guards), {placeholder}, {});
  }

  lemma IncrementAccounted(b: Bindings, c: Bindings, m: Mutation<string>, guards: seq<Clause<string>>, d: Bindings,
                           path: Path, delta: string, kind: string)
    requires c.names.Keys == b.names.Keys + MutationNames(m)
    requires c.values.Keys == b.values.Keys + MutationValues(m) + GuardsValues(guards)
    requires d.names.Keys == c.names.Keys + PathNames(path) && d.values.Keys == c.values.Keys + {delta, kind}
    ensures d.names.Keys == b.names.Keys + (MutationNames(m) + PathNames(path))
    ensures d.values.Keys == b.values.Keys + (MutationValues(m) + {delta}) + (GuardsValues(guards) + {kind})
  {
    SetsAccounted(b.values.Keys, MutationValues(m), GuardsValues(guards), {delta}, {kind});
    assert {delta, kind} == {delta} + {kind};
  }

  lemma SetBound(b: Bindings, c: Bindings, pathed: Bindings, m: Mutation<string>, guards: seq<Clause<string>>,
                 actions: seq<UpdateAction>, d: Bindings, path: Path, placeholder: string, action: UpdateAction)
    requires ActionsCompiled(b, c, m, guards, actions) && action.Set?
    requires Extends(c, pathed) && ResolvePath(pathed, path) == Some(ValuePathOf(action.attribute))
    requires pathed.names.Keys == c.names.Keys + PathNames(path) && pathed.values == c.values
    requires placeholder !in c.values
    requires d == Bindings(pathed.names, c.values[placeholder := EncodeValue(action.value)])
    ensures ActionsCompiled(b, d, m.(sets := m.sets + [Assign(path, placeholder)]), guards, actions + [action])
  {
    assert d.values.Keys == c.values.Keys + {placeholder};
    SetCompiled(b, c, m, guards, actions, d, path, placeholder, action);
  }

  lemma IncrementCompiled(b: Bindings, c: Bindings, m: Mutation<string>, guards: seq<Clause<string>>,
                          actions: seq<UpdateAction>, d: Bindings, path: Path, delta: string, kind: string,
                          action: UpdateAction)
    requires ActionsCompiled(b, c, m, guards, actions) && Extends(c, d)
    requires action.Increment?
    requires ResolvePath(d, path) == Some(ValuePathOf(action.attribute))
    requires delta in d.values && d.values[delta] == AttrN(Decimal.Render(action.amount))
    requires kind in d.values && d.values[kind] == AttrS("N")
    requires d.names.Keys == c.names.Keys + PathNames(path) && d.values.Keys == c.values.Keys + {delta, kind}
    ensures ActionsCompiled(b, d, m.(sets := m.sets + [AssignSum(path, delta)]),
                            guards + [IncrementGuard(path, kind)], actions + [action])
  {
    AppendSet(c, d, m, actions, AssignSum(path, delta), action);
    GuardsStable(c, d, guards, GuardMeanings(actions));
    IncrementGuardCompiled(d, guards, actions, path, kind, action);
    ExtendsTransitive(b, c, d);
    NamesAfterSet(m, AssignSum(path, delta));
    GuardsValuesAfter(guards, IncrementGuard(path, kind));
    IncrementAccounted(b, c, m, guards, d, path, delta, kind);
  }

  lemma IncrementBound(b: Bindings, c: Bindings, pathed: Bindings, m: Mutation<string>, guards: seq<Clause<string>>,
                       actions: seq<UpdateAction>, d: Bindings, path: Path, delta: string, kind: string,
                       action: UpdateAction)
    requires ActionsCompiled(b, c, m, guards, actions) && action.Increment?
    requires Extends(c, pathed) && ResolvePath(pathed, path) == Some(ValuePathOf(action.attribute))
    requires pathed.names.Keys == c.names.Keys + PathNames(path) && pathed.values == c.values
    requires delta !in c.values && kind !in c.values[delta := AttrN(Decimal.Render(action.amount))]
    requires d == Bindings(pathed.names, c.values[delta := AttrN(Decimal.Render(action.amount))][kind := AttrS("N")])
    ensures ActionsCompiled(b, d, m.(sets := m.sets + [AssignSum(path, delta)]),
                            guards + [IncrementGuard(path, kind)], actions + [action])
  {
    assert d.values.Keys == c.values.Keys + {delta, kind};
    IncrementCompiled(b, c, m, guards, actions, d, path, delta, kind, action);
  }

  function IncrementGuard(path: Path, kind: string): (g: Clause<string>)
    ensures ClauseNames(g) == PathNames(path) && ClauseValues(g) == {kind}
  {
    And(AttributeExists(path), AttributeType(path, kind))
  }

  lemma IncrementGuardCompiled(d: Bindings, guards: seq<Clause<string>>, actions: seq<UpdateAction>, path: Path,
                               kind: string, action: UpdateAction)
    requires GuardsCompiled(d, guards, GuardMeanings(actions)) && action.Increment?
    requires ResolvePath(d, path) == Some(ValuePathOf(action.attribute)) && PathNames(path) <= d.names.Keys
    requires kind in d.values && d.values[kind] == AttrS("N")
    ensures GuardsCompiled(d, guards + [IncrementGuard(path, kind)], GuardMeanings(actions + [action]))
  {
  }

  lemma RemoveCompiled(b: Bindings, c: Bindings, m: Mutation<string>, guards: seq<Clause<string>>,
                       actions: seq<UpdateAction>, d: Bindings, path: Path, action: UpdateAction)
    requires ActionsCompiled(b, c, m, guards, actions) && Extends(c, d)
    requires action.Remove?
    requires ResolvePath(d, path) == Some(ValuePathOf(action.attribute))
    requires d.names.Keys == c.names.Keys + PathNames(path) && d.values == c.values
    ensures ActionsCompiled(b, d, m.(removes := m.removes + [path]), guards, actions + [action])
  {
    AppendRemove(c, d, m, actions, path, action);
    GuardsStable(c, d, guards, GuardMeanings(actions));
    SameGuards(actions, action);
    NamesAfterRemove(m, path);
  }

  lemma CompiledMutationResolves(b: Bindings, c: Bindings, m: Mutation<string>, guards: seq<Clause<string>>,
                                 actions: seq<UpdateAction>)
    requires ActionsCompiled(b, c, m, guards, actions)
    ensures ResolveMutation(c, m) == Some(Mutation(SetMeanings(actions), RemoveMeanings(actions)))
  {
    var r := ResolveMutation(c, m).value;
    assert r.sets == SetMeanings(actions);
    assert r.removes == RemoveMeanings(actions);
  }

  lemma SomethingToDo(actions: seq<UpdateAction>)
    ensures actions == [] <==> SetMeanings(actions) == [] && RemoveMeanings(actions) == []
  {
  }

  /** `path = :value`. */
  method SetClause(builder: ExprBuilder, action: UpdateAction, m: Mutation<string>, guards: seq<Clause<string>>,
                ghost start: Bindings, ghost done: seq<UpdateAction>)
    returns (m': Mutation<string>, guards': seq<Clause<string>>)
    requires builder.Valid() && ActionsCompiled(start, builder.Bound(), m, guards, done) && action.Set?
    modifies builder
    ensures builder.Valid() && ActionsCompiled(start, builder.Bound(), m', guards', done + [action])
  {
    ghost var before := builder.Bound();
    var path := builder.ValuePath(action.attribute);
    ghost var pathed := builder.Bound();
    var val := builder.AliasValue(EncodeValue(action.value));
    SetBound(start, before, pathed, m, guards, done, builder.Bound(), path, val, action);
    return m.(sets := m.sets + [Assign(path, val)]), guards;
  }

  /** `path = path + :delta`, guarded by the attribute being a number. */
  method IncrementClause(builder: ExprBuilder, action: UpdateAction, m: Mutation<string>, guards: seq<Clause<string>>,
                ghost start: Bindings, ghost done: seq<UpdateAction>)
    returns (m': Mutation<string>, guards': seq<Clause<string>>)
    requires builder.Valid() && ActionsCompiled(start, builder.Bound(), m, guards, done) && action.Increment?
    modifies builder
    ensures builder.Valid() && ActionsCompiled(start, builder.Bound(), m', guards', done + [action])
  {
    ghost var before := builder.Bound();
    var path := builder.ValuePath(action.attribute);
    ghost var pathed := builder.Bound();
    var delta := builder.AliasValue(AttrN(Decimal.Render(action.amount)));
    var kind := builder.AliasValue(AttrS("N"));
    IncrementBound(start, before, pathed, m, guards, done, builder.Bound(), path, delta, kind, action);
    return m.(sets := m.sets + [AssignSum(path, delta)]), guards + [IncrementGuard(path, kind)];
  }

  /** `path` in the `REMOVE` section. */
  method RemoveClause(builder: ExprBuilder, action: UpdateAction, m: Mutation<string>, guards: seq<Clause<string>>,
                ghost start: Bindings, ghost done: seq<UpdateAction>)
    returns (m': Mutation<string>, guards': seq<Clause<string>>)
    requires builder.Valid() && ActionsCompiled(start, builder.Bound(), m, guards, done) && action.Remove?
    modifies builder
    ensures builder.Valid() && ActionsCompiled(start, builder.Bound(), m', guards', done + [action])
  {
    ghost var before := builder.Bound();
    var path := builder.ValuePath(action.attribute);
    RemoveCompiled(start, before, m, guards, done, builder.Bound(), path, action);
    return m.(removes := m.removes + [path]), guards;
  }

  /** The clauses of one more action. */
  method ActionClause(builder: ExprBuilder, action: UpdateAction, m: Mutation<string>, guards: seq<Clause<string>>,
                      ghost start: Bindings, ghost done: seq<UpdateAction>, ghost all: seq<UpdateAction>)
    returns (m': Mutation<string>, guards': seq<Clause<string>>)
    requires builder.Valid() && ActionsCompiled(start, builder.Bound(), m, guards, done) && all == done + [action]
    modifies builder
    ensures builder.Valid() && ActionsCompiled(start, builder.Bound(), m', guards', all)
  {
    match action {
      case Set(_, _) => m', guards' := SetClause(builder, action, m, guards, start, done);
      case Increment(_, _) => m', guards' := IncrementClause(builder, action, m, guards, start, done);
      case Remove(_) => m', guards' := RemoveClause(builder, action, m, guards, start, done);
    }
  }

  lemma SameActions(b: Bindings, c: Bindings, m: Mutation<string>, guards: seq<Clause<string>>,
                    done: seq<UpdateAction>, actions: seq<UpdateAction>)
    requires ActionsCompiled(b, c, m, guards, done) && done == actions
    ensures ActionsCompiled(b, c, m, guards, actions)
  {
  }

  lemma NothingCompiled(b: Bindings)
    ensures ActionsCompiled(b, b, Mutation([], []), [], [])
  {
  }

  /** The update expression of a list of actions and the guards its increments
      need. */
  method UpdateClauses(builder: ExprBuilder, actions: seq<UpdateAction>)
    returns (m: Mutation<string>, guards: seq<Clause<string>>)
    requires builder.Valid() && builder.Bound() == Bindings(map[], map[])
    modifies builder
    ensures builder.Valid()
    ensures ResolveMutation(builder.Bound(), m) == Some(MutationMeaning(actions))
    ensures GuardsCompiled(builder.Bound(), guards, GuardMeanings(actions))
    ensures builder.Bound().names.Keys == MutationNames(m)
    ensures builder.Bound().values.Keys == MutationValues(m) + GuardsValues(guards)
  {
    ghost var start := builder.Bound();
    m, guards := ActionClauses(builder, actions);
    AllCompiled(start, builder.Bound(), m, guards, actions);
    if m.sets == [] && m.removes == [] {
      m := NoopClause(builder);
    }
  }

  /** The clauses of all actions, in order. */
  method ActionClauses(builder: ExprBuilder, actions: seq<UpdateAction>)
    returns (m: Mutation<string>, guards: seq<Clause<string>>)
    requires builder.Valid()
    modifies builder
    ensures builder.Valid() && ActionsCompiled(old(builder.Bound()), builder.Bound(), m, guards, actions)
  {
    ghost var start := builder.Bound();
    m, guards := Mutation([], []), [];
    NothingCompiled(start);
    for i := 0 to |actions|
      invariant builder.Valid()
      invariant ActionsCompiled(start, builder.Bound(), m, guards, actions[..i])
    {
      assert actions[..i + 1] == actions[..i] + [actions[i]];
      m, guards := ActionClause(builder, actions[i], m, guards, start, actions[..i], actions[..i + 1]);
    }
    SameActions(start, builder.Bound(), m, guards, actions[..|actions|], actions);
  }

  lemma AllCompiled(start: Bindings, c: Bindings, m: Mutation<string>, guards: seq<Clause<string>>,
                    actions: seq<UpdateAction>)
    requires start == Bindings(map[], map[]) && ActionsCompiled(start, c, m, guards, actions)
    ensures m.sets == [] && m.removes == [] <==> actions == []
    ensures actions == [] ==> guards == [] && c == start
    ensures actions != [] ==> ResolveMutation(c, m) == Some(MutationMeaning(actions))
    ensures GuardsCompiled(c, guards, GuardMeanings(actions))
    ensures c.names.Keys == MutationNames(m) && c.values.Keys == MutationValues(m) + GuardsValues(guards)
  {
    CompiledMutationResolves(start, c, m, guards, actions);
    SomethingToDo(actions);
    if actions == [] {
      assert c.names.Keys == {} && c.values.Keys == {};
    }
  }

  /** An expression must not be empty: it touches a marker attribute instead. */
  method NoopClause(builder: ExprBuilder) returns (m: Mutation<string>)
    requires builder.Valid() && builder.Bound() == Bindings(map[], map[])
    modifies builder
    ensures builder.Valid()
    ensures ResolveMutation(builder.Bound(), m) == Some(MutationMeaning([]))
    ensures builder.Bound().names.Keys == MutationNames(m)
    ensures builder.Bound().values.Keys == MutationValues(m)
  {
    var marker := builder.AliasName(NOOP_MARKER_ATTR);
    var val := builder.AliasValue(AttrBool(true));
    m := Mutation([Assign(Top(marker), val)], []);
    NamesAfterSet(Mutation([], []), Assign(Top(marker), val));
    assert [] + [Assign(Top(marker), val)] == m.sets;
    var meant := ResolveMutation(builder.Bound(), m).value;
    assert meant.sets == MutationMeaning([]).sets && meant.removes == [];
  }

  lemma CompiledGuard(b: Bindings, c: Bindings, w: Clause<string>, meant: Clause<AttributeValue>,
                      g: Clause<string>, guard: Clause<AttributeValue>)
    requires Compiled(b, c, w, meant)
    requires ResolveClause(c, g) == Some(guard) && ClauseNames(g) <= b.names.Keys && ClauseValues(g) <= b.values.Keys
    ensures Compiled(b, c, And(w, g), And(meant, guard))
  {
    assert c.names.Keys == b.names.Keys + (ClauseNames(w) + ClauseNames(g));
    assert c.values.Keys == b.values.Keys + (ClauseValues(w) + ClauseValues(g));
  }

  /** Appends the guards to a condition, clause by clause. */
  method JoinGuards(condition: Clause<string>, guards: seq<Clause<string>>, ghost b: Bindings, ghost c: Bindings,
                    ghost base: Clause<AttributeValue>, ghost meant: seq<Clause<AttributeValue>>)
    returns (joined: Clause<string>)
    requires Compiled(b, c, condition, base) && GuardsCompiled(b, guards, meant)
    ensures Compiled(b, c, joined, Joined(base, meant))
    ensures GuardsValues(guards) <= ClauseValues(joined)
  {
    joined := condition;
    for i := 0 to |guards|
      invariant Compiled(b, c, joined, Joined(base, meant[..i]))
      invariant GuardsValues(guards[..i]) <= ClauseValues(joined)
    {
      JoinStep(b, c, joined, base, guards, meant, i);
      joined := And(joined, guards[i]);
    }
    assert meant[..|meant|] == meant && guards[..|guards|] == guards;
  }

  lemma JoinStep(b: Bindings, c: Bindings, joined: Clause<string>, base: Clause<AttributeValue>,
                 guards: seq<Clause<string>>, meant: seq<Clause<AttributeValue>>, i: nat)
    requires i < |guards| && GuardsCompiled(b, guards, meant)
    requires Compiled(b, c, joined, Joined(base, meant[..i])) && GuardsValues(guards[..i]) <= ClauseValues(joined)
    ensures Compiled(b, c, And(joined, guards[i]), Joined(base, meant[..i + 1]))
    ensures GuardsValues(guards[..i + 1]) <= ClauseValues(And(joined, guards[i]))
  {
    ResolveClauseStable(b, c, guards[i]);
    CompiledGuard(b, c, joined, Joined(base, meant[..i]), guards[i], meant[i]);
    GuardsValuesAfter(guards[..i], guards[i]);
    assert guards[..i + 1] == guards[..i] + [guards[i]];
    assert meant[..i + 1][..i] == meant[..i];
  }

  /** The condition of an update: the item exists, the caller's conditions hold,
      and every increment finds a number. */
  method UpdateConditionExpression(builder: ExprBuilder, conditions: seq<Condition>, guards: seq<Clause<string>>,
                                   ghost actions: seq<UpdateAction>)
    returns (condition: Clause<string>)
    requires builder.Valid() && GuardsCompiled(builder.Bound(), guards, GuardMeanings(actions))
    modifies builder
    ensures builder.Valid()
    ensures Compiled(old(builder.Bound()), builder.Bound(), condition, UpdateConditionMeaning(conditions, actions))
    ensures GuardsValues(guards) <= ClauseValues(condition)
  {
    ghost var start := builder.Bound();
    var pk := builder.AliasName(PK_ATTR);
    condition := AttributeExists(Top(pk));
    ghost var base: Clause<AttributeValue> := AttributeExists(Top(PK_ATTR));
    ghost var bound := builder.Bound();
    var caller := ConditionsClause(builder, conditions);
    if caller.Some? {
      CompiledAnd(start, bound, builder.Bound(), condition, caller.value, base, ConditionsMeaning(conditions));
      condition := And(condition, caller.value);
      base := And(base, ConditionsMeaning(conditions));
    }
    condition := JoinGuards(condition, guards, start, builder.Bound(), base, GuardMeanings(actions));
  }
}
