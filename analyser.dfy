/**
 * The compatibility analyser: it receives the enter and leave events of a
 * walk over a PHP syntax tree and keeps, for every namespace, class,
 * interface, trait, function, method, constant, extension and conditional
 * guard it meets, the PHP and extension versions that element needs.
 */
module Analyser {
  import opened Wrappers
  import opened Versions
  import opened Strings
  import opened Metrics
  import opened Syntax

  /** The name of the namespace frame that is always at the bottom of the stack. */
  const GlobalNamespace: string := "+global"

  /** The parser's Use_::TYPE_FUNCTION and Use_::TYPE_CONSTANT class constants. */
  const TypeFunction: int := 2
  const TypeConstant: int := 3

  /** What beforeTraverse registers for the global namespace and for the Core extension. */
  const CoreRecord: Entry := Php4.(extName := "Core")

  /**
   * localVersions before the first function scope: PHP null, whose keys come
   * into being as null (read as '') when first raised.
   */
  const Unset: Entry := Php4.(phpMin := [])

  /** ReferenceCollection::find(category, name, argument count): the record of a built-in element. */
  type RefDb = (Category, string, Option<nat>) -> Entry

  /** metrics['versions']: the project-wide PHP band. */
  datatype GlobalVersions = GlobalVersions(phpMin: Version, phpMax: Version)

  function Top(s: seq<Key>): Key
    requires |s| >= 1
  {
    s[|s| - 1]
  }

  /** updateGlobalVersion(min, max): the band starts at 4.0.0 and only rises. */
  function GlobalRaised(g: Option<GlobalVersions>, min: Version, max: Version): (r: GlobalVersions)
    ensures LessEq(min, r.phpMin) && LessEq(max, r.phpMax)
    ensures g.Some? ==> LessEq(g.value.phpMin, r.phpMin) && LessEq(g.value.phpMax, r.phpMax)
    ensures g.None? ==> LessEq(V400, r.phpMin)
    ensures r.phpMin == min || r.phpMin == (if g.Some? then g.value.phpMin else V400)
    ensures r.phpMax == max || r.phpMax == (if g.Some? then g.value.phpMax else [])
  {
    var base := g.GetOr(GlobalVersions(V400, []));
    GlobalVersions(UpdateVersion(min, base.phpMin), UpdateVersion(max, base.phpMax))
  }

  // ---------------------------------------------------------------------------
  // The rule table: what each declaration contributes on entry.

  /** A namespace without a name is the global namespace. */
  function NamespaceName(n: Option<Name>): string {
    if n.None? then GlobalNamespace else NameString(n.value)
  }

  /** php.min of a class before its interfaces are taken into account. */
  function ClassBaseMin(c: Node): (r: Version)
    requires c.Class_?
    ensures OptIsQualified(c.namespacedName) ==> r == V530
    ensures !OptIsQualified(c.namespacedName) && (c.isAbstract || c.isFinal) ==> r == V500
    ensures !OptIsQualified(c.namespacedName) && !c.isAbstract && !c.isFinal ==> r == V400
  {
    if OptIsQualified(c.namespacedName) then V530
    else if c.isAbstract || c.isFinal then V500
    else V400
  }

  /** What a parent class reference contributes: 5.3.0 when written fully qualified. */
  function ParentRecord(p: Name): (r: Entry)
    ensures r.extName == "user" && r.phpMax == [] && r.matches == 0 && !r.optional
    ensures r.phpMin == V530 <==> p.fullyQualified
    ensures !p.fullyQualified ==> r == Php4
  {
    if p.fullyQualified then PhpRange(V530, []) else Php4
  }

  /** An interface needs PHP 5: 5.0.0, or 5.3.0 when it is declared inside a namespace. */
  function InterfaceMin(n: Option<Name>): (r: Version)
    ensures OptIsQualified(n) ==> r == V530
    ensures !OptIsQualified(n) ==> r == V500
  {
    if OptIsQualified(n) then V530 else V500
  }

  /** Traits appeared in PHP 5.4.0, whatever their name. */
  const TraitMin: Version := V540

  /** A function needs 5.3.0 when it is declared inside a namespace, 4.0.0 otherwise. */
  function FunctionMin(n: Option<Name>): (r: Version)
    ensures OptIsQualified(n) ==> r == V530
    ensures !OptIsQualified(n) ==> r == V400
  {
    if OptIsQualified(n) then V530 else V400
  }

  /** sprintf('closure-%d-%d', startLine, endLine). */
  function ClosureName(startLine: nat, endLine: nat): (r: string)
    ensures |r| > 10 && r[..8] == "closure-"
    ensures forall i :: 8 <= i < |r| ==> IsDigit(r[i]) || r[i] == '-'
  {
    "closure-" + NatToString(startLine) + "-" + NatToString(endLine)
  }

  /** Two closures get the same name only when they span the same lines. */
  lemma ClosureNamesDistinct(a: nat, b: nat, c: nat, d: nat)
    requires ClosureName(a, b) == ClosureName(c, d)
    ensures a == c && b == d
  {
    var x, y := NatToString(a), NatToString(b);
    var u, v := NatToString(c), NatToString(d);
    assert "closure-" + x + "-" + y == "closure-" + (x + ['-'] + y);
    assert "closure-" + u + "-" + v == "closure-" + (u + ['-'] + v);
    assert x + ['-'] + y == ClosureName(a, b)[8..] == u + ['-'] + v;
    SeparatorNotInDigits(a, '-');
    SeparatorNotInDigits(c, '-');
    SplitAtFirst(x, y, u, v, '-');
    NatToStringInjective(a, c);
    NatToStringInjective(b, d);
  }

  /** sprintf('%s::%s', class, method). */
  function MethodName(owner: string, member: string): (r: string)
    ensures |r| == |owner| + 2 + |member|
    ensures r[..|owner|] == owner && r[|owner|..|owner| + 2] == "::" && r[|owner| + 2..] == member
  {
    owner + "::" + member
  }

  /** Method frames of classes whose names hold no colon never collide. */
  lemma MethodNamesDistinct(owner: string, member: string, owner2: string, member2: string)
    requires ':' !in owner && ':' !in owner2
    requires MethodName(owner, member) == MethodName(owner2, member2)
    ensures owner == owner2 && member == member2
  {
    assert MethodName(owner, member) == owner + [':'] + (":" + member);
    assert MethodName(owner2, member2) == owner2 + [':'] + (":" + member2);
    SplitAtFirst(owner, ":" + member, owner2, ":" + member2, ':');
    assert member == (":" + member)[1..];
  }

  predicate IsFunctionLike(n: Node) {
    n.Function_? || n.Closure? || n.ClassMethod?
  }

  /** The frame a function, closure or method pushes; a method is named after the frame it is declared in. */
  function FunctionFrame(n: Node, stack: seq<Key>): Key
    requires IsFunctionLike(n) && (n.ClassMethod? ==> |stack| >= 1)
  {
    match n
    case ClassMethod(m) => (Methods, MethodName(Top(stack).1, m))
    case Closure(startLine, endLine) => (Functions, ClosureName(startLine, endLine))
    case Function_(nn) => (Functions, OptNameString(nn))
  }

  /** What a function, closure or method contributes on entry. */
  function FunctionRecord(n: Node): (r: Entry)
    requires IsFunctionLike(n)
    ensures r.extName == "user" && r.phpMax == [] && r.matches == 0 && !r.optional && r.argMax.None?
    ensures n.ClassMethod? ==> r == Php4
    ensures n.Closure? ==> r.phpMin == V530
    ensures n.Function_? ==> r.phpMin == FunctionMin(n.namespacedName)
  {
    match n
    case ClassMethod(_) => Php4
    case Closure(_, _) => PhpRange(V530, [])
    case Function_(nn) => PhpRange(FunctionMin(nn), [])
  }

  predicate IsFullyQualifiedHint(h: TypeHint) {
    h.TypeName? && h.name.fullyQualified
  }

  /**
   * A parameter hinted with a fully qualified class: the enclosing frame
   * needs 5.3.0, and the class is registered as used with the same record.
   */
  function TypeHintRegistered(t: Table, top: Key, n: Name): (r: Table)
    ensures Grows(t, r)
    ensures top in r && LessEq(V530, r[top].phpMin)
    ensures var k := (Classes, NameString(n));
      k in r && r[k].matches == (if k in t then t[k].matches else 0) + 1
  {
    var versions := PhpRange(V530, []);
    var k := (Classes, NameString(n));
    var t0 := Updated(t, top, versions);
    var t1 := Updated(t0, k, versions);
    GrowsTransitive(t, t0, t1);
    GrowsTransitive(t, t1, Counted(t1, k));
    Counted(t1, k)
  }

  /** The parent class, if any, registered as a class usage. */
  function ParentRegistered(t: Table, parent: Option<Name>): (r: Table)
    ensures Grows(t, r)
  {
    if parent.None? then t
    else
      var k := (Classes, NameString(parent.value));
      var t1 := Updated(t, k, ParentRecord(parent.value));
      GrowsTransitive(t, t1, Counted(t1, k));
      Counted(t1, k)
  }

  function InterfaceRecord(find: RefDb, n: Name): Entry {
    find(Interfaces, NameString(n), None)
  }

  /** The implemented interfaces, each updated with its reference record, in order. */
  function InterfacesRegistered(find: RefDb, t: Table, names: seq<Name>): (r: Table)
    ensures Grows(t, r)
    decreases |names|
  {
    if names == [] then t
    else
      var last := names[|names| - 1];
      var t1 := InterfacesRegistered(find, t, names[..|names| - 1]);
      var r := Updated(t1, (Interfaces, NameString(last)), InterfaceRecord(find, last));
      GrowsTransitive(t, t1, r);
      r
  }

  lemma InterfacesRegisteredSnoc(find: RefDb, t: Table, names: seq<Name>, i: nat)
    requires i < |names|
    ensures InterfacesRegistered(find, t, names[..i + 1])
         == Updated(InterfacesRegistered(find, t, names[..i]), (Interfaces, NameString(names[i])), InterfaceRecord(find, names[i]))
  {
    assert names[..i + 1][..i] == names[..i];
  }

  function InterfaceMins(find: RefDb, names: seq<Name>): (vs: seq<Version>)
    ensures |vs| == |names|
  {
    seq(|names|, i requires 0 <= i < |names| => InterfaceRecord(find, names[i]).phpMin)
  }

  function InterfaceMaxes(find: RefDb, names: seq<Name>): (vs: seq<Version>)
    ensures |vs| == |names|
  {
    seq(|names|, i requires 0 <= i < |names| => InterfaceRecord(find, names[i]).phpMax)
  }

  /** A base raised by updateVersion with each version in turn. */
  function Raised(base: Version, vs: seq<Version>): Version
    decreases |vs|
  {
    if vs == [] then base else UpdateVersion(vs[|vs| - 1], Raised(base, vs[..|vs| - 1]))
  }

  lemma RaisedSnoc(base: Version, vs: seq<Version>, i: nat)
    requires i < |vs|
    ensures Raised(base, vs[..i + 1]) == UpdateVersion(vs[i], Raised(base, vs[..i]))
  {
    assert vs[..i + 1][..i] == vs[..i];
  }

  /** The raised base is the greatest of the base and the versions: above each, and one of them. */
  lemma {:induction false} RaisedIsGreatest(base: Version, vs: seq<Version>)
    ensures LessEq(base, Raised(base, vs))
    ensures forall i :: 0 <= i < |vs| ==> LessEq(vs[i], Raised(base, vs))
    ensures Raised(base, vs) == base || Raised(base, vs) in vs
    decreases |vs|
  {
    if vs != [] {
      var init := vs[..|vs| - 1];
      var r0 := Raised(base, init);
      var r := Raised(base, vs);
      RaisedIsGreatest(base, init);
      LessEqTransitive(base, r0, r);
      forall i | 0 <= i < |vs|
        ensures LessEq(vs[i], r)
      {
        if i < |vs| - 1 {
          assert vs[i] == init[i];
          LessEqTransitive(vs[i], r0, r);
        }
      }
      if r0 in init {
        var j :| 0 <= j < |init| && init[j] == r0;
        assert vs[j] == r0;
      }
    }
  }

  // ---------------------------------------------------------------------------
  // The alias resolver.

  /** The key of an alias recorded for `$owner->property`. */
  function AliasKey(owner: string, property: string): string {
    owner + "_" + property
  }

  /**
   * The alias key of an assignment target or method-call receiver: `$v` is
   * keyed by its name, `$o->p` by AliasKey; every other shape has none.
   */
  function AliasTarget(e: Node): (r: Option<string>)
    ensures r.Some? <==>
      || (e.Variable? && e.varName.Some?)
      || (e.PropertyFetch? && e.property.Some? && e.owner.Variable? && e.owner.varName.Some?)
    ensures e.Variable? ==> r == e.varName
  {
    match e
    case Variable(name) => name
    case PropertyFetch(owner, property) =>
      if property.Some? && owner.Variable? && owner.varName.Some?
      then Some(AliasKey(owner.varName.value, property.value)) else None
    case _ => None
  }

  /** A variable and a property fetch can share an alias key: `$a_b` and `$a->b`. */
  lemma AliasKeysCollide(owner: string, property: string)
    ensures AliasTarget(Variable(Some(AliasKey(owner, property))))
         == AliasTarget(PropertyFetch(Variable(Some(owner)), Some(property)))
  {
  }

  // ---------------------------------------------------------------------------
  // Reference resolution.

  /** The memo of resolved records, the local accumulator and the table, together. */
  datatype Snapshot = Snapshot(metrics: Table, local: Entry, memo: map<nat, Entry>)

  predicate HasPowArg(args: seq<Node>) {
    exists i :: 0 <= i < |args| && args[i].Pow?
  }

  /** A reference record raised to 5.6.0 when an argument is a `**` expression. */
  function WithPow(v: Entry, args: seq<Node>): Entry {
    if HasPowArg(args) then v.(phpMin := UpdateVersion(V560, v.phpMin)) else v
  }

  /** The record a reference resolves to: the memoised one, else the looked-up one. */
  function Resolved(memo: map<nat, Entry>, id: nat, found: Entry, args: seq<Node>): Entry {
    if id in memo then memo[id] else WithPow(found, args)
  }

  /**
   * The referenced element updated with its record and its counter
   * incremented, then its extension updated unless it is a user element.
   */
  function Referenced(t: Table, k: Key, v: Entry): (r: Table)
    ensures Grows(t, r)
    ensures k in r && r.Keys == t.Keys + {k} + (if v.extName != "user" then {(Extensions, v.extName)} else {})
  {
    var t0 := Updated(t, k, v);
    var t1 := Counted(t0, k);
    GrowsTransitive(t, t0, t1);
    if v.extName != "user" then
      var t2 := Updated(t1, (Extensions, v.extName), v);
      GrowsTransitive(t, t1, t2);
      t2
    else t1
  }

  /**
   * computeInternalVersions: the element is referenced, the record merged
   * into the local accumulator and the accumulator into the frame on top of
   * the stack.
   */
  function InternalStep(s: Snapshot, top: Key, id: nat, found: Entry, args: seq<Node>, k: Key): (r: Snapshot)
    ensures Grows(s.metrics, r.metrics)
    ensures r.local.argMax == s.local.argMax
    ensures EntryGrows(s.local, r.local)
  {
    var v := Resolved(s.memo, id, found, args);
    var t := Referenced(s.metrics, k, v);
    // The accumulator never carries arg.max.
    var local := Merged(s.local, v.(argMax := None));
    GrowsTransitive(s.metrics, t, Updated(t, top, local));
    Snapshot(Updated(t, top, local), local, s.memo[id := v])
  }

  /**
   * A resolved reference counts exactly once on its own record, raises the
   * local accumulator to at least its php.min, and leaves every extension
   * record alone when it is a user element.
   */
  lemma InternalStepEffects(s: Snapshot, top: Key, id: nat, found: Entry, args: seq<Node>, k: Key)
    requires k.0 != Extensions && top.0 != Extensions
    ensures var v := Resolved(s.memo, id, found, args);
      var r := InternalStep(s, top, id, found, args, k);
      && k in r.metrics
      && r.metrics[k].matches == (if k in s.metrics then s.metrics[k].matches else 0) + 1
      && LessEq(v.phpMin, r.local.phpMin)
      && r.memo == s.memo[id := v]
      && (v.extName == "user" ==>
            forall e: Key :: e.0 == Extensions ==> (e in r.metrics <==> e in s.metrics) && (e in s.metrics ==> r.metrics[e] == s.metrics[e]))
  {
    var v := Resolved(s.memo, id, found, args);
    var t0 := Updated(s.metrics, k, v);
    if k in s.metrics {
      UpdatedEntry(s.metrics, k, v);
    } else {
      UpdatedCreates(s.metrics, k, v);
    }
    var t := Referenced(s.metrics, k, v);
    assert t[k].matches == t0[k].matches + 1;
    var local := Merged(s.local, v.(argMax := None));
    if k == top {
      UpdatedEntry(t, top, local);
    }
  }

  /** computeConstantVersions: a constant reference, then the accumulator into the top frame again. */
  function ConstantStep(s: Snapshot, top: Key, id: nat, found: Entry, name: string): (r: Snapshot)
    ensures Grows(s.metrics, r.metrics)
    ensures r.local.argMax == s.local.argMax
    ensures EntryGrows(s.local, r.local)
  {
    var s1 := InternalStep(s, top, id, found, [], (Constants, name));
    var t := Updated(s1.metrics, top, s1.local);
    GrowsTransitive(s.metrics, s1.metrics, t);
    s1.(metrics := t)
  }

  /** The record of a declared constant: 5.6.0 when its initialiser is not a scalar. */
  function ConstInitRecord(value: Node): Entry {
    if IsScalar(value) then Php4 else PhpRange(V560, [])
  }

  /** One constant of a `const` statement: its record is memoised first, so the database is not consulted. */
  function ConstDeclStep(s: Snapshot, top: Key, find: RefDb, c: ConstDecl): (r: Snapshot)
    ensures Grows(s.metrics, r.metrics)
    ensures r.local.argMax == s.local.argMax
    ensures EntryGrows(s.local, r.local)
  {
    var s0 := if c.id in s.memo then s else s.(memo := s.memo[c.id := ConstInitRecord(c.value)]);
    ConstantStep(s0, top, c.id, find(Constants, c.constName, Some(0)), c.constName)
  }

  function ConstDeclsFold(s: Snapshot, top: Key, find: RefDb, cs: seq<ConstDecl>): (r: Snapshot)
    ensures Grows(s.metrics, r.metrics)
    ensures r.local.argMax == s.local.argMax
    ensures EntryGrows(s.local, r.local)
    decreases |cs|
  {
    if cs == [] then s
    else
      var s1 := ConstDeclsFold(s, top, find, cs[..|cs| - 1]);
      var r := ConstDeclStep(s1, top, find, cs[|cs| - 1]);
      GrowsTransitive(s.metrics, s1.metrics, r.metrics);
      EntryGrowsTransitive(s.local, s1.local, r.local);
      r
  }

  lemma ConstDeclsFoldSnoc(s: Snapshot, top: Key, find: RefDb, cs: seq<ConstDecl>, i: nat)
    requires i < |cs|
    ensures ConstDeclsFold(s, top, find, cs[..i + 1]) == ConstDeclStep(ConstDeclsFold(s, top, find, cs[..i]), top, find, cs[i])
  {
    assert cs[..i + 1][..i] == cs[..i];
  }

  /** The conditional functions and the category of the element each one tests. */
  function GuardCategory(f: string): (r: Option<Category>)
    ensures r.Some? ==> forall i :: 0 <= i < |f| ==> !('A' <= f[i] <= 'Z')
    ensures r.Some? ==> r.value in {Extensions, Functions, Classes, Interfaces, Traits, Constants}
    ensures r == Some(Constants) <==> f == "defined"
  {
    if f == "extension_loaded" then Some(Extensions)
    else if f == "function_exists" then Some(Functions)
    else if f == "class_exists" then Some(Classes)
    else if f == "interface_exists" then Some(Interfaces)
    else if f == "trait_exists" then Some(Traits)
    else if f == "defined" then Some(Constants)
    else None
  }

  /** sprintf('%s(%s)', guard, name). */
  function ConditionName(guard: string, name: string): string {
    guard + "(" + name + ")"
  }

  /**
   * What computeFunctionCallVersions does after the call itself is resolved:
   * `define` (in any letter case) with a literal name registers a user
   * constant; a conditional function (exact case) with a literal argument
   * marks the tested element optional and counts the condition.
   */
  function CallChecked(t: Table, find: RefDb, element: string, args: seq<Node>): (r: Table)
    ensures Grows(t, r)
  {
    var lit := FirstStringArg(args);
    if EqualsIgnoreCase("define", element) then
      if lit.Some? then Updated(t, (Constants, lit.value), Php4) else t
    else if GuardCategory(element).Some? && lit.Some? then
      var k := (GuardCategory(element).value, lit.value);
      var v := find(k.0, k.1, None);
      var t1 := Updated(t, k, v);
      var t2 := MarkedOptional(t1, k);
      var cond := (Conditions, ConditionName(element, lit.value));
      var t3 := Updated(t2, cond, v);
      GrowsTransitive(t, t1, t2);
      GrowsTransitive(t, t2, t3);
      GrowsTransitive(t, t3, Counted(t3, cond));
      Counted(t3, cond)
    else t
  }

  /**
   * A guard with a literal argument leaves the tested element optional and
   * the condition's counter one above what it was (zero when new).
   */
  lemma GuardCounts(t: Table, find: RefDb, element: string, args: seq<Node>)
    requires !EqualsIgnoreCase("define", element)
    requires GuardCategory(element).Some? && FirstStringArg(args).Some?
    ensures var k := (GuardCategory(element).value, FirstStringArg(args).value);
      var cond := (Conditions, ConditionName(element, FirstStringArg(args).value));
      var r := CallChecked(t, find, element, args);
      && k in r && r[k].optional
      && cond in r && r[cond].matches == (if cond in t then t[cond].matches else 0) + 1
  {
    var lit := FirstStringArg(args).value;
    var k := (GuardCategory(element).value, lit);
    var v := find(k.0, k.1, None);
    var t2 := MarkedOptional(Updated(t, k, v), k);
    var cond := (Conditions, ConditionName(element, lit));
    assert k != cond;
    if cond in t {
      UpdatedEntry(t2, cond, v);
    } else {
      UpdatedCreates(t2, cond, v);
    }
  }

  /** A guard or define whose first argument is not a string literal changes nothing. */
  lemma NonLiteralArgumentIgnored(t: Table, find: RefDb, element: string, args: seq<Node>)
    requires FirstStringArg(args).None?
    ensures CallChecked(t, find, element, args) == t
  {
  }

  /** `define('X', ...)` registers X as a user constant; the name test ignores letter case. */
  lemma DefineRegistersUserConstant(t: Table, find: RefDb, element: string, name: string, rest: seq<Node>)
    requires EqualsIgnoreCase("define", element)
    ensures var r := CallChecked(t, find, element, [StringLit(name)] + rest);
      && (Constants, name) in r
      && r[(Constants, name)].extName == (if (Constants, name) in t then t[(Constants, name)].extName else "user")
  {
  }

  /**
   * The guard table is case sensitive, unlike the define test: a call that is
   * neither a define nor an exact guard name changes nothing, so a guard
   * written with a capital letter is ignored.
   */
  lemma GuardNamesAreCaseSensitive(t: Table, find: RefDb, element: string, args: seq<Node>)
    ensures !EqualsIgnoreCase("define", element) && GuardCategory(element).None?
      ==> CallChecked(t, find, element, args) == t
    ensures !EqualsIgnoreCase("define", element) && (exists i :: 0 <= i < |element| && 'A' <= element[i] <= 'Z')
      ==> CallChecked(t, find, element, args) == t
  {
  }

  /** The stack effect of an event: scopes push on entry and pop on leave. */
  predicate IsScope(n: Node) {
    n.Namespace_? || n.Class_? || n.Interface_? || n.Trait_? || IsFunctionLike(n)
  }

  datatype Event = Enter(node: Node) | Leave(node: Node)

  function Delta(e: Event): int {
    if !IsScope(e.node) then 0 else if e.Enter? then 1 else -1
  }

  /** Scope entries minus scope leaves. */
  function Depth(es: seq<Event>): int
    decreases |es|
  {
    if es == [] then 0 else Depth(es[..|es| - 1]) + Delta(es[|es| - 1])
  }

  /** No prefix of the stream leaves more scopes than it entered. */
  predicate Nested(es: seq<Event>) {
    forall i :: 0 <= i <= |es| ==> Depth(es[..i]) >= 0
  }

  /** A use statement is always taken as `use function` / `use const`: the test reads class constants. */
  predicate UseIsImportForm(n: Node)
    requires n.Use_?
  {
    TypeFunction != 0 || TypeConstant != 0
  }

  /** The PHP feature a use statement, array literal or array dereference needs, if any. */
  function FeatureMin(n: Node): (r: Option<Version>)
    ensures r.Some? <==> n.Use_? || (n.Array_? && n.shortSyntax) || (n.ArrayDimFetch? && n.base.FuncCall?)
    ensures r.Some? ==> LessEq(V540, r.value)
    ensures n.Use_? ==> r == Some(V560)
  {
    match n
    case Use_(_) => if UseIsImportForm(n) then Some(V560) else None
    case Array_(short) => if short then Some(V540) else None
    case ArrayDimFetch(base) => if base.FuncCall? then Some(V540) else None
    case _ => None
  }

  /** Every use statement raises its frame to 5.6.0, whatever its import type. */
  lemma EveryUseNeeds56(useType: int)
    ensures FeatureMin(Use_(useType)) == Some(V560)
  {
  }

  // ---------------------------------------------------------------------------

  class CompatibilityAnalyser {
    const find: RefDb
    var metrics: Table
    var versions: Option<GlobalVersions>
    var contextStack: seq<Key>
    var aliases: map<string, string>
    var localVersions: Entry
    var memo: map<nat, Entry>

    /** Every open frame has a record, and the accumulator is a user record without arg.max. */
    ghost predicate Valid()
      reads this
    {
      && (forall f :: f in contextStack ==> f in metrics)
      && localVersions.extName == "user"
      && localVersions.argMax == None
    }

    ghost function Snap(): Snapshot
      reads this
    {
      Snapshot(metrics, localVersions, memo)
    }

    constructor (find: RefDb)
      ensures Valid() && this.find == find
      ensures metrics == map[] && versions == None && contextStack == []
      ensures aliases == map[] && localVersions == Unset && memo == map[]
    {
      this.find := find;
      metrics := map[];
      versions := None;
      contextStack := [];
      aliases := map[];
      localVersions := Unset;
      memo := map[];
    }

    method UpdateElementVersion(k: Key, v: Entry)
      modifies this`metrics
      ensures metrics == Updated(old(metrics), k, v)
    {
      if k !in metrics {
        metrics := metrics[k := v.(matches := 0)];
      }
      var e := metrics[k];
      if e.argMax.Some? && v.argMax.Some? && e.argMax.value < v.argMax.value {
        e := e.(argMax := v.argMax);
      }
      e := e.(phpMin := UpdateVersion(v.phpMin, e.phpMin));
      e := e.(phpMax := UpdateVersion(v.phpMax, e.phpMax));
      if v.extName != "user" {
        e := e.(extMin := UpdateVersion(v.extMin, e.extMin));
        e := e.(extMax := UpdateVersion(v.extMax, e.extMax));
      }
      metrics := metrics[k := e];
    }

    method IncrementMatches(k: Key)
      requires k in metrics
      modifies this`metrics
      ensures metrics == Counted(old(metrics), k)
    {
      metrics := metrics[k := metrics[k].(matches := metrics[k].matches + 1)];
    }

    /** The frame on top of the stack is updated; the stack itself is left as it was. */
    method UpdateContextVersion(v: Entry)
      requires |contextStack| >= 1
      modifies this`metrics
      ensures metrics == Updated(old(metrics), Top(contextStack), v)
    {
      var frame := contextStack[|contextStack| - 1];
      UpdateElementVersion(frame, v);
    }

    method UpdateGlobalVersion(min: Version, max: Version)
      modifies this`versions
      ensures versions == Some(GlobalRaised(old(versions), min, max))
    {
      if versions.None? {
        versions := Some(GlobalVersions(V400, []));
      }
      var g := versions.value;
      g := g.(phpMin := UpdateVersion(min, g.phpMin));
      g := g.(phpMax := UpdateVersion(max, g.phpMax));
      versions := Some(g);
    }

    /** Start of a file: the global namespace and the Core extension are registered, and the stack holds only the global frame. */
    method BeforeTraverse()
      requires Valid()
      modifies this
      ensures Valid()
      ensures contextStack == [(Namespaces, GlobalNamespace)]
      ensures metrics == Updated(Updated(old(metrics), (Namespaces, GlobalNamespace), CoreRecord), (Extensions, "Core"), CoreRecord)
      ensures versions == old(versions) && aliases == old(aliases)
      ensures localVersions == old(localVersions) && memo == old(memo)
    {
      UpdateElementVersion((Namespaces, GlobalNamespace), CoreRecord);
      UpdateElementVersion((Extensions, CoreRecord.extName), CoreRecord);
      contextStack := [(Namespaces, GlobalNamespace)];
    }

    /** End of a file: the global namespace frame is closed like any namespace. */
    method AfterTraverse()
      requires Valid() && |contextStack| >= 1
      modifies this
      ensures Valid() && Grows(old(metrics), metrics)
      ensures contextStack == old(contextStack[..|contextStack| - 1])
      ensures versions.Some?
      ensures aliases == old(aliases) && localVersions == old(localVersions) && memo == old(memo)
    {
      ComputeNamespaceVersions();
    }

    /**
     * Dispatch on entry to a node. Scopes push exactly one frame; other nodes
     * leave the stack as it was.
     */
    method EnterNode(node: Node)
      requires Valid() && |contextStack| >= 1
      modifies this
      ensures Valid() && Grows(old(metrics), metrics)
      ensures if IsScope(node)
        then |contextStack| == old(|contextStack|) + 1 && contextStack[..old(|contextStack|)] == old(contextStack)
        else contextStack == old(contextStack)
      ensures versions == old(versions) && memo == old(memo)
    {
      if IsScope(node) {
        EnterScope(node);
      } else {
        match node
        case Assign(target, expr) =>
          if expr.New_? {
            InitClassAliasResolver(target, expr.classRef);
          }
        case Param(_, _, _) =>
          InitFunctionArguments(node);
        case _ =>
      }
    }

    /** Entering a namespace, a class-like or a function-like node opens its frame. */
    method EnterScope(node: Node)
      requires Valid() && IsScope(node) && |contextStack| >= 1
      modifies this
      ensures Valid() && Grows(old(metrics), metrics)
      ensures |contextStack| == old(|contextStack|) + 1 && contextStack[..old(|contextStack|)] == old(contextStack)
      ensures versions == old(versions) && memo == old(memo)
    {
      match node
      case Namespace_(nsName) =>
        IniUsertNamespace(nsName);
      case Class_(_, _, _, _, _) =>
        InitUserClass(node);
      case Interface_(nn) =>
        InitUserInterface(nn);
      case Trait_(nn) =>
        InitUserTrait(nn);
      case Function_(_) =>
        InitUserFunction(node);
      case Closure(_, _) =>
        InitUserFunction(node);
      case ClassMethod(_) =>
        InitUserFunction(node);
    }

    /**
     * Dispatch on leaving a node. Scopes pop exactly one frame; other nodes
     * leave the stack as it was.
     */
    method LeaveNode(node: Node)
      requires Valid() && |contextStack| >= (if IsScope(node) then 2 else 1)
      modifies this
      ensures Valid() && Grows(old(metrics), metrics)
      ensures if IsScope(node)
        then contextStack == old(contextStack[..|contextStack| - 1])
        else contextStack == old(contextStack)
      ensures aliases == old(aliases)
      ensures node.Namespace_? || versions == old(versions)
    {
      if IsScope(node) {
        LeaveScope(node);
      } else {
        LeaveElement(node);
      }
    }

    /** Leaving a namespace, a class-like or a function-like node closes its frame. */
    method LeaveScope(node: Node)
      requires Valid() && IsScope(node) && |contextStack| >= 2
      modifies this
      ensures Valid() && Grows(old(metrics), metrics)
      ensures contextStack == old(contextStack[..|contextStack| - 1])
      ensures aliases == old(aliases)
      ensures node.Namespace_? || versions == old(versions)
    {
      match node
      case Namespace_(_) =>
        ComputeNamespaceVersions();
      case Class_(nn, _, _, _, _) =>
        ComputeTypeVersions((Classes, OptNameString(nn)));
      case Interface_(nn) =>
        ComputeTypeVersions((Interfaces, OptNameString(nn)));
      case Trait_(nn) =>
        ComputeTypeVersions((Traits, OptNameString(nn)));
      case Function_(_) =>
        ComputeFunctionVersions();
      case Closure(_, _) =>
        ComputeFunctionVersions();
      case ClassMethod(_) =>
        ComputeFunctionVersions();
    }

    /** Leaving any other node records the versions its use requires. */
    method LeaveElement(node: Node)
      requires Valid() && !IsScope(node) && |contextStack| >= 1
      modifies this
      ensures Valid() && Grows(old(metrics), metrics)
      ensures contextStack == old(contextStack)
      ensures aliases == old(aliases) && versions == old(versions)
    {
      match node
      case New_(id, classRef, args) =>
        if classRef.NameRef? {
          ComputeInternalVersions(id, args, NameString(classRef.name), Classes);
        }
      case FuncCall(id, callee, args) =>
        if callee.NameRef? {
          ComputeFunctionCallVersions(id, callee.name, args);
        }
      case MethodCall(receiver, calledName, _) =>
        if calledName.Some? {
          var _ := ComputeClassMethodCallVersions(receiver);
        }
      case Use_(_) =>
        ComputePhpFeatureVersions(node);
      case Array_(_) =>
        ComputePhpFeatureVersions(node);
      case ArrayDimFetch(base) =>
        if base.FuncCall? {
          ComputePhpFeatureVersions(node);
        }
      case Const_(consts) =>
        ComputeConstDeclarations(consts);
      case ConstFetch(id, name) =>
        ComputeConstantVersions(id, NameString(name));
      case MagicConst(id, name) =>
        ComputeConstantVersions(id, name);
      case _ =>
    }

    method IniUsertNamespace(nsName: Option<Name>)
      requires Valid()
      modifies this
      ensures Valid() && Grows(old(metrics), metrics)
      ensures var k := (Namespaces, NamespaceName(nsName));
        && metrics == Updated(old(metrics), k, PhpRange(V530, []))
        && contextStack == old(contextStack) + [k]
      ensures versions == old(versions) && aliases == old(aliases)
      ensures localVersions == old(localVersions) && memo == old(memo)
    {
      var k := (Namespaces, NamespaceName(nsName));
      UpdateElementVersion(k, PhpRange(V530, []));
      contextStack := contextStack + [k];
    }

    /**
     * A class: its parent is registered as a class usage, its interfaces are
     * updated from the reference database, and the class itself gets the
     * rule-table version raised to every interface's php.min and php.max.
     */
    method InitUserClass(node: Node)
      requires node.Class_? && Valid()
      modifies this`metrics, this`contextStack
      ensures Valid() && Grows(old(metrics), metrics)
      ensures var k := (Classes, OptNameString(node.namespacedName));
        var t := InterfacesRegistered(find, ParentRegistered(old(metrics), node.parent), node.interfaces);
        var min := Raised(ClassBaseMin(node), InterfaceMins(find, node.interfaces));
        var max := Raised([], InterfaceMaxes(find, node.interfaces));
        && metrics == Updated(t, k, PhpRange(min, max))
        && contextStack == old(contextStack) + [k]
    {
      var min := ClassBaseMin(node);
      var max: Version := [];
      RegisterParent(node.parent);
      ghost var t := metrics;
      min, max := RegisterInterfaces(node.interfaces, min, max);
      ghost var t' := metrics;
      var k := (Classes, OptNameString(node.namespacedName));
      GrowsTransitive(old(metrics), t, t');
      Declare(k, PhpRange(min, max));
      GrowsTransitive(old(metrics), t', metrics);
    }

    /** A declaration is recorded with its rule-table record and its frame pushed. */
    method Declare(k: Key, v: Entry)
      requires Valid()
      modifies this`metrics, this`contextStack
      ensures Valid() && Grows(old(metrics), metrics)
      ensures metrics == Updated(old(metrics), k, v) && contextStack == old(contextStack) + [k]
    {
      UpdateElementVersion(k, v);
      contextStack := contextStack + [k];
    }

    /** The parent class of a class declaration, registered as a class usage. */
    method RegisterParent(parent: Option<Name>)
      modifies this`metrics
      ensures metrics == ParentRegistered(old(metrics), parent)
    {
      if parent.Some? {
        var p := parent.value;
        UpdateElementVersion((Classes, NameString(p)), ParentRecord(p));
        IncrementMatches((Classes, NameString(p)));
      }
    }

    /**
     * The interfaces of a class declaration, each updated with its reference
     * record, and the class band raised to each interface's band.
     */
    method RegisterInterfaces(names: seq<Name>, min0: Version, max0: Version) returns (min: Version, max: Version)
      modifies this`metrics
      ensures metrics == InterfacesRegistered(find, old(metrics), names)
      ensures min == Raised(min0, InterfaceMins(find, names))
      ensures max == Raised(max0, InterfaceMaxes(find, names))
    {
      min, max := min0, max0;
      ghost var mins, maxes := InterfaceMins(find, names), InterfaceMaxes(find, names);
      var i := 0;
      while i < |names|
        invariant 0 <= i <= |names|
        invariant metrics == InterfacesRegistered(find, old(metrics), names[..i])
        invariant min == Raised(min0, mins[..i])
        invariant max == Raised(max0, maxes[..i])
      {
        var name := NameString(names[i]);
        var versions := find(Interfaces, name, None);
        UpdateElementVersion((Interfaces, name), versions);
        min := UpdateVersion(versions.phpMin, min);
        max := UpdateVersion(versions.phpMax, max);
        InterfacesRegisteredSnoc(find, old(metrics), names, i);
        RaisedSnoc(min0, mins, i);
        RaisedSnoc(max0, maxes, i);
        i := i + 1;
      }
      assert names[..i] == names;
      assert mins[..i] == mins && maxes[..i] == maxes;
    }

    method InitUserInterface(nn: Option<Name>)
      requires Valid()
      modifies this
      ensures Valid() && Grows(old(metrics), metrics)
      ensures var k := (Interfaces, OptNameString(nn));
        && metrics == Updated(old(metrics), k, PhpRange(InterfaceMin(nn), []))
        && contextStack == old(contextStack) + [k]
      ensures versions == old(versions) && aliases == old(aliases)
      ensures localVersions == old(localVersions) && memo == old(memo)
    {
      var k := (Interfaces, OptNameString(nn));
      UpdateElementVersion(k, PhpRange(InterfaceMin(nn), []));
      contextStack := contextStack + [k];
    }

    method InitUserTrait(nn: Option<Name>)
      requires Valid()
      modifies this
      ensures Valid() && Grows(old(metrics), metrics)
      ensures var k := (Traits, OptNameString(nn));
        && metrics == Updated(old(metrics), k, PhpRange(TraitMin, []))
        && contextStack == old(contextStack) + [k]
      ensures versions == old(versions) && aliases == old(aliases)
      ensures localVersions == old(localVersions) && memo == old(memo)
    {
      var k := (Traits, OptNameString(nn));
      UpdateElementVersion(k, PhpRange(TraitMin, []));
      contextStack := contextStack + [k];
    }

    /** A function, closure or method: a fresh local scope, then its frame. */
    method InitUserFunction(node: Node)
      requires IsFunctionLike(node) && Valid()
      requires node.ClassMethod? ==> |contextStack| >= 1
      modifies this
      ensures Valid() && Grows(old(metrics), metrics)
      ensures aliases == map[] && localVersions == Php4
      ensures var k := FunctionFrame(node, old(contextStack));
        && metrics == Updated(old(metrics), k, FunctionRecord(node))
        && contextStack == old(contextStack) + [k]
      ensures versions == old(versions) && memo == old(memo)
    {
      InitLocalScope();
      var k := FunctionFrame(node, contextStack);
      UpdateElementVersion(k, FunctionRecord(node));
      contextStack := contextStack + [k];
    }

    /**
     * A parameter: a variadic one raises the local accumulator to 5.6.0; one
     * hinted with a fully qualified class raises the frame to 5.3.0 and
     * registers the class as used.
     */
    method InitFunctionArguments(param: Node)
      requires param.Param? && Valid() && |contextStack| >= 1
      modifies this
      ensures Valid() && Grows(old(metrics), metrics)
      ensures localVersions == if param.variadic
        then old(localVersions).(phpMin := UpdateVersion(V560, old(localVersions.phpMin)))
        else old(localVersions)
      ensures metrics == if !param.variadic && IsFullyQualifiedHint(param.paramType)
        then TypeHintRegistered(old(metrics), old(Top(contextStack)), param.paramType.name)
        else old(metrics)
      ensures contextStack == old(contextStack) && versions == old(versions)
      ensures aliases == old(aliases) && memo == old(memo)
    {
      if param.variadic {
        localVersions := localVersions.(phpMin := UpdateVersion(V560, localVersions.phpMin));
      } else if IsFullyQualifiedHint(param.paramType) {
        RegisterTypeHint(param.paramType.name);
      }
    }

    method RegisterTypeHint(n: Name)
      requires |contextStack| >= 1
      modifies this`metrics
      ensures metrics == TypeHintRegistered(old(metrics), Top(contextStack), n)
    {
      var versions := PhpRange(V530, []);
      UpdateContextVersion(versions);
      var k := (Classes, NameString(n));
      UpdateElementVersion(k, versions);
      IncrementMatches(k);
    }

    method InitLocalScope()
      modifies this`aliases, this`localVersions
      ensures aliases == map[] && localVersions == Php4
    {
      aliases := map[];
      localVersions := Php4;
    }

    /**
     * `$v = new C(...)` and `$o->p = new C(...)` record C under the target's
     * alias key; a computed class name or any other target records nothing.
     */
    method InitClassAliasResolver(target: Node, classRef: Node)
      modifies this`aliases
      ensures aliases == if classRef.NameRef? && AliasTarget(target).Some?
        then old(aliases)[AliasTarget(target).value := NameString(classRef.name)]
        else old(aliases)
    {
      if !classRef.NameRef? {
        return;
      }
      if target.PropertyFetch? && target.property.Some? {
        var property := target.property.value;
        if target.owner.Variable? && target.owner.varName.Some? {
          var owner := target.owner.varName.value;
          aliases := aliases[AliasKey(owner, property) := NameString(classRef.name)];
        }
      } else if target.Variable? && target.varName.Some? {
        aliases := aliases[target.varName.value := NameString(classRef.name)];
      }
    }

    /**
     * Leaving a namespace pops its frame; the global namespace is also folded
     * into its extension with ext.min 4.0.0; the namespace's band is folded
     * into the project-wide one.
     */
    method ComputeNamespaceVersions()
      requires Valid() && |contextStack| >= 1
      modifies this
      ensures Valid() && Grows(old(metrics), metrics)
      ensures contextStack == old(contextStack[..|contextStack| - 1])
      ensures var frame := old(Top(contextStack));
        var record := old(metrics[Top(contextStack)]);
        && metrics == (if frame.1 == GlobalNamespace
                       then Updated(old(metrics), (Extensions, record.extName), record.(extMin := V400))
                       else old(metrics))
        && versions == Some(GlobalRaised(old(versions), record.phpMin, record.phpMax))
      ensures aliases == old(aliases) && localVersions == old(localVersions) && memo == old(memo)
    {
      var frame := contextStack[|contextStack| - 1];
      contextStack := contextStack[..|contextStack| - 1];
      var record := metrics[frame];
      if frame.1 == GlobalNamespace {
        record := record.(extMin := V400);
        UpdateElementVersion((Extensions, record.extName), record);
      }
      UpdateGlobalVersion(record.phpMin, record.phpMax);
    }

    /**
     * Leaving a class, interface or trait pops its frame and folds its record
     * into the enclosing frame, which ends at least as demanding.
     */
    method ComputeTypeVersions(k: Key)
      requires Valid() && |contextStack| >= 2
      modifies this
      ensures Valid() && Grows(old(metrics), metrics)
      ensures contextStack == old(contextStack[..|contextStack| - 1])
      ensures metrics == if k in old(metrics) then Updated(old(metrics), Top(contextStack), old(metrics[k])) else old(metrics)
      ensures k in old(metrics) ==> LessEq(old(metrics[k]).phpMin, metrics[Top(contextStack)].phpMin)
      ensures versions == old(versions) && aliases == old(aliases)
      ensures localVersions == old(localVersions) && memo == old(memo)
    {
      contextStack := contextStack[..|contextStack| - 1];
      // In PHP a missing record reads as null, and merging null changes nothing.
      if k in metrics {
        UpdateContextVersion(metrics[k]);
      }
    }

    /**
     * Leaving a function, closure or method pops its frame and folds the local
     * accumulator into the enclosing frame.
     */
    method ComputeFunctionVersions()
      requires Valid() && |contextStack| >= 2
      modifies this
      ensures Valid() && Grows(old(metrics), metrics)
      ensures contextStack == old(contextStack[..|contextStack| - 1])
      ensures metrics == Updated(old(metrics), Top(contextStack), localVersions)
      ensures LessEq(localVersions.phpMin, metrics[Top(contextStack)].phpMin)
      ensures versions == old(versions) && aliases == old(aliases)
      ensures localVersions == old(localVersions) && memo == old(memo)
    {
      contextStack := contextStack[..|contextStack| - 1];
      UpdateContextVersion(localVersions);
    }

    /**
     * A method call on `$v` or `$o->p` resolves to the class recorded under the
     * same alias key; the resolved name is not recorded anywhere.
     */
    method ComputeClassMethodCallVersions(receiver: Node) returns (resolved: Option<string>)
      ensures resolved.Some? <==> AliasTarget(receiver).Some? && AliasTarget(receiver).value in aliases
      ensures resolved.Some? ==> resolved.value == aliases[AliasTarget(receiver).value]
    {
      if receiver.PropertyFetch? {
        if receiver.property.None? {
          return None;
        }
        var propertyName := receiver.property.value;
        if receiver.owner.Variable? && receiver.owner.varName.Some?
          && AliasKey(receiver.owner.varName.value, propertyName) in aliases
        {
          return Some(aliases[AliasKey(receiver.owner.varName.value, propertyName)]);
        }
        return None;
      } else if receiver.Variable? {
        if receiver.varName.None? || receiver.varName.value !in aliases {
          return None;
        }
        return Some(aliases[receiver.varName.value]);
      }
      return None;
    }

    /** The `**` scan of computeInternalVersions over a freshly looked-up record. */
    method ApplyExponentiation(found: Entry, args: seq<Node>) returns (v: Entry)
      ensures v == WithPow(found, args)
      ensures LessEq(found.phpMin, v.phpMin)
      ensures HasPowArg(args) ==> LessEq(V560, v.phpMin)
    {
      v := found;
      var i := 0;
      while i < |args|
        invariant 0 <= i <= |args|
        invariant v == WithPow(found, args[..i])
      {
        if args[i].Pow? {
          UpdateVersionAbsorbs(V560, found.phpMin);
          v := v.(phpMin := UpdateVersion(V560, v.phpMin));
        }
        assert HasPowArg(args[..i + 1]) <==> HasPowArg(args[..i]) || args[i].Pow? by {
          assert forall j :: 0 <= j < i ==> args[..i + 1][j] == args[..i][j];
        }
        i := i + 1;
      }
      assert args[..i] == args;
    }

    /**
     * The node's memoised record, or the looked-up one with the `**` scan
     * applied, memoised for later visits of the same node.
     */
    method ResolveReference(id: nat, args: seq<Node>, element: string, context: Category) returns (v: Entry)
      modifies this`memo
      ensures v == Resolved(old(memo), id, find(context, element, Some(|args|)), args)
      ensures memo == old(memo)[id := v]
    {
      if id in memo {
        v := memo[id];
      } else {
        v := ApplyExponentiation(find(context, element, Some(|args|)), args);
        memo := memo[id := v];
      }
    }

    /** The local accumulator raised by a resolved record; ext.* only for a non-user one. */
    method RaiseLocalVersions(v: Entry)
      requires localVersions.argMax == None
      modifies this`localVersions
      ensures localVersions == Merged(old(localVersions), v.(argMax := None))
      ensures EntryGrows(old(localVersions), localVersions)
    {
      if v.extName != "user" {
        localVersions := localVersions.(extMin := UpdateVersion(v.extMin, localVersions.extMin));
        localVersions := localVersions.(extMax := UpdateVersion(v.extMax, localVersions.extMax));
      }
      localVersions := localVersions.(phpMin := UpdateVersion(v.phpMin, localVersions.phpMin));
      localVersions := localVersions.(phpMax := UpdateVersion(v.phpMax, localVersions.phpMax));
    }

    /** computeInternalVersions, with the node's memo of resolved records. */
    method ComputeInternalVersions(id: nat, args: seq<Node>, element: string, context: Category)
      requires Valid() && |contextStack| >= 1
      modifies this
      ensures Valid() && Grows(old(metrics), metrics)
      ensures Snap() == InternalStep(old(Snap()), old(Top(contextStack)), id, find(context, element, Some(|args|)), args, (context, element))
      ensures contextStack == old(contextStack) && versions == old(versions) && aliases == old(aliases)
    {
      ghost var s := Snap();
      var v := ReferenceElement(id, args, element, context);
      ghost var t := metrics;
      RaiseFrame(v);
      GrowsTransitive(s.metrics, t, metrics);
    }

    /** The node's record resolved, then the element and its extension recorded. */
    method ReferenceElement(id: nat, args: seq<Node>, element: string, context: Category) returns (v: Entry)
      requires Valid()
      modifies this`metrics, this`memo
      ensures Valid() && Grows(old(metrics), metrics)
      ensures v == Resolved(old(memo), id, find(context, element, Some(|args|)), args)
      ensures memo == old(memo)[id := v]
      ensures metrics == Referenced(old(metrics), (context, element), v)
    {
      v := ResolveReference(id, args, element, context);
      RecordReference((context, element), v);
    }

    /** The local accumulator raised by a record, then merged into the frame on top of the stack. */
    method RaiseFrame(v: Entry)
      requires Valid() && |contextStack| >= 1
      modifies this`metrics, this`localVersions
      ensures Valid() && Grows(old(metrics), metrics)
      ensures localVersions == Merged(old(localVersions), v.(argMax := None))
      ensures metrics == Updated(old(metrics), Top(contextStack), localVersions)
    {
      RaiseLocalVersions(v);
      UpdateContextVersion(localVersions);
    }

    /** The referenced element and, for a non-user one, its extension. */
    method RecordReference(k: Key, v: Entry)
      modifies this`metrics
      ensures metrics == Referenced(old(metrics), k, v)
    {
      UpdateElementVersion(k, v);
      IncrementMatches(k);
      if v.extName != "user" {
        UpdateElementVersion((Extensions, v.extName), v);
      }
    }

    /** A call to a named function: the call itself, then the define and guard checks. */
    method ComputeFunctionCallVersions(id: nat, name: Name, args: seq<Node>)
      requires Valid() && |contextStack| >= 1
      modifies this
      ensures Valid() && Grows(old(metrics), metrics)
      ensures var element := NameString(name);
        var s := InternalStep(old(Snap()), old(Top(contextStack)), id, find(Functions, element, Some(|args|)), args, (Functions, element));
        && memo == s.memo && localVersions == s.local
        && metrics == CallChecked(s.metrics, find, element, args)
      ensures contextStack == old(contextStack) && versions == old(versions) && aliases == old(aliases)
    {
      var element := NameString(name);
      ComputeInternalVersions(id, args, element, Functions);
      ghost var t := metrics;
      CheckCall(element, args);
      GrowsTransitive(old(metrics), t, metrics);
    }

    /**
     * `define` with a literal name registers a user constant; a conditional
     * function with a literal argument marks the tested element optional and
     * counts the condition.
     */
    method CheckCall(element: string, args: seq<Node>)
      modifies this`metrics
      ensures metrics == CallChecked(old(metrics), find, element, args)
    {
      var lit := FirstStringArg(args);
      if EqualsIgnoreCase("define", element) {
        if lit.Some? {
          UpdateElementVersion((Constants, lit.value), Php4);
        }
        return;
      }
      var guarded := GuardCategory(element);
      if guarded.Some? {
        var context := guarded.value;
        if lit.None? {
          return;
        }
        var versions := find(context, lit.value, None);
        UpdateElementVersion((context, lit.value), versions);
        metrics := metrics[(context, lit.value) := metrics[(context, lit.value)].(optional := true)];
        var condition := ConditionName(element, lit.value);
        UpdateElementVersion((Conditions, condition), versions);
        IncrementMatches((Conditions, condition));
      }
    }

    method ComputeConstantVersions(id: nat, name: string)
      requires Valid() && |contextStack| >= 1
      modifies this
      ensures Valid() && Grows(old(metrics), metrics)
      ensures Snap() == ConstantStep(old(Snap()), old(Top(contextStack)), id, find(Constants, name, Some(0)), name)
      ensures contextStack == old(contextStack) && versions == old(versions) && aliases == old(aliases)
    {
      ComputeInternalVersions(id, [], name, Constants);
      ghost var t := metrics;
      UpdateContextVersion(localVersions);
      GrowsTransitive(old(metrics), t, metrics);
    }

    /** The constants of a `const` statement, each memoised with its own record first. */
    method ComputeConstDeclarations(consts: seq<ConstDecl>)
      requires Valid() && |contextStack| >= 1
      modifies this
      ensures Valid() && Grows(old(metrics), metrics)
      ensures Snap() == ConstDeclsFold(old(Snap()), old(Top(contextStack)), find, consts)
      ensures contextStack == old(contextStack) && versions == old(versions) && aliases == old(aliases)
    {
      ghost var top := Top(contextStack);
      var i := 0;
      while i < |consts|
        invariant 0 <= i <= |consts|
        invariant Valid() && Grows(old(metrics), metrics)
        invariant Snap() == ConstDeclsFold(old(Snap()), top, find, consts[..i])
        invariant contextStack == old(contextStack) && versions == old(versions) && aliases == old(aliases)
      {
        ghost var t := metrics;
        DeclareConstant(consts[i]);
        GrowsTransitive(old(metrics), t, metrics);
        ConstDeclsFoldSnoc(old(Snap()), top, find, consts, i);
        i := i + 1;
      }
      assert consts[..i] == consts;
    }

    /** One constant of a `const` statement. */
    method DeclareConstant(c: ConstDecl)
      requires Valid() && |contextStack| >= 1
      modifies this
      ensures Valid() && Grows(old(metrics), metrics)
      ensures Snap() == ConstDeclStep(old(Snap()), old(Top(contextStack)), find, c)
      ensures contextStack == old(contextStack) && versions == old(versions) && aliases == old(aliases)
    {
      MemoiseConstant(c);
      ComputeConstantVersions(c.id, c.constName);
    }

    /** A declared constant's record is memoised before it is resolved, unless it already is. */
    method MemoiseConstant(c: ConstDecl)
      modifies this`memo
      ensures memo == if c.id in old(memo) then old(memo) else old(memo)[c.id := ConstInitRecord(c.value)]
    {
      if c.id !in memo {
        memo := memo[c.id := ConstInitRecord(c.value)];
      }
    }

    /** Use statements, short array literals and dereferenced call results raise the top frame. */
    method ComputePhpFeatureVersions(node: Node)
      requires Valid() && |contextStack| >= 1
      modifies this
      ensures Valid() && Grows(old(metrics), metrics)
      ensures metrics == if FeatureMin(node).Some?
        then Updated(old(metrics), old(Top(contextStack)), PhpRange(FeatureMin(node).value, []))
        else old(metrics)
      ensures contextStack == old(contextStack) && versions == old(versions) && aliases == old(aliases)
      ensures localVersions == old(localVersions) && memo == old(memo)
    {
      var feature := FeatureMin(node);
      if feature.Some? {
        UpdateContextVersion(PhpRange(feature.value, []));
      }
    }

    /**
     * The events of one walk delivered in order. A stream that never leaves
     * more scopes than it entered keeps the frames below it, and one that
     * closes every scope it opens gives the stack back as it found it.
     */
    method Traverse(events: seq<Event>)
      requires Valid() && |contextStack| >= 1 && Nested(events)
      modifies this
      ensures Valid() && Grows(old(metrics), metrics)
      ensures |contextStack| == old(|contextStack|) + Depth(events)
      ensures old(contextStack) <= contextStack
      ensures Depth(events) == 0 ==> contextStack == old(contextStack)
    {
      ghost var base := contextStack;
      var i := 0;
      while i < |events|
        invariant 0 <= i <= |events|
        invariant Valid() && Grows(old(metrics), metrics)
        invariant |contextStack| == |base| + Depth(events[..i])
        invariant base <= contextStack
      {
        ghost var before := metrics;
        assert events[..i + 1][..i] == events[..i];
        assert Depth(events[..i + 1]) >= 0;
        match events[i] {
          case Enter(node) =>
            EnterNode(node);
          case Leave(node) =>
            LeaveNode(node);
        }
        GrowsTransitive(old(metrics), before, metrics);
        i := i + 1;
      }
      assert events[..i] == events;
    }

    /** One file: beforeTraverse, the walk, afterTraverse; all frames are closed at the end. */
    method AnalyseFile(events: seq<Event>)
      requires Valid() && Nested(events) && Depth(events) == 0
      modifies this
      ensures Valid() && contextStack == []
      ensures (Namespaces, GlobalNamespace) in metrics && (Extensions, "Core") in metrics
      ensures versions.Some?
    {
      BeforeTraverse();
      Traverse(events);
      AfterTraverse();
      assert (Namespaces, GlobalNamespace) in metrics;
    }
  }
}
