/**
 * The parts shared by the models of functions, methods and closures: the
 * name and namespace derived from the syntax node, the parameter list built
 * lazily from the node's parameters, and the internal/user distinction.
 */
module FunctionModels {
  import opened Wrappers
  import opened Strings
  import opened Syntax

  /**
   * The node a function model wraps: a closure, or a function or method with
   * its declared name and, once name resolution ran, its namespaced name.
   */
  datatype FunctionNode = FunctionNode(
    isClosure: bool,
    name: string,
    namespacedName: Option<Name>,
    params: seq<Node>)

  /** What getName returns: a plain string, or the Name object of the namespaced name. */
  datatype FunctionName = Plain(text: string) | Qualified(qualified: Name)

  /** A parameter model: the parameter node and its position in the node's list. */
  datatype ParameterModel = ParameterModel(param: Node, position: nat)

  const ClosureName: string := "{closure}"

  /** The name: "{closure}" for a closure, else the namespaced name when set, else the declared name. */
  function GetName(node: FunctionNode): (r: FunctionName)
    ensures node.isClosure ==> r == Plain(ClosureName)
    ensures !node.isClosure && node.namespacedName.Some? ==> r == Qualified(node.namespacedName.value)
    ensures r.Plain? ==> node.isClosure || node.namespacedName.None?
  {
    if node.isClosure then Plain(ClosureName)
    else if node.namespacedName.Some? then Qualified(node.namespacedName.value)
    else Plain(node.name)
  }

  /** The string form of a name. */
  function NameText(n: FunctionName): string {
    match n
    case Plain(s) => s
    case Qualified(q) => NameString(q)
  }

  /** The namespace: the name without its last backslash-separated piece. */
  function GetNamespaceName(node: FunctionNode): string {
    Qualifier(NameText(GetName(node)), '\\')
  }

  /** A name whose parts are non-empty and hold no backslash, as the parser builds them. */
  predicate WellFormedName(n: Name) {
    |n.parts| >= 1 && forall i :: 0 <= i < |n.parts| ==> n.parts[i] != "" && '\\' !in n.parts[i]
  }

  /** The namespace of a namespaced function is its name's parts but the last, rejoined. */
  lemma NamespaceOfNamespacedFunction(node: FunctionNode)
    requires !node.isClosure && node.namespacedName.Some? && WellFormedName(node.namespacedName.value)
    ensures var parts := node.namespacedName.value.parts;
      GetNamespaceName(node) == Join(parts[..|parts| - 1], '\\')
  {
    SplitJoin(node.namespacedName.value.parts, '\\');
  }

  /** The short name: the declared name, without the namespace. */
  function GetShortName(node: FunctionNode): string {
    node.name
  }

  /**
   * For a function whose namespaced name ends in its declared name, the
   * namespace, a backslash and the short name spell the full name; without a
   * namespace the short name is the full name.
   */
  lemma ShortNameCompletesName(node: FunctionNode)
    requires !node.isClosure && node.namespacedName.Some? && WellFormedName(node.namespacedName.value)
    requires var parts := node.namespacedName.value.parts; parts[|parts| - 1] == node.name
    ensures var parts := node.namespacedName.value.parts;
      && (|parts| > 1 ==> GetNamespaceName(node) + "\\" + GetShortName(node) == NameText(GetName(node)))
      && (|parts| == 1 ==> GetNamespaceName(node) == "" && GetShortName(node) == NameText(GetName(node)))
  {
    var parts := node.namespacedName.value.parts;
    SplitJoin(parts, '\\');
    var s := NameText(GetName(node));
    JoinSplit(s, '\\');
    if |parts| > 1 {
      JoinSnoc(parts, '\\');
    }
  }

  /** A closure, or a function named without a backslash, is in the global namespace. */
  lemma GlobalWhenUnqualified(node: FunctionNode)
    requires node.isClosure || (node.namespacedName.None? && '\\' !in node.name)
    ensures GetNamespaceName(node) == ""
  {
    QualifierRoundTrip(NameText(GetName(node)), '\\');
  }

  /**
   * inNamespace asks the Name object whether it is qualified; on a plain
   * string the call fails, modelled as None.
   */
  function InNamespace(node: FunctionNode): (r: Option<bool>)
    ensures r.Some? <==> GetName(node).Qualified?
  {
    match GetName(node)
    case Qualified(q) => Some(IsQualified(q))
    case Plain(_) => None
  }

  /** For a well-formed namespaced name, inNamespace agrees with a non-empty namespace. */
  lemma InNamespaceIffNamespace(node: FunctionNode)
    requires !node.isClosure && node.namespacedName.Some? && WellFormedName(node.namespacedName.value)
    ensures InNamespace(node) == Some(GetNamespaceName(node) != "")
  {
    var parts := node.namespacedName.value.parts;
    NamespaceOfNamespacedFunction(node);
    if |parts| > 1 {
      var init := parts[..|parts| - 1];
      if |init| > 1 {
        assert Join(init, '\\') == init[0] + ['\\'] + Join(init[1..], '\\');
      }
      assert init[0] == parts[0] != "";
    }
  }

  /** The function is internal when the extension it comes from is not "user". */
  function IsInternal(extensionName: string): (r: bool)
    ensures r <==> extensionName != "user"
  {
    extensionName != "user"
  }

  /** The file of a user function; None (PHP false) for an internal one. */
  function GetFileName(extensionName: string, file: Option<string>): (r: Option<string>)
    ensures IsInternal(extensionName) ==> r.None?
    ensures !IsInternal(extensionName) ==> r == file
  {
    if IsInternal(extensionName) then None else file
  }

  /** The parameter list: every Param node of the list with its position, in order. */
  function ParametersOf(params: seq<Node>): seq<ParameterModel>
    decreases |params|
  {
    if params == [] then []
    else
      var n := |params| - 1;
      ParametersOf(params[..n]) + (if params[n].Param? then [ParameterModel(params[n], n)] else [])
  }

  lemma ParametersOfSnoc(params: seq<Node>, p: Node)
    ensures ParametersOf(params + [p]) == ParametersOf(params) + (if p.Param? then [ParameterModel(p, |params|)] else [])
  {
    assert (params + [p])[..|params|] == params;
  }

  /**
   * The parameter list is exactly the Param nodes: each model holds the node
   * found at its position, positions rise strictly, and every Param node has
   * a model.
   */
  lemma {:induction false} ParametersOfExact(params: seq<Node>)
    ensures var ps := ParametersOf(params);
      && |ps| <= |params|
      && (forall i :: 0 <= i < |ps| ==> ps[i].position < |params| && params[ps[i].position] == ps[i].param && ps[i].param.Param?)
      && (forall i, j :: 0 <= i < j < |ps| ==> ps[i].position < ps[j].position)
      && (forall p :: 0 <= p < |params| && params[p].Param? ==> exists i :: 0 <= i < |ps| && ps[i].position == p)
    decreases |params|
  {
    if params != [] {
      var n := |params| - 1;
      var init := params[..n];
      ParametersOfExact(init);
      var ps := ParametersOf(params);
      var ps0 := ParametersOf(init);
      assert params == init + [params[n]];
      ParametersOfSnoc(init, params[n]);
      assert ps == ps0 + (if params[n].Param? then [ParameterModel(params[n], n)] else []);
      forall p | 0 <= p < |params| && params[p].Param?
        ensures exists i :: 0 <= i < |ps| && ps[i].position == p
      {
        if p < n {
          assert init[p] == params[p];
          var i :| 0 <= i < |ps0| && ps0[i].position == p;
          assert ps[i] == ps0[i];
        } else {
          assert ps[|ps| - 1].position == p;
        }
      }
    }
  }

  /** ParameterModel::isOptional: the parameter has a default or is variadic. */
  predicate IsOptional(p: ParameterModel) {
    p.param.Param? && (p.param.hasDefault || p.param.variadic)
  }

  /** The number of parameters that are not optional. */
  function RequiredCount(ps: seq<ParameterModel>): nat
    decreases |ps|
  {
    if ps == [] then 0
    else RequiredCount(ps[..|ps| - 1]) + (if IsOptional(ps[|ps| - 1]) then 0 else 1)
  }

  lemma RequiredCountSnoc(ps: seq<ParameterModel>, p: ParameterModel)
    ensures RequiredCount(ps + [p]) == RequiredCount(ps) + (if IsOptional(p) then 0 else 1)
  {
    assert (ps + [p])[..|ps|] == ps;
  }

  /** No more parameters are required than there are; all are when none is optional. */
  lemma {:induction false} RequiredCountBound(ps: seq<ParameterModel>)
    ensures RequiredCount(ps) <= |ps|
    ensures RequiredCount(ps) == |ps| <==> forall i :: 0 <= i < |ps| ==> !IsOptional(ps[i])
    decreases |ps|
  {
    if ps != [] {
      var init := ps[..|ps| - 1];
      RequiredCountBound(init);
      if RequiredCount(ps) == |ps| {
        forall i | 0 <= i < |ps|
          ensures !IsOptional(ps[i])
        {
          if i < |init| {
            assert ps[i] == init[i];
          }
        }
      }
    }
  }

  class FunctionModel {
    const node: FunctionNode
    /** What the model's extension lookup reports; that lookup is not part of this model. */
    const extensionName: string
    /** The file recorded for the function. */
    const file: Option<string>
    /** The parameter list, None (PHP null) until first asked for. */
    var parameters: Option<seq<ParameterModel>>

    /** Once built, the parameter list is the one the node's parameters give. */
    ghost predicate Valid()
      reads this
    {
      parameters.Some? ==> parameters.value == ParametersOf(node.params)
    }

    constructor (node: FunctionNode, extensionName: string, file: Option<string>)
      ensures Valid() && parameters.None?
      ensures this.node == node && this.extensionName == extensionName && this.file == file
    {
      this.node := node;
      this.extensionName := extensionName;
      this.file := file;
      parameters := None;
    }

    /** The parameter list, built on the first call and returned unchanged on later ones. */
    method GetParameters() returns (ps: seq<ParameterModel>)
      requires Valid()
      modifies this`parameters
      ensures Valid() && parameters == Some(ps)
      ensures ps == ParametersOf(node.params)
      ensures old(parameters).Some? ==> parameters == old(parameters)
    {
      if parameters.None? {
        var built: seq<ParameterModel> := [];
        var pos := 0;
        while pos < |node.params|
          invariant 0 <= pos <= |node.params|
          invariant built == ParametersOf(node.params[..pos])
        {
          var param := node.params[pos];
          assert node.params[..pos + 1] == node.params[..pos] + [param];
          ParametersOfSnoc(node.params[..pos], param);
          if param.Param? {
            built := built + [ParameterModel(param, pos)];
          }
          pos := pos + 1;
        }
        assert node.params[..pos] == node.params;
        parameters := Some(built);
      }
      ps := parameters.value;
    }

    /** The number of parameters, optional and required. */
    method GetNumberOfParameters() returns (count: nat)
      requires Valid()
      modifies this`parameters
      ensures Valid() && parameters == Some(ParametersOf(node.params))
      ensures count == |ParametersOf(node.params)|
    {
      var ps := GetParameters();
      count := |ps|;
    }

    /** The number of parameters that are not optional. */
    method GetNumberOfRequiredParameters() returns (required: nat)
      requires Valid()
      modifies this`parameters
      ensures Valid() && parameters == Some(ParametersOf(node.params))
      ensures required == RequiredCount(ParametersOf(node.params))
      ensures required <= |ParametersOf(node.params)|
    {
      var ps := GetParameters();
      required := 0;
      var i := 0;
      while i < |ps|
        invariant 0 <= i <= |ps|
        invariant required == RequiredCount(ps[..i])
        invariant parameters == Some(ps)
      {
        assert ps[..i + 1] == ps[..i] + [ps[i]];
        RequiredCountSnoc(ps[..i], ps[i]);
        if !IsOptional(ps[i]) {
          required := required + 1;
        }
        i := i + 1;
      }
      assert ps[..i] == ps;
      RequiredCountBound(ps);
    }
  }
}
