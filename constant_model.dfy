/**
 * The model of a constant definition: its qualified name split into
 * namespace and short name, the attributes the parser recorded, and the
 * extension it comes from.
 */
module ConstantModels {
  import opened Wrappers
  import opened Strings

  /** The failure codes of the model's extension lookup. */
  const ExtensionNotLoaded: int := 404
  const UserExtension: int := 405

  /** The attributes given at construction; an absent one takes its default. */
  datatype Attributes = Attributes(
    magic: Option<bool>,
    value: Option<string>,
    extension: Option<string>,
    file: Option<string>)

  /**
   * A constant once built. `value` is None for PHP null, `extension` None
   * when no extension was recorded.
   */
  datatype ConstantModel = ConstantModel(
    name: string,
    shortName: string,
    namespace: string,
    magic: bool,
    value: Option<string>,
    extension: Option<string>,
    file: Option<string>)

  /**
   * The constructor: the name is cut at its last backslash; the last piece,
   * upper-cased, is the short name and the rest is the namespace. A magic
   * constant belongs to the core extension whatever the attributes say.
   */
  function NewConstantModel(qualifiedName: string, attributes: Attributes): (c: ConstantModel)
    ensures c.name == qualifiedName
    ensures c.shortName == Upper(Unqualified(qualifiedName, '\\')) && '\\' !in c.shortName
    ensures '\\' in qualifiedName ==> c.namespace + "\\" + Unqualified(qualifiedName, '\\') == qualifiedName
    ensures '\\' !in qualifiedName ==> c.namespace == "" && c.shortName == Upper(qualifiedName)
    ensures c.magic <==> attributes.magic == Some(true)
    ensures c.magic ==> c.extension == Some("core")
    ensures !c.magic ==> c.extension == attributes.extension
    ensures c.value == attributes.value && c.file == attributes.file
  {
    QualifierRoundTrip(qualifiedName, '\\');
    var magic := attributes.magic.GetOr(false);
    ConstantModel(
      qualifiedName,
      Upper(Unqualified(qualifiedName, '\\')),
      Qualifier(qualifiedName, '\\'),
      magic,
      attributes.value,
      if magic then Some("core") else attributes.extension,
      attributes.file)
  }

  /** The constant lives in a namespace when its namespace string is truthy. */
  function InNamespace(c: ConstantModel): (r: bool)
    ensures r <==> c.namespace != "" && c.namespace != "0"
  {
    IsTruthy(c.namespace)
  }

  /**
   * A constant whose name has no backslash is global; one whose name has a
   * backslash after its first character is namespaced, unless the namespace
   * is the falsy "0".
   */
  lemma InNamespaceFromName(qualifiedName: string, attributes: Attributes)
    ensures var c := NewConstantModel(qualifiedName, attributes);
      && ('\\' !in qualifiedName ==> !InNamespace(c))
      && ('\\' in qualifiedName && qualifiedName[0] != '\\' && c.namespace != "0" ==> InNamespace(c))
  {
    var c := NewConstantModel(qualifiedName, attributes);
    if '\\' in qualifiedName && c.namespace == "" {
      assert qualifiedName == "\\" + Unqualified(qualifiedName, '\\');
    }
  }

  /**
   * The extension lookup: a user constant has none (405); an extension that
   * is unknown or not loaded fails with 404; otherwise the name reflection
   * reports for it. Which extensions are loaded, and their reported names,
   * are the parameters.
   */
  function GetExtension(c: ConstantModel, loaded: string -> bool, reported: string -> string): (r: Result<string>)
    ensures r == Err(UserExtension) <==> c.extension == Some("user")
    ensures r == Err(ExtensionNotLoaded) <==> c.extension != Some("user") && (c.extension.None? || !loaded(c.extension.value))
    ensures r.Ok? ==> c.extension.Some? && r.value == reported(c.extension.value)
  {
    match c.extension
    case Some(e) =>
      if e == "user" then Err(UserExtension)
      else if !loaded(e) then Err(ExtensionNotLoaded)
      else Ok(reported(e))
    case None => Err(ExtensionNotLoaded)
  }

  /** The extension name: a user constant reads "user"; only the 404 failure passes through. */
  function GetExtensionName(c: ConstantModel, loaded: string -> bool, reported: string -> string): (r: Result<string>)
    ensures r.Err? ==> r.code == ExtensionNotLoaded
    ensures r.Err? <==> GetExtension(c, loaded, reported) == Err(ExtensionNotLoaded)
    ensures c.extension == Some("user") ==> r == Ok("user")
    ensures r.Ok? && c.extension != Some("user") ==> r == GetExtension(c, loaded, reported)
  {
    match GetExtension(c, loaded, reported)
    case Err(code) => if code == ExtensionNotLoaded then Err(code) else Ok("user")
    case Ok(n) => Ok(n)
  }

  /** A magic constant is internal; otherwise one whose extension is not "user" is. */
  function IsInternal(c: ConstantModel, loaded: string -> bool, reported: string -> string): (r: Result<bool>)
    ensures c.magic ==> r == Ok(true)
    ensures !c.magic && c.extension == Some("user") ==> r == Ok(false)
    ensures r.Err? ==> !c.magic && r.code == ExtensionNotLoaded
    ensures !c.magic && c.extension.Some? && c.extension.value != "user" && loaded(c.extension.value)
      ==> r == Ok(reported(c.extension.value) != "user")
    ensures !c.magic && (c.extension.None? || (c.extension.value != "user" && !loaded(c.extension.value)))
      ==> r == Err(ExtensionNotLoaded)
  {
    if c.magic then Ok(true)
    else
      match GetExtensionName(c, loaded, reported)
      case Err(code) => Err(code)
      case Ok(n) => Ok(n != "user")
  }

  /** The file of a user constant; None (PHP false) for an internal one. */
  function GetFileName(c: ConstantModel, loaded: string -> bool, reported: string -> string): (r: Result<Option<string>>)
    ensures IsInternal(c, loaded, reported) == Ok(true) ==> r == Ok(None)
    ensures IsInternal(c, loaded, reported) == Ok(false) ==> r == Ok(c.file)
    ensures r.Err? <==> IsInternal(c, loaded, reported).Err?
  {
    match IsInternal(c, loaded, reported)
    case Err(code) => Err(code)
    case Ok(internal) => if internal then Ok(None) else Ok(c.file)
  }

  /** A magic constant is internal, in the core extension, and has no file. */
  lemma MagicConstantIsInternal(qualifiedName: string, attributes: Attributes, loaded: string -> bool, reported: string -> string)
    requires attributes.magic == Some(true)
    ensures var c := NewConstantModel(qualifiedName, attributes);
      && c.extension == Some("core")
      && IsInternal(c, loaded, reported) == Ok(true)
      && GetFileName(c, loaded, reported) == Ok(None)
  {
  }

  /** A constant of the user extension that is not magic keeps its file. */
  lemma UserConstantHasFile(qualifiedName: string, attributes: Attributes, loaded: string -> bool, reported: string -> string)
    requires attributes.magic != Some(true) && attributes.extension == Some("user")
    ensures var c := NewConstantModel(qualifiedName, attributes);
      && GetExtensionName(c, loaded, reported) == Ok("user")
      && IsInternal(c, loaded, reported) == Ok(false)
      && GetFileName(c, loaded, reported) == Ok(attributes.file)
  {
  }

  /** sprintf's %s of a value: PHP null prints as nothing. */
  function ValueString(value: Option<string>): string {
    value.GetOr("")
  }

  /** The string form: the name and the value in a fixed frame, ended by a newline. */
  function ToString(c: ConstantModel): (r: string)
    ensures |r| == |c.name| + |ValueString(c.value)| + 19
    ensures r[..11] == "Constant [ " && r[11..11 + |c.name|] == c.name
    ensures r[|r| - 1] == '\n'
    ensures r == "Constant [ " + c.name + " ] { " + ValueString(c.value) + " }\n"
  {
    var head := "Constant [ " + c.name;
    var r := head + " ] { " + ValueString(c.value) + " }\n";
    assert r[..|head|] == head;
    r
  }
}
