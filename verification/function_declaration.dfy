/**
 * A GLSL function declaration as an immutable record of the children the
 * declaration node owns, and the pure derivations made from them: name, return
 * type, function type, signature text, the visibility gate and the rename guards.
 */
module FunctionDeclarations {
  import opened Wrappers
  import opened Text
  import opened GlslTypes

  /** The identifier child that holds the function name. */
  datatype Identifier = Identifier(name: string)

  /** A parameter declaration: the type of its declarator, when there is one, and
      the text of its type specifier as written. */
  datatype Param = Param(declaratorType: Option<GlslType>, typeSpecifierName: string)

  /** The children of a function declaration node. `returnSpecifier` is the type of
      the return type specifier child, when there is one; `returnTypeName` is the
      type specifier text shown in the signature. */
  datatype FunctionDecl = FunctionDecl(
    identifier: Option<Identifier>,
    params: seq<Param>,
    returnSpecifier: Option<GlslType>,
    returnTypeName: string)

  /** The word used for this kind of declaration in messages. */
  const FunctionNoun := "function"

  function DeclaredNoun(): (noun: string)
    ensures noun == FunctionNoun
  {
    FunctionNoun
  }

  function DeclarationDescription(): (description: string)
    ensures description == DeclaredNoun()
  {
    FunctionNoun
  }

  /** The function name: the identifier's text, or empty while the identifier is missing. */
  function Name(d: FunctionDecl): (name: string)
    ensures d.identifier.None? ==> name == ""
    ensures d.identifier.Some? ==> name == d.identifier.value.name
  {
    match d.identifier
    case None => ""
    case Some(id) => id.name
  }

  /** The declared return type, or the unknown type while the specifier is missing. */
  function ReturnType(d: FunctionDecl): (t: GlslType)
    ensures d.returnSpecifier.None? ==> t == UnknownType
    ensures d.returnSpecifier.Some? ==> t == d.returnSpecifier.value
  {
    match d.returnSpecifier
    case None => UnknownType
    case Some(t) => t
  }

  /** The type of one parameter: its declarator's type, or unknown without a declarator. */
  function ParameterType(p: Param): GlslType {
    if p.declaratorType.None? then UnknownType else p.declaratorType.value
  }

  /** The parameter types, one per parameter and in parameter order. */
  function ParameterTypes(ps: seq<Param>): (ts: seq<GlslType>)
    ensures |ts| == |ps|
    ensures forall i :: 0 <= i < |ps| && ps[i].declaratorType.None? ==> ts[i] == UnknownType
    ensures forall i :: 0 <= i < |ps| && ps[i].declaratorType.Some? ==> ts[i] == ps[i].declaratorType.value
    decreases |ps|
  {
    if |ps| == 0 then [] else [ParameterType(ps[0])] + ParameterTypes(ps[1..])
  }

  /** The function type built from the declaration's current children. */
  function CreateType(d: FunctionDecl): (t: GlslType)
    ensures t.FunctionType?
    ensures t.name == Name(d) && t.returnType == ReturnType(d)
    ensures |t.parameterTypes| == |d.params|
    ensures forall i :: 0 <= i < |d.params| ==>
              t.parameterTypes[i] == (if d.params[i].declaratorType.None? then UnknownType
                                      else d.params[i].declaratorType.value)
  {
    FunctionType(Name(d), ReturnType(d), ParameterTypes(d.params))
  }

  /** The parameter type specifier texts, in parameter order. */
  function ParameterTypeNames(ps: seq<Param>): (names: seq<string>)
    ensures |names| == |ps|
  {
    seq(|ps|, i requires 0 <= i < |ps| => ps[i].typeSpecifierName)
  }

  /** The display signature `name(t1,t2,...) : ret`. */
  function Signature(d: FunctionDecl): string {
    Name(d) + "(" + Join(',', ParameterTypeNames(d.params)) + ") : " + d.returnTypeName
  }

  /** Builds the signature the way the declaration does: one comma before every
      parameter but the first. */
  method GetSignature(d: FunctionDecl) returns (signature: string)
    ensures signature == Name(d) + "(" + Join(',', ParameterTypeNames(d.params)) + ") : " + d.returnTypeName
  {
    ghost var names := ParameterTypeNames(d.params);
    var prefix := Name(d) + "(";
    var b := prefix;
    var first := true;
    var i := 0;
    while i < |d.params|
      invariant 0 <= i <= |d.params|
      invariant first <==> i == 0
      invariant b == prefix + Join(',', names[..i])
    {
      JoinSnoc(',', names[..i], names[i]);
      assert names[..i + 1] == names[..i] + [names[i]];
      if !first {
        b := b + ",";
      }
      first := false;
      b := b + d.params[i].typeSpecifierName;
      i := i + 1;
    }
    assert names[..i] == names;
    b := b + ") : " + d.returnTypeName;
    signature := b;
  }

  /** The parameter list inside a signature names every parameter type, in order:
      splitting it at the commas gives the type specifier texts back. */
  lemma SignatureListsParameters(d: FunctionDecl)
    requires |d.params| > 0
    requires forall i :: 0 <= i < |d.params| ==> Lacks(d.params[i].typeSpecifierName, ',')
    ensures exists list :: Signature(d) == Name(d) + "(" + list + ") : " + d.returnTypeName
                        && Split(',', list) == ParameterTypeNames(d.params)
  {
    var list := Join(',', ParameterTypeNames(d.params));
    SplitJoin(',', ParameterTypeNames(d.params));
    assert Signature(d) == Name(d) + "(" + list + ") : " + d.returnTypeName;
  }

  /** `int foo(float a, int b)` is displayed as `foo(float,int) : int`. */
  lemma SignatureExample()
    ensures Signature(FunctionDecl(Some(Identifier("foo")),
                                   [Param(Some(ScalarType("float")), "float"),
                                    Param(Some(ScalarType("int")), "int")],
                                   Some(ScalarType("int")), "int"))
         == "foo(float,int) : int"
  {
    var ps := [Param(Some(ScalarType("float")), "float"), Param(Some(ScalarType("int")), "int")];
    var d := FunctionDecl(Some(Identifier("foo")), ps, Some(ScalarType("int")), "int");
    var names := ParameterTypeNames(ps);
    assert names == ["float", "int"];
    assert names[1..] == ["int"];
    assert Join(',', names[1..]) == "int";
    var list := Join(',', names);
    assert list == "float" + [','] + "int";
    assert Name(d) == "foo";
    assert Signature(d) == "foo" + "(" + list + ") : " + "int";
  }

  /** What a scope walk learns from visiting the declaration. */
  datatype ScopeVisit = ScopeVisit(keepSearching: bool, processorInvoked: bool)

  /**
   * The visibility gate. `hasLastParent` tells whether the walk arrived from one of
   * the declaration's children; `placeInside` whether the lookup origin is the
   * declaration or lies below it; `processorVerdict` is what the scope processor
   * answers when it is shown the declaration.
   */
  function ProcessDeclarations(hasLastParent: bool, placeInside: bool, processorVerdict: bool): (v: ScopeVisit)
    ensures v.processorInvoked <==> !hasLastParent && placeInside
    ensures !v.processorInvoked ==> v.keepSearching
    ensures v.processorInvoked ==> v.keepSearching == processorVerdict
  {
    if hasLastParent || !placeInside then ScopeVisit(true, false)
    else ScopeVisit(processorVerdict, true)
  }

  /** Why a rename was refused. */
  datatype RenameFailure =
    | NoNameIdentifier(message: string)
    | IdentifierRefused(reason: string)

  const MissingIdentifierMessage := "GLSLDeclarator is null"

  /** The declaration after a rename attempt, and the renamed identifier or the failure. */
  datatype Renamed = Renamed(after: FunctionDecl, result: Result<Identifier, RenameFailure>)

  /**
   * Renames the function by delegating to its identifier; `renameIdentifier` is the
   * identifier's own rename, which yields the new identifier or its refusal.
   */
  function SetName(d: FunctionDecl, newName: string,
                   renameIdentifier: (Identifier, string) -> Result<Identifier, string>): (r: Renamed)
    ensures d.identifier.None? ==> r.result == Err(NoNameIdentifier(MissingIdentifierMessage))
    ensures d.identifier.Some? ==>
              (r.result.Ok? <==> renameIdentifier(d.identifier.value, newName).Ok?)
    ensures d.identifier.Some? && r.result.Err? ==>
              r.result.error == IdentifierRefused(renameIdentifier(d.identifier.value, newName).error)
    ensures r.result.Err? ==> r.after == d
    ensures r.result.Ok? ==>
              && r.result.value == renameIdentifier(d.identifier.value, newName).value
              && Name(r.after) == r.result.value.name
              && r.after.params == d.params
              && r.after.returnSpecifier == d.returnSpecifier
              && r.after.returnTypeName == d.returnTypeName
  {
    match d.identifier
    case None => Renamed(d, Err(NoNameIdentifier(MissingIdentifierMessage)))
    case Some(id) =>
      match renameIdentifier(id, newName)
      case Err(reason) => Renamed(d, Err(IdentifierRefused(reason)))
      case Ok(renamed) => Renamed(d.(identifier := Some(renamed)), Ok(renamed))
  }

  /** The answer of a rename check: accepted, or refused with the reason. */
  datatype Verdict = Accepted | Rejected(failure: RenameFailure)

  /**
   * Checks a prospective rename without performing it; `checkIdentifier` is the
   * identifier's own check, which yields its objection if it has one.
   */
  function CheckSetName(d: FunctionDecl, newName: string,
                        checkIdentifier: (Identifier, string) -> Option<string>): (v: Verdict)
    ensures d.identifier.None? ==> v == Rejected(NoNameIdentifier(MissingIdentifierMessage))
    ensures d.identifier.Some? ==> (v.Accepted? <==> checkIdentifier(d.identifier.value, newName).None?)
    ensures d.identifier.Some? && v.Rejected? ==>
              v.failure == IdentifierRefused(checkIdentifier(d.identifier.value, newName).value)
  {
    match d.identifier
    case None => Rejected(NoNameIdentifier(MissingIdentifierMessage))
    case Some(id) =>
      match checkIdentifier(id, newName)
      case None => Accepted
      case Some(reason) => Rejected(IdentifierRefused(reason))
  }

  /** The check and the rename refuse for a missing identifier in exactly the same
      cases, and a successful rename makes the new identifier the function's name. */
  lemma RenameGuardsAgree(d: FunctionDecl, newName: string,
                          renameIdentifier: (Identifier, string) -> Result<Identifier, string>,
                          checkIdentifier: (Identifier, string) -> Option<string>)
    ensures CheckSetName(d, newName, checkIdentifier) == Rejected(NoNameIdentifier(MissingIdentifierMessage))
        <==> SetName(d, newName, renameIdentifier).result == Err(NoNameIdentifier(MissingIdentifierMessage))
    ensures SetName(d, newName, renameIdentifier).result.Ok? ==>
              var t := CreateType(SetName(d, newName, renameIdentifier).after);
              && t.name == SetName(d, newName, renameIdentifier).result.value.name
              && t.returnType == CreateType(d).returnType
              && t.parameterTypes == CreateType(d).parameterTypes
  {
  }
}
