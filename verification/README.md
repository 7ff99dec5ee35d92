# GLSL function declarations and built-in structures, modelled in Dafny

This project models two pieces of the semantic layer of glsl4idea, a GLSL
(OpenGL Shading Language) plugin.

1. **The function declaration element.** A declaration is an immutable record of the
   children its syntax node owns. It has an optional identifier, an ordered list of
   parameters, an optional return type specifier, and the return type specifier's text.
   Each parameter has an optional declarator type and its type specifier's text. From
   this record the model derives the function name, the return type, the function type
   and the display signature `name(t1,t2) : ret`. It also models the visibility gate used
   in scope walks and the two rename guards.
2. **The function type cache.** The node keeps a cached function type and a dirty flag.
   A subtree-change notification raises the flag. `getType` recomputes only when nothing
   is cached or the flag is raised. The model proves that no stale type is ever returned
   when every change of the children's resolved types is reported.
3. **The built-in structure service.** It renders GLSL struct source for built-in types:
   - a scalar gets one single-letter swizzle field per swizzle set;
   - a vector gets the first `n` letters of every set;
   - a matrix or an opaque type gets a single placeholder member.

   The service keeps the definitions in one insert-once map keyed by type. For a type it
   parses the rendered fragment on each call until one parse succeeds, and never again
   after that. A failed parse stores nothing, so the next call parses again. The
   `int length();` declaration behaves the same way: it is parsed until one parse
   succeeds, and never again after that.
   This follows the component-selection and `.length()` rules of section 5.5 ("Vector and
   Scalar Components and Length") of the OpenGL Shading Language 4.60 specification.

Layout:

- `wrappers.dfy`: `Option` and `Result`.
- `text.dfy`: `Join` and `Split` on a separator character; splitting undoes joining.
- `glsl_types.dfy`: the GLSL type values the core reads.
- `function_declaration.dfy`: the declaration record and its derivations.
- `type_cache.dfy`: the dirty-flag cache as a state machine.
- `struct_source.dfy`: struct rendering, a reader for the rendered shape, and the
  round-trip lemmas.
- `builtin_service.dfy`: the memo map, the `length()` slot and the growth lemmas.

The host environment is passed in as parameters:

- `Host.parseStruct` and `Host.parseFunction` stand for the parser that turns a fragment
  into a tree and the search for its first struct or first child.
- The identifier's own rename and rename check are function parameters of `SetName` and
  `CheckSetName`.
- The tree walk's inputs to `processDeclarations` are booleans.

State is threaded through pure functions. The service state is a `Service` value and the
cache state is a `DeclState` value.

The visibility gate follows `GLSLFunctionDeclarationImpl.java:49-56`. The declaration is
shown to the scope processor only when the walk did not come up from one of its children
and the lookup origin is the declaration itself or lies below it (the code's comment:
"Can't see the function from inside"). Otherwise the answer is "keep searching".

## Model

| member | source | states |
|---|---|---|
| FunctionDeclarations.Name | src/main/java/glslplugin/lang/elements/declarations/GLSLFunctionDeclarationImpl.java:63-68 | the name is `""` when the identifier child is missing, else the identifier's text |
| FunctionDeclarations.ReturnType | src/main/java/glslplugin/lang/elements/declarations/GLSLFunctionDeclarationImpl.java:81-90 | the return type is the unknown type when the type specifier is missing, else the specifier's type |
| FunctionDeclarations.ParameterTypes | src/main/java/glslplugin/lang/elements/declarations/GLSLFunctionDeclarationImpl.java:124-133 | one type per parameter, in order; a parameter without a declarator gets the unknown type, otherwise its declarator's type |
| FunctionDeclarations.CreateType | src/main/java/glslplugin/lang/elements/declarations/GLSLFunctionDeclarationImpl.java:123-135 | the function type carries the name and the return type; it has as many parameter types as there are parameters, entry i being unknown without a declarator and the declarator's type otherwise |
| FunctionDeclarations.GetSignature | src/main/java/glslplugin/lang/elements/declarations/GLSLFunctionDeclarationImpl.java:92-107 | the builder loop, with its comma before every parameter but the first, yields `name(` + the parameter type texts joined by commas + `) : ` + the return type text |
| FunctionDeclarations.SignatureListsParameters | src/main/java/glslplugin/lang/elements/declarations/GLSLFunctionDeclarationImpl.java:96-103 | splitting the signature's parameter list at commas gives back every parameter type text in order, so there is no stray leading or trailing comma and none is lost; this holds for one or more parameters whose type texts contain no comma, and with no parameters `GetSignature` gives `name() : ret` |
| FunctionDeclarations.SignatureExample | src/main/java/glslplugin/lang/elements/declarations/GLSLFunctionDeclarationImpl.java:93-107 | `int foo(float a, int b)` is displayed as `foo(float,int) : int` |
| FunctionDeclarations.ProcessDeclarations | src/main/java/glslplugin/lang/elements/declarations/GLSLFunctionDeclarationImpl.java:49-56 | the processor is invoked iff there is no last parent and the origin is in the declaration's subtree; otherwise the answer is "keep searching"; when invoked, its answer is returned |
| FunctionDeclarations.DeclaredNoun | src/main/java/glslplugin/lang/elements/declarations/GLSLFunctionDeclarationImpl.java:58-61 | a function declaration calls itself a "function" |
| FunctionDeclarations.DeclarationDescription | src/main/java/glslplugin/lang/elements/declarations/GLSLFunctionDeclarationImpl.java:137-141 | the description is the same word as the declared noun |
| FunctionDeclarations.SetName | src/main/java/glslplugin/lang/elements/declarations/GLSLFunctionDeclarationImpl.java:143-148 | without an identifier the rename fails with the "GLSLDeclarator is null" error and the declaration is unchanged; otherwise it succeeds iff the identifier's rename does, and on success only the name changes, to the renamed identifier's text |
| FunctionDeclarations.CheckSetName | src/main/java/glslplugin/lang/elements/declarations/GLSLFunctionDeclarationImpl.java:150-155 | without an identifier the check refuses with the same error; otherwise it accepts iff the identifier's check raises no objection |
| FunctionDeclarations.RenameGuardsAgree | src/main/java/glslplugin/lang/elements/declarations/GLSLFunctionDeclarationImpl.java:143-155 | the check and the rename refuse for a missing identifier in exactly the same cases; after a successful rename the function type changes in its name only |
| FunctionTypeCache.Created | src/main/java/glslplugin/lang/elements/declarations/GLSLFunctionDeclarationImpl.java:41-42 | a new node caches nothing and its dirty flag is lowered |
| FunctionTypeCache.GetType | src/main/java/glslplugin/lang/elements/declarations/GLSLFunctionDeclarationImpl.java:114-121 | with a type cached and the flag lowered, the cached type is returned and nothing changes; otherwise the type is recomputed from the current children; either way the cache ends holding the returned type with the flag lowered, and a coherent cache returns the current children's type |
| FunctionTypeCache.SubtreeChanged | src/main/java/glslplugin/lang/elements/declarations/GLSLFunctionDeclarationImpl.java:157-161 | the notification raises the dirty flag and changes neither the children nor the cached value |
| FunctionTypeCache.ReplayKeepsCoherent | src/main/java/glslplugin/lang/elements/declarations/GLSLFunctionDeclarationImpl.java:114-121 | over any history of reported edits, notifications and queries, a cache in use always holds the current children's type |
| FunctionTypeCache.NoStaleType | src/main/java/glslplugin/lang/elements/declarations/GLSLFunctionDeclarationImpl.java:157-161 | after any history starting at node creation, `getType` returns the type of the current children: a stale type is never observed |
| FunctionTypeCache.UnreportedEditIsStale | src/main/java/glslplugin/lang/elements/declarations/GLSLFunctionDeclarationImpl.java:116-120 | an edit the node is not told about leaves a cached type that no longer matches the children |
| StructSource.ScalarFields | src/main/java/glslplugin/lang/elements/reference/GLSLBuiltInPsiUtilService.java:52-55 | one field per swizzle set, named by the set's first letter and typed by the base type |
| StructSource.SetFields | src/main/java/glslplugin/lang/elements/reference/GLSLBuiltInPsiUtilService.java:73-75 | the first `n` letters of one set, in order, typed by the base type |
| StructSource.VectorFields | src/main/java/glslplugin/lang/elements/reference/GLSLBuiltInPsiUtilService.java:71-76 | a vector has `|swizzle sets| * n` fields |
| StructSource.RenderScalar | src/main/java/glslplugin/lang/elements/reference/GLSLBuiltInPsiUtilService.java:49-56 | the builder loop yields the header `struct __T__ {`, one line `base letter;` per swizzle set, then `};`, each line ended by a line break |
| StructSource.AppendSetFields | src/main/java/glslplugin/lang/elements/reference/GLSLBuiltInPsiUtilService.java:73-75 | the inner loop appends the field lines for the first `n` letters of a set |
| StructSource.RenderVector | src/main/java/glslplugin/lang/elements/reference/GLSLBuiltInPsiUtilService.java:68-77 | the nested builder loops yield the header, the field lines of every set's first `n` letters, then `};` |
| StructSource.ReadStructText | src/main/java/glslplugin/lang/elements/reference/GLSLBuiltInPsiUtilService.java:49-56 | reading a rendered struct gives back its type name and exactly its fields, in order |
| StructSource.ScalarSourceFields | src/main/java/glslplugin/lang/elements/reference/GLSLBuiltInPsiUtilService.java:50-56 | the rendered scalar struct declares exactly one field per swizzle set, the set's first letter, typed by the base type |
| StructSource.VectorFieldAt | src/main/java/glslplugin/lang/elements/reference/GLSLBuiltInPsiUtilService.java:72-76 | field `j` of a vector is letter `j % n` of set `j / n` |
| StructSource.VectorSourceFields | src/main/java/glslplugin/lang/elements/reference/GLSLBuiltInPsiUtilService.java:69-77 | the rendered vector struct declares `|sets| * n` fields, the sets in order, each contributing its first `n` letters and never a letter at position `n` or beyond |
| StructSource.ScalarIsOneComponentVector | src/main/java/glslplugin/lang/elements/reference/GLSLBuiltInPsiUtilService.java:53-54 | a scalar's fields are those of a one-component vector |
| StructSource.TwoComponentExample | src/main/java/glslplugin/lang/elements/reference/GLSLBuiltInPsiUtilService.java:72-76 | with the letter sets `xyzw`, `rgba`, `stpq`, a two-component vector exposes x, y, r, g, s, t |
| StructSource.PlaceholderSource | src/main/java/glslplugin/lang/elements/reference/GLSLBuiltInPsiUtilService.java:91 | the matrix and opaque fragment `struct __T__ { void __opaque__; };` has a single placeholder member, and reading it gives back its type name, so distinct names render distinct fragments |
| BuiltInService.Initial | src/main/java/glslplugin/lang/elements/reference/GLSLBuiltInPsiUtilService.java:44 | the service starts with no definitions and no `length()` declaration |
| BuiltInService.Store | src/main/java/glslplugin/lang/elements/reference/GLSLBuiltInPsiUtilService.java:58-61 | on a miss: a fragment that does not parse fails and stores nothing; otherwise exactly the one key is added, mapped to the parsed definition, and every other entry stays |
| BuiltInService.ScalarDefinition | src/main/java/glslplugin/lang/elements/reference/GLSLBuiltInPsiUtilService.java:46-64 | on a hit the stored definition is returned and the state is unchanged; on a miss the rendered scalar source is parsed and its definition stored under the type |
| BuiltInService.VecDefinition | src/main/java/glslplugin/lang/elements/reference/GLSLBuiltInPsiUtilService.java:65-85 | the same for vectors, with the rendered vector source |
| BuiltInService.MatrixDefinition | src/main/java/glslplugin/lang/elements/reference/GLSLBuiltInPsiUtilService.java:87-97 | the same for matrices, with the placeholder source |
| BuiltInService.OpaqueDefinition | src/main/java/glslplugin/lang/elements/reference/GLSLBuiltInPsiUtilService.java:99-109 | the same for opaque types, with the placeholder source |
| BuiltInService.LengthMethodDeclaration | src/main/java/glslplugin/lang/elements/reference/GLSLBuiltInPsiUtilService.java:113-125 | a stored declaration is returned with the state unchanged; otherwise `int length();` is parsed: a first child that is not a function declaration fails with "length() dummy did not parse" and caches nothing, else it is stored and returned |
| BuiltInService.ServeExtends | src/main/java/glslplugin/lang/elements/reference/GLSLBuiltInPsiUtilService.java:44-125 | any single call keeps every stored entry and a stored `length()` declaration |
| BuiltInService.RunOnlyGrows | src/main/java/glslplugin/lang/elements/reference/GLSLBuiltInPsiUtilService.java:44-109 | over any sequence of calls the memo only grows: no entry is ever changed or removed |
| BuiltInService.ScalarDefinitionIsStable | src/main/java/glslplugin/lang/elements/reference/GLSLBuiltInPsiUtilService.java:47-48 | a second request for the same scalar returns the same definition without parsing again |
| BuiltInService.VecDefinitionIsStable | src/main/java/glslplugin/lang/elements/reference/GLSLBuiltInPsiUtilService.java:66-67 | a second request for the same vector returns the same definition without parsing again |
| BuiltInService.LengthParsedOnce | src/main/java/glslplugin/lang/elements/reference/GLSLBuiltInPsiUtilService.java:113-125 | once obtained, the `length()` declaration is returned by every later call, after any other calls, whatever the parser would do |
| BuiltInService.RunStaysFaithful | src/main/java/glslplugin/lang/elements/reference/GLSLBuiltInPsiUtilService.java:44-109 | every stored definition is the parse of its own key's rendered source |

## Left out

- Parsing a fragment and finding its first struct or first child are host services. They appear only as the `Host` parser parameters.
- `createImmutableDummyFile` marks the virtual file read-only and ignores an `IOException`. That is file I/O, so it is not modelled.
- The `assert definition != null` checks are modelled as if JVM assertions were enabled: an unparsed fragment is a `StructDidNotParse` error. With assertions disabled the Java code would store and return `null`. That path is not modelled.
- `PsiTreeUtil.isAncestor`, `PsiScopeProcessor` and `ResolveState` are reduced to the booleans `hasLastParent` and `placeInside` and the processor's answer.
- The `GLSLType` class hierarchy, its `equals`/`hashCode`, and the `getTypename` and `getNumComponents` implementations are not shown. Types are a datatype with structural equality that carries these names and counts.
- A scalar's base type is taken to be the scalar itself, because `getBaseType` is not shown.
- `GLSLVectorType.SWIZZLE_SETS` is not shown, so the swizzle sets are a parameter.
- The letter lookup `charAt` would throw on a set that is too short. The renderers instead require every set to have enough letters, as the constant sets do.
- `getTypeSpecifierNodeTypeName` is not shown. Its results, for parameters and for the return type, are text fields of the record.
- The identifier's own `setName`/`checkSetName` logic is a function parameter. Its failure comes back as `IdentifierRefused`.
- `GLSLBasicFunctionType` is modelled by the structural `FunctionType` value. The back-reference to the declaring node is not kept.
- The unsynchronised `HashMap` and thread safety are left out. The host serialises all access.
- `getNameIdentifier`, `getParameters` and the `findChildByClass` override are child lookups. They are the record's fields.
- `toString` is left out. It only prefixes the signature.
- `FunctionTypeCache.Step` assumes the host discipline that every edit of the children is followed by `subtreeChanged`. `UnreportedEditIsStale` shows what happens without it.
- FunctionTypeCache.NoStaleType: the record holds the resolved types of the declarators and the return type specifier as plain fields, so every change to them is an `Edit` that the host reports. A resolved type can change from outside the declaration's subtree, for example a parameter typed by a struct declared elsewhere. Such a change gets no `subtreeChanged`, and the model cannot express it.
- FunctionTypeCache.SubtreeChanged: the call to `super.subtreeChanged()` (`GLSLFunctionDeclarationImpl.java:159`) belongs to the base element class, which is not part of this model. Only the dirty flag is modelled.
