/**
 * The built-in structure service: one insert-once map from built-in types to the
 * synthetic struct definitions parsed from their rendered source, and a one-slot
 * cache for the `length()` method declaration. The host's parser is a parameter;
 * `D` is the parsed struct definition and `F` the parsed function declaration.
 */
module BuiltInService {
  import opened Wrappers
  import opened GlslTypes
  import opened StructSource

  /** The host's parser: the struct definition found in a fragment, and the function
      declaration that is a fragment's first child, when there is one. */
  datatype Host<D, F> = Host(parseStruct: string -> Option<D>, parseFunction: string -> Option<F>)

  /** The service's state. */
  datatype Service<D, F> = Service(definitions: map<GlslType, D>, lengthMethod: Option<F>)

  /** The fatal internal errors: a rendered fragment did not parse. */
  datatype Failure =
    | StructDidNotParse(source: string)
    | LengthDidNotParse(message: string)

  function Initial<D, F>(): (s: Service<D, F>)
    ensures s.definitions == map[] && s.lengthMethod.None?
  {
    Service(map[], None)
  }

  const LengthSource := "int length();"
  const LengthFailureMessage := "length() dummy did not parse"

  /** True when `s'` keeps every entry and the length slot of `s`. */
  ghost predicate Extends<D, F>(s: Service<D, F>, s': Service<D, F>) {
    && (forall t :: t in s.definitions ==> t in s'.definitions && s'.definitions[t] == s.definitions[t])
    && (s.lengthMethod.Some? ==> s'.lengthMethod == s.lengthMethod)
  }

  /** The miss path shared by the four lookups: parse the rendered source and store
      the definition under `key`, or fail without storing anything. */
  function Store<D, F>(s: Service<D, F>, key: GlslType, source: string, host: Host<D, F>)
    : (r: Result<(D, Service<D, F>), Failure>)
    requires key !in s.definitions
    ensures r.Err? <==> host.parseStruct(source).None?
    ensures r.Err? ==> r.error == StructDidNotParse(source)
    ensures r.Ok? ==>
              && host.parseStruct(source) == Some(r.value.0)
              && r.value.1.lengthMethod == s.lengthMethod
              && r.value.1.definitions.Keys == s.definitions.Keys + {key}
              && r.value.1.definitions[key] == r.value.0
              && Extends(s, r.value.1)
  {
    match host.parseStruct(source)
    case None => Err(StructDidNotParse(source))
    case Some(d) => Ok((d, s.(definitions := s.definitions[key := d])))
  }

  /** The struct exposing a scalar's single-letter swizzle fields. */
  function ScalarDefinition<D, F>(s: Service<D, F>, t: GlslType, swizzleSets: seq<string>, host: Host<D, F>)
    : (r: Result<(D, Service<D, F>), Failure>)
    requires t.ScalarType?
    requires t !in s.definitions ==> SetsCover(swizzleSets, 1)
    ensures t in s.definitions ==> r == Ok((s.definitions[t], s))
    ensures t !in s.definitions ==>
              && (r.Err? <==> host.parseStruct(ScalarSource(t.typename, BaseTypename(t), swizzleSets)).None?)
              && (r.Ok? ==> host.parseStruct(ScalarSource(t.typename, BaseTypename(t), swizzleSets)) == Some(r.value.0))
    ensures r.Ok? ==> r.value.1 == s.(definitions := s.definitions[t := r.value.0])
  {
    if t in s.definitions then Ok((s.definitions[t], s))
    else Store(s, t, ScalarSource(t.typename, BaseTypename(t), swizzleSets), host)
  }

  /** The struct exposing a vector's single-letter swizzle fields. */
  function VecDefinition<D, F>(s: Service<D, F>, t: GlslType, swizzleSets: seq<string>, host: Host<D, F>)
    : (r: Result<(D, Service<D, F>), Failure>)
    requires t.VectorType?
    requires t !in s.definitions ==> SetsCover(swizzleSets, t.numComponents)
    ensures t in s.definitions ==> r == Ok((s.definitions[t], s))
    ensures t !in s.definitions ==>
              var source := VectorSource(t.typename, BaseTypename(t), swizzleSets, t.numComponents);
              && (r.Err? <==> host.parseStruct(source).None?)
              && (r.Ok? ==> host.parseStruct(source) == Some(r.value.0))
    ensures r.Ok? ==> r.value.1 == s.(definitions := s.definitions[t := r.value.0])
  {
    if t in s.definitions then Ok((s.definitions[t], s))
    else Store(s, t, VectorSource(t.typename, BaseTypename(t), swizzleSets, t.numComponents), host)
  }

  /** The placeholder struct of a matrix, which has no fields. */
  function MatrixDefinition<D, F>(s: Service<D, F>, t: GlslType, host: Host<D, F>)
    : (r: Result<(D, Service<D, F>), Failure>)
    requires t.MatrixType?
    ensures t in s.definitions ==> r == Ok((s.definitions[t], s))
    ensures t !in s.definitions ==>
              && (r.Err? <==> host.parseStruct(PlaceholderSource(t.typename)).None?)
              && (r.Ok? ==> host.parseStruct(PlaceholderSource(t.typename)) == Some(r.value.0))
    ensures r.Ok? ==> r.value.1 == s.(definitions := s.definitions[t := r.value.0])
  {
    if t in s.definitions then Ok((s.definitions[t], s))
    else Store(s, t, PlaceholderSource(t.typename), host)
  }

  /** The placeholder struct of an opaque type, which has no fields. */
  function OpaqueDefinition<D, F>(s: Service<D, F>, t: GlslType, host: Host<D, F>)
    : (r: Result<(D, Service<D, F>), Failure>)
    requires t.OpaqueType?
    ensures t in s.definitions ==> r == Ok((s.definitions[t], s))
    ensures t !in s.definitions ==>
              && (r.Err? <==> host.parseStruct(PlaceholderSource(t.typename)).None?)
              && (r.Ok? ==> host.parseStruct(PlaceholderSource(t.typename)) == Some(r.value.0))
    ensures r.Ok? ==> r.value.1 == s.(definitions := s.definitions[t := r.value.0])
  {
    if t in s.definitions then Ok((s.definitions[t], s))
    else Store(s, t, PlaceholderSource(t.typename), host)
  }

  /** The `length()` method declaration, parsed on first use and kept afterwards. */
  function LengthMethodDeclaration<D, F>(s: Service<D, F>, host: Host<D, F>)
    : (r: Result<(F, Service<D, F>), Failure>)
    ensures s.lengthMethod.Some? ==> r == Ok((s.lengthMethod.value, s))
    ensures s.lengthMethod.None? ==> (r.Err? <==> host.parseFunction(LengthSource).None?)
    ensures r.Err? ==> r.error == LengthDidNotParse(LengthFailureMessage)
    ensures r.Ok? ==>
              && r.value.1.lengthMethod == Some(r.value.0)
              && r.value.1.definitions == s.definitions
              && (s.lengthMethod.None? ==> host.parseFunction(LengthSource) == Some(r.value.0))
  {
    match s.lengthMethod
    case Some(m) => Ok((m, s))
    case None =>
      match host.parseFunction(LengthSource)
      case None => Err(LengthDidNotParse(LengthFailureMessage))
      case Some(m) => Ok((m, s.(lengthMethod := Some(m))))
  }

  /** A call a consumer makes on the service. */
  datatype Request =
    | ScalarRequest(t: GlslType)
    | VecRequest(t: GlslType)
    | MatrixRequest(t: GlslType)
    | OpaqueRequest(t: GlslType)
    | LengthRequest

  /** A request the caller can make: the argument has the kind the call expects, and
      the swizzle sets are long enough for it. */
  predicate Callable(req: Request, swizzleSets: seq<string>) {
    match req
    case ScalarRequest(t) => t.ScalarType? && SetsCover(swizzleSets, 1)
    case VecRequest(t) => t.VectorType? && SetsCover(swizzleSets, t.numComponents)
    case MatrixRequest(t) => t.MatrixType?
    case OpaqueRequest(t) => t.OpaqueType?
    case LengthRequest => true
  }

  /** The state after serving one request; a failed request leaves it as it was. */
  function Serve<D, F>(s: Service<D, F>, req: Request, swizzleSets: seq<string>, host: Host<D, F>): Service<D, F>
    requires Callable(req, swizzleSets)
  {
    match req
    case ScalarRequest(t) => NextState(s, ScalarDefinition(s, t, swizzleSets, host))
    case VecRequest(t) => NextState(s, VecDefinition(s, t, swizzleSets, host))
    case MatrixRequest(t) => NextState(s, MatrixDefinition(s, t, host))
    case OpaqueRequest(t) => NextState(s, OpaqueDefinition(s, t, host))
    case LengthRequest => NextState(s, LengthMethodDeclaration(s, host))
  }

  /** The state a call leaves behind: its new state, or the old one when it failed. */
  function NextState<D, F, X>(s: Service<D, F>, r: Result<(X, Service<D, F>), Failure>): Service<D, F> {
    if r.Ok? then r.value.1 else s
  }

  function Run<D, F>(s: Service<D, F>, reqs: seq<Request>, swizzleSets: seq<string>, host: Host<D, F>): Service<D, F>
    requires forall i :: 0 <= i < |reqs| ==> Callable(reqs[i], swizzleSets)
    decreases |reqs|
  {
    if |reqs| == 0 then s else Run(Serve(s, reqs[0], swizzleSets, host), reqs[1..], swizzleSets, host)
  }

  /** Serving a request only ever adds: every stored entry and a stored `length()`
      declaration survive it unchanged. */
  lemma ServeExtends<D, F>(s: Service<D, F>, req: Request, swizzleSets: seq<string>, host: Host<D, F>)
    requires Callable(req, swizzleSets)
    ensures Extends(s, Serve(s, req, swizzleSets, host))
  {
  }

  /** The memo only grows: over any sequence of requests, no entry is changed or
      removed, and the `length()` declaration, once stored, stays. */
  lemma {:induction false} RunOnlyGrows<D, F>(s: Service<D, F>, reqs: seq<Request>, swizzleSets: seq<string>, host: Host<D, F>)
    requires forall i :: 0 <= i < |reqs| ==> Callable(reqs[i], swizzleSets)
    ensures Extends(s, Run(s, reqs, swizzleSets, host))
    decreases |reqs|
  {
    if |reqs| > 0 {
      var s1 := Serve(s, reqs[0], swizzleSets, host);
      ServeExtends(s, reqs[0], swizzleSets, host);
      RunOnlyGrows(s1, reqs[1..], swizzleSets, host);
    }
  }

  /** A second request for the same scalar returns the same definition and leaves the
      state alone, whatever the parser would now do: nothing is rendered again. */
  lemma ScalarDefinitionIsStable<D, F>(s: Service<D, F>, t: GlslType, swizzleSets: seq<string>,
                                       host: Host<D, F>, laterHost: Host<D, F>)
    requires t.ScalarType? && SetsCover(swizzleSets, 1)
    requires ScalarDefinition(s, t, swizzleSets, host).Ok?
    ensures var (d, s1) := ScalarDefinition(s, t, swizzleSets, host).value;
            ScalarDefinition(s1, t, swizzleSets, laterHost) == Ok((d, s1))
  {
  }

  /** The same for vectors. */
  lemma VecDefinitionIsStable<D, F>(s: Service<D, F>, t: GlslType, swizzleSets: seq<string>,
                                    host: Host<D, F>, laterHost: Host<D, F>)
    requires t.VectorType? && SetsCover(swizzleSets, t.numComponents)
    requires VecDefinition(s, t, swizzleSets, host).Ok?
    ensures var (d, s1) := VecDefinition(s, t, swizzleSets, host).value;
            VecDefinition(s1, t, swizzleSets, laterHost) == Ok((d, s1))
  {
  }

  /** The `length()` declaration is parsed at most once: once it is obtained, every
      later call returns it, whatever the parser would now do. */
  lemma {:induction false} LengthParsedOnce<D, F>(s: Service<D, F>, host: Host<D, F>,
                                                  reqs: seq<Request>, swizzleSets: seq<string>, laterHost: Host<D, F>)
    requires forall i :: 0 <= i < |reqs| ==> Callable(reqs[i], swizzleSets)
    requires LengthMethodDeclaration(s, host).Ok?
    ensures var (m, s1) := LengthMethodDeclaration(s, host).value;
            var s2 := Run(s1, reqs, swizzleSets, laterHost);
            LengthMethodDeclaration(s2, laterHost) == Ok((m, s2))
  {
    var (m, s1) := LengthMethodDeclaration(s, host).value;
    RunOnlyGrows(s1, reqs, swizzleSets, laterHost);
  }

  /** Every stored definition is what the parser made of its own type's rendered
      source: the memo never holds a definition under the wrong key. */
  ghost predicate Faithful<D, F>(s: Service<D, F>, swizzleSets: seq<string>, host: Host<D, F>) {
    forall t :: t in s.definitions ==>
      match t
      case ScalarType(_) =>
        SetsCover(swizzleSets, 1) && host.parseStruct(ScalarSource(t.typename, BaseTypename(t), swizzleSets)) == Some(s.definitions[t])
      case VectorType(_, _, n) =>
        SetsCover(swizzleSets, n) && host.parseStruct(VectorSource(t.typename, BaseTypename(t), swizzleSets, n)) == Some(s.definitions[t])
      case MatrixType(_) => host.parseStruct(PlaceholderSource(t.typename)) == Some(s.definitions[t])
      case OpaqueType(_) => host.parseStruct(PlaceholderSource(t.typename)) == Some(s.definitions[t])
      case _ => false
  }

  /** Requests keep the memo faithful to the rendered sources, starting from empty. */
  lemma {:induction false} RunStaysFaithful<D, F>(s: Service<D, F>, reqs: seq<Request>, swizzleSets: seq<string>, host: Host<D, F>)
    requires forall i :: 0 <= i < |reqs| ==> Callable(reqs[i], swizzleSets)
    requires Faithful(s, swizzleSets, host)
    ensures Faithful(Run(s, reqs, swizzleSets, host), swizzleSets, host)
    decreases |reqs|
  {
    if |reqs| > 0 {
      var s1 := Serve(s, reqs[0], swizzleSets, host);
      assert Faithful(s1, swizzleSets, host);
      RunStaysFaithful(s1, reqs[1..], swizzleSets, host);
    }
  }
}
