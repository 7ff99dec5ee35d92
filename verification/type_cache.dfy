/**
 * The cached function type of a declaration: a cache slot that starts empty and a
 * dirty flag that subtree-change notifications raise. The function type is
 * recomputed only when the slot is empty or the flag is raised.
 */
module FunctionTypeCache {
  import opened Wrappers
  import opened GlslTypes
  import opened FunctionDeclarations

  /** A declaration node together with its type cache. */
  datatype DeclState = DeclState(decl: FunctionDecl, typeCache: Option<GlslType>, typeCacheDirty: bool)

  /** A freshly created declaration node: nothing cached, flag lowered. */
  function Created(d: FunctionDecl): (s: DeclState)
    ensures s.decl == d && s.typeCache.None? && !s.typeCacheDirty
  {
    DeclState(d, None, false)
  }

  /** The cache is in use: a type is stored and no change has been reported since. */
  predicate Fresh(s: DeclState) {
    s.typeCache.Some? && !s.typeCacheDirty
  }

  /** A cache in use holds exactly the type of the current children. */
  predicate Coherent(s: DeclState) {
    Fresh(s) ==> s.typeCache.value == CreateType(s.decl)
  }

  /** The function type, recomputed from the children unless the cache is in use. */
  function GetType(s: DeclState): (r: (GlslType, DeclState))
    ensures Fresh(s) ==> r == (s.typeCache.value, s)
    ensures !Fresh(s) ==> r.0 == CreateType(s.decl)
    ensures r.1.decl == s.decl && r.1.typeCache == Some(r.0) && !r.1.typeCacheDirty
    ensures Coherent(s) ==> r.0 == CreateType(s.decl) && Coherent(r.1)
  {
    if s.typeCache.None? || s.typeCacheDirty then
      var t := CreateType(s.decl);
      (t, s.(typeCache := Some(t), typeCacheDirty := false))
    else
      (s.typeCache.value, s)
  }

  /** A change somewhere under the declaration was reported. */
  function SubtreeChanged(s: DeclState): (r: DeclState)
    ensures r.decl == s.decl && r.typeCache == s.typeCache
    ensures r.typeCacheDirty && !Fresh(r)
    ensures Coherent(r)
  {
    s.(typeCacheDirty := true)
  }

  /** What the host does to a declaration node. An edit of the children is always
      followed by the change notification. */
  datatype HostEvent =
    | Edit(newDecl: FunctionDecl)
    | Notify
    | QueryType

  function Step(s: DeclState, e: HostEvent): DeclState {
    match e
    case Edit(d) => SubtreeChanged(s.(decl := d))
    case Notify => SubtreeChanged(s)
    case QueryType => GetType(s).1
  }

  function Replay(s: DeclState, events: seq<HostEvent>): DeclState
    decreases |events|
  {
    if |events| == 0 then s else Replay(Step(s, events[0]), events[1..])
  }

  /** Every event keeps the cache coherent with the children. */
  lemma StepKeepsCoherent(s: DeclState, e: HostEvent)
    requires Coherent(s)
    ensures Coherent(Step(s, e))
    ensures e.Edit? ==> Step(s, e).decl == e.newDecl
  {
  }

  /** Any history of edits, notifications and queries keeps the cache coherent. */
  lemma {:induction false} ReplayKeepsCoherent(s: DeclState, events: seq<HostEvent>)
    requires Coherent(s)
    ensures Coherent(Replay(s, events))
    decreases |events|
  {
    if |events| > 0 {
      StepKeepsCoherent(s, events[0]);
      ReplayKeepsCoherent(Step(s, events[0]), events[1..]);
    }
  }

  /** No stale type is ever observed: after any history that starts at node creation,
      the type returned is the one the current children give. */
  lemma NoStaleType(d: FunctionDecl, events: seq<HostEvent>)
    ensures var s := Replay(Created(d), events);
            GetType(s).0 == CreateType(s.decl)
  {
    ReplayKeepsCoherent(Created(d), events);
  }

  /** The notification is what keeps the cache honest: an edit the node is not told
      about leaves a cached type that no longer matches the children. */
  lemma UnreportedEditIsStale()
    ensures var before := FunctionDecl(Some(Identifier("f")), [], None, "");
            var after := FunctionDecl(Some(Identifier("g")), [], None, "");
            var s := GetType(Created(before)).1.(decl := after);
            GetType(s).0 != CreateType(after)
  {
    var before := FunctionDecl(Some(Identifier("f")), [], None, "");
    var after := FunctionDecl(Some(Identifier("g")), [], None, "");
    assert CreateType(before).name == "f";
    assert CreateType(after).name == "g";
  }
}
