/**
 * The GLSL type values the core consumes. Only what the declaration model and the
 * built-in structure synthesizer read is kept: canonical type names, a vector's base
 * type name and component count, and the structural parts of a function type.
 */
module GlslTypes {

  datatype GlslType =
    | UnknownType
    | ScalarType(typename: string)
    | VectorType(typename: string, baseTypename: string, numComponents: nat)
    | MatrixType(typename: string)
    | OpaqueType(typename: string)
    | StructType(typename: string)
      /** A structural signature; the declaring node is not part of it. */
    | FunctionType(name: string, returnType: GlslType, parameterTypes: seq<GlslType>)

  /** The canonical name of the base type whose fields a scalar or vector exposes;
      a scalar is its own base type. */
  function BaseTypename(t: GlslType): string
    requires t.ScalarType? || t.VectorType?
  {
    if t.ScalarType? then t.typename else t.baseTypename
  }
}
