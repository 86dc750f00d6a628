/** Reflection-side descriptors: runtime types and methods as the method and
    type filters and the key builder see them. Type identity is structural (by name), where the runtime compares
    types by reference. */
module Reflection {
  import opened Wrappers

  /** A runtime type: its simple `Name` and its `FullName`, which is null
      for some types (generic parameters, for one). */
  datatype TypeRef = TypeRef(name: string, fullName: Option<string>)

  /** A method as enumerated from a loaded type. `shouldJit` stands for the
      module's pre-JIT filter verdict and `hasBody` for a non-null method
      body. */
  datatype MethodInfo = MethodInfo(
    name: string,
    declaringType: Option<TypeRef>,
    returnType: TypeRef,
    parameterTypes: seq<TypeRef>,
    isAbstract: bool,
    containsGenericParameters: bool,
    shouldJit: bool,
    hasBody: bool)

  /** `IsAssignableTo(derived, base)`: the host's subtype relation, an input
      of the model. */
  type Assignability = (TypeRef, TypeRef) -> bool

  function Framework(name: string, ns: string): TypeRef
  {
    TypeRef(name, Some(ns + "." + name))
  }

  const ModType: TypeRef := Framework("ModType", "Terraria.ModLoader")
  const ModNPC: TypeRef := Framework("ModNPC", "Terraria.ModLoader")
  const ILocalizedModType: TypeRef := Framework("ILocalizedModType", "Terraria.ModLoader")
  const ModSystem: TypeRef := Framework("ModSystem", "Terraria.ModLoader")
  const Mod: TypeRef := Framework("Mod", "Terraria.ModLoader")
  const LocalizedText: TypeRef := Framework("LocalizedText", "Terraria.Localization")
}
