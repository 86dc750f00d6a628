/** Filters over types by full name. A type whose `FullName` is null never
    equals a given name. */
module TypeFilter {
  import opened Wrappers
  import opened Reflection
  import opened Filters

  /** `MatchFullName(fullName)` */
  function MatchFullName(fullName: string): (f: Filter<TypeRef>)
    ensures forall t :: Apply(f, t) <==> t.fullName.Some? && t.fullName.value == fullName
  {
    Filter((t: TypeRef) => t.fullName == Some(fullName))
  }

  /** `MismatchFullName(fullName)` */
  function MismatchFullName(fullName: string): (f: Filter<TypeRef>)
    ensures forall t :: Apply(f, t) <==> t.fullName.None? || t.fullName.value != fullName
  {
    Filter((t: TypeRef) => t.fullName != Some(fullName))
  }

  /** `MatchFullNames(fullNames)`: requires a non-null full name in the set. */
  function MatchFullNames(fullNames: seq<string>): (f: Filter<TypeRef>)
    ensures forall t :: Apply(f, t) <==> t.fullName.Some? && exists i :: 0 <= i < |fullNames| && fullNames[i] == t.fullName.value
  {
    var keys := set n | n in fullNames;
    Filter((t: TypeRef) => t.fullName.Some? && t.fullName.value in keys)
  }

  /** `MismatchFullNames(fullNames)`: a null full name is admitted. */
  function MismatchFullNames(fullNames: seq<string>): (f: Filter<TypeRef>)
    ensures forall t: TypeRef :: t.fullName.None? ==> Apply(f, t)
    ensures forall t: TypeRef :: t.fullName.Some? ==> (Apply(f, t) <==> forall i :: 0 <= i < |fullNames| ==> fullNames[i] != t.fullName.value)
  {
    var keys := set n | n in fullNames;
    Filter((t: TypeRef) => t.fullName.None? || t.fullName.value !in keys)
  }

  /** The mismatch filters are exact complements of the match filters, on
      every type, including one without a full name. */
  lemma Complements(fullName: string, fullNames: seq<string>, t: TypeRef)
    ensures Apply(MismatchFullName(fullName), t) == !Apply(MatchFullName(fullName), t)
    ensures Apply(MismatchFullNames(fullNames), t) == !Apply(MatchFullNames(fullNames), t)
    ensures Apply(MismatchFullNames(fullNames), t) == Apply(Not(MatchFullNames(fullNames)), t)
  {
  }

  /** The one-name set form agrees with the single-name form. */
  lemma SingleFullName(fullName: string, t: TypeRef)
    ensures Apply(MatchFullNames([fullName]), t) == Apply(MatchFullName(fullName), t)
  {
    assert [fullName][0] == fullName;
  }
}
