/** The parts of a CycloneDX document that more than one script reads. */
module CycloneDx {
  import opened Json

  const METADATA := "metadata"
  const COMPONENTS := "components"
  const BOM_REF := "bom-ref"
  const DEPENDENCIES := "dependencies"
  const REF := "ref"
  const DEPENDS_ON := "dependsOn"
  const PROVIDES := "provides"

  predicate IsName(v: Json) { v.Str? && v.s != "" }

  predicate NamesOnly(v: Json) {
    v.Arr? && forall x :: x in v.items ==> IsName(x)
  }

  /** The two kinds of edges of a dependency node. */
  datatype Field = DependsOn | Provides

  function Key(f: Field): string {
    if f.DependsOn? then DEPENDS_ON else PROVIDES
  }

  /** `dependency.get(key, [])` */
  function EdgeList(d: Json, key: string): Json
    requires d.Obj?
  {
    if key in d.fields then d.fields[key] else Arr([])
  }
}
