/** Module descriptors and their normalisation (`src/module-info.ts`). */
module Info {
  import opened Wrappers

  /** The two module systems a stand-in module can be written for. */
  datatype ModuleType = Esm | Cjs

  /** What a `ModuleInfo` record holds in its `namedExports` slot, as a
      JavaScript value: the property is absent (`undefined`), explicitly
      `null`, or an array of export names. */
  datatype ExportsField = Undefined | Null | Names(names: seq<string>)

  /** A structured descriptor; `moduleType` is `None` when `type` is absent. */
  datatype ModuleInfo = ModuleInfo(varName: string, moduleType: Option<ModuleType>, namedExports: ExportsField)

  /** The argument of the normaliser: a bare variable name or a record. */
  datatype Descriptor = Bare(name: string) | Record(info: ModuleInfo)

  /** The complete record; `namedExports == None` stands for `null`. */
  datatype NormalizedModuleInfo = NormalizedModuleInfo(moduleType: ModuleType, varName: string, namedExports: Option<seq<string>>)

  /** `normalizeModuleInfo`: a bare string becomes `{varName: s}`, then the
      destructuring defaults fill `type` with `"esm"` and `namedExports` with
      `null`. A default applies only to an absent property, so an explicit
      `null` stays `null`; a present list is kept as it is, duplicates and
      emptiness included. */
  function Normalize(value: Descriptor): (r: NormalizedModuleInfo)
    ensures value.Bare? ==> r == NormalizedModuleInfo(Esm, value.name, None)
    ensures value.Record? ==> r.varName == value.info.varName
    ensures value.Record? && value.info.moduleType.Some? ==> r.moduleType == value.info.moduleType.value
    ensures value.Record? && value.info.moduleType.None? ==> r.moduleType == Esm
    ensures value.Record? ==> (r.namedExports.Some? <==> value.info.namedExports.Names?)
    ensures value.Record? && value.info.namedExports.Names? ==> r.namedExports == Some(value.info.namedExports.names)
  {
    var info := match value
      case Bare(s) => ModuleInfo(s, None, Undefined)
      case Record(i) => i;
    var namedExports := match info.namedExports
      case Names(ns) => Some(ns)
      case _ => None;
    NormalizedModuleInfo(info.moduleType.GetOr(Esm), info.varName, namedExports)
  }

  /** A normalised record read back as a `ModuleInfo`, every property present. */
  function AsModuleInfo(n: NormalizedModuleInfo): (r: ModuleInfo)
    ensures r.varName == n.varName && r.moduleType == Some(n.moduleType)
    ensures n.namedExports.None? ==> r.namedExports == Null
    ensures n.namedExports.Some? ==> r.namedExports == Names(n.namedExports.value)
  {
    ModuleInfo(n.varName, Some(n.moduleType), match n.namedExports
      case Some(ns) => Names(ns)
      case None => Null)
  }

  /** The variable name is carried through unchanged, whatever the form. */
  lemma VarNamePreserved(value: Descriptor)
    ensures Normalize(value).varName == (match value case Bare(s) => s case Record(i) => i.varName)
  {
  }

  /** A bare string and the record holding only that `varName` normalise alike. */
  lemma BareIsVarNameRecord(s: string)
    ensures Normalize(Bare(s)) == Normalize(Record(ModuleInfo(s, None, Undefined)))
  {
  }

  /** A normalised record is a fixed point of the normaliser. */
  lemma NormalizedIsFixedPoint(n: NormalizedModuleInfo)
    ensures Normalize(Record(AsModuleInfo(n))) == n
  {
  }

  /** Normalising twice gives the same record as normalising once. */
  lemma NormalizeIdempotent(value: Descriptor)
    ensures Normalize(Record(AsModuleInfo(Normalize(value)))) == Normalize(value)
  {
    NormalizedIsFixedPoint(Normalize(value));
  }
}
