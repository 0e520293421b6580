/**
 * Ship parts as hull designs and power bookkeeping see them: a part's kind,
 * its resource cost and a reference to a part by its index in a design.
 * Parts are objects: two parts are the same part only if they are the same
 * object, and a part's hash code is its identity hash.
 */
module Parts {
  import Cargo
  import JavaMath

  /** The part classes the power scheme tells apart; every other class is `OtherPart`. */
  datatype PartKind = SolarPanelPart | BatteryPart | ReactorPart | OtherPart

  class Part {
    const name: string
    const kind: PartKind
    /** Resource cost; the amounts are `Int`s. */
    const cost: map<Cargo.Resource, int>
    /** `Object.hashCode`. */
    const identityHash: int

    constructor (name: string, kind: PartKind, cost: map<Cargo.Resource, int>, identityHash: int)
      ensures this.name == name && this.kind == kind && this.cost == cost
      ensures this.identityHash == identityHash
    {
      this.name := name;
      this.kind := kind;
      this.cost := cost;
      this.identityHash := identityHash;
    }
  }

  /** `PartRef(part, index)`: a part and its position in the design it was added to. */
  datatype PartRef = PartRef(part: Part, index: int)

  /** The data-class hash of a `PartRef`: 31 times the part's hash plus the index. */
  function RefHash(r: PartRef): (h: int)
    ensures JavaMath.IsInt(h)
  {
    JavaMath.Wrap32(31 * r.part.identityHash + r.index)
  }

  /** `List.hashCode` of a list of references: 1, then 31 times the hash so far plus each element's hash. */
  function ListHash(l: seq<PartRef>): (h: int)
    ensures JavaMath.IsInt(h)
  {
    if l == [] then 1 else JavaMath.Wrap32(31 * ListHash(l[..|l| - 1]) + RefHash(l[|l| - 1]))
  }
}
