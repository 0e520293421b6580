/**
 * The technology registry: every technology registers itself under its
 * research category when created, `getTech` finds a technology by code in
 * any category, and `initTech` links each technology to the technologies it
 * requires, both those named explicitly and, for a code ending in a number
 * N, the technology with the same code ending in N - 1.
 *
 * The registry's map is a hash map, which visits its categories in an
 * order Java leaves unspecified. The model keeps the visiting order as a
 * field, and what is proved about lookups and linking holds for any order a
 * well-formed map has; registering places a new category last.
 */
module Research {
  import opened Wrappers
  import JavaMath
  import Text

  datatype Category =
    | Missiles | Lasers | Railguns | Power | Industry | Biology | Propulsion | Electronics | Infantry
    | Launchers | Magazines | Warheads
    | Wavelengths | Lenses
    | Projectiles | WearReduction
    | Cooling | SolarCells | Fission | Fusion | Capacitors | Batteries | Flywheels | Shields
    | Mining | Production | Refining | Armor
    | Colonisation | GLimits
    | ElectricalThrusters | ChemicalThrusters | NuclearThrusters | ExoticPropulsion
    | ElectroMagneticSensor | ThermalSensor | OpticalSensor | ActiveSensors | GravimetrySensor
    | TargetingAlgorithms | Processors
    | InfantryWeapons | InfantryArmor

  /** The category a sub-category belongs to; the nine top-level categories have none. */
  function Parent(c: Category): Option<Category>
  {
    match c
    case Launchers | Magazines | Warheads => Some(Missiles)
    case Wavelengths | Lenses => Some(Lasers)
    case Projectiles | WearReduction => Some(Railguns)
    case Cooling | SolarCells | Fission | Fusion | Capacitors | Batteries | Flywheels | Shields => Some(Power)
    case Mining | Production | Refining | Armor => Some(Industry)
    case Colonisation | GLimits => Some(Biology)
    case ElectricalThrusters | ChemicalThrusters | NuclearThrusters | ExoticPropulsion => Some(Propulsion)
    case ElectroMagneticSensor | ThermalSensor | OpticalSensor | ActiveSensors | GravimetrySensor
      | TargetingAlgorithms | Processors => Some(Electronics)
    case InfantryWeapons | InfantryArmor => Some(Infantry)
    case _ => None
  }

  /** The hierarchy is two levels deep: a parent is always a top-level category. */
  lemma ParentsAreTopLevel(c: Category)
    ensures Parent(c).Some? ==> Parent(Parent(c).value).None?
  {
  }

  // ---------------------------------------------------------------------------
  // Codes

  /** The position of the last space in `s`, or -1. */
  function LastSpace(s: string): (r: int)
    ensures -1 <= r < |s|
    ensures r >= 0 ==> s[r] == ' '
    ensures forall k :: r < k < |s| ==> s[k] != ' '
  {
    if s == [] then -1
    else if s[|s| - 1] == ' ' then |s| - 1
    else LastSpace(s[..|s| - 1])
  }

  /** The last element of `s.split(" ")`: everything after the last space. */
  function LastToken(s: string): (r: string)
    ensures |r| <= |s| && forall k :: 0 <= k < |r| ==> r[k] != ' '
    ensures s == s[..|s| - |r|] + r
    ensures |r| < |s| ==> s[|s| - |r| - 1] == ' '
  {
    s[LastSpace(s) + 1..]
  }

  /** `getNumber()`: the last space-separated token read as an `Int`; a token that is not a number throws. */
  function Number(code: string): (r: Result<int>)
    ensures r.Ok? <==> Text.ParseInt(LastToken(code)).Some?
    ensures r.Ok? ==> r.value == Text.ParseInt(LastToken(code)).value && JavaMath.IsInt(r.value)
    ensures r.Err? ==> r.error == NullPointer
  {
    match Text.ParseInt(LastToken(code))
    case Some(n) => Ok(n)
    case None => Err(NullPointer)
  }

  /** The code of the automatic requirement: the code with its trailing number `n` replaced by `n - 1` (as an `Int`). */
  function PreviousCode(code: string): Option<string>
  {
    match Number(code)
    case Err(_) => None
    case Ok(n) => Some(code[..|code| - |LastToken(code)|] + Text.IntToString(JavaMath.Wrap32(n - 1)))
  }

  lemma LastTokenOfNumber(prefix: string, n: int)
    requires prefix == [] || prefix[|prefix| - 1] == ' '
    ensures LastToken(prefix + Text.IntToString(n)) == Text.IntToString(n)
  {
    var t := Text.IntToString(n);
    Text.IntToStringChars(n);
    LastSpaceAppend(prefix, t);
    assert LastSpace(prefix) == |prefix| - 1;
    assert (prefix + t)[|prefix|..] == t;
  }

  /** Appending text without spaces does not move the last space. */
  lemma {:induction false} LastSpaceAppend(p: string, t: string)
    requires forall k :: 0 <= k < |t| ==> t[k] != ' '
    ensures LastSpace(p + t) == LastSpace(p)
  {
    if t != [] {
      var t' := t[..|t| - 1];
      assert (p + t)[..|p + t| - 1] == p + t';
      LastSpaceAppend(p, t');
    } else {
      assert p + t == p;
    }
  }

  /** The number at the end of a code reads back as that number. */
  lemma NumberOf(prefix: string, n: int)
    requires prefix == [] || prefix[|prefix| - 1] == ' '
    requires JavaMath.IsInt(n)
    ensures LastToken(prefix + Text.IntToString(n)) == Text.IntToString(n)
    ensures Number(prefix + Text.IntToString(n)) == Ok(n)
  {
    LastTokenOfNumber(prefix, n);
    Text.ParseSignedToString(n, JavaMath.INT_MIN, JavaMath.INT_MAX);
  }

  /**
   * "Name N" requires "Name N-1": for a code made of a prefix ending in a space
   * and a number, the automatic requirement keeps the prefix, and its own
   * number is one less.
   */
  lemma PreviousCodeOfNumber(prefix: string, n: int)
    requires prefix == [] || prefix[|prefix| - 1] == ' '
    requires JavaMath.INT_MIN < n <= JavaMath.INT_MAX
    ensures PreviousCode(prefix + Text.IntToString(n)) == Some(prefix + Text.IntToString(n - 1))
    ensures Number(prefix + Text.IntToString(n - 1)) == Ok(n - 1)
  {
    PreviousOf(prefix, n);
    NumberOf(prefix, n - 1);
  }

  lemma PreviousOf(prefix: string, n: int)
    requires prefix == [] || prefix[|prefix| - 1] == ' '
    requires JavaMath.INT_MIN < n <= JavaMath.INT_MAX
    ensures PreviousCode(prefix + Text.IntToString(n)) == Some(prefix + Text.IntToString(n - 1))
  {
    var s := prefix + Text.IntToString(n);
    NumberOf(prefix, n);
    assert s[..|s| - |LastToken(s)|] == prefix;
    JavaMath.Wrap32Identity(n - 1);
    var w := Text.IntToString(JavaMath.Wrap32(n - 1));
    assert w == Text.IntToString(n - 1);
    assert PreviousCode(s) == Some(s[..|s| - |LastToken(s)|] + w);
  }

  /** A code whose last token is not a number has no automatic requirement. */
  lemma NoNumberNoPrevious(code: string)
    requires Number(code).Err?
    ensures PreviousCode(code) == None
  {
  }

  // ---------------------------------------------------------------------------
  // Technologies and their registry

  class Technology {
    const code: string
    const category: Category
    const researchPoints: int
    const requirementNames: seq<string>
    const name: string
    const description: string
    var requirements: seq<Technology>

    /** The constructor's `init`: the new technology is added to its category's code map and list. */
    constructor (registry: Registry, code: string, category: Category, researchPoints: int,
                 requirementNames: seq<string>, name: string, description: string)
      requires registry.Valid()
      modifies registry
      ensures registry.Valid()
      ensures this.code == code && this.category == category && this.researchPoints == researchPoints
      ensures this.requirementNames == requirementNames && requirements == []
      ensures registry.technologies == Registered(old(registry.technologies), this)
    {
      this.code := code;
      this.category := category;
      this.researchPoints := researchPoints;
      this.requirementNames := requirementNames;
      this.name := name;
      this.description := description;
      requirements := [];
      new;
      registry.Add(this);
    }
  }

  /** One category's technologies: by code (a later one replaces an earlier one) and in creation order. */
  datatype TechnologyList = TechnologyList(byCode: map<string, Technology>, sorted: seq<Technology>)

  /** The map from category to technology list, with the order in which the map visits its categories. */
  datatype CategoryMap = CategoryMap(lists: map<Category, TechnologyList>, order: seq<Category>)
  {
    /**
     * The order lists each category once; every listed technology belongs to
     * its list's category and appears there once.
     */
    ghost predicate Valid()
    {
      (forall i, j :: 0 <= i < j < |order| ==> order[i] != order[j]) &&
      (forall c :: c in lists <==> c in order) &&
      (forall c :: c in lists ==> Listed(c, lists[c]))
    }

    function ListOf(c: Category): TechnologyList
    {
      if c in lists then lists[c] else TechnologyList(map[], [])
    }

    /** Every technology listed in any category. */
    ghost function Techs(): set<Technology>
    {
      set c, t | c in lists && t in lists[c].sorted :: t
    }
  }

  /** Every technology of a list belongs to its category and appears once. */
  predicate Listed(c: Category, l: TechnologyList)
  {
    (forall i :: 0 <= i < |l.sorted| ==> l.sorted[i].category == c) &&
    (forall i, j :: 0 <= i < j < |l.sorted| ==> l.sorted[i] != l.sorted[j])
  }

  /** A technology joins its category's list, creating the list when the category has none yet. */
  function Registered(m: CategoryMap, t: Technology): (r: CategoryMap)
    ensures r.lists.Keys == m.lists.Keys + {t.category}
    ensures r.ListOf(t.category).byCode == m.ListOf(t.category).byCode[t.code := t]
    ensures r.ListOf(t.category).sorted == m.ListOf(t.category).sorted + [t]
    ensures forall c :: c in m.lists && c != t.category ==> r.lists[c] == m.lists[c]
  {
    var l := m.ListOf(t.category);
    CategoryMap(m.lists[t.category := TechnologyList(l.byCode[t.code := t], l.sorted + [t])],
                m.order + (if t.category in m.lists then [] else [t.category]))
  }

  /** Registering adds exactly the new technology to the set of all technologies. */
  lemma RegisteredTechs(m: CategoryMap, t: Technology)
    ensures Registered(m, t).Techs() == m.Techs() + {t}
  {
    var r, c := Registered(m, t), t.category;
    assert t in r.lists[c].sorted;
    forall x | x in m.Techs() ensures x in r.Techs() {
      var c' :| c' in m.lists && x in m.lists[c'].sorted;
      assert x in r.lists[c'].sorted;
    }
    forall x | x in r.Techs() ensures x in m.Techs() + {t} {
      var c' :| c' in r.lists && x in r.lists[c'].sorted;
      if c' != c {
        assert x in m.lists[c'].sorted;
      } else if x != t {
        assert x in m.ListOf(c).sorted;
      }
    }
  }

  /** Registering a new technology keeps the map well formed. */
  lemma RegisteredValid(m: CategoryMap, t: Technology)
    requires m.Valid() && t !in m.Techs()
    ensures Registered(m, t).Valid()
  {
    var r, c := Registered(m, t), t.category;
    var l := m.ListOf(c).sorted;
    assert t !in l by {
      assert c in m.lists ==> forall x :: x in m.lists[c].sorted ==> x in m.Techs();
    }
    assert Listed(c, r.lists[c]) by {
      assert r.lists[c].sorted == l + [t];
      assert forall i :: 0 <= i < |l| ==> l[i] != t;
    }
    assert forall c' :: c' in r.lists ==> Listed(c', r.lists[c']);
  }

  /** `getTech(code)`: the technology with that code in the first category, in map order, that has one. */
  function GetTech(m: CategoryMap, code: string): (r: Option<Technology>)
    ensures r.None? <==> forall c :: c in m.order && c in m.lists ==> code !in m.lists[c].byCode
  {
    FindIn(m.lists, m.order, code)
  }

  function FindIn(lists: map<Category, TechnologyList>, cs: seq<Category>, code: string): (r: Option<Technology>)
    ensures r.None? <==> forall c :: c in cs && c in lists ==> code !in lists[c].byCode
  {
    if cs == [] then None
    else if cs[0] in lists && code in lists[cs[0]].byCode then Some(lists[cs[0]].byCode[code])
    else FindIn(lists, cs[1..], code)
  }

  /** `cs[k]` is the first category in `cs` whose list has `code`. */
  predicate FirstWith(lists: map<Category, TechnologyList>, cs: seq<Category>, code: string, k: int)
  {
    0 <= k < |cs| && cs[k] in lists && code in lists[cs[k]].byCode &&
    forall j :: 0 <= j < k && cs[j] in lists ==> code !in lists[cs[j]].byCode
  }

  /** The result comes from the first category in order that has the code. */
  lemma {:induction false} FindInFirst(lists: map<Category, TechnologyList>, cs: seq<Category>, code: string)
    requires FindIn(lists, cs, code).Some?
    ensures exists k :: FirstWith(lists, cs, code, k) && lists[cs[k]].byCode[code] == FindIn(lists, cs, code).value
  {
    if cs[0] in lists && code in lists[cs[0]].byCode {
      assert FirstWith(lists, cs, code, 0);
    } else {
      FindInFirst(lists, cs[1..], code);
      var k :| FirstWith(lists, cs[1..], code, k) && lists[cs[1..][k]].byCode[code] == FindIn(lists, cs[1..], code).value;
      assert FirstWith(lists, cs, code, k + 1) by {
        forall j | 0 < j < k + 1 && cs[j] in lists
          ensures code !in lists[cs[j]].byCode
        {
          assert cs[j] == cs[1..][j - 1];
        }
      }
    }
  }

  /** In a well-formed map, a code nobody registered is found nowhere, and a registered one is found. */
  lemma GetTechComplete(m: CategoryMap, code: string)
    requires m.Valid()
    ensures GetTech(m, code).None? <==> forall c :: c in m.lists ==> code !in m.lists[c].byCode
  {
  }

  /** The technologies named as requirements, resolved in order; `None` if a name is unknown. */
  function Resolve(m: CategoryMap, names: seq<string>): (r: Option<seq<Technology>>)
    ensures r.Some? <==> forall k :: 0 <= k < |names| ==> GetTech(m, names[k]).Some?
    ensures r.Some? ==> |r.value| == |names| && forall k :: 0 <= k < |names| ==> r.value[k] == GetTech(m, names[k]).value
  {
    if names == [] then Some([])
    else
      match Resolve(m, names[..|names| - 1])
      case None => None
      case Some(init) =>
        match GetTech(m, names[|names| - 1])
        case None => None
        case Some(t) => Some(init + [t])
  }

  lemma ResolveStep(m: CategoryMap, names: seq<string>, i: nat)
    requires i < |names|
    ensures Resolve(m, names[..i + 1]) ==
      match Resolve(m, names[..i])
      case None => None
      case Some(rs) => if GetTech(m, names[i]).Some? then Some(rs + [GetTech(m, names[i]).value]) else None
    ensures GetTech(m, names[i]).None? ==> Resolve(m, names).None?
  {
    assert names[..i + 1][..i] == names[..i];
  }

  /** The automatic requirement of a code, when its previous code names a technology. */
  function Auto(m: CategoryMap, code: string): (r: seq<Technology>)
    ensures |r| <= 1
    ensures |r| == 1 <==> PreviousCode(code).Some? && GetTech(m, PreviousCode(code).value).Some?
  {
    var previous := PreviousCode(code);
    if previous.Some? && GetTech(m, previous.value).Some? then [GetTech(m, previous.value).value] else []
  }

  /** Everything `initTech` adds to a technology's requirements, if all its named requirements exist. */
  function Needed(m: CategoryMap, t: Technology): Option<seq<Technology>>
  {
    match Resolve(m, t.requirementNames)
    case None => None
    case Some(rs) => Some(rs + Auto(m, t.code))
  }

  /** Links one technology: the named requirements (an unknown name throws), then the automatic one. */
  method Link(m: CategoryMap, t: Technology) returns (o: Outcome)
    modifies t
    ensures o == Pass <==> Needed(m, t).Some?
    ensures o == Pass ==> t.requirements == old(t.requirements) + Needed(m, t).value
  {
    o := LinkNamed(m, t);
    if o == Pass {
      var auto := Auto(m, t.code);
      ghost var rs := Resolve(m, t.requirementNames).value;
      t.requirements := t.requirements + auto;
      assert t.requirements == old(t.requirements) + (rs + auto);
    }
  }

  /** The named requirements, appended in order; an unknown name throws. */
  method LinkNamed(m: CategoryMap, t: Technology) returns (o: Outcome)
    modifies t
    ensures o == Pass <==> Resolve(m, t.requirementNames).Some?
    ensures o == Pass ==> t.requirements == old(t.requirements) + Resolve(m, t.requirementNames).value
  {
    var names := t.requirementNames;
    var i := 0;
    ghost var linked := [];
    while i < |names|
      invariant 0 <= i <= |names|
      invariant Resolve(m, names[..i]) == Some(linked)
      invariant t.requirements == old(t.requirements) + linked
    {
      var req := GetTech(m, names[i]);
      ResolveStep(m, names, i);
      if req.None? {
        return Fail(NullPointer);
      }
      t.requirements := t.requirements + [req.value];
      linked := linked + [req.value];
      i := i + 1;
    }
    assert names[..i] == names;
    o := Pass;
  }

  /** `t` has gained exactly the requirements it needs since it held `before`. */
  ghost predicate LinkedFrom(m: CategoryMap, t: Technology, before: seq<Technology>)
    reads t
  {
    Needed(m, t).Some? && t.requirements == before + Needed(m, t).value
  }

  /** A technology whose category is among `done` has been linked since it held `before`; any other is untouched. */
  ghost predicate LinkedOnceDone(m: CategoryMap, done: seq<Category>, t: Technology, before: seq<Technology>)
    reads t
  {
    if t.category in done then LinkedFrom(m, t, before) else t.requirements == before
  }

  /** `initTech`'s inner loop: links the technologies of one list in order, stopping at the first that throws. */
  method LinkList(m: CategoryMap, l: seq<Technology>) returns (o: Outcome)
    requires forall i, j :: 0 <= i < j < |l| ==> l[i] != l[j]
    modifies set t | t in l
    ensures o == Pass <==> forall t :: t in l ==> Needed(m, t).Some?
    ensures o == Pass ==> forall t :: t in l ==> LinkedFrom(m, t, old(t.requirements))
  {
    var j := 0;
    while j < |l|
      invariant 0 <= j <= |l|
      invariant forall k :: 0 <= k < j ==> LinkedFrom(m, l[k], old(l[k].requirements))
      invariant forall k :: j <= k < |l| ==> l[k].requirements == old(l[k].requirements)
    {
      label Step:
      o := Link(m, l[j]);
      if o != Pass {
        assert l[j] in l;
        return;
      }
      forall k | 0 <= k < |l| && k != j
        ensures l[k].requirements == old@Step(l[k].requirements)
      {
        assert l[k] != l[j];
      }
      j := j + 1;
    }
    forall t | t in l ensures LinkedFrom(m, t, old(t.requirements)) {
      var k :| 0 <= k < |l| && l[k] == t;
    }
    o := Pass;
  }

  /** In a well-formed map every listed technology is in its own category's list, and that category is in the order. */
  lemma ListsOwnTechs(m: CategoryMap)
    requires m.Valid()
    ensures forall c, t :: c in m.lists && t in m.lists[c].sorted ==> t.category == c && t in m.Techs()
    ensures forall t :: t in m.Techs() ==> t.category in m.order
  {
    forall c, t | c in m.lists && t in m.lists[c].sorted
      ensures t.category == c
    {
      var k :| 0 <= k < |m.lists[c].sorted| && m.lists[c].sorted[k] == t;
    }
  }

  /** The registry object: the technologies map that `Technology` instances add themselves to. */
  class Registry {
    var technologies: CategoryMap

    ghost predicate Valid()
      reads this
    {
      technologies.Valid()
    }

    constructor ()
      ensures Valid() && technologies == CategoryMap(map[], [])
    {
      technologies := CategoryMap(map[], []);
    }

    method Add(t: Technology)
      requires Valid() && t !in technologies.Techs()
      modifies this
      ensures Valid()
      ensures technologies == Registered(old(technologies), t)
    {
      RegisteredValid(technologies, t);
      technologies := Registered(technologies, t);
    }

    /**
     * `initTech`'s linking pass over every list in map order: it succeeds
     * exactly when every named requirement of every technology exists, and
     * then every technology has gained exactly what it needs.
     */
    method LinkAll() returns (o: Outcome)
      requires Valid()
      modifies technologies.Techs()
      ensures o == Pass <==> forall t :: t in technologies.Techs() ==> Needed(technologies, t).Some?
      ensures o == Pass ==> forall t :: t in technologies.Techs() ==>
        t.requirements == old(t.requirements) + Needed(technologies, t).value
    {
      var m := technologies;
      ListsOwnTechs(m);
      var i := 0;
      while i < |m.order|
        invariant 0 <= i <= |m.order| && technologies == m
        invariant forall t :: t in m.Techs() ==> LinkedOnceDone(m, m.order[..i], t, old(t.requirements))
      {
        var c := m.order[i];
        var l := m.lists[c].sorted;
        o := LinkList(m, l);
        if o != Pass {
          return;
        }
        assert m.order[..i + 1] == m.order[..i] + [c];
        assert c !in m.order[..i];
        i := i + 1;
      }
      assert m.order[..i] == m.order;
      o := Pass;
    }
  }

  /** A job needs the research points its kind sets; progress starts at 0. */
  datatype JobKind = Discovery(category: Category) | TechnologyJob(tech: Technology) | Design(partName: string, points: int)

  class ResearchJob {
    const kind: JobKind
    const researchPoints: int
    var progress: int

    constructor (kind: JobKind)
      ensures this.kind == kind && progress == 0
      ensures researchPoints == JobPoints(kind)
    {
      this.kind := kind;
      researchPoints := JobPoints(kind);
      progress := 0;
    }
  }

  /** Discovery takes 1000 points, a technology its own points, a design the points it was given. */
  function JobPoints(kind: JobKind): (p: int)
    ensures kind.Discovery? ==> p == 1000
    ensures kind.TechnologyJob? ==> p == kind.tech.researchPoints
    ensures kind.Design? ==> p == kind.points
  {
    match kind
    case Discovery(_) => 1000
    case TechnologyJob(t) => t.researchPoints
    case Design(_, points) => points
  }
}
