/** The award table: display configuration, the list of all award kinds and
    the priority order used to sort badges (app/lib/awards.ts). */
module Awards {
  import opened Optional
  import opened Seqs
  import opened StableSort
  import opened Types

  datatype AwardConfig = AwardConfig(
    awardType: AwardType,
    fullLabel: string,
    shortLabel: string,
    description: string,
    color: string,
    bgColor: string,
    icon: string)

  /** `AWARD_CONFIGS[t]`: defined for the ten known kinds only. */
  function ConfigOf(t: AwardType): Option<AwardConfig> {
    match t
    case HighestClimber => Some(AwardConfig(t, "Highest Climber", "Climber",
        "Biggest rise in rankings this year", "#10b981", "rgba(16, 185, 129, 0.15)", "TrendingUp"))
    case HighestNewEntry => Some(AwardConfig(t, "Highest New Entry", "New Entry",
        "Best new entrant to the list", "#3b82f6", "rgba(59, 130, 246, 0.15)", "Star"))
    case OneToWatch => Some(AwardConfig(t, "One To Watch", "Watch",
        "Emerging restaurant to keep an eye on", "#8b5cf6", "rgba(139, 92, 246, 0.15)", "Eye"))
    case Sustainable => Some(AwardConfig(t, "Sustainable Restaurant", "Sustainable",
        "Recognized for environmental responsibility", "#059669", "rgba(5, 150, 105, 0.15)", "Leaf"))
    case BestFemaleChef => Some(AwardConfig(t, "Best Female Chef", "Female Chef",
        "Restaurant with award-winning female chef", "#ec4899", "rgba(236, 72, 153, 0.15)", "Award"))
    case BestPastryChef => Some(AwardConfig(t, "Best Pastry Chef", "Pastry",
        "Outstanding pastry program", "#f59e0b", "rgba(245, 158, 11, 0.15)", "Cake"))
    case ArtOfHospitality => Some(AwardConfig(t, "Art of Hospitality", "Hospitality",
        "Excellence in service and guest experience", "#6366f1", "rgba(99, 102, 241, 0.15)", "Heart"))
    case ChefsChoice => Some(AwardConfig(t, "Chefs' Choice", "Chefs'",
        "Voted by fellow chefs", "#f97316", "rgba(249, 115, 22, 0.15)", "ChefHat"))
    case Icon => Some(AwardConfig(t, "Icon Award", "Icon",
        "Lifetime achievement in culinary arts", "#eab308", "rgba(234, 179, 8, 0.15)", "Crown"))
    case BestOfTheBest => Some(AwardConfig(t, "Best of the Best", "Best",
        "Hall of Fame - Former #1 restaurants", "#ef4444", "rgba(239, 68, 68, 0.15)", "Trophy"))
    case Unknown(_) => None
  }

  /** `ALL_AWARD_TYPES = Object.keys(AWARD_CONFIGS)`, in declaration order. */
  const AllAwardTypes: seq<AwardType> := [
    HighestClimber, HighestNewEntry, OneToWatch, Sustainable, BestFemaleChef,
    BestPastryChef, ArtOfHospitality, ChefsChoice, Icon, BestOfTheBest]

  /** ALL_AWARD_TYPES lists exactly the configured kinds, each once, and
      every configuration is filed under its own kind. */
  lemma AllAwardTypesAreConfigKeys()
    ensures |AllAwardTypes| == 10 && NoDup(AllAwardTypes)
    ensures forall t :: t in AllAwardTypes <==> ConfigOf(t).Some?
    ensures forall t :: ConfigOf(t).Some? ==> ConfigOf(t).value.awardType == t
  {
  }

  /** The names `Object.prototype` provides to every object literal. Looked
      up in the award table they yield a function or an object, not
      `undefined`. */
  const PrototypeNames: set<string> := {
    "constructor", "hasOwnProperty", "isPrototypeOf", "propertyIsEnumerable",
    "toLocaleString", "toString", "valueOf", "__proto__",
    "__defineGetter__", "__defineSetter__", "__lookupGetter__", "__lookupSetter__"}

  /** `AwardBadge` and `AwardIcon` read `getAwardConfig(type).icon`. The
      read throws when the lookup is `undefined`: for a kind the table does
      not list, unless its tag is a prototype name, whose missing `icon`
      falls back to the default icon. */
  predicate BadgeRenders(t: AwardType) {
    ConfigOf(t).Some? || Inherited(t)
  }

  /** An unlisted kind whose tag names a member every object literal
      inherits: looked up in any `{}` it reads as that truthy member. */
  predicate Inherited(t: AwardType) {
    t.Unknown? && t.tag in PrototypeNames
  }

  /** A badge renders exactly for the ten listed kinds and the prototype
      names: `constructor` renders, `foo` throws. */
  lemma BadgeRendersIffDefined(t: AwardType)
    ensures BadgeRenders(t) <==> t in AllAwardTypes || (t.Unknown? && t.tag in PrototypeNames)
    ensures BadgeRenders(Unknown("constructor")) && !BadgeRenders(Unknown("foo"))
  {
  }

  const FallbackColor: string := "#6b7280"
  const FallbackBgColor: string := "rgba(107, 114, 128, 0.15)"

  /** `getAwardColor`: the configured colour, grey for an unconfigured kind. */
  function AwardColor(t: AwardType): (c: string)
    ensures ConfigOf(t).None? ==> c == FallbackColor
    ensures ConfigOf(t).Some? ==> c == ConfigOf(t).value.color
  {
    match ConfigOf(t)
    case Some(cfg) => if cfg.color != "" then cfg.color else FallbackColor
    case None => FallbackColor
  }

  /** `getAwardBgColor`: the configured background, grey for an unconfigured kind. */
  function AwardBgColor(t: AwardType): (c: string)
    ensures ConfigOf(t).None? ==> c == FallbackBgColor
    ensures ConfigOf(t).Some? ==> c == ConfigOf(t).value.bgColor
  {
    match ConfigOf(t)
    case Some(cfg) => if cfg.bgColor != "" then cfg.bgColor else FallbackBgColor
    case None => FallbackBgColor
  }

  /** `AWARD_PRIORITY[t] || 99`: lower is more important. */
  function Priority(t: AwardType): nat {
    match t
    case BestOfTheBest => 1
    case Icon => 2
    case HighestNewEntry => 3
    case HighestClimber => 4
    case Sustainable => 5
    case OneToWatch => 6
    case ChefsChoice => 7
    case ArtOfHospitality => 8
    case BestFemaleChef => 9
    case BestPastryChef => 10
    case Unknown(_) => 99
  }

  /** The priority table gives the ten kinds the distinct ranks 1..10, so it
      orders known kinds totally, and ranks every unknown kind after them. */
  lemma PriorityTable()
    ensures forall t :: t in AllAwardTypes ==> 1 <= Priority(t) <= 10
    ensures forall t, u :: t in AllAwardTypes && u in AllAwardTypes && Priority(t) == Priority(u) ==> t == u
    ensures forall t, u :: t in AllAwardTypes && u !in AllAwardTypes ==> Priority(t) < Priority(u) == 99
  {
  }

  function PriorityKey(t: AwardType): Key {
    Ascending(Priority(t))
  }

  /** `sortAwardsByPriority`: a sorted copy; the argument is a value and is
      left as it was. */
  function SortAwardsByPriority(types: seq<AwardType>): (r: seq<AwardType>)
    ensures multiset(r) == multiset(types)
    ensures forall i, j :: 0 <= i < j < |r| ==> Priority(r[i]) <= Priority(r[j])
    ensures StableFor(r, types, PriorityKey)
  {
    var r := SortBy(types, PriorityKey);
    assert forall i, j :: 0 <= i < j < |r| ==> Le(PriorityKey(r[i]), PriorityKey(r[j]));
    r
  }

  /** Icon (priority 2) comes before Sustainable (priority 5) whichever way
      round they are given. */
  lemma SortIconSustainable()
    ensures SortAwardsByPriority([Icon, Sustainable]) == [Icon, Sustainable]
    ensures SortAwardsByPriority([Sustainable, Icon]) == [Icon, Sustainable]
  {
    assert multiset([Sustainable, Icon]) == multiset([Icon, Sustainable]);
    SortedPair(SortAwardsByPriority([Icon, Sustainable]), Icon, Sustainable);
    SortedPair(SortAwardsByPriority([Sustainable, Icon]), Icon, Sustainable);
  }

  /** Two kinds of different priority have one sorted order. */
  lemma SortedPair(r: seq<AwardType>, a: AwardType, b: AwardType)
    requires multiset(r) == multiset([a, b]) && Priority(a) < Priority(b)
    requires forall i, j :: 0 <= i < j < |r| ==> Priority(r[i]) <= Priority(r[j])
    ensures r == [a, b]
  {
    assert |r| == |multiset(r)| == 2;
    assert r == [r[0], r[1]];
    assert multiset(r) == multiset{r[0], r[1]};
  }
}
