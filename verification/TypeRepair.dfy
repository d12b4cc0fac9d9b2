/** Repair of heuristic series types and of the issue types inherited from them, in place over the
    series and issues tables. */
module TypeRepair {
  import opened Options

  // ----- Types and the classifier -----

  datatype SeriesType =
    | Standard | SAnnual | STpb | SOmnibus | SGraphicNovel | SHardcover
    | SOneShot | SSpecial | SDeluxe | SCompendium | SVolume

  datatype IssueType =
    | Issue | Annual | Tpb | Omnibus | Gn | Ogn | Hc | OneShot | Special | Deluxe | Compendium | Volume

  /** The pattern matching of the classifier: what a title says, what a nonempty description says,
      and whether a title names both bindings. */
  datatype Classifier = Classifier(
    titleType: string -> SeriesType,
    descriptionType: string -> SeriesType,
    namesBothBindings: string -> bool)

  function Inherited(seriesType: SeriesType): Option<IssueType> {
    match seriesType
    case Standard => None
    case SAnnual => Some(Annual)
    case STpb => Some(Tpb)
    case SOmnibus => Some(Omnibus)
    case SGraphicNovel => Some(Gn)
    case SHardcover => Some(Hc)
    case SOneShot => Some(OneShot)
    case SSpecial => Some(Special)
    case SDeluxe => Some(Deluxe)
    case SCompendium => Some(Compendium)
    case SVolume => Some(Volume)
  }

  function InheritedOrIssue(seriesType: SeriesType): IssueType {
    if Inherited(seriesType).Some? then Inherited(seriesType).value else Issue
  }

  function SeriesTypeFor(issueType: IssueType): Option<SeriesType> {
    match issueType
    case Issue => None
    case Annual => Some(SAnnual)
    case Tpb => Some(STpb)
    case Omnibus => Some(SOmnibus)
    case Gn => Some(SGraphicNovel)
    case Ogn => Some(SGraphicNovel)
    case Hc => Some(SHardcover)
    case OneShot => Some(SOneShot)
    case Special => Some(SSpecial)
    case Deluxe => Some(SDeluxe)
    case Compendium => Some(SCompendium)
    case Volume => Some(SVolume)
  }

  const COLLECTION_TYPES: set<IssueType> := {Tpb, Omnibus, Gn, Ogn, Hc, Deluxe, Compendium, Volume}
  const IMPORT_SOURCES: set<string> := {"provisional_import", "import_placeholder"}
  const UNTRUSTED_TYPES: set<SeriesType> := {SOneShot, SSpecial}

  function Classify(classifier: Classifier, title: string, description: Option<string>): SeriesType {
    if classifier.titleType(title) != Standard then classifier.titleType(title)
    else if description.None? || description.value == "" then Standard
    else classifier.descriptionType(description.value)
  }

  /** The type an issue title states, `Issue` when it states none. */
  function TitleType(classifier: Classifier, title: Option<string>): IssueType {
    if title.None? || title.value == "" then Issue
    else if classifier.namesBothBindings(title.value) then Volume
    else InheritedOrIssue(Classify(classifier, title.value, None))
  }

  // ----- Rows -----

  datatype SeriesRow = SeriesRow(title: string, description: Option<string>, seriesType: SeriesType, parent: Option<int>)

  datatype IssueRow = IssueRow(seriesId: int, title: Option<string>, issueType: IssueType, metadataSource: Option<string>)

  datatype Tables = Tables(series: map<int, SeriesRow>, issues: map<int, IssueRow>)

  /** The types the titles of a series state, as the set the consensus depends on. */
  function StatedTypes(classifier: Classifier, issues: map<int, IssueRow>, seriesId: int): set<IssueType> {
    set i | i in issues && issues[i].seriesId == seriesId :: TitleType(classifier, issues[i].title)
  }

  /** The series type that complete titles agree on. */
  ghost function Consensus(stated: set<IssueType>): Option<SeriesType> {
    if stated == {} || Issue in stated then None
    else if exists t :: stated == {t} then
      var t :| stated == {t};
      SeriesTypeFor(t)
    else if stated <= COLLECTION_TYPES then Some(SVolume)
    else None
  }

  /** What the evidence makes of a series. */
  ghost function RepairedType(classifier: Classifier, row: SeriesRow, stated: set<IssueType>): SeriesType {
    var classified := Classify(classifier, row.title, row.description);
    if classified != Standard || row.seriesType == Standard then classified
    else if Consensus(stated).Some? then Consensus(stated).value
    else if row.seriesType !in UNTRUSTED_TYPES then row.seriesType
    else Standard
  }

  predicate IsProtected(row: IssueRow) {
    row.metadataSource.Some? && row.metadataSource.value in IMPORT_SOURCES && row.issueType != Issue
  }

  /** The type of an issue after its series moves from one type to another. */
  function RepairedIssueType(classifier: Classifier, from: SeriesType, to: SeriesType, row: IssueRow): IssueType {
    var explicit := TitleType(classifier, row.title);
    var holdsInherited := Inherited(from) == Some(row.issueType);
    if explicit != Issue then
      if row.issueType == Issue || holdsInherited then explicit else row.issueType
    else if IsProtected(row) then row.issueType
    else if holdsInherited || (row.issueType == Issue && InheritedOrIssue(to) != Issue) then InheritedOrIssue(to)
    else row.issueType
  }

  ghost function NewSeriesType(classifier: Classifier, tables: Tables, id: int): SeriesType
    requires id in tables.series
  {
    RepairedType(classifier, tables.series[id], StatedTypes(classifier, tables.issues, id))
  }

  /** Some of these series has to change its type. */
  ghost predicate AnyMoves(classifier: Classifier, tables: Tables, ids: seq<int>) {
    exists id :: id in ids && id in tables.series
              && NewSeriesType(classifier, tables, id) != tables.series[id].seriesType
  }

  ghost function RepairedSeries(classifier: Classifier, tables: Tables, id: int): SeriesRow
    requires id in tables.series
  {
    var row, to := tables.series[id], NewSeriesType(classifier, tables, id);
    if to == row.seriesType then row
    else row.(seriesType := to, parent := if to == Standard then None else row.parent)
  }

  ghost function RepairedIssue(classifier: Classifier, tables: Tables, id: int): IssueRow
    requires id in tables.issues
  {
    var row := tables.issues[id];
    if row.seriesId !in tables.series then row
    else
      var from, to := tables.series[row.seriesId].seriesType, NewSeriesType(classifier, tables, row.seriesId);
      if from == to then row else row.(issueType := RepairedIssueType(classifier, from, to, row))
  }

  /** The repaired tables. They depend on the rows alone, not on any order of them. */
  ghost function Repaired(classifier: Classifier, tables: Tables): Tables {
    Tables(
      map id | id in tables.series :: RepairedSeries(classifier, tables, id),
      map id | id in tables.issues :: RepairedIssue(classifier, tables, id))
  }

  // ----- What the repair keeps -----

  lemma ConsensusIsNotStandard(stated: set<IssueType>)
    ensures Consensus(stated) != Some(Standard)
  {
  }

  lemma RepairIsStable(classifier: Classifier, row: SeriesRow, stated: set<IssueType>)
    ensures var to := RepairedType(classifier, row, stated);
            forall parent :: RepairedType(classifier, row.(seriesType := to, parent := parent), stated) == to
  {
    ConsensusIsNotStandard(stated);
  }

  lemma TitlesAreKept(classifier: Classifier, tables: Tables, id: int)
    ensures StatedTypes(classifier, Repaired(classifier, tables).issues, id) == StatedTypes(classifier, tables.issues, id)
  {
    var before, after := tables.issues, Repaired(classifier, tables).issues;
    assert forall i | i in before :: after[i].title == before[i].title && after[i].seriesId == before[i].seriesId;
  }

  /** A repaired series keeps its type in a second run. */
  lemma RepairedTypesAreFinal(classifier: Classifier, tables: Tables, id: int)
    requires id in tables.series
    ensures var after := Repaired(classifier, tables);
            NewSeriesType(classifier, after, id) == after.series[id].seriesType
  {
    TitlesAreKept(classifier, tables, id);
    RepairIsStable(classifier, tables.series[id], StatedTypes(classifier, tables.issues, id));
  }

  /** Repairing twice is repairing once. */
  lemma RepairIsIdempotent(classifier: Classifier, tables: Tables)
    ensures Repaired(classifier, Repaired(classifier, tables)) == Repaired(classifier, tables)
  {
    var after := Repaired(classifier, tables);
    forall id | id in after.series ensures NewSeriesType(classifier, after, id) == after.series[id].seriesType {
      RepairedTypesAreFinal(classifier, tables, id);
    }
    assert Repaired(classifier, after).series == after.series;
    assert Repaired(classifier, after).issues == after.issues;
  }

  lemma InheritedIsInjective(a: SeriesType, b: SeriesType)
    ensures Inherited(a) == Inherited(b) ==> a == b
    ensures Inherited(a).Some? ==> Inherited(a) != Some(InheritedOrIssue(b)) || a == b
  {
  }

  /** An issue changes only if its series changed type, and only away from `Issue` or from the type
      it had inherited; it then has the type its title states or, failing that, the new inherited
      type. */
  lemma OnlyInheritedTypesChange(classifier: Classifier, tables: Tables, id: int)
    requires id in tables.issues
    requires Repaired(classifier, tables).issues[id] != tables.issues[id]
    ensures var row, after := tables.issues[id], Repaired(classifier, tables);
            && row.seriesId in tables.series
            && after.series[row.seriesId].seriesType != tables.series[row.seriesId].seriesType
            && (row.issueType == Issue || Inherited(tables.series[row.seriesId].seriesType) == Some(row.issueType))
            && after.issues[id] == row.(issueType :=
                 if TitleType(classifier, row.title) != Issue then TitleType(classifier, row.title)
                 else InheritedOrIssue(after.series[row.seriesId].seriesType))
  {
  }

  /** After a series changes type, only rows protected by their import source still hold the stale
      inherited type without stating it in the title. */
  lemma NoStaleInheritance(classifier: Classifier, tables: Tables, id: int)
    requires id in tables.issues && tables.issues[id].seriesId in tables.series
    ensures var row, after := tables.issues[id], Repaired(classifier, tables);
            var from := tables.series[row.seriesId].seriesType;
            after.series[row.seriesId].seriesType != from && TitleType(classifier, row.title) == Issue
            && Inherited(from) == Some(after.issues[id].issueType)
            ==> IsProtected(row)
  {
    var row, after := tables.issues[id], Repaired(classifier, tables);
    InheritedIsInjective(tables.series[row.seriesId].seriesType, after.series[row.seriesId].seriesType);
  }

  /** A series that becomes standard loses its parent; no other series row changes but in its type. */
  lemma OnlyStandardSeriesLoseParent(classifier: Classifier, tables: Tables, id: int)
    requires id in tables.series
    ensures var row, after := tables.series[id], Repaired(classifier, tables).series[id];
            && after.title == row.title && after.description == row.description
            && (after.parent != row.parent ==> after.seriesType == Standard && after.parent == None)
            && (after.seriesType == Standard && row.seriesType != Standard ==> after.parent == None)
  {
  }

  // ----- What the evidence says, in the classifier's terms -----

  const COLLECTION_SERIES: set<SeriesType> :=
    {STpb, SOmnibus, SGraphicNovel, SHardcover, SDeluxe, SCompendium, SVolume}

  /** The title of an issue states this type. */
  predicate States(classifier: Classifier, title: Option<string>, t: SeriesType) {
    && title.Some? && title.value != ""
    && if classifier.namesBothBindings(title.value) then t == SVolume
       else t != Standard && classifier.titleType(title.value) == t
  }

  /** The title or, failing that, the description of a series says that it is of this type. */
  predicate SaysItself(classifier: Classifier, row: SeriesRow, t: SeriesType) {
    t != Standard &&
    (classifier.titleType(row.title) == t
     || (classifier.titleType(row.title) == Standard && row.description.Some? && row.description.value != ""
         && classifier.descriptionType(row.description.value) == t))
  }

  predicate IsIssueOf(tables: Tables, id: int, i: int) {
    i in tables.issues && tables.issues[i].seriesId == id
  }

  /** There are issues, and each of their titles states some type. */
  ghost predicate AllState(classifier: Classifier, tables: Tables, id: int) {
    && (exists i :: IsIssueOf(tables, id, i))
    && (forall i | IsIssueOf(tables, id, i) :: exists t :: States(classifier, tables.issues[i].title, t))
  }

  /** All titles state this one type. */
  ghost predicate Agree(classifier: Classifier, tables: Tables, id: int, t: SeriesType) {
    && (exists i :: IsIssueOf(tables, id, i))
    && (forall i | IsIssueOf(tables, id, i) :: States(classifier, tables.issues[i].title, t))
  }

  /** All titles state collection types, and not all the same one. */
  ghost predicate SeveralCollections(classifier: Classifier, tables: Tables, id: int) {
    && AllState(classifier, tables, id) && (forall t :: !Agree(classifier, tables, id, t))
    && (forall i, t | IsIssueOf(tables, id, i) && States(classifier, tables.issues[i].title, t) :: t in COLLECTION_SERIES)
  }

  /** The type the evidence gives a series: what it says itself; for a series that is not standard,
      what its issues agree on; failing both its own type, unless that is a one-shot or a special. */
  ghost predicate EvidenceGives(classifier: Classifier, tables: Tables, id: int, to: SeriesType)
    requires id in tables.series
  {
    var row := tables.series[id];
    if exists t :: SaysItself(classifier, row, t) then SaysItself(classifier, row, to)
    else if row.seriesType == Standard then to == Standard
    else if exists t :: Agree(classifier, tables, id, t) then Agree(classifier, tables, id, to)
    else if SeveralCollections(classifier, tables, id) then to == SVolume
    else if row.seriesType == SOneShot || row.seriesType == SSpecial then to == Standard
    else to == row.seriesType
  }

  lemma TitleStates(classifier: Classifier, title: Option<string>, t: SeriesType)
    ensures States(classifier, title, t) <==>
            TitleType(classifier, title) != Issue && SeriesTypeFor(TitleType(classifier, title)) == Some(t)
    ensures States(classifier, title, t) ==>
              && TitleType(classifier, title) == InheritedOrIssue(t)
              && (TitleType(classifier, title) in COLLECTION_TYPES <==> t in COLLECTION_SERIES)
  {
  }

  lemma TitleStatesSome(classifier: Classifier, title: Option<string>)
    ensures TitleType(classifier, title) != Issue <==> exists t :: States(classifier, title, t)
  {
    if TitleType(classifier, title) != Issue {
      var t := SeriesTypeFor(TitleType(classifier, title)).value;
      TitleStates(classifier, title, t);
      assert States(classifier, title, t);
    }
  }

  lemma StatedByIssue(classifier: Classifier, tables: Tables, id: int, t: IssueType)
    ensures t in StatedTypes(classifier, tables.issues, id) <==>
            exists i :: IsIssueOf(tables, id, i) && TitleType(classifier, tables.issues[i].title) == t
  {
    if t in StatedTypes(classifier, tables.issues, id) {
      var i :| i in tables.issues && tables.issues[i].seriesId == id
            && TitleType(classifier, tables.issues[i].title) == t;
      assert IsIssueOf(tables, id, i);
    }
  }

  lemma AgreeMeans(classifier: Classifier, tables: Tables, id: int, t: SeriesType)
    requires Agree(classifier, tables, id, t)
    ensures Consensus(StatedTypes(classifier, tables.issues, id)) == Some(t)
    ensures forall u :: Agree(classifier, tables, id, u) ==> u == t
  {
    var stated := StatedTypes(classifier, tables.issues, id);
    var some :| IsIssueOf(tables, id, some);
    var stating := InheritedOrIssue(t);
    forall i | IsIssueOf(tables, id, i) ensures TitleType(classifier, tables.issues[i].title) == stating {
      TitleStates(classifier, tables.issues[i].title, t);
    }
    TitleStates(classifier, tables.issues[some].title, t);
    assert TitleType(classifier, tables.issues[some].title) in stated;
    assert stated == {stating};
  }

  lemma AllStateMeans(classifier: Classifier, tables: Tables, id: int)
    ensures var stated := StatedTypes(classifier, tables.issues, id);
            AllState(classifier, tables, id) <==> stated != {} && Issue !in stated
  {
    var stated := StatedTypes(classifier, tables.issues, id);
    StatedByIssue(classifier, tables, id, Issue);
    forall i | IsIssueOf(tables, id, i)
      ensures TitleType(classifier, tables.issues[i].title) in stated
      ensures TitleType(classifier, tables.issues[i].title) != Issue <==>
              exists t :: States(classifier, tables.issues[i].title, t)
    {
      TitleStatesSome(classifier, tables.issues[i].title);
    }
    if stated != {} {
      var t :| t in stated;
      StatedByIssue(classifier, tables, id, t);
    }
  }

  lemma OneStatedType(classifier: Classifier, tables: Tables, id: int, stating: IssueType)
    requires StatedTypes(classifier, tables.issues, id) == {stating} && stating != Issue
    ensures SeriesTypeFor(stating).Some? && Agree(classifier, tables, id, SeriesTypeFor(stating).value)
  {
    StatedByIssue(classifier, tables, id, stating);
    var t := SeriesTypeFor(stating).value;
    forall i | IsIssueOf(tables, id, i) ensures States(classifier, tables.issues[i].title, t) {
      assert TitleType(classifier, tables.issues[i].title) in StatedTypes(classifier, tables.issues, id);
      TitleStates(classifier, tables.issues[i].title, t);
    }
  }

  lemma CollectionStated(classifier: Classifier, tables: Tables, id: int, i: int, t: SeriesType)
    requires IsIssueOf(tables, id, i) && States(classifier, tables.issues[i].title, t)
    ensures TitleType(classifier, tables.issues[i].title) in StatedTypes(classifier, tables.issues, id)
    ensures TitleType(classifier, tables.issues[i].title) in COLLECTION_TYPES <==> t in COLLECTION_SERIES
  {
    TitleStates(classifier, tables.issues[i].title, t);
  }

  lemma CollectionsStated(classifier: Classifier, tables: Tables, id: int)
    requires AllState(classifier, tables, id)
    ensures StatedTypes(classifier, tables.issues, id) <= COLLECTION_TYPES <==>
            forall i, t | IsIssueOf(tables, id, i) && States(classifier, tables.issues[i].title, t) :: t in COLLECTION_SERIES
  {
    var stated := StatedTypes(classifier, tables.issues, id);
    if stated <= COLLECTION_TYPES {
      forall i, t | IsIssueOf(tables, id, i) && States(classifier, tables.issues[i].title, t)
        ensures t in COLLECTION_SERIES
      {
        CollectionStated(classifier, tables, id, i, t);
      }
    }
    if forall i, t | IsIssueOf(tables, id, i) && States(classifier, tables.issues[i].title, t) :: t in COLLECTION_SERIES {
      forall stating | stating in stated ensures stating in COLLECTION_TYPES {
        StatedByIssue(classifier, tables, id, stating);
        var i :| IsIssueOf(tables, id, i) && TitleType(classifier, tables.issues[i].title) == stating;
        var t :| States(classifier, tables.issues[i].title, t);
        CollectionStated(classifier, tables, id, i, t);
      }
    }
  }

  /** Without agreement there is a consensus only on several collection types. */
  lemma DisagreeMeans(classifier: Classifier, tables: Tables, id: int)
    requires forall t :: !Agree(classifier, tables, id, t)
    ensures Consensus(StatedTypes(classifier, tables.issues, id))
         == if SeveralCollections(classifier, tables, id) then Some(SVolume) else None
  {
    var stated := StatedTypes(classifier, tables.issues, id);
    AllStateMeans(classifier, tables, id);
    if stated != {} && Issue !in stated {
      if one :| stated == {one} {
        OneStatedType(classifier, tables, id, one);
      }
      CollectionsStated(classifier, tables, id);
    }
  }

  /** The repaired type of a series is the one the evidence gives, and no other. */
  lemma EvidenceDecides(classifier: Classifier, tables: Tables, id: int, to: SeriesType)
    requires id in tables.series
    ensures Repaired(classifier, tables).series[id].seriesType == to <==> EvidenceGives(classifier, tables, id, to)
  {
    var row := tables.series[id];
    var classified := Classify(classifier, row.title, row.description);
    assert forall t :: SaysItself(classifier, row, t) <==> t != Standard && classified == t;
    assert classified != Standard ==> SaysItself(classifier, row, classified);
    if classified == Standard && row.seriesType != Standard {
      if t :| Agree(classifier, tables, id, t) {
        AgreeMeans(classifier, tables, id, t);
      } else {
        DisagreeMeans(classifier, tables, id);
      }
    }
  }

  /** Without evidence of its own, a series changes type exactly when its issues agree on another type,
      when they state several collection types and it is no volume, or when neither holds and it is a
      one-shot or a special. */
  lemma SeriesChangesWhen(classifier: Classifier, tables: Tables, id: int)
    requires id in tables.series && forall t :: !SaysItself(classifier, tables.series[id], t)
    ensures var before, after := tables.series[id].seriesType, Repaired(classifier, tables).series[id].seriesType;
            after != before <==>
            before != Standard &&
            (if exists t :: Agree(classifier, tables, id, t) then !Agree(classifier, tables, id, before)
             else if SeveralCollections(classifier, tables, id) then before != SVolume
             else before == SOneShot || before == SSpecial)
  {
    EvidenceDecides(classifier, tables, id, tables.series[id].seriesType);
  }

  /** The type of every issue after the repair: issues of a series that moves take the type their title
      states or, failing that, the new inherited type, if they hold no type but `Issue` or the one they
      had inherited. An import source protects a type that the title does not state. */
  lemma IssueTypesAfter(classifier: Classifier, tables: Tables, id: int)
    requires id in tables.issues && tables.issues[id].seriesId in tables.series
    ensures var row, after := tables.issues[id], Repaired(classifier, tables).issues[id];
            var from := tables.series[row.seriesId].seriesType;
            var to := Repaired(classifier, tables).series[row.seriesId].seriesType;
            var automatic := row.issueType == Issue || Some(row.issueType) == Inherited(from);
            var imported := row.metadataSource == Some("provisional_import") || row.metadataSource == Some("import_placeholder");
            && after == row.(issueType := after.issueType)
            && (from == to || !automatic ==> after == row)
            && (from != to && automatic ==>
                  && (forall t | States(classifier, row.title, t) :: Some(after.issueType) == Inherited(t))
                  && ((forall t :: !States(classifier, row.title, t)) ==>
                        after.issueType == if imported && row.issueType != Issue then row.issueType
                                           else if to == Standard then Issue else Inherited(to).value))
  {
    var row := tables.issues[id];
    TitleStatesSome(classifier, row.title);
    forall t | States(classifier, row.title, t) ensures TitleType(classifier, row.title) == InheritedOrIssue(t) {
      TitleStates(classifier, row.title, t);
    }
  }

  // ----- The repair in place -----

  /** The consensus as the repair computes it, over the list of stated types. */
  function ConsensusOf(types: seq<IssueType>): Option<SeriesType> {
    if types == [] || Issue in types then None
    else if forall t | t in types :: t == types[0] then SeriesTypeFor(types[0])
    else if forall t | t in types :: t in COLLECTION_TYPES then Some(SVolume)
    else None
  }

  /** It depends on which types are stated, not on their order or number. */
  lemma ConsensusOfList(types: seq<IssueType>, stated: set<IssueType>)
    requires forall t :: t in stated <==> t in types
    ensures ConsensusOf(types) == Consensus(stated)
  {
    if types == [] {
      assert stated == {};
    } else if Issue !in types {
      assert types[0] in stated;
      if forall t | t in types :: t == types[0] {
        assert stated == {types[0]};
      } else {
        var first, other :| first in types && other in types && other != first;
        assert first in stated && other in stated;
      }
    }
  }

  /** A query result: every row once, in some order. */
  ghost predicate IsListing(order: seq<int>, ids: set<int>) {
    (forall s :: s in order <==> s in ids) && (forall i, j | 0 <= i < j < |order| :: order[i] != order[j])
  }

  lemma ListingNext(order: seq<int>, ids: set<int>, k: nat)
    requires IsListing(order, ids) && k < |order|
    ensures order[k] in ids && order[k] !in order[..k] && order[..k + 1] == order[..k] + [order[k]]
  {
    var id := order[k];
    assert id in order;
  }

  lemma AnyMovesNext(classifier: Classifier, tables: Tables, ids: seq<int>, id: int)
    requires id in tables.series
    ensures AnyMoves(classifier, tables, ids + [id]) <==>
            AnyMoves(classifier, tables, ids) || NewSeriesType(classifier, tables, id) != tables.series[id].seriesType
  {
    assert id in ids + [id];
  }

  /** The types the titles of these issues state, in list order. */
  function TypesOf(classifier: Classifier, group: seq<int>, issues: map<int, IssueRow>): (types: seq<IssueType>)
    requires forall k | 0 <= k < |group| :: group[k] in issues
    ensures |types| == |group|
    ensures forall k | 0 <= k < |group| :: types[k] == TitleType(classifier, issues[group[k]].title)
  {
    seq(|group|, k requires 0 <= k < |group| => TitleType(classifier, issues[group[k]].title))
  }

  /** `group` lists the issues of one series. */
  ghost predicate IsGroup(group: seq<int>, issues: map<int, IssueRow>, seriesId: int) {
    && (forall k | 0 <= k < |group| :: group[k] in issues && issues[group[k]].seriesId == seriesId)
    && (forall i | i in issues && issues[i].seriesId == seriesId :: i in group)
  }

  lemma SameStatedTypes(classifier: Classifier, issues: map<int, IssueRow>, seriesId: int, group: seq<int>)
    requires IsGroup(group, issues, seriesId)
    ensures forall t :: t in StatedTypes(classifier, issues, seriesId) <==> t in TypesOf(classifier, group, issues)
  {
    var types, stated := TypesOf(classifier, group, issues), StatedTypes(classifier, issues, seriesId);
    forall t | t in stated ensures t in types {
      var i :| i in issues && issues[i].seriesId == seriesId && TitleType(classifier, issues[i].title) == t;
      var k :| 0 <= k < |group| && group[k] == i;
      assert types[k] == t;
    }
    forall t | t in types ensures t in stated {
      var k :| 0 <= k < |group| && types[k] == t;
      var i := group[k];
      assert i in issues && issues[i].seriesId == seriesId;
    }
  }

  /** The row and the issues are those of these tables. */
  predicate IsRowOf(tables: Tables, row: SeriesRow, issues: map<int, IssueRow>, id: int) {
    id in tables.series && tables.series[id] == row && tables.issues == issues
  }

  /** The type the evidence gives a series, from its own row and the titles of its issues. */
  method ClassifySeries(classifier: Classifier, row: SeriesRow, group: seq<int>, issues: map<int, IssueRow>, seriesId: int)
    returns (repairedType: SeriesType)
    requires IsGroup(group, issues, seriesId)
    ensures repairedType == RepairedType(classifier, row, StatedTypes(classifier, issues, seriesId))
    ensures forall tables: Tables | IsRowOf(tables, row, issues, seriesId) ::
              EvidenceGives(classifier, tables, seriesId, repairedType)
  {
    repairedType := Classify(classifier, row.title, row.description);
    if repairedType == Standard && row.seriesType != Standard {
      var types := TypesOf(classifier, group, issues);
      SameStatedTypes(classifier, issues, seriesId, group);
      ConsensusOfList(types, StatedTypes(classifier, issues, seriesId));
      var consensus := ConsensusOf(types);
      if consensus.Some? {
        repairedType := consensus.value;
      } else if row.seriesType !in UNTRUSTED_TYPES {
        repairedType := row.seriesType;
      }
    }
    forall tables: Tables | IsRowOf(tables, row, issues, seriesId)
      ensures EvidenceGives(classifier, tables, seriesId, repairedType)
    {
      EvidenceDecides(classifier, tables, seriesId, repairedType);
    }
  }

  ghost function IssuesAfter(
      classifier: Classifier, from: SeriesType, to: SeriesType, group: seq<int>, issues: map<int, IssueRow>): map<int, IssueRow>
  {
    map i | i in issues ::
      if i in group then issues[i].(issueType := RepairedIssueType(classifier, from, to, issues[i])) else issues[i]
  }

  lemma IssuesNext(
      classifier: Classifier, from: SeriesType, to: SeriesType, group: seq<int>, k: nat, issues: map<int, IssueRow>)
    requires k < |group| && group[k] in issues
    ensures var id := group[k];
            var done, repaired := IssuesAfter(classifier, from, to, group[..k], issues),
                                  RepairedIssueType(classifier, from, to, issues[id]);
            && done[id].(issueType := issues[id].issueType) == issues[id]
            && (repaired == issues[id].issueType ==> done[id] == issues[id])
            && IssuesAfter(classifier, from, to, group[..k + 1], issues)
               == done[id := issues[id].(issueType := repaired)]
  {
    assert group[..k + 1] == group[..k] + [group[k]];
  }

  /** The tables once the series in `done` have been repaired. */
  ghost function PartlyRepaired(classifier: Classifier, tables: Tables, done: seq<int>): Tables {
    Tables(
      map id | id in tables.series :: if id in done then RepairedSeries(classifier, tables, id) else tables.series[id],
      map i | i in tables.issues ::
        if tables.issues[i].seriesId in done then RepairedIssue(classifier, tables, i) else tables.issues[i])
  }

  /** Repairing one more series leaves the tables alone when its type stays, and rewrites its own
      row and the issues of its group when it does not. */
  lemma StepRepairs(classifier: Classifier, start: Tables, done: seq<int>, id: int, group: seq<int>)
    requires id in start.series && id !in done
    requires IsGroup(group, start.issues, id)
    ensures var from, to := start.series[id].seriesType, NewSeriesType(classifier, start, id);
            var before, after := PartlyRepaired(classifier, start, done), PartlyRepaired(classifier, start, done + [id]);
            && before.series[id] == start.series[id]
            && (forall k | 0 <= k < |group| :: group[k] in before.issues && group[k] in start.issues
                                            && before.issues[group[k]] == start.issues[group[k]])
            && (from == to ==> before == after)
            && (from != to ==>
                  && after.issues == IssuesAfter(classifier, from, to, group, before.issues)
                  && after.series == before.series[id := RepairedSeries(classifier, start, id)])
  {
    var before, after := PartlyRepaired(classifier, start, done), PartlyRepaired(classifier, start, done + [id]);
    var from, to := start.series[id].seriesType, NewSeriesType(classifier, start, id);
    forall k | 0 <= k < |group|
      ensures group[k] in before.issues && group[k] in start.issues && before.issues[group[k]] == start.issues[group[k]]
    {
      var i := group[k];
      assert i in start.issues && start.issues[i].seriesId == id;
    }
    if from == to {
      assert before.series == after.series && before.issues == after.issues;
    } else {
      var expected := IssuesAfter(classifier, from, to, group, before.issues);
      forall i | i in start.issues ensures after.issues[i] == expected[i] {
        if i in group {
          var k :| 0 <= k < |group| && group[k] == i;
        }
      }
      assert after.issues == expected;
      assert after.series == before.series[id := RepairedSeries(classifier, start, id)];
    }
  }

  lemma AllRepaired(classifier: Classifier, start: Tables, done: seq<int>)
    requires forall s :: s in done <==> s in start.series
    ensures PartlyRepaired(classifier, start, done) == Repaired(classifier, start)
  {
    var partly, repaired := PartlyRepaired(classifier, start, done), Repaired(classifier, start);
    assert partly.series == repaired.series && partly.issues == repaired.issues;
  }

  /** A series that has to move shows in the tables; without one nothing changes. */
  lemma MovesShow(classifier: Classifier, tables: Tables, ids: seq<int>)
    requires forall s :: s in ids <==> s in tables.series
    ensures AnyMoves(classifier, tables, ids) <==> Repaired(classifier, tables) != tables
  {
    var after := Repaired(classifier, tables);
    if AnyMoves(classifier, tables, ids) {
      var id :| id in ids && id in tables.series
             && NewSeriesType(classifier, tables, id) != tables.series[id].seriesType;
      assert after.series[id].seriesType != tables.series[id].seriesType;
    } else {
      assert forall id | id in tables.series :: id in ids;
      assert after.series == tables.series && after.issues == tables.issues;
    }
  }

  class Catalog {
    var series: map<int, SeriesRow>
    var issues: map<int, IssueRow>

    constructor (tables: Tables)
      ensures series == tables.series && issues == tables.issues
    {
      series, issues := tables.series, tables.issues;
    }

    ghost function Contents(): Tables
      reads this
    {
      Tables(series, issues)
    }

    /** Groups the issue ids by series, in the order the query returned them. */
    method GroupBySeries(issueOrder: seq<int>) returns (groups: map<int, seq<int>>)
      requires forall i :: i in issueOrder <==> i in issues
      ensures forall s :: IsGroup(if s in groups then groups[s] else [], issues, s)
    {
      groups := map[];
      for k := 0 to |issueOrder|
        invariant forall s, i | s in groups :: i in groups[s] <==> i in issueOrder[..k] && issues[i].seriesId == s
        invariant forall i | i in issueOrder[..k] :: issues[i].seriesId in groups
      {
        var i := issueOrder[k];
        assert i in issueOrder;
        var s := issues[i].seriesId;
        assert issueOrder[..k + 1] == issueOrder[..k] + [i];
        groups := groups[s := (if s in groups then groups[s] else []) + [i]];
      }
      assert issueOrder[..|issueOrder|] == issueOrder;
      forall s ensures IsGroup(if s in groups then groups[s] else [], issues, s) {
        if s in groups {
          forall k | 0 <= k < |groups[s]| ensures groups[s][k] in issues && issues[groups[s][k]].seriesId == s {
            var i := groups[s][k];
            assert i in groups[s];
          }
        }
      }
    }

    /** Writes the issue row at most once, and ends with the repaired type. */
    method RepairIssue(classifier: Classifier, from: SeriesType, to: SeriesType, id: int, row: IssueRow)
      requires id in issues && issues[id].(issueType := row.issueType) == row
      requires RepairedIssueType(classifier, from, to, row) == row.issueType ==> issues[id] == row
      modifies `issues
      ensures issues == old(issues)[id := row.(issueType := RepairedIssueType(classifier, from, to, row))]
    {
      var explicit := TitleType(classifier, row.title);
      if explicit != Issue {
        if row.issueType == Issue || Some(row.issueType) == Inherited(from) {
          issues := issues[id := issues[id].(issueType := explicit)];
        }
        return;
      }
      if IsProtected(row) {
        return;
      }
      var wasInherited := Inherited(from).Some? && row.issueType == Inherited(from).value;
      var needsInherited := row.issueType == Issue && InheritedOrIssue(to) != Issue;
      if wasInherited || needsInherited {
        issues := issues[id := issues[id].(issueType := InheritedOrIssue(to))];
      }
    }

    /** Updates the issues of one series, whose rows are still those of the snapshot. */
    method RepairIssues(classifier: Classifier, from: SeriesType, to: SeriesType, group: seq<int>,
                        snapshot: map<int, IssueRow>)
      requires forall k | 0 <= k < |group| :: group[k] in issues && group[k] in snapshot
                                           && issues[group[k]] == snapshot[group[k]]
      modifies `issues
      ensures issues == IssuesAfter(classifier, from, to, group, old(issues))
    {
      for k := 0 to |group|
        invariant issues == IssuesAfter(classifier, from, to, group[..k], old(issues))
      {
        IssuesNext(classifier, from, to, group, k, old(issues));
        RepairIssue(classifier, from, to, group[k], snapshot[group[k]]);
      }
      assert group[..|group|] == group;
    }

    /** One turn of the series loop, on the rows read at the start. */
    method RepairOne(classifier: Classifier, id: int, row: SeriesRow, group: seq<int>, snapshot: map<int, IssueRow>,
                     ghost start: Tables, ghost done: seq<int>)
      returns (moved: bool)
      requires id in start.series && row == start.series[id] && snapshot == start.issues && id !in done
      requires IsGroup(group, snapshot, id)
      requires Contents() == PartlyRepaired(classifier, start, done)
      modifies this
      ensures Contents() == PartlyRepaired(classifier, start, done + [id])
      ensures moved <==> NewSeriesType(classifier, start, id) != row.seriesType
    {
      var to := ClassifySeries(classifier, row, group, snapshot, id);
      StepRepairs(classifier, start, done, id, group);
      if to == row.seriesType {
        return false;
      }
      RepairIssues(classifier, row.seriesType, to, group, snapshot);
      series := series[id := series[id].(seriesType := to)];
      if to == Standard {
        series := series[id := series[id].(parent := None)];
      }
      moved := true;
    }

    /** The whole repair. The result is a function of the tables alone, so no order of series or
        issue rows can change it, and it updates nothing exactly when every series has its type. */
    method RepairConnection(classifier: Classifier, seriesOrder: seq<int>, issueOrder: seq<int>)
      returns (changed: bool)
      requires IsListing(seriesOrder, series.Keys)
      requires forall i :: i in issueOrder <==> i in issues
      modifies this
      ensures Contents() == Repaired(classifier, old(Contents()))
      ensures forall id | id in old(series) ::
                id in series && EvidenceGives(classifier, old(Contents()), id, series[id].seriesType)
      ensures changed <==> AnyMoves(classifier, old(Contents()), seriesOrder)
      ensures changed <==> Contents() != old(Contents())
    {
      ghost var start := Contents();
      var rows, snapshot := series, issues;
      var groups := GroupBySeries(issueOrder);
      changed := false;
      for k := 0 to |seriesOrder|
        invariant Contents() == PartlyRepaired(classifier, start, seriesOrder[..k])
        invariant changed <==> AnyMoves(classifier, start, seriesOrder[..k])
      {
        var id := seriesOrder[k];
        ListingNext(seriesOrder, rows.Keys, k);
        AnyMovesNext(classifier, start, seriesOrder[..k], id);
        var group := if id in groups then groups[id] else [];
        assert IsGroup(group, snapshot, id);
        var moved := RepairOne(classifier, id, rows[id], group, snapshot, start, seriesOrder[..k]);
        changed := changed || moved;
      }
      assert seriesOrder[..|seriesOrder|] == seriesOrder;
      AllRepaired(classifier, start, seriesOrder);
      MovesShow(classifier, start, seriesOrder);
      forall id | id in start.series ensures EvidenceGives(classifier, start, id, series[id].seriesType) {
        EvidenceDecides(classifier, start, id, series[id].seriesType);
      }
    }
  }

  /** A second run changes nothing, in whatever order the queries return the rows of either run. */
  method RepairTwice(
      catalog: Catalog, classifier: Classifier, seriesOrder: seq<int>, issueOrder: seq<int>,
      seriesOrderAgain: seq<int>, issueOrderAgain: seq<int>)
    returns (changedAgain: bool)
    requires IsListing(seriesOrder, catalog.series.Keys) && IsListing(seriesOrderAgain, catalog.series.Keys)
    requires forall i :: i in issueOrder <==> i in catalog.issues
    requires forall i :: i in issueOrderAgain <==> i in catalog.issues
    modifies catalog
    ensures !changedAgain
    ensures catalog.Contents() == Repaired(classifier, old(catalog.Contents()))
  {
    ghost var start := catalog.Contents();
    var changed := catalog.RepairConnection(classifier, seriesOrder, issueOrder);
    forall id | id in start.series { RepairedTypesAreFinal(classifier, start, id); }
    RepairIsIdempotent(classifier, start);
    changedAgain := catalog.RepairConnection(classifier, seriesOrderAgain, issueOrderAgain);
  }
}
