/** cascade_preview: one ordered list of detail entries built from the change set, the
    steps to review and the gate findings, then filtered, paged and counted. */
module Preview {
  import opened Rows
  import opened Sorting
  import opened StepTree
  import opened Paging

  datatype Category = Added | Removed | Changed | ToReview | GateFinding

  datatype ChangedItem = ChangedItem(entity: Id, fields: seq<string>)
  datatype ChangeReport = ChangeReport(added: seq<Id>, removed: seq<Id>, changed: seq<ChangedItem>)

  datatype Finding = Finding(checkId: string, severity: string, artifactPath: string, message: string)

  datatype Entry =
    | EntityEntry(category: Category, entity: Id, entityType: Option<string>,
                  stepPath: Option<string>, stepStatus: Option<Status>, fields: seq<string>)
    | FindingEntry(finding: Finding)

  function CategoryOf(e: Entry): Category {
    match e
    case EntityEntry(c, _, _, _, _, _) => c
    case FindingEntry(_) => GateFinding
  }

  function Rank(c: Category): nat {
    match c
    case Added => 0
    case Removed => 1
    case Changed => 2
    case ToReview => 3
    case GateFinding => 4
  }

  /** artifact_path_of: None where it raises GraphIntegrityError. */
  function ArtifactPath(nodes: Nodes, s: Step): Option<string> {
    if s.level == 3 then Some(s.stepId)
    else
      match ParentPath(nodes, s)
      case None => None
      case Some(prefix) => Some(prefix + "/" + s.stepId)
  }

  /** The path of a step is made of the step ids from the global step above it down to its
      own; it exists if the steps above it do. */
  lemma ArtifactPathIs(nodes: Nodes, x: Id)
    requires x in nodes
    ensures nodes[x].level == 3 ==> ArtifactPath(nodes, nodes[x]) == Some(nodes[x].stepId)
    ensures nodes[x].level == 4 ==>
              ArtifactPath(nodes, nodes[x])
              == if Up(nodes, x, 1).Some? && Up(nodes, x, 1).value in nodes
                 then Some(nodes[Up(nodes, x, 1).value].stepId + "/" + nodes[x].stepId) else None
    ensures nodes[x].level != 3 && nodes[x].level != 4 ==>
              ArtifactPath(nodes, nodes[x])
              == if Up(nodes, x, 2).Some? && Up(nodes, x, 2).value in nodes
                 then Some(nodes[Up(nodes, x, 2).value].stepId + "/" + nodes[Up(nodes, x, 1).value].stepId
                           + "/" + nodes[x].stepId) else None
  {
    ParentPathIs(nodes, x);
  }

  // ----- needs_review_steps -----

  function InReview(nodes: Nodes): Id -> bool {
    (u: Id) => u in nodes && nodes[u].status == NeedsReview
  }

  function PathOf(nodes: Nodes, u: Id): string {
    if u in nodes && ArtifactPath(nodes, nodes[u]).Some? then ArtifactPath(nodes, nodes[u]).value else ""
  }

  function PathKey(nodes: Nodes): Id -> Key {
    (u: Id) => Key(0, [PathOf(nodes, u)])
  }

  /** order is the order in which the steps happen to be loaded. */
  function NeedsReviewSteps(nodes: Nodes, order: seq<Id>): seq<Id> {
    Sort(ByKey(PathKey(nodes)), Filter(InReview(nodes), order))
  }

  /** Every step in need of review, each once, ascending by artifact path. */
  lemma NeedsReviewStepsExactly(nodes: Nodes, order: seq<Id>)
    requires Enumerates(order, nodes.Keys)
    ensures Enumerates(NeedsReviewSteps(nodes, order), set u | u in nodes && nodes[u].status == NeedsReview)
    ensures Ordered(ByKey(PathKey(nodes)), NeedsReviewSteps(nodes, order))
    ensures forall i, j | 0 <= i < j < |NeedsReviewSteps(nodes, order)| ::
              TextLe(PathOf(nodes, NeedsReviewSteps(nodes, order)[i]), PathOf(nodes, NeedsReviewSteps(nodes, order)[j]))
  {
    var kept := Filter(InReview(nodes), order);
    FilterIn(InReview(nodes), order);
    FilterDistinct(InReview(nodes), order);
    ByKeyIsTotalPreorder(PathKey(nodes));
    SortSorts(ByKey(PathKey(nodes)), kept);
    PermutationEnumerates(kept, NeedsReviewSteps(nodes, order), set u | u in nodes && nodes[u].status == NeedsReview);
    forall a, b | KeyLe(Key(0, [a]), Key(0, [b]))
      ensures TextLe(a, b)
    {
      TextTotal(a, a);
    }
  }

  // ----- the five parts of the list -----

  /** A path that artifact_path_of can give. */
  predicate HasPath(nodes: Nodes, u: Id) {
    u in nodes ==> ArtifactPath(nodes, nodes[u]).Some?
  }

  /** _classify_entity over a registry of entity types. */
  function Classified(c: Category, u: Id, fields: seq<string>, nodes: Nodes, registry: map<Id, Option<string>>): Entry {
    if u in nodes then EntityEntry(c, u, Some("step"), ArtifactPath(nodes, nodes[u]), Some(nodes[u].status), fields)
    else EntityEntry(c, u, if u in registry then registry[u] else None, None, None, fields)
  }

  function Listed(c: Category, ids: seq<Id>, nodes: Nodes, registry: map<Id, Option<string>>): seq<Entry> {
    seq(|ids|, i requires 0 <= i < |ids| => Classified(c, ids[i], [], nodes, registry))
  }

  function ListedChanged(items: seq<ChangedItem>, nodes: Nodes, registry: map<Id, Option<string>>): seq<Entry> {
    seq(|items|, i requires 0 <= i < |items| => Classified(Changed, items[i].entity, items[i].fields, nodes, registry))
  }

  function FindingEntries(findings: seq<Finding>): seq<Entry> {
    seq(|findings|, i requires 0 <= i < |findings| => FindingEntry(findings[i]))
  }

  function AllFindings(checks: seq<seq<Finding>>): seq<Finding> {
    if checks == [] then [] else AllFindings(checks[..|checks| - 1]) + checks[|checks| - 1]
  }

  /** The part of one category, as its source lists it. */
  function Part(c: Category, change: ChangeReport, nodes: Nodes, registry: map<Id, Option<string>>,
                review: seq<Id>, checks: seq<seq<Finding>>): seq<Entry>
  {
    match c
    case Added => Listed(Added, change.added, nodes, registry)
    case Removed => Listed(Removed, change.removed, nodes, registry)
    case Changed => ListedChanged(change.changed, nodes, registry)
    case ToReview => Listed(ToReview, review, nodes, registry)
    case GateFinding => FindingEntries(AllFindings(checks))
  }

  function AllParts(change: ChangeReport, nodes: Nodes, registry: map<Id, Option<string>>,
                    review: seq<Id>, checks: seq<seq<Finding>>): seq<Entry>
  {
    Part(Added, change, nodes, registry, review, checks)
    + Part(Removed, change, nodes, registry, review, checks)
    + Part(Changed, change, nodes, registry, review, checks)
    + Part(ToReview, change, nodes, registry, review, checks)
    + Part(GateFinding, change, nodes, registry, review, checks)
  }

  // ----- build_preview_entries -----

  /** _entry_sort_key; name is the text of a UUID. */
  function EntryKey(name: Id -> string): Entry -> Key {
    (e: Entry) =>
      match e
      case EntityEntry(c, u, _, path, _, _) => Key(Rank(c), [if path.Some? then path.value else "", name(u)])
      case FindingEntry(f) => Key(Rank(GateFinding), [f.checkId, f.artifactPath, f.message])
  }

  predicate ChangeHasPaths(change: ChangeReport, nodes: Nodes) {
    && (forall u | u in change.added :: HasPath(nodes, u))
    && (forall u | u in change.removed :: HasPath(nodes, u))
    && (forall i | 0 <= i < |change.changed| :: HasPath(nodes, change.changed[i].entity))
  }

  /** Every path the list needs exists. */
  predicate PathsExist(change: ChangeReport, nodes: Nodes) {
    ChangeHasPaths(change, nodes) && forall u | u in nodes && nodes[u].status == NeedsReview :: HasPath(nodes, u)
  }

  method ClassifyEntity(u: Id, nodes: Nodes, identities: map<Id, Option<string>>)
    returns (r: Result<(Option<string>, Option<string>, Option<Status>)>)
    ensures r.Raised? <==> !HasPath(nodes, u)
    ensures r.Raised? ==> r.error == GraphIntegrityError
    ensures r.Ok? ==> forall c, fields :: Classified(c, u, fields, nodes, identities)
                                          == EntityEntry(c, u, r.value.0, r.value.1, r.value.2, fields)
    ensures r.Ok? ==>
              r.value == if u in nodes then (Some("step"), ArtifactPath(nodes, nodes[u]), Some(nodes[u].status))
                         else (if u in identities then identities[u] else None, None, None)
  {
    if u in nodes {
      var path := ArtifactPath(nodes, nodes[u]);
      if path.None? {
        return Raised(GraphIntegrityError);
      }
      return Ok((Some("step"), path, Some(nodes[u].status)));
    }
    return Ok((if u in identities then identities[u] else None, None, None));
  }

  /** The loop over one list of entities. */
  method AppendListed(entries: seq<Entry>, c: Category, ids: seq<Id>, nodes: Nodes, identities: map<Id, Option<string>>)
    returns (r: Result<seq<Entry>>)
    ensures r.Raised? <==> exists u | u in ids :: !HasPath(nodes, u)
    ensures r.Raised? ==> r.error == GraphIntegrityError
    ensures r.Ok? ==> r.value == entries + Listed(c, ids, nodes, identities)
  {
    var out := entries;
    for i := 0 to |ids|
      invariant out == entries + Listed(c, ids[..i], nodes, identities)
      invariant forall u | u in ids[..i] :: HasPath(nodes, u)
    {
      var classified := ClassifyEntity(ids[i], nodes, identities);
      if classified.Raised? {
        assert ids[i] in ids;
        return Raised(classified.error);
      }
      var (entityType, path, status) := classified.value;
      assert ids[..i + 1] == ids[..i] + [ids[i]];
      out := out + [EntityEntry(c, ids[i], entityType, path, status, [])];
    }
    assert ids[..|ids|] == ids;
    return Ok(out);
  }

  method AppendChanged(entries: seq<Entry>, items: seq<ChangedItem>, nodes: Nodes, identities: map<Id, Option<string>>)
    returns (r: Result<seq<Entry>>)
    ensures r.Raised? <==> exists i | 0 <= i < |items| :: !HasPath(nodes, items[i].entity)
    ensures r.Raised? ==> r.error == GraphIntegrityError
    ensures r.Ok? ==> r.value == entries + ListedChanged(items, nodes, identities)
  {
    var out := entries;
    for i := 0 to |items|
      invariant out == entries + ListedChanged(items[..i], nodes, identities)
      invariant forall j | 0 <= j < i :: HasPath(nodes, items[j].entity)
    {
      var classified := ClassifyEntity(items[i].entity, nodes, identities);
      if classified.Raised? {
        return Raised(classified.error);
      }
      var (entityType, path, status) := classified.value;
      out := out + [EntityEntry(Changed, items[i].entity, entityType, path, status, items[i].fields)];
    }
    assert items[..|items|] == items;
    return Ok(out);
  }

  method AppendFindings(entries: seq<Entry>, checks: seq<seq<Finding>>) returns (out: seq<Entry>)
    ensures out == entries + FindingEntries(AllFindings(checks))
  {
    out := entries;
    for k := 0 to |checks|
      invariant out == entries + FindingEntries(AllFindings(checks[..k]))
    {
      assert checks[..k + 1][..k] == checks[..k];
      ghost var done := AllFindings(checks[..k]);
      for i := 0 to |checks[k]|
        invariant out == entries + FindingEntries(done + checks[k][..i])
      {
        out := out + [FindingEntry(checks[k][i])];
      }
      assert checks[k][..|checks[k]|] == checks[k];
    }
    assert checks[..|checks|] == checks;
  }

  /** The identities of the change-set entities that are not steps, fetched in one batch. */
  function Resolved(change: ChangeReport, nodes: Nodes, registry: map<Id, Option<string>>): map<Id, Option<string>> {
    map u | u in registry && u !in nodes
            && (u in change.added || u in change.removed
                || exists i | 0 <= i < |change.changed| :: change.changed[i].entity == u) :: registry[u]
  }

  lemma ResolvedIsEnough(change: ChangeReport, nodes: Nodes, registry: map<Id, Option<string>>)
    ensures var identities := Resolved(change, nodes, registry);
            && Listed(Added, change.added, nodes, identities) == Listed(Added, change.added, nodes, registry)
            && Listed(Removed, change.removed, nodes, identities) == Listed(Removed, change.removed, nodes, registry)
            && ListedChanged(change.changed, nodes, identities) == ListedChanged(change.changed, nodes, registry)
  {
    assert forall i | 0 <= i < |change.added| :: change.added[i] in change.added;
    assert forall i | 0 <= i < |change.removed| :: change.removed[i] in change.removed;
  }

  /** The three loops over the change set. */
  method AppendChangeSet(nodes: Nodes, change: ChangeReport, registry: map<Id, Option<string>>)
    returns (r: Result<seq<Entry>>)
    ensures r.Raised? <==> !ChangeHasPaths(change, nodes)
    ensures r.Raised? ==> r.error == GraphIntegrityError
    ensures r.Ok? ==> r.value == Listed(Added, change.added, nodes, registry)
                                 + Listed(Removed, change.removed, nodes, registry)
                                 + ListedChanged(change.changed, nodes, registry)
  {
    var identities := Resolved(change, nodes, registry);
    ResolvedIsEnough(change, nodes, registry);
    r := AppendListed([], Added, change.added, nodes, identities);
    if r.Ok? {
      assert r.value == Listed(Added, change.added, nodes, registry);
      r := AppendListed(r.value, Removed, change.removed, nodes, identities);
    }
    if r.Ok? {
      r := AppendChanged(r.value, change.changed, nodes, identities);
    }
  }

  /** build_preview_entries: the five parts one after the other, sorted stably. */
  method BuildPreviewEntries(nodes: Nodes, order: seq<Id>, change: ChangeReport, registry: map<Id, Option<string>>,
                             checks: seq<seq<Finding>>, name: Id -> string) returns (r: Result<seq<Entry>>)
    requires Enumerates(order, nodes.Keys)
    ensures r.Raised? <==> !PathsExist(change, nodes)
    ensures r.Raised? ==> r.error == GraphIntegrityError
    ensures r.Ok? ==>
              r.value == Sort(ByKey(EntryKey(name)),
                              AllParts(change, nodes, registry, NeedsReviewSteps(nodes, order), checks))
  {
    r := AppendChangeSet(nodes, change, registry);
    if r.Ok? {
      NeedsReviewStepsExactly(nodes, order);
      var review := NeedsReviewSteps(nodes, order);
      r := AppendListed(r.value, ToReview, review, nodes, registry);
    }
    if r.Ok? {
      var entries := AppendFindings(r.value, checks);
      r := Ok(Sort(ByKey(EntryKey(name)), entries));
    }
  }

  // ----- what the list is -----

  /** An entry of entity u in category c: a step shows its path and status, anything else the
      type the registry has for it, if any. */
  predicate Lists(e: Entry, c: Category, u: Id, fields: seq<string>, nodes: Nodes, registry: map<Id, Option<string>>) {
    && e.EntityEntry? && e.category == c && e.entity == u && e.fields == fields
    && (u in nodes ==>
          e.entityType == Some("step") && e.stepPath == ArtifactPath(nodes, nodes[u])
          && e.stepStatus == Some(nodes[u].status))
    && (u !in nodes ==> e.stepPath == None && e.stepStatus == None)
    && (u !in nodes && u in registry ==> e.entityType == registry[u])
    && (u !in nodes && u !in registry ==> e.entityType == None)
  }

  /** Part by part, the entries are those of the change set, of the steps to review and of
      the gate findings, in the order in which these are given. */
  lemma PartsExactly(change: ChangeReport, nodes: Nodes, registry: map<Id, Option<string>>,
                     review: seq<Id>, checks: seq<seq<Finding>>, c: Category, i: nat)
    requires i < |Part(c, change, nodes, registry, review, checks)|
    ensures var e := Part(c, change, nodes, registry, review, checks)[i];
            match c
            case Added => i < |change.added| && Lists(e, Added, change.added[i], [], nodes, registry)
            case Removed => i < |change.removed| && Lists(e, Removed, change.removed[i], [], nodes, registry)
            case Changed =>
              i < |change.changed|
              && Lists(e, Changed, change.changed[i].entity, change.changed[i].fields, nodes, registry)
            case ToReview => i < |review| && Lists(e, ToReview, review[i], [], nodes, registry)
            case GateFinding => i < |AllFindings(checks)| && e == FindingEntry(AllFindings(checks)[i])
  {
  }

  function PathText(e: Entry): string
    requires e.EntityEntry?
  {
    if e.stepPath.Some? then e.stepPath.value else ""
  }

  /** Added entries, removed, changed, steps to review, gate findings; entities of one
      category by path and then by name, findings by check, then path, then message. */
  predicate InOrder(a: Entry, b: Entry, name: Id -> string) {
    && (CategoryOf(b).Added? ==> CategoryOf(a).Added?)
    && (CategoryOf(b).Removed? ==> CategoryOf(a).Added? || CategoryOf(a).Removed?)
    && (CategoryOf(b).Changed? ==> CategoryOf(a).Added? || CategoryOf(a).Removed? || CategoryOf(a).Changed?)
    && (CategoryOf(b).ToReview? ==> !CategoryOf(a).GateFinding?)
    && (a.EntityEntry? && b.EntityEntry? && a.category == b.category ==>
          TextLe(PathText(a), PathText(b)) && (PathText(a) == PathText(b) ==> TextLe(name(a.entity), name(b.entity))))
    && (a.FindingEntry? && b.FindingEntry? ==>
          var f, g := a.finding, b.finding;
          && TextLe(f.checkId, g.checkId)
          && (f.checkId == g.checkId ==>
                TextLe(f.artifactPath, g.artifactPath)
                && (f.artifactPath == g.artifactPath ==> TextLe(f.message, g.message))))
  }

  lemma KeyOrderIsInOrder(a: Entry, b: Entry, name: Id -> string)
    requires ByKey(EntryKey(name))(a, b)
    ensures InOrder(a, b, name)
  {
    assert KeyLe(EntryKey(name)(a), EntryKey(name)(b));
    assert Rank(CategoryOf(a)) <= Rank(CategoryOf(b));
    if a.EntityEntry? && b.EntityEntry? && a.category == b.category {
      TwoTexts(PathText(a), name(a.entity), PathText(b), name(b.entity));
    }
    if a.FindingEntry? && b.FindingEntry? {
      var f, g := a.finding, b.finding;
      ThreeTexts(f.checkId, f.artifactPath, f.message, g.checkId, g.artifactPath, g.message);
    }
  }

  lemma ThreeTexts(a: string, b: string, c: string, d: string, e: string, f: string)
    requires TextsLe([a, b, c], [d, e, f])
    ensures TextLe(a, d) && (a == d ==> TextLe(b, e) && (b == e ==> TextLe(c, f)))
  {
    TextTotal(a, a);
    assert [a, b, c][1..] == [b, c] && [d, e, f][1..] == [e, f];
    if a == d {
      TwoTexts(b, c, e, f);
    }
  }

  function OfCategory(c: Category): Entry -> bool {
    (e: Entry) => CategoryOf(e) == c
  }

  lemma PartsHaveTheirCategory(c: Category, change: ChangeReport, nodes: Nodes, registry: map<Id, Option<string>>,
                               review: seq<Id>, checks: seq<seq<Finding>>, d: Category)
    ensures Filter(OfCategory(d), Part(c, change, nodes, registry, review, checks))
         == if c == d then Part(c, change, nodes, registry, review, checks) else []
  {
    FilterAll(OfCategory(d), Part(c, change, nodes, registry, review, checks), c == d);
  }

  lemma FilterFive(keep: Entry -> bool, a: seq<Entry>, b: seq<Entry>, c: seq<Entry>, r: seq<Entry>, g: seq<Entry>)
    ensures Filter(keep, a + b + c + r + g)
         == Filter(keep, a) + Filter(keep, b) + Filter(keep, c) + Filter(keep, r) + Filter(keep, g)
  {
    FilterConcat(keep, a + b + c + r, g);
    FilterConcat(keep, a + b + c, r);
    FilterConcat(keep, a + b, c);
    FilterConcat(keep, a, b);
  }

  lemma FilterOfParts(change: ChangeReport, nodes: Nodes, registry: map<Id, Option<string>>,
                      review: seq<Id>, checks: seq<seq<Finding>>, d: Category)
    ensures Filter(OfCategory(d), AllParts(change, nodes, registry, review, checks))
         == Part(d, change, nodes, registry, review, checks)
  {
    var a := Part(Added, change, nodes, registry, review, checks);
    var b := Part(Removed, change, nodes, registry, review, checks);
    var c := Part(Changed, change, nodes, registry, review, checks);
    var r := Part(ToReview, change, nodes, registry, review, checks);
    var g := Part(GateFinding, change, nodes, registry, review, checks);
    FilterFive(OfCategory(d), a, b, c, r, g);
    PartsHaveTheirCategory(Added, change, nodes, registry, review, checks, d);
    PartsHaveTheirCategory(Removed, change, nodes, registry, review, checks, d);
    PartsHaveTheirCategory(Changed, change, nodes, registry, review, checks, d);
    PartsHaveTheirCategory(ToReview, change, nodes, registry, review, checks, d);
    PartsHaveTheirCategory(GateFinding, change, nodes, registry, review, checks, d);
  }

  /** The preview conserves its inputs: the list is an ordered permutation of its five
      parts, and what it shows of one category is that part, stably sorted. */
  lemma PreviewConserves(change: ChangeReport, nodes: Nodes, registry: map<Id, Option<string>>,
                         review: seq<Id>, checks: seq<seq<Finding>>, name: Id -> string, d: Category)
    ensures var parts := AllParts(change, nodes, registry, review, checks);
            var entries := Sort(ByKey(EntryKey(name)), parts);
            && multiset(entries) == multiset(parts) && Ordered(ByKey(EntryKey(name)), entries)
            && Filter(OfCategory(d), entries)
               == Sort(ByKey(EntryKey(name)), Part(d, change, nodes, registry, review, checks))
            && |Filter(OfCategory(d), entries)| == |Part(d, change, nodes, registry, review, checks)|
            && forall i, j | 0 <= i < j < |entries| :: InOrder(entries[i], entries[j], name)
  {
    var parts := AllParts(change, nodes, registry, review, checks);
    ByKeyIsTotalPreorder(EntryKey(name));
    SortSorts(ByKey(EntryKey(name)), parts);
    SortSorts(ByKey(EntryKey(name)), Part(d, change, nodes, registry, review, checks));
    SortFilterCommute(ByKey(EntryKey(name)), OfCategory(d), parts);
    FilterOfParts(change, nodes, registry, review, checks, d);
    var entries := Sort(ByKey(EntryKey(name)), parts);
    forall i, j | 0 <= i < j < |entries|
      ensures InOrder(entries[i], entries[j], name)
    {
      KeyOrderIsInOrder(entries[i], entries[j], name);
    }
  }

  // ----- summarize -----

  datatype Summary = Summary(added: nat, removed: nat, changed: nat, needsReview: nat, gateFindings: nat)

  function Count(entries: seq<Entry>, c: Category): nat {
    |Filter(OfCategory(c), entries)|
  }

  method Summarize(entries: seq<Entry>) returns (s: Summary)
    ensures s == Summary(Count(entries, Added), Count(entries, Removed), Count(entries, Changed),
                         Count(entries, ToReview), Count(entries, GateFinding))
  {
    var counts: map<Category, nat> :=
      map[Added := 0, Removed := 0, Changed := 0, ToReview := 0, GateFinding := 0];
    forall c: Category
      ensures c in counts
    {
      assert c.Added? || c.Removed? || c.Changed? || c.ToReview? || c.GateFinding?;
    }
    for i := 0 to |entries|
      invariant forall c: Category :: c in counts
      invariant forall c: Category | c in counts :: counts[c] == Count(entries[..i], c)
    {
      var mine := CategoryOf(entries[i]);
      forall c: Category
        ensures Count(entries[..i + 1], c) == Count(entries[..i], c) + (if c == mine then 1 else 0)
      {
        assert entries[..i + 1] == entries[..i] + [entries[i]];
        FilterConcat(OfCategory(c), entries[..i], [entries[i]]);
      }
      counts := counts[mine := counts[mine] + 1];
    }
    assert entries[..|entries|] == entries;
    return Summary(counts[Added], counts[Removed], counts[Changed], counts[ToReview], counts[GateFinding]);
  }

  lemma {:induction false} CategoriesCover(entries: seq<Entry>)
    ensures Count(entries, Added) + Count(entries, Removed) + Count(entries, Changed)
            + Count(entries, ToReview) + Count(entries, GateFinding) == |entries|
  {
    if entries != [] {
      CategoriesCover(entries[1..]);
    }
  }

  /** The summary of the built list: the five input sizes, which add up to the number of
      entries. */
  lemma SummaryIsTruth(change: ChangeReport, nodes: Nodes, registry: map<Id, Option<string>>,
                       review: seq<Id>, checks: seq<seq<Finding>>, name: Id -> string)
    ensures var entries := Sort(ByKey(EntryKey(name)), AllParts(change, nodes, registry, review, checks));
            && Count(entries, Added) == |change.added| && Count(entries, Removed) == |change.removed|
            && Count(entries, Changed) == |change.changed| && Count(entries, ToReview) == |review|
            && Count(entries, GateFinding) == |AllFindings(checks)|
            && |entries| == |change.added| + |change.removed| + |change.changed| + |review| + |AllFindings(checks)|
  {
    forall d: Category
      ensures Count(Sort(ByKey(EntryKey(name)), AllParts(change, nodes, registry, review, checks)), d)
           == |Part(d, change, nodes, registry, review, checks)|
    {
      PreviewConserves(change, nodes, registry, review, checks, name, d);
    }
    CategoriesCover(Sort(ByKey(EntryKey(name)), AllParts(change, nodes, registry, review, checks)));
  }

  // ----- filter_entries -----

  datatype Filters = Filters(
    category: Option<Category>, entityType: Option<string>, step: Option<string>,
    status: Option<Status>, checkId: Option<string>)

  function HasEntityType(t: string): Entry -> bool {
    (e: Entry) => e.EntityEntry? && e.entityType == Some(t)
  }

  function HasEntity(name: Id -> string, u: string): Entry -> bool {
    (e: Entry) => e.EntityEntry? && name(e.entity) == u
  }

  function HasStatus(s: Status): Entry -> bool {
    (e: Entry) => e.EntityEntry? && e.stepStatus == Some(s)
  }

  function HasCheck(c: string): Entry -> bool {
    (e: Entry) => e.FindingEntry? && e.finding.checkId == c
  }

  /** filter_entries: one pass per given filter. */
  function FilterEntries(entries: seq<Entry>, f: Filters, name: Id -> string): seq<Entry> {
    var r1 := if f.category.Some? then Filter(OfCategory(f.category.value), entries) else entries;
    var r2 := if f.entityType.Some? then Filter(HasEntityType(f.entityType.value), r1) else r1;
    var r3 := if f.step.Some? then Filter(HasEntity(name, f.step.value), r2) else r2;
    var r4 := if f.status.Some? then Filter(HasStatus(f.status.value), r3) else r3;
    if f.checkId.Some? then Filter(HasCheck(f.checkId.value), r4) else r4
  }

  /** Every given filter holds of the entry; a filter on something the entry does not
      have excludes it. */
  predicate Matches(f: Filters, name: Id -> string, e: Entry) {
    && (f.category.Some? ==> CategoryOf(e) == f.category.value)
    && (f.entityType.Some? ==> e.EntityEntry? && e.entityType == f.entityType)
    && (f.step.Some? ==> e.EntityEntry? && name(e.entity) == f.step.value)
    && (f.status.Some? ==> e.EntityEntry? && e.stepStatus == f.status)
    && (f.checkId.Some? ==> e.FindingEntry? && e.finding.checkId == f.checkId.value)
  }

  function Matching(f: Filters, name: Id -> string): Entry -> bool {
    (e: Entry) => Matches(f, name, e)
  }

  /** The passes one after the other keep exactly the matching entries, in order. */
  lemma FilterIsConjunction(entries: seq<Entry>, f: Filters, name: Id -> string)
    ensures FilterEntries(entries, f, name) == Filter(Matching(f, name), entries)
  {
    var none := Filters(None, None, None, None, None);
    var f1 := none.(category := f.category);
    var f2 := f1.(entityType := f.entityType);
    var f3 := f2.(step := f.step);
    var f4 := f3.(status := f.status);
    FilterAll(Matching(none, name), entries, true);
    if f.category.Some? {
      FilterFilter(OfCategory(f.category.value), Matching(none, name), Matching(f1, name), entries);
    }
    if f.entityType.Some? {
      FilterFilter(HasEntityType(f.entityType.value), Matching(f1, name), Matching(f2, name), entries);
    }
    if f.step.Some? {
      FilterFilter(HasEntity(name, f.step.value), Matching(f2, name), Matching(f3, name), entries);
    }
    if f.status.Some? {
      FilterFilter(HasStatus(f.status.value), Matching(f3, name), Matching(f4, name), entries);
    }
    if f.checkId.Some? {
      FilterFilter(HasCheck(f.checkId.value), Matching(f4, name), Matching(f, name), entries);
    }
  }

  /** Consecutive pages of a filtered list give back the filtered list, and nothing but
      matching entries in the order of the full list. */
  lemma PagesOfFiltered(entries: seq<Entry>, f: Filters, name: Id -> string, limit: nat, n: nat)
    requires n * limit >= |FilterEntries(entries, f, name)|
    ensures Pages(FilterEntries(entries, f, name), 0, limit, n) == Filter(Matching(f, name), entries)
  {
    PagesGiveAll(FilterEntries(entries, f, name), 0, limit, n);
    FilterIsConjunction(entries, f, name);
  }
}
