/** The working rows of one plan, the snapshots recorded for them in the version
    store, and the status model that governs step status changes.

    One plan is modelled, so no row carries its plan. UUIDs of rows are natural
    numbers; JSON documents and text columns are strings. */
module Rows {
  type Id = nat

  datatype Option<+T> = None | Some(value: T)

  /** Statuses are text in the database, so unknown text is a value of its own. */
  datatype Status =
    | Draft | ReadyForReview | Frozen | NeedsReview
    | InProgress | Done
    | UnknownStatus(text: string)

  datatype Step = Step(
    parent: Option<Id>, level: int, stepId: string, slug: string, fields: string,
    dependsOn: seq<string>, concepts: seq<string>, projectId: Option<string>, status: Status)

  datatype Concept = Concept(
    conceptId: string, name: string, definition: string,
    properties: seq<string>, sourceLabels: seq<string>)

  datatype Row =
    | StepRow(step: Step)
    | ConceptRow(concept: Concept)
    | RelationRow(fromConcept: string, toConcept: string, relationType: string)
    | ParagraphRow(paragraphLabel: Option<string>, text: string, position: int, binding: bool)

  type Table = map<Id, Row>

  function Lookup(rows: Table, id: Id): Option<Row> {
    if id in rows then Some(rows[id]) else None
  }

  // ----- snapshots -----

  /** The content of a node version. A step recorded before projects existed has no
      projectId key, and a paragraph recorded before the binding flag existed has no
      binding key; OtherContent is any kind the restore does not know. */
  datatype Content =
    | StepContent(
        parent: Option<Id>, level: int, stepId: string, slug: string, fields: string,
        dependsOn: seq<string>, concepts: seq<string>,
        projectKey: Option<Option<string>>, status: Status)
    | ConceptContent(concept: Concept)
    | RelationContent(fromConcept: string, toConcept: string, relationType: string)
    | ParagraphContent(paragraphLabel: Option<string>, text: string, position: int, bindingKey: Option<bool>)
    | OtherContent(kind: string)

  datatype Snapshot = Snapshot(content: Content, deleted: bool)

  function StepSnapshot(s: Step, status: Status): Snapshot {
    Snapshot(StepContent(s.parent, s.level, s.stepId, s.slug, s.fields, s.dependsOn,
                         s.concepts, Some(s.projectId), status), false)
  }

  /** What today's commands record for a row. */
  function SnapshotOf(row: Row): Snapshot {
    match row
    case StepRow(s) => StepSnapshot(s, s.status)
    case ConceptRow(c) => Snapshot(ConceptContent(c), false)
    case RelationRow(f, t, ty) => Snapshot(RelationContent(f, t, ty), false)
    case ParagraphRow(l, t, p, b) => Snapshot(ParagraphContent(l, t, p, Some(b)), false)
  }

  function Tombstone(row: Row): Snapshot {
    SnapshotOf(row).(deleted := true)
  }

  /** The row a snapshot restores; None for a kind that is not one of the four. */
  function RowOf(content: Content): Option<Row> {
    match content
    case StepContent(p, l, id, sl, f, d, c, pk, st) =>
      Some(StepRow(Step(p, l, id, sl, f, d, c, if pk.Some? then pk.value else None, st)))
    case ConceptContent(c) => Some(ConceptRow(c))
    case RelationContent(f, t, ty) => Some(RelationRow(f, t, ty))
    case ParagraphContent(l, t, p, bk) =>
      Some(ParagraphRow(l, t, p, if bk.Some? then bk.value else true))
    case OtherContent(_) => None
  }

  // ----- unique indexes -----

  /** The two unique indexes of the schema: step_scope_id and (plan, concept_id). */
  datatype UniqueKey =
    | StepScope(parent: Option<Id>, level: int, stepId: string)
    | ConceptKey(conceptId: string)

  function KeyOf(row: Row): Option<UniqueKey> {
    match row
    case StepRow(s) => Some(StepScope(s.parent, s.level, s.stepId))
    case ConceptRow(c) => Some(ConceptKey(c.conceptId))
    case RelationRow(_, _, _) => None
    case ParagraphRow(_, _, _, _) => None
  }

  /** Storing row under id would violate a unique index. */
  predicate Clashes(rows: Table, id: Id, row: Row) {
    KeyOf(row).Some? && exists m | m in rows :: m != id && KeyOf(rows[m]) == KeyOf(row)
  }

  predicate UniqueKeys(rows: Table) {
    forall m | m in rows :: !Clashes(rows, m, rows[m])
  }

  /** The two indexes, written out. */
  lemma UniqueKeysIff(rows: Table)
    ensures UniqueKeys(rows)
       <==> (forall a, b | a in rows && b in rows && a != b && rows[a].StepRow? && rows[b].StepRow? ::
               rows[a].step.parent != rows[b].step.parent || rows[a].step.level != rows[b].step.level
               || rows[a].step.stepId != rows[b].step.stepId)
            && (forall a, b | a in rows && b in rows && a != b && rows[a].ConceptRow? && rows[b].ConceptRow? ::
                  rows[a].concept.conceptId != rows[b].concept.conceptId)
  {
    if UniqueKeys(rows) {
      forall a, b | a in rows && b in rows && a != b && KeyOf(rows[a]).Some?
        ensures KeyOf(rows[b]) != KeyOf(rows[a])
      {
        assert !Clashes(rows, a, rows[a]);
      }
    }
  }

  // ----- status model -----

  predicate KnownStatus(status: Status, atomic: bool) {
    match status
    case UnknownStatus(_) => false
    case InProgress => atomic
    case Done => atomic
    case _ => true
  }

  function LegalTargets(current: Status, atomic: bool): set<Status> {
    match current
    case Draft => {ReadyForReview}
    case ReadyForReview => {Frozen, Draft}
    case Frozen => if atomic then {InProgress} else {}
    case NeedsReview => {Draft, Frozen}
    case InProgress => {Done}
    case Done => {}
    case UnknownStatus(_) => {}
  }

  predicate ValidTransition(current: Status, next: Status, atomic: bool, viaCascade: bool) {
    && KnownStatus(current, atomic)
    && KnownStatus(next, atomic)
    && (if next == NeedsReview then viaCascade else next in LegalTargets(current, atomic))
  }

  predicate IsAtomic(s: Step) { s.level == 5 }

  /** The step rows of a table, as load_steps reads them. */
  function Steps(rows: Table): map<Id, Step> {
    map u | u in rows && rows[u].StepRow? :: rows[u].step
  }
}
