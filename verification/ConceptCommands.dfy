/** concept_add, concept_update and concept_remove as transitions, and what they leave. */
module ConceptCommands {
  import opened Rows
  import opened Sorting
  import opened StepTree
  import opened VersionStore
  import opened Propagation
  import opened Protocol
  import opened Outcomes
  import opened Commands
  import opened Runs

  // ----- what the commands look at -----

  /** label.strip("{}"). */
  function StripBraces(text: string): string {
    if text != "" && text[0] in {'{', '}'} then StripBraces(text[1..])
    else if text != "" && text[|text| - 1] in {'{', '}'} then StripBraces(text[..|text| - 1])
    else text
  }

  /** r is what remains of the text between braces only. */
  ghost predicate BetweenBraces(text: string, r: string) {
    exists i, j | 0 <= i <= j <= |text| ::
      r == text[i..j] && forall k | 0 <= k < i || j <= k < |text| :: text[k] in {'{', '}'}
  }

  lemma BraceInFront(text: string, r: string)
    requires text != "" && text[0] in {'{', '}'} && BetweenBraces(text[1..], r)
    ensures BetweenBraces(text, r)
  {
    var rest := text[1..];
    var i, j :| 0 <= i <= j <= |rest| && r == rest[i..j]
      && forall k | 0 <= k < i || j <= k < |rest| :: rest[k] in {'{', '}'};
    assert r == text[i + 1..j + 1];
    assert forall k | 1 <= k < |text| :: text[k] == rest[k - 1];
  }

  lemma BraceBehind(text: string, r: string)
    requires text != "" && text[|text| - 1] in {'{', '}'} && BetweenBraces(text[..|text| - 1], r)
    ensures BetweenBraces(text, r)
  {
    var rest := text[..|text| - 1];
    var i, j :| 0 <= i <= j <= |rest| && r == rest[i..j]
      && forall k | 0 <= k < i || j <= k < |rest| :: rest[k] in {'{', '}'};
    assert rest[i..j] == text[i..j];
    assert forall k | 0 <= k < |rest| :: text[k] == rest[k];
  }

  /** Braces go from both ends, as many as there are, and nothing else goes. */
  lemma {:induction false} StripBracesExactly(text: string)
    ensures BetweenBraces(text, StripBraces(text))
    ensures var r := StripBraces(text); r != "" ==> r[0] !in {'{', '}'} && r[|r| - 1] !in {'{', '}'}
    decreases |text|
  {
    if text != "" && text[0] in {'{', '}'} {
      StripBracesExactly(text[1..]);
      BraceInFront(text, StripBraces(text));
    } else if text != "" && text[|text| - 1] in {'{', '}'} {
      StripBracesExactly(text[..|text| - 1]);
      BraceBehind(text, StripBraces(text));
    } else {
      assert text == text[0..|text|];
    }
  }

  predicate IsLabel(rows: Table, p: Id, name: string) {
    p in rows && rows[p].ParagraphRow? && rows[p].binding && rows[p].paragraphLabel == Some(name)
  }

  /** Every source label, stripped of braces, is the label of a binding paragraph. */
  predicate LabelsResolve(rows: Table, names: seq<string>) {
    forall n | n in names :: exists p | p in rows :: IsLabel(rows, p, StripBraces(n))
  }

  predicate Named(rows: Table, id: Id, conceptId: string) {
    id in rows && rows[id].ConceptRow? && rows[id].concept.conceptId == conceptId
  }

  ghost function ConceptAt(rows: Table, conceptId: string): (r: Option<Id>)
    ensures r.Some? ==> Named(rows, r.value, conceptId)
  {
    if id :| Named(rows, id, conceptId) then Some(id) else None
  }

  /** A relation or a step still names the concept. */
  predicate Referenced(rows: Table, conceptId: string) {
    exists r | r in rows ::
      (rows[r].RelationRow? && (rows[r].fromConcept == conceptId || rows[r].toConcept == conceptId))
      || (rows[r].StepRow? && conceptId in rows[r].step.concepts)
  }

  datatype ConceptFields = ConceptFields(
    name: Option<string>, definition: Option<string>,
    properties: Option<seq<string>>, sourceLabels: Option<seq<string>>)

  function Given<T>(field: Option<T>, current: T): T {
    if field.Some? then field.value else current
  }

  function Patched(c: Concept, f: ConceptFields): Concept {
    Concept(c.conceptId, Given(f.name, c.name), Given(f.definition, c.definition),
            Given(f.properties, c.properties), Given(f.sourceLabels, c.sourceLabels))
  }

  // ----- the commands -----

  ghost function AddConcept(db: Db, c: nat, id: Id, concept: Concept, wellFormed: bool, order: seq<Id>): Outcome
    requires Inv(db)
  {
    var row := ConceptRow(concept);
    if FindOpen(db.cascades) != Some(c) then Refused(NotAdmitted)
    else if !LabelsResolve(db.rows, concept.sourceLabels) then Refused(LabelMissing)
    else if !wellFormed then Refused(InvalidFields)
    else Write(db, MrsRequest(ConceptTarget, c, (id, Some(row)), AllGlobals(db.rows[id := row], order)))
  }

  ghost function UpdateConcept(db: Db, c: nat, conceptId: string, fields: ConceptFields, wellFormed: bool,
                               order: seq<Id>): Outcome
    requires Inv(db)
  {
    if FindOpen(db.cascades) != Some(c) then Refused(NotAdmitted)
    else if fields.sourceLabels.Some? && !LabelsResolve(db.rows, fields.sourceLabels.value) then Refused(LabelMissing)
    else
      match ConceptAt(db.rows, conceptId)
      case None => Refused(RowMissing)
      case Some(id) =>
        var row := ConceptRow(Patched(db.rows[id].concept, fields));
        if !wellFormed then Refused(InvalidFields)
        else Write(db, MrsRequest(ConceptTarget, c, (id, Some(row)), AllGlobals(db.rows[id := row], order)))
  }

  ghost function RemoveConcept(db: Db, c: nat, conceptId: string, order: seq<Id>): Outcome
    requires Inv(db)
  {
    if FindOpen(db.cascades) != Some(c) then Refused(NotAdmitted)
    else
      match ConceptAt(db.rows, conceptId)
      case None => Refused(RowMissing)
      case Some(id) =>
        if Referenced(db.rows, conceptId) then Refused(StillReferenced)
        else Write(db, MrsRequest(ConceptTarget, c, (id, None), AllGlobals(db.rows - {id}, order)))
  }

  // ----- the row a command works on -----

  lemma OneConceptPerName(rows: Table, conceptId: string, id: Id)
    requires UniqueKeys(rows) && Named(rows, id, conceptId)
    ensures ConceptAt(rows, conceptId) == Some(id)
  {
    var other := ConceptAt(rows, conceptId).value;
    assert !Clashes(rows, id, rows[id]);
    assert KeyOf(rows[other]) == KeyOf(rows[id]);
  }

  lemma PatchKeepsKey(rows: Table, id: Id, fields: ConceptFields)
    requires UniqueKeys(rows) && id in rows && rows[id].ConceptRow?
    ensures !Clashes(rows, id, ConceptRow(Patched(rows[id].concept, fields)))
  {
    assert !Clashes(rows, id, rows[id]);
    assert KeyOf(ConceptRow(Patched(rows[id].concept, fields))) == KeyOf(rows[id]);
  }

  // ----- what they leave -----

  /** order is some order in which the steps of rows are loaded. */
  ghost predicate LoadsSteps(rows: Table, order: seq<Id>) {
    Enumerates(order, Steps(rows).Keys)
  }

  /** after is edited with every global step at needs_review. */
  ghost predicate GlobalsMarked(edited: Table, after: Table) {
    forall e: Id :: Lookup(after, e) == if Global(edited)(e) then Some(Marked(edited[e])) else Lookup(edited, e)
  }

  /** One more revision under the open cascade, nothing published. */
  predicate RecordedInside(db: Db, next: Db) {
    && next.head == db.head && next.cascades == db.cascades && next.planFrozen == db.planFrozen
    && next.blocks == db.blocks && |next.store.revisions| == |db.store.revisions| + 1
    && Working(next) == Some(|db.store.revisions|)
  }

  lemma WriteRows(db: Db, req: Request, next: Db)
    requires Inv(db) && Write(db, req) == Accepted(next)
    ensures Effect(db.rows, req).Some? && next.rows == Effect(db.rows, req).value.0
  {
  }

  lemma EffectMarksGlobals(rows: Table, c: nat, edit: Edit, edited: Table, order: seq<Id>)
    requires Perform(rows, [edit]).Some? && edited == Perform(rows, [edit]).value.0
    requires LoadsSteps(edited, order)
    requires Effect(rows, MrsRequest(ConceptTarget, c, edit, AllGlobals(edited, order))).Some?
    ensures GlobalsMarked(edited, Effect(rows, MrsRequest(ConceptTarget, c, edit, AllGlobals(edited, order))).value.0)
  {
    assert Perform(rows, []) == Some((rows, []));
    InlineInvalidationIsMrsInvalidation(edited, order);
  }

  lemma CascadeWriteIsInside(db: Db, c: nat, edit: Edit, globals: seq<Id>, next: Db)
    requires Inv(db) && Write(db, MrsRequest(ConceptTarget, c, edit, globals)) == Accepted(next)
    ensures RecordedInside(db, next)
  {
    WorkingInRange(db);
    RecordKeepsChanges(db.store, Effect(db.rows, MrsRequest(ConceptTarget, c, edit, globals)).value.1, Working(db));
  }

  lemma ConceptWriteLeaves(db: Db, c: nat, edit: Edit, edited: Table, order: seq<Id>, next: Db)
    requires Inv(db) && Perform(db.rows, [edit]).Some? && edited == Perform(db.rows, [edit]).value.0
    requires LoadsSteps(edited, order)
    requires Write(db, MrsRequest(ConceptTarget, c, edit, AllGlobals(edited, order))) == Accepted(next)
    ensures GlobalsMarked(edited, next.rows) && RecordedInside(db, next)
  {
    WriteRows(db, MrsRequest(ConceptTarget, c, edit, AllGlobals(edited, order)), next);
    EffectMarksGlobals(db.rows, c, edit, edited, order);
    CascadeWriteIsInside(db, c, edit, AllGlobals(edited, order), next);
  }

  /** Every global step may be sent to needs_review. */
  predicate GlobalsMarkable(rows: Table) {
    forall u | u in rows && rows[u].StepRow? && rows[u].step.level == 3 ::
      rows[u].step.status in {Draft, ReadyForReview, Frozen, NeedsReview}
  }

  lemma AllKnownIff(rows: Table, order: seq<Id>, q: seq<Id>)
    requires LoadsSteps(rows, order)
    requires forall u :: u in q <==> u in order && u in rows && rows[u].StepRow?
                                     && rows[u].step.level == 3 && rows[u].step.status != NeedsReview
    ensures AreSteps(rows, q) && (AllKnown(rows, q) <==> GlobalsMarkable(rows))
  {
    if AllKnown(rows, q) {
      forall u | u in rows && rows[u].StepRow? && rows[u].step.level == 3
        ensures rows[u].step.status in {Draft, ReadyForReview, Frozen, NeedsReview}
      {
        assert u in Steps(rows) && (rows[u].step.status != NeedsReview ==> u in q);
      }
    }
  }

  lemma MarkableIff(rows: Table, order: seq<Id>)
    requires LoadsSteps(rows, order)
    ensures ApplyUpdates(rows, Marks(AllGlobals(rows, order))).Some? <==> GlobalsMarkable(rows)
  {
    GlobalsFacts(rows, order);
    InlineInvalidationIsMrsInvalidation(rows, order);
    AllKnownIff(rows, order, StaleGlobals(rows, order));
  }

  /** Rows that are no steps do not matter. */
  lemma SameMarkable(rows: Table, edited: Table, id: Id)
    requires rows - {id} == edited - {id}
    requires (id in rows ==> !rows[id].StepRow?) && (id in edited ==> !edited[id].StepRow?)
    ensures GlobalsMarkable(edited) <==> GlobalsMarkable(rows)
  {
    assert forall u | u != id :: u in rows <==> u in rows - {id};
    assert forall u | u != id :: u in edited <==> u in edited - {id};
  }

  /** A write of one concept row is accepted exactly inside the open cascade, if its
      statement gets through and every global step can be marked afterwards. */
  lemma ConceptWriteIff(db: Db, c: nat, edit: Edit, edited: Table, order: seq<Id>)
    requires Inv(db) && LoadsSteps(edited, order)
    requires Perform(db.rows, [edit]).Some? ==> edited == Perform(db.rows, [edit]).value.0
    ensures Write(db, MrsRequest(ConceptTarget, c, edit, AllGlobals(edited, order))).Accepted?
       <==> FindOpen(db.cascades) == Some(c) && Perform(db.rows, [edit]).Some? && GlobalsMarkable(edited)
  {
    var req := MrsRequest(ConceptTarget, c, edit, AllGlobals(edited, order));
    assert Perform(db.rows, []) == Some((db.rows, []));
    WriteAcceptedIff(db, req);
    AdmitsExactly(db, ConceptTarget, Some(c));
    MarkableIff(edited, order);
  }

  lemma AddWriteIff(db: Db, c: nat, id: Id, concept: Concept, order: seq<Id>)
    requires Inv(db) && id !in db.rows && LoadsSteps(db.rows[id := ConceptRow(concept)], order)
    ensures Write(db, MrsRequest(ConceptTarget, c, (id, Some(ConceptRow(concept))),
                                 AllGlobals(db.rows[id := ConceptRow(concept)], order))).Accepted?
       <==> FindOpen(db.cascades) == Some(c) && !Clashes(db.rows, id, ConceptRow(concept)) && GlobalsMarkable(db.rows)
  {
    var row := ConceptRow(concept);
    PerformOne(db.rows, (id, Some(row)));
    ConceptWriteIff(db, c, (id, Some(row)), db.rows[id := row], order);
    SameMarkable(db.rows, db.rows[id := row], id);
  }

  /** When concept_add gets through: inside the open cascade, every source label names a
      binding paragraph, the fields are well formed, no concept has the name, and every
      global step can be marked. */
  lemma AddAcceptedIff(db: Db, c: nat, id: Id, concept: Concept, wellFormed: bool, order: seq<Id>)
    requires Inv(db) && id !in db.rows && LoadsSteps(db.rows[id := ConceptRow(concept)], order)
    ensures AddConcept(db, c, id, concept, wellFormed, order).Accepted?
       <==> FindOpen(db.cascades) == Some(c) && wellFormed
            && (forall n | n in concept.sourceLabels ::
                  exists p | p in db.rows ::
                    db.rows[p].ParagraphRow? && db.rows[p].binding
                    && db.rows[p].paragraphLabel == Some(StripBraces(n)))
            && (forall m | m in db.rows && db.rows[m].ConceptRow? ::
                  db.rows[m].concept.conceptId != concept.conceptId)
            && GlobalsMarkable(db.rows)
  {
    AddWriteIff(db, c, id, concept, order);
    LabelsAre(db.rows, concept.sourceLabels);
    NameIsFreeIff(db.rows, id, concept);
  }

  lemma LabelsAre(rows: Table, names: seq<string>)
    ensures LabelsResolve(rows, names)
       <==> forall n | n in names ::
              exists p | p in rows ::
                rows[p].ParagraphRow? && rows[p].binding && rows[p].paragraphLabel == Some(StripBraces(n))
  {
    if LabelsResolve(rows, names) {
      forall n | n in names
        ensures exists p | p in rows ::
                  rows[p].ParagraphRow? && rows[p].binding && rows[p].paragraphLabel == Some(StripBraces(n))
      {
        var p :| p in rows && IsLabel(rows, p, StripBraces(n));
      }
    } else {
      var n :| n in names && !exists p | p in rows :: IsLabel(rows, p, StripBraces(n));
      forall p | p in rows
        ensures !(rows[p].ParagraphRow? && rows[p].binding && rows[p].paragraphLabel == Some(StripBraces(n)))
      {
        assert !IsLabel(rows, p, StripBraces(n));
      }
    }
  }

  lemma NameIsFreeIff(rows: Table, id: Id, concept: Concept)
    requires id !in rows
    ensures !Clashes(rows, id, ConceptRow(concept))
       <==> forall m | m in rows && rows[m].ConceptRow? :: rows[m].concept.conceptId != concept.conceptId
  {
  }

  /** concept_update keeps the name, takes the given fields and leaves the others; every
      global step goes to needs_review and no other row changes. */
  lemma UpdateLeaves(db: Db, c: nat, conceptId: string, fields: ConceptFields, order: seq<Id>, next: Db, id: Id)
    requires Inv(db) && Named(db.rows, id, conceptId)
    requires LoadsSteps(db.rows[id := ConceptRow(Patched(db.rows[id].concept, fields))], order)
    requires UpdateConcept(db, c, conceptId, fields, true, order) == Accepted(next)
    ensures RecordedInside(db, next)
    ensures id in next.rows && next.rows[id].ConceptRow?
    ensures var (was, now) := (db.rows[id].concept, next.rows[id].concept);
            && now.conceptId == conceptId
            && now.name == (if fields.name.Some? then fields.name.value else was.name)
            && now.definition == (if fields.definition.Some? then fields.definition.value else was.definition)
            && now.properties == (if fields.properties.Some? then fields.properties.value else was.properties)
            && now.sourceLabels
               == (if fields.sourceLabels.Some? then fields.sourceLabels.value else was.sourceLabels)
    ensures forall e: Id | e != id ::
              Lookup(next.rows, e)
              == if e in db.rows && db.rows[e].StepRow? && db.rows[e].step.level == 3
                 then Some(StepRow(db.rows[e].step.(status := NeedsReview))) else Lookup(db.rows, e)
  {
    var row := ConceptRow(Patched(db.rows[id].concept, fields));
    var edited := db.rows[id := row];
    OneConceptPerName(db.rows, conceptId, id);
    PatchKeepsKey(db.rows, id, fields);
    PerformOne(db.rows, (id, Some(row)));
    ConceptWriteLeaves(db, c, (id, Some(row)), edited, order, next);
    assert Lookup(next.rows, id) == Some(row);
    forall e: Id | e != id
      ensures Lookup(next.rows, e)
           == if e in db.rows && db.rows[e].StepRow? && db.rows[e].step.level == 3
              then Some(StepRow(db.rows[e].step.(status := NeedsReview))) else Lookup(db.rows, e)
    {
      assert Lookup(next.rows, e) == if Global(edited)(e) then Some(Marked(edited[e])) else Lookup(edited, e);
    }
  }

  /** When concept_update gets through. */
  lemma UpdateAcceptedIff(db: Db, c: nat, conceptId: string, fields: ConceptFields, wellFormed: bool, order: seq<Id>,
                          id: Id)
    requires Inv(db) && Named(db.rows, id, conceptId)
    requires LoadsSteps(db.rows[id := ConceptRow(Patched(db.rows[id].concept, fields))], order)
    ensures UpdateConcept(db, c, conceptId, fields, wellFormed, order).Accepted?
       <==> FindOpen(db.cascades) == Some(c) && wellFormed && GlobalsMarkable(db.rows)
            && (fields.sourceLabels.Some? ==>
                  forall n | n in fields.sourceLabels.value ::
                    exists p | p in db.rows ::
                      db.rows[p].ParagraphRow? && db.rows[p].binding
                      && db.rows[p].paragraphLabel == Some(StripBraces(n)))
  {
    var row := ConceptRow(Patched(db.rows[id].concept, fields));
    var edited := db.rows[id := row];
    OneConceptPerName(db.rows, conceptId, id);
    PatchKeepsKey(db.rows, id, fields);
    PerformOne(db.rows, (id, Some(row)));
    ConceptWriteIff(db, c, (id, Some(row)), edited, order);
    SameMarkable(db.rows, edited, id);
    if fields.sourceLabels.Some? {
      LabelsAre(db.rows, fields.sourceLabels.value);
    }
  }

  lemma ReferencedIff(rows: Table, conceptId: string)
    ensures !Referenced(rows, conceptId)
       <==> (forall r | r in rows && rows[r].RelationRow? ::
               rows[r].fromConcept != conceptId && rows[r].toConcept != conceptId)
            && (forall r | r in rows && rows[r].StepRow? :: conceptId !in rows[r].step.concepts)
  {
  }

  /** When concept_remove gets through: no relation starts or ends at the concept, no step
      lists it, and every global step can be marked. */
  lemma RemoveAcceptedIff(db: Db, c: nat, conceptId: string, order: seq<Id>, id: Id)
    requires Inv(db) && Named(db.rows, id, conceptId) && LoadsSteps(db.rows - {id}, order)
    ensures RemoveConcept(db, c, conceptId, order).Accepted?
       <==> FindOpen(db.cascades) == Some(c) && GlobalsMarkable(db.rows)
            && (forall r | r in db.rows && db.rows[r].RelationRow? ::
                  db.rows[r].fromConcept != conceptId && db.rows[r].toConcept != conceptId)
            && (forall r | r in db.rows && db.rows[r].StepRow? :: conceptId !in db.rows[r].step.concepts)
  {
    OneConceptPerName(db.rows, conceptId, id);
    PerformOne(db.rows, (id, None));
    ConceptWriteIff(db, c, (id, None), db.rows - {id}, order);
    SameMarkable(db.rows, db.rows - {id}, id);
    ReferencedIff(db.rows, conceptId);
  }

  /** concept_add adds its row and sends every global step to needs_review. */
  lemma AddLeaves(db: Db, c: nat, id: Id, concept: Concept, order: seq<Id>, next: Db)
    requires Inv(db) && LoadsSteps(db.rows[id := ConceptRow(concept)], order)
    requires AddConcept(db, c, id, concept, true, order) == Accepted(next)
    ensures GlobalsMarked(db.rows[id := ConceptRow(concept)], next.rows) && RecordedInside(db, next)
    ensures forall m | m in db.rows && m != id :: !Named(db.rows, m, concept.conceptId)
  {
    PerformOne(db.rows, (id, Some(ConceptRow(concept))));
    assert Perform(db.rows, []) == Some((db.rows, []));
    assert !Clashes(db.rows, id, ConceptRow(concept));
    ConceptWriteLeaves(db, c, (id, Some(ConceptRow(concept))), db.rows[id := ConceptRow(concept)], order, next);
  }

  /** concept_remove drops the row of that name and sends every global step to
      needs_review; no relation or step is left naming a missing concept. */
  lemma RemoveLeaves(db: Db, c: nat, conceptId: string, order: seq<Id>, next: Db, id: Id)
    requires Inv(db) && Named(db.rows, id, conceptId) && LoadsSteps(db.rows - {id}, order)
    requires RemoveConcept(db, c, conceptId, order) == Accepted(next)
    ensures GlobalsMarked(db.rows - {id}, next.rows) && RecordedInside(db, next)
    ensures !Referenced(next.rows, conceptId) && forall m :: !Named(next.rows, m, conceptId)
  {
    OneConceptPerName(db.rows, conceptId, id);
    PerformOne(db.rows, (id, None));
    ConceptWriteLeaves(db, c, (id, None), db.rows - {id}, order, next);
    NobodyNamesIt(db.rows, next.rows, conceptId, id);
  }

  lemma NobodyNamesIt(rows: Table, after: Table, conceptId: string, id: Id)
    requires UniqueKeys(rows) && Named(rows, id, conceptId) && !Referenced(rows, conceptId)
    requires GlobalsMarked(rows - {id}, after)
    ensures !Referenced(after, conceptId) && forall m :: !Named(after, m, conceptId)
  {
    forall m | m in after
      ensures !Named(after, m, conceptId)
      ensures m in rows && (after[m] == rows[m] || (rows[m].StepRow? && after[m] == Marked(rows[m])))
    {
      assert Lookup(after, m) == if Global(rows - {id})(m) then Some(Marked(rows[m])) else Lookup(rows - {id}, m);
      if Named(rows, m, conceptId) {
        OneConceptPerName(rows, conceptId, m);
        OneConceptPerName(rows, conceptId, id);
      }
    }
  }

  /** Adding a concept and removing it again leaves the rows from before, except that
      every global step is at needs_review. */
  lemma RemoveUndoesAdd(db: Db, c: nat, id: Id, concept: Concept, order: seq<Id>, middle: Db, order': seq<Id>, next: Db)
    requires Inv(db) && id !in db.rows && LoadsSteps(db.rows[id := ConceptRow(concept)], order)
    requires AddConcept(db, c, id, concept, true, order) == Accepted(middle)
    requires Inv(middle) && LoadsSteps(middle.rows - {id}, order')
    requires RemoveConcept(middle, c, concept.conceptId, order') == Accepted(next)
    ensures GlobalsMarked(db.rows, next.rows)
  {
    AddLeaves(db, c, id, concept, order, middle);
    var edited := db.rows[id := ConceptRow(concept)];
    assert Lookup(middle.rows, id) == Some(ConceptRow(concept));
    RemoveLeaves(middle, c, concept.conceptId, order', next, id);
    MarkedTwice(db.rows, id, concept, middle.rows, next.rows);
  }

  lemma MarkedTwice(rows: Table, id: Id, concept: Concept, middle: Table, after: Table)
    requires id !in rows && GlobalsMarked(rows[id := ConceptRow(concept)], middle)
    requires GlobalsMarked(middle - {id}, after)
    ensures GlobalsMarked(rows, after)
  {
    var edited := rows[id := ConceptRow(concept)];
    forall e: Id
      ensures Lookup(after, e) == if Global(rows)(e) then Some(Marked(rows[e])) else Lookup(rows, e)
    {
      assert Lookup(middle, e) == if Global(edited)(e) then Some(Marked(edited[e])) else Lookup(edited, e);
      assert Lookup(after, e) == if Global(middle - {id})(e) then Some(Marked(middle[e]))
                                 else Lookup(middle - {id}, e);
    }
  }

  /** The three commands always keep rows and history together. */
  lemma ConceptWriteStaysSynced(db: Db, c: nat, edit: Edit, edited: Table, order: seq<Id>, next: Db)
    requires Synced(db) && Perform(db.rows, [edit]).Some? && edited == Perform(db.rows, [edit]).value.0
    requires LoadsSteps(edited, order) && (edit.0 in edited ==> edited[edit.0].ConceptRow?)
    requires edit.0 in db.rows ==> db.rows[edit.0].ConceptRow?
    requires Write(db, MrsRequest(ConceptTarget, c, edit, AllGlobals(edited, order))) == Accepted(next)
    ensures Synced(next)
  {
    var globals := AllGlobals(edited, order);
    GlobalsFacts(edited, order);
    PerformOne(db.rows, edit);
    assert AreSteps(db.rows, globals);
    MrsRequestIsSound(db, ConceptTarget, c, edit, globals);
    SyncedExactly(db, WriteOp(MrsRequest(ConceptTarget, c, edit, globals)));
  }
}
