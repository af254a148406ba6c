/** The recipe table and its optimistic concurrency: what a revision identifies, and which of several writers wins. */
module Recipes {
  import opened Options

  type Id = string
  type User = string

  datatype Json =
    | Null
    | Scalar(text: string)
    | List(items: seq<Json>)
    | Object(fields: map<string, Json>)

  type Document = map<string, Json>

  datatype Row = Row(
    owner: User, typ: string, projectId: Option<Id>, name: string, typeVersion: int, contents: Document,
    revision: nat, removed: bool)

  type Table = map<Id, Row>

  const INITIAL_REVISION: nat := 1

  /** The statements that write recipes; each is one transaction. */
  datatype Op =
    | Create(id: Id, owner: User, typ: string, projectId: Option<Id>, name: string, typeVersion: int, content: Json)
    | Save(id: Id, owner: User, typ: string, name: string, typeVersion: int, content: Json, expectedRevision: nat)
    | Migrate(id: Id, owner: User, typeVersion: int, content: Json)
    | Move(ids: set<Id>, owner: User, projectId: Option<Id>)
    | Remove(ids: set<Id>, owner: User)
    | RemoveProject(project: Id, owner: User)
  {
    predicate Writes() {
      Create? || Save? || Migrate?
    }
  }

  const OWNED_BY_COLUMNS := {"revision", "projectId"}

  /** The document to store: only an object, and without what the columns own. */
  function ContentsColumn(content: Json): Option<Document> {
    if content.Object? then Some(content.fields - OWNED_BY_COLUMNS) else None
  }

  /** Whether the conditions of the statement are met. */
  predicate Succeeds(t: Table, op: Op) {
    match op
    case Create(id, _, _, _, _, _, content) => content.Object? && id !in t
    case Save(id, owner, typ, _, _, content, expected) =>
      && content.Object? && id in t && t[id].owner == owner && t[id].typ == typ
      && t[id].revision == expected && !t[id].removed
    case Migrate(id, owner, _, content) => content.Object? && id in t && t[id].owner == owner
    case _ => true
  }

  function Apply(t: Table, op: Op): Table {
    if !Succeeds(t, op) then t
    else
      match op
      case Create(id, owner, typ, projectId, name, version, content) =>
        t[id := Row(owner, typ, projectId, name, version, ContentsColumn(content).value, INITIAL_REVISION, false)]
      case Save(id, _, _, name, version, content, expected) =>
        t[id := t[id].(name := name, typeVersion := version, contents := ContentsColumn(content).value, revision := expected + 1)]
      case Migrate(id, _, version, content) =>
        t[id := t[id].(typeVersion := version, contents := ContentsColumn(content).value, revision := t[id].revision + 1)]
      case Move(ids, owner, projectId) =>
        map id <- t :: if id in ids && t[id].owner == owner then t[id].(projectId := projectId) else t[id]
      case Remove(ids, owner) =>
        map id <- t :: if id in ids && t[id].owner == owner then t[id].(removed := true) else t[id]
      case RemoveProject(project, owner) =>
        map id <- t :: if t[id].projectId == Some(project) && t[id].owner == owner then t[id].(removed := true) else t[id]
  }

  // ---- What a statement writes, column by column

  /** A creation stores what it was given, at the first revision. */
  lemma CreationTold(t: Table, op: Op)
    requires op.Create?
    ensures Succeeds(t, op) <==> op.content.Object? && op.id !in t
    ensures Succeeds(t, op) ==>
              && op.id in Apply(t, op)
              && var row := Apply(t, op)[op.id];
              && row.owner == op.owner && row.typ == op.typ && row.projectId == op.projectId && row.name == op.name
              && row.typeVersion == op.typeVersion && row.revision == 1 && !row.removed
              && forall k :: k in row.contents <==> k in op.content.fields && k != "revision" && k != "projectId"
  {}

  /** A save stores name, version and content for its owner at the next revision; a migration version and content; a move places. */
  lemma ColumnsTold(t: Table, op: Op, id: Id)
    requires id in t
    ensures id in Apply(t, op)
    ensures var row, next := t[id], Apply(t, op)[id];
      && next.owner == row.owner && next.typ == row.typ
      && next.name == (if op.Save? && op.id == id && Succeeds(t, op) then op.name else row.name)
      && next.projectId == (if op.Move? && id in op.ids && row.owner == op.owner then op.projectId else row.projectId)
      && (if (op.Save? || op.Migrate?) && op.id == id && Succeeds(t, op) then
            && next.typeVersion == op.typeVersion && next.revision == row.revision + 1
            && forall k :: (k in next.contents <==> k in op.content.fields && k != "revision" && k != "projectId")
                           && (k in next.contents ==> next.contents[k] == op.content.fields[k])
          else
            next.typeVersion == row.typeVersion && next.revision == row.revision && next.contents == row.contents)
      && (next.removed <==>
            || row.removed
            || (op.Remove? && id in op.ids && row.owner == op.owner)
            || (op.RemoveProject? && row.projectId == Some(op.project) && row.owner == op.owner))
  {}

  /** When a save or a migration finds its row. */
  lemma ConditionsTold(t: Table, op: Op)
    ensures op.Save? ==>
              (Succeeds(t, op) <==>
                 && op.content.Object? && op.id in t && t[op.id].owner == op.owner && t[op.id].typ == op.typ
                 && t[op.id].revision == op.expectedRevision && !t[op.id].removed)
    ensures op.Migrate? ==> (Succeeds(t, op) <==> op.content.Object? && op.id in t && t[op.id].owner == op.owner)
  {}

  function Run(t: Table, ops: seq<Op>): Table {
    if ops == [] then t else Apply(Run(t, ops[..|ops| - 1]), ops[|ops| - 1])
  }

  // ---- What every run keeps

  ghost predicate RowEvolves(a: Row, b: Row) {
    && b.owner == a.owner && b.typ == a.typ
    && (a.removed ==> b.removed)
    && a.revision <= b.revision
    && (a.revision == b.revision ==> b.name == a.name && b.typeVersion == a.typeVersion && b.contents == a.contents)
  }

  /** No row disappears, and every row only evolves. */
  ghost predicate Evolves(a: Table, b: Table) {
    forall id <- a :: id in b && RowEvolves(a[id], b[id])
  }

  lemma ApplyEvolves(t: Table, op: Op)
    ensures Evolves(t, Apply(t, op))
  {}

  lemma {:induction false} RunEvolves(t: Table, ops: seq<Op>)
    ensures Evolves(t, Run(t, ops))
  {
    if ops != [] {
      RunEvolves(t, ops[..|ops| - 1]);
      ApplyEvolves(Run(t, ops[..|ops| - 1]), ops[|ops| - 1]);
    }
  }

  lemma {:induction false} RunSplits(t: Table, ops: seq<Op>, i: nat)
    requires i <= |ops|
    ensures Run(t, ops) == Run(Run(t, ops[..i]), ops[i..])
    decreases |ops|
  {
    hide Apply;
    if i == |ops| {
      assert ops[..i] == ops;
    } else {
      var n := |ops| - 1;
      var front, rest := ops[..n], ops[i..];
      RunSplits(t, front, i);
      assert front[..i] == ops[..i];
      assert rest[..|rest| - 1] == front[i..] && rest[|rest| - 1] == ops[n];
    }
  }

  lemma LaterEvolves(t: Table, ops: seq<Op>, i: nat, j: nat)
    requires i <= j <= |ops|
    ensures Evolves(Run(t, ops[..i]), Run(t, ops[..j]))
  {
    RunSplits(t, ops[..j], i);
    assert ops[..j][..i] == ops[..i];
    RunEvolves(Run(t, ops[..i]), ops[..j][i..]);
  }

  /**
   * Whenever in a run an id is seen with the same revision, its name, type version and content are the same; its
   * owner and type always are.
   */
  lemma RevisionIdentifiesContent(t: Table, ops: seq<Op>, i: nat, j: nat, id: Id)
    requires i <= |ops| && j <= |ops| && id in Run(t, ops[..i]) && id in Run(t, ops[..j])
    ensures var a, b := Run(t, ops[..i])[id], Run(t, ops[..j])[id];
      && a.owner == b.owner && a.typ == b.typ
      && (a.revision == b.revision ==> a.name == b.name && a.typeVersion == b.typeVersion && a.contents == b.contents)
  {
    if i <= j {
      LaterEvolves(t, ops, i, j);
    } else {
      LaterEvolves(t, ops, j, i);
    }
  }

  // ---- Which writer wins

  /** The revision on which a write insists: a creation that there is none. */
  predicate SameBase(a: Op, b: Op) {
    || (a.Create? && b.Create? && a.id == b.id)
    || (a.Save? && b.Save? && a.id == b.id && a.expectedRevision == b.expectedRevision)
  }

  /** Of two writes with the same base at most one succeeds, however they are ordered and whatever comes between. */
  lemma OneWriterWins(t: Table, ops: seq<Op>, i: nat, j: nat)
    requires i < j < |ops| && SameBase(ops[i], ops[j])
    requires Succeeds(Run(t, ops[..i]), ops[i])
    ensures !Succeeds(Run(t, ops[..j]), ops[j])
  {
    assert ops[..i + 1][..i] == ops[..i];
    LaterEvolves(t, ops, i + 1, j);
  }

  /** How many of the operations wrote the recipe. */
  function Written(t: Table, ops: seq<Op>, id: Id): nat {
    if ops == [] then 0
    else
      var front, op := ops[..|ops| - 1], ops[|ops| - 1];
      Written(t, front, id) + if op.Writes() && op.id == id && Succeeds(Run(t, front), op) then 1 else 0
  }

  /** No write is lost: the revision of a recipe is the number of writes it ever took. */
  lemma {:induction false} RevisionCountsWrites(t: Table, ops: seq<Op>, id: Id)
    ensures id !in Run(t, ops) <==> id !in t && Written(t, ops, id) == 0
    ensures id in Run(t, ops) ==> Run(t, ops)[id].revision == (if id in t then t[id].revision else 0) + Written(t, ops, id)
  {
    if ops != [] {
      RevisionCountsWrites(t, ops[..|ops| - 1], id);
    }
  }

  // ---- Reading back

  function ProjectField(projectId: Option<Id>): Json {
    if projectId.Some? then Scalar(projectId.value) else Null
  }

  /** The document as loaded; number renders a revision. */
  function ToRecipe(row: Row, number: nat -> Json): Document {
    row.contents["projectId" := ProjectField(row.projectId)]["revision" := number(row.revision)]
  }

  /** A document tells its revision and its project from the columns, and everything else as stored. */
  lemma DocumentTold(row: Row, number: nat -> Json, k: string)
    ensures ToRecipe(row, number).Keys == row.contents.Keys + {"revision", "projectId"}
    ensures ToRecipe(row, number)["revision"] == number(row.revision)
    ensures ToRecipe(row, number)["projectId"] == match row.projectId case Some(project) => Scalar(project) case None => Null
    ensures k in row.contents && k != "revision" && k != "projectId" ==> ToRecipe(row, number)[k] == row.contents[k]
  {}

  /** The document a write stored, at a revision and placed in a project. */
  function Loaded(content: Document, projectId: Option<Id>, revision: nat, number: nat -> Json): Document {
    content["projectId" := ProjectField(projectId)]["revision" := number(revision)]
  }

  /**
   * A write that succeeds is read back at its revision as the very document written, whatever came after: moves and
   * removals change no more than the columns, which alone tell placement and revision.
   */
  lemma WriteReadsBack(t: Table, ops: seq<Op>, i: nat, j: nat, number: nat -> Json)
    requires i < j <= |ops| && ops[i].Writes() && Succeeds(Run(t, ops[..i]), ops[i])
    ensures ops[i].id in Run(t, ops[..i + 1]) && ops[i].id in Run(t, ops[..j])
    ensures var written, row := Run(t, ops[..i + 1])[ops[i].id], Run(t, ops[..j])[ops[i].id];
      && row.revision >= written.revision
      && (row.revision == written.revision ==>
            ToRecipe(row, number) == Loaded(ops[i].content.fields, row.projectId, row.revision, number))
  {
    assert ops[..i + 1][..i] == ops[..i];
    LaterEvolves(t, ops, i + 1, j);
    var id := ops[i].id;
    var row := Run(t, ops[..j])[id];
    if row.revision == Run(t, ops[..i + 1])[id].revision {
      assert row.contents == ops[i].content.fields - OWNED_BY_COLUMNS;
    }
  }

  /** A document saved as it was loaded is stored unchanged. */
  lemma LoadedStoresSame(row: Row, number: nat -> Json)
    requires row.contents.Keys !! OWNED_BY_COLUMNS
    ensures ContentsColumn(Object(ToRecipe(row, number))) == Some(row.contents)
  {
    assert ToRecipe(row, number) - OWNED_BY_COLUMNS == row.contents;
  }

  // ---- Rejections

  datatype Outcome =
    | Saved(revision: nat)
    | NotFound
    | TypeMismatch(currentRevision: nat)
    | Conflict(currentRevision: nat)
    | Failed

  function ExplainRejection(t: Table, id: Id, owner: User, typ: string): Outcome {
    if id !in t || t[id].owner != owner || t[id].removed then NotFound
    else if t[id].typ != typ then TypeMismatch(t[id].revision)
    else Conflict(t[id].revision)
  }

  /** A rejected save is explained by exactly the condition that failed. */
  lemma RejectionIsTrue(t: Table, op: Op)
    requires op.Save? && op.content.Object? && !Succeeds(t, op)
    ensures var o := ExplainRejection(t, op.id, op.owner, op.typ);
      && (o == NotFound <==> op.id !in t || t[op.id].owner != op.owner || t[op.id].removed)
      && (o.TypeMismatch? ==> t[op.id].typ != op.typ && o.currentRevision == t[op.id].revision)
      && (o.Conflict? ==> op.expectedRevision != o.currentRevision == t[op.id].revision)
      && !o.Saved? && o != Failed
  {}

  lemma RunAppend(t: Table, ops: seq<Op>, op: Op)
    ensures Run(t, ops + [op]) == Apply(Run(t, ops), op)
  {
    assert (ops + [op])[..|ops|] == ops;
  }

  /** Whether the row is one that the save names, and may still be written on. */
  predicate Saveable(t: Table, op: Op)
    requires op.Save?
  {
    op.id in t && t[op.id].owner == op.owner && t[op.id].typ == op.typ && !t[op.id].removed
  }

  /** Other writers bring a row to any later revision. */
  lemma {:induction false} WritesReach(t: Table, op: Op, revision: nat) returns (ops: seq<Op>)
    requires op.Save? && Saveable(t, op) && t[op.id].revision <= revision
    ensures Saveable(Run(t, ops), op) && Run(t, ops)[op.id].revision == revision
  {
    if t[op.id].revision == revision {
      ops := [];
    } else {
      var front := WritesReach(t, op, revision - 1);
      var write := Migrate(op.id, op.owner, 0, Object(map[]));
      RunAppend(t, front, write);
      ops := front + [write];
    }
  }

  lemma CreationReaches(t: Table, op: Op) returns (ops: seq<Op>)
    requires op.Save? && op.id !in t && 1 <= op.expectedRevision
    ensures Saveable(Run(t, ops), op) && Run(t, ops)[op.id].revision == op.expectedRevision
  {
    var create := Create(op.id, op.owner, op.typ, None, "", 0, Object(map[]));
    RunAppend(t, [], create);
    var later := WritesReach(Apply(t, create), op, op.expectedRevision);
    ops := [create] + later;
    RunSplits(t, ops, 1);
    assert ops[..1] == [] + [create] && ops[1..] == later;
  }

  /** While the rejected statement keeps the row, or the place of a missing one, locked, the explanation stays true. */
  lemma LockedExplanation(t: Table, later: Table, op: Op)
    requires op.Save? && op.content.Object? && !Succeeds(t, op)
    requires (op.id in later <==> op.id in t) && (op.id in t ==> later[op.id] == t[op.id])
    ensures ExplainRejection(later, op.id, op.owner, op.typ) == ExplainRejection(t, op.id, op.owner, op.typ)
    ensures ExplainRejection(later, op.id, op.owner, op.typ) != Conflict(op.expectedRevision)
  {
    RejectionIsTrue(t, op);
  }

  /**
   * The explanation reads the row after the rejection. At an isolation level that releases a row the update did not
   * match, others writing in between can make it name the expected revision as the conflict if and only if the writer
   * was ahead: of a row it could have saved on, or of a recipe that did not exist.
   */
  lemma LateExplanation(t: Table, op: Op)
    requires op.Save? && op.content.Object? && !Succeeds(t, op)
    ensures (exists between :: ExplainRejection(Run(t, between), op.id, op.owner, op.typ) == Conflict(op.expectedRevision))
            <==> if op.id in t then Saveable(t, op) && t[op.id].revision < op.expectedRevision else 1 <= op.expectedRevision
  {
    if between :| ExplainRejection(Run(t, between), op.id, op.owner, op.typ) == Conflict(op.expectedRevision) {
      RunEvolves(t, between);
      RevisionCountsWrites(t, between, op.id);
    }
    if op.id in t {
      if Saveable(t, op) && t[op.id].revision < op.expectedRevision {
        var between := WritesReach(t, op, op.expectedRevision);
        assert ExplainRejection(Run(t, between), op.id, op.owner, op.typ) == Conflict(op.expectedRevision);
      }
    } else if 1 <= op.expectedRevision {
      var between := CreationReaches(t, op);
      assert ExplainRejection(Run(t, between), op.id, op.owner, op.typ) == Conflict(op.expectedRevision);
    }
  }

  class RecipeRepository {
    var recipes: Table

    constructor ()
      ensures recipes == map[]
    {
      recipes := map[];
    }

    /** Other connections' transactions. */
    method OthersWrite() returns (ghost ops: seq<Op>)
      modifies this
      ensures recipes == Run(old(recipes), ops)
    {
      ops := [];
      var n: nat := *;
      while 0 < n
        invariant recipes == Run(old(recipes), ops)
      {
        var op: Op := *;
        recipes, n := Apply(recipes, op), n - 1;
        ops := ops + [op];
      }
    }

    /** A creation without an expected revision, an update with one. */
    method SaveRecipe(id: Id, owner: User, projectId: Option<Id>, name: string, typ: string, typeVersion: int, content: Json,
                      expectedRevision: Option<nat>)
      returns (outcome: Outcome, ghost between: seq<Op>)
      modifies this
      ensures var op :=
          if expectedRevision == None then Create(id, owner, typ, projectId, name, typeVersion, content)
          else Save(id, owner, typ, name, typeVersion, content, expectedRevision.value);
        && (outcome.Saved? <==> old(Succeeds(recipes, op)))
        && (outcome == Failed <==> !content.Object?)
        && (outcome.Saved? ==> recipes == Apply(old(recipes), op) && id in recipes && outcome.revision == recipes[id].revision)
        && (outcome == Failed ==> recipes == old(recipes))
        && (!outcome.Saved? && outcome != Failed ==>
              && recipes == Run(old(recipes), between)
              && outcome == ExplainRejection(recipes, id, owner, typ))
    {
      between := [];
      var contents := ContentsColumn(content);
      if contents == None {
        return Failed, [];
      }
      if expectedRevision == None {
        if id !in recipes {
          recipes := recipes[id := Row(owner, typ, projectId, name, typeVersion, contents.value, INITIAL_REVISION, false)];
          return Saved(INITIAL_REVISION), [];
        }
      } else {
        var nextRevision := expectedRevision.value + 1;
        if id in recipes && recipes[id].owner == owner && recipes[id].typ == typ
           && recipes[id].revision == expectedRevision.value && !recipes[id].removed {
          recipes := recipes[id := recipes[id].(name := name, typeVersion := typeVersion, contents := contents.value,
                                                revision := nextRevision)];
          return Saved(nextRevision), [];
        }
      }
      between := OthersWrite();
      outcome := ExplainRejection(recipes, id, owner, typ);
    }

    method FindRecipe(id: Id, number: nat -> Json) returns (found: Option<(User, Document)>)
      ensures found == if id in recipes && !recipes[id].removed
                       then Some((recipes[id].owner, ToRecipe(recipes[id], number))) else None
    {
      found := None;
      if id in recipes && !recipes[id].removed {
        found := Some((recipes[id].owner, ToRecipe(recipes[id], number)));
      }
    }

    method RemoveRecipes(ids: set<Id>, owner: User)
      modifies this
      ensures recipes == Apply(old(recipes), Remove(ids, owner))
    {
      if ids != {} {
        recipes := map id <- recipes ::
          if id in ids && recipes[id].owner == owner then recipes[id].(removed := true) else recipes[id];
      }
    }

    method MoveRecipes(projectId: Option<Id>, ids: set<Id>, owner: User)
      modifies this
      ensures recipes == Apply(old(recipes), Move(ids, owner, projectId))
    {
      if ids != {} {
        recipes := map id <- recipes ::
          if id in ids && recipes[id].owner == owner then recipes[id].(projectId := projectId) else recipes[id];
      }
    }

    /** Fails on an unmatched row, having changed nothing. */
    method SaveMigratedRecipe(id: Id, owner: User, typeVersion: int, content: Json) returns (done: bool)
      modifies this
      ensures done <==> old(Succeeds(recipes, Migrate(id, owner, typeVersion, content)))
      ensures recipes == Apply(old(recipes), Migrate(id, owner, typeVersion, content))
    {
      var contents := ContentsColumn(content);
      done := contents.Some? && id in recipes && recipes[id].owner == owner;
      if done {
        recipes := recipes[id := recipes[id].(typeVersion := typeVersion, contents := contents.value,
                                              revision := recipes[id].revision + 1)];
      }
    }

    method RemoveProjectRecipes(project: Id, owner: User)
      modifies this
      ensures recipes == Apply(old(recipes), RemoveProject(project, owner))
    {
      recipes := map id <- recipes ::
        if recipes[id].projectId == Some(project) && recipes[id].owner == owner then recipes[id].(removed := true) else recipes[id];
    }
  }
}
