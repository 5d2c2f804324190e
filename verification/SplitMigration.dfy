/**
 The reviewed std/SPI package split: a plan of file moves and file writes, checked before anything is touched,
 applied step by step, and undone when a step raises.

 The working tree is a finite map from path to bytes. Any step may fail, a copy may leave any bytes behind, and the
 checksum is an arbitrary function. The steps of the undo are taken to succeed.
 */
module SplitMigration {
  import opened Common

  type Digest = string

  datatype Move = Move(from: Path, to: Path, sha: Digest)

  /** `expected` is the checksum the target must have (`None`: it must not exist); `content` of `None` deletes it. */
  datatype Write = Write(path: Path, expected: Option<Digest>, content: Option<Bytes>)

  datatype Plan = Plan(moves: seq<Move>, writes: seq<Write>)

  function Sources(moves: seq<Move>): set<Path> { set m | m in moves :: m.from }

  function Targets(moves: seq<Move>): set<Path> { set m | m in moves :: m.to }

  function WritePaths(writes: seq<Write>): set<Path> { set w | w in writes :: w.path }

  // ---------------------------------------------------------------- what a plan guarantees

  ghost predicate DistinctMoves(moves: seq<Move>) {
    forall i, j :: 0 <= i < j < |moves| ==> moves[i].from != moves[j].from && moves[i].to != moves[j].to
  }

  ghost predicate DistinctWrites(writes: seq<Write>) {
    forall i, j :: 0 <= i < j < |writes| ==> writes[i].path != writes[j].path
  }

  /** The shape every plan of `BuildMigrationPlan` has: no source or destination twice, no write target twice, and no
      write target that is moved or moved onto. */
  ghost predicate PlanShape(plan: Plan) {
    && DistinctMoves(plan.moves)
    && DistinctWrites(plan.writes)
    && WritePaths(plan.writes) !! Sources(plan.moves) + Targets(plan.moves)
  }

  predicate MovesApplied(sha: Bytes -> Digest, files: Files, moves: seq<Move>) {
    forall m | m in moves :: m.from !in files && m.to in files && sha(files[m.to]) == m.sha
  }

  predicate WritesApplied(sha: Bytes -> Digest, files: Files, writes: seq<Write>) {
    forall w | w in writes ::
      match w.content
      case None => w.path !in files
      case Some(content) => w.path in files && sha(files[w.path]) == sha(content)
  }

  /** What `is_plan_already_applied` answers. */
  predicate AlreadyApplied(sha: Bytes -> Digest, files: Files, plan: Plan) {
    MovesApplied(sha, files, plan.moves) && WritesApplied(sha, files, plan.writes)
  }

  predicate MovesReady(sha: Bytes -> Digest, files: Files, moves: seq<Move>) {
    forall m | m in moves :: m.from in files && sha(files[m.from]) == m.sha && m.to !in files
  }

  predicate WritesReady(sha: Bytes -> Digest, files: Files, writes: seq<Write>) {
    forall w | w in writes ::
      match w.expected
      case None => w.path !in files
      case Some(digest) => w.path in files && sha(files[w.path]) == digest
  }

  /** `after` is `before` with every one of `moves` carried out, every one of `writes` made, and nothing else
      changed. */
  ghost predicate Migrated(sha: Bytes -> Digest, before: Files, after: Files, moves: seq<Move>, writes: seq<Write>) {
    && (forall p :: p in Sources(moves) ==> p !in after)
    && (forall m :: m in moves ==> m.to in after && sha(after[m.to]) == m.sha)
    && (forall w :: w in writes ==> At(after, w.path) == w.content)
    && (forall p :: p !in Sources(moves) && p !in Targets(moves) && p !in WritePaths(writes)
          ==> At(after, p) == At(before, p))
  }

  /** Two contents with the same checksum are the same content: what the script relies on SHA-256 for. */
  ghost predicate CollisionFree(sha: Bytes -> Digest) {
    forall a: Bytes, b: Bytes :: sha(a) == sha(b) ==> a == b
  }

  // ---------------------------------------------------------------- the simple form: rename one by one, then write

  function RenameAll(files: Files, moves: seq<Move>): Files {
    if moves == [] then files else
    var rest := RenameAll(files, moves[..|moves| - 1]);
    var m := moves[|moves| - 1];
    if m.from in rest then (rest - {m.from})[m.to := rest[m.from]] else rest
  }

  function WriteAll(files: Files, writes: seq<Write>): Files {
    if writes == [] then files else
    var rest := WriteAll(files, writes[..|writes| - 1]);
    var w := writes[|writes| - 1];
    match w.content
    case None => rest - {w.path}
    case Some(content) => rest[w.path := content]
  }

  lemma LastMove(files: Files, moves: seq<Move>)
    requires moves != [] && DistinctMoves(moves)
    requires forall m :: m in moves ==> m.from in files && m.to !in files
    ensures var init, m := moves[..|moves| - 1], moves[|moves| - 1];
            && DistinctMoves(init)
            && Sources(moves) == Sources(init) + {m.from} && Targets(moves) == Targets(init) + {m.to}
            && m.from !in Sources(init) && m.from !in Targets(init) && m.to !in Targets(init)
  {
    assert moves == moves[..|moves| - 1] + [moves[|moves| - 1]];
  }

  lemma {:induction false} RenameAllAt(files: Files, moves: seq<Move>, p: Path)
    requires DistinctMoves(moves)
    requires forall m :: m in moves ==> m.from in files && m.to !in files
    ensures p in Sources(moves) ==> p !in RenameAll(files, moves)
    ensures forall m :: m in moves && m.to == p ==> At(RenameAll(files, moves), p) == At(files, m.from)
    ensures p !in Sources(moves) && p !in Targets(moves) ==> At(RenameAll(files, moves), p) == At(files, p)
  {
    if moves != [] {
      var init, m := moves[..|moves| - 1], moves[|moves| - 1];
      LastMove(files, moves);
      assert moves == init + [m];
      hide Sources, Targets, DistinctMoves;
      RenameAllAt(files, init, p);
      RenameAllAt(files, init, m.from);
    }
  }

  lemma {:induction false} WriteAllAt(files: Files, writes: seq<Write>, p: Path)
    requires DistinctWrites(writes)
    ensures forall w :: w in writes && w.path == p ==> At(WriteAll(files, writes), p) == w.content
    ensures p !in WritePaths(writes) ==> At(WriteAll(files, writes), p) == At(files, p)
  {
    if writes != [] {
      var init, w := writes[..|writes| - 1], writes[|writes| - 1];
      assert writes == init + [w];
      WriteAllAt(files, init, p);
      assert w.path !in WritePaths(init);
    }
  }

  /** Staging, verifying and removing refines renaming the files one by one and then making the writes. */
  lemma MigratedIsRenameThenWrite(sha: Bytes -> Digest, before: Files, after: Files, plan: Plan)
    requires CollisionFree(sha) && PlanShape(plan)
    requires MovesReady(sha, before, plan.moves)
    requires Migrated(sha, before, after, plan.moves, plan.writes)
    ensures after == WriteAll(RenameAll(before, plan.moves), plan.writes)
  {
    var renamed := RenameAll(before, plan.moves);
    forall p ensures At(after, p) == At(WriteAll(renamed, plan.writes), p) {
      RenameAllAt(before, plan.moves, p);
      WriteAllAt(renamed, plan.writes, p);
      if p in WritePaths(plan.writes) {
        var w :| w in plan.writes && w.path == p;
      } else if p in Targets(plan.moves) {
        var m :| m in plan.moves && m.to == p;
        assert sha(after[p]) == sha(before[m.from]);
      }
    }
    SameEverywhere(after, WriteAll(renamed, plan.writes));
  }

  // ---------------------------------------------------------------- what follows from a migrated tree

  /** A tree the migration has produced is recognised by the check that makes applying the same plan again a no-op. */
  lemma MigratedIsRecognised(sha: Bytes -> Digest, before: Files, after: Files, plan: Plan)
    requires PlanShape(plan)
    requires Migrated(sha, before, after, plan.moves, plan.writes)
    ensures AlreadyApplied(sha, after, plan)
  {
  }

  /** Under a collision-free checksum just those trees are recognised: the ones the whole plan would leave as they
      are. */
  lemma AlreadyAppliedIffMigrated(sha: Bytes -> Digest, files: Files, plan: Plan)
    requires CollisionFree(sha)
    ensures AlreadyApplied(sha, files, plan) <==> Migrated(sha, files, files, plan.moves, plan.writes)
  {
    if AlreadyApplied(sha, files, plan) {
      forall w | w in plan.writes ensures At(files, w.path) == w.content {
        assert w.content.Some? ==> sha(files[w.path]) == sha(w.content.value);
      }
    }
    if Migrated(sha, files, files, plan.moves, plan.writes) {
      forall m | m in plan.moves ensures m.from !in files {
        assert m.from in Sources(plan.moves);
      }
      forall w | w in plan.writes ensures At(files, w.path) == w.content {
      }
    }
  }

  /** The plan expects what the tree holds: its sources with their checksums, its destinations free, and the targets
      of its writes as they are. */
  ghost predicate MadeFor(sha: Bytes -> Digest, files: Files, plan: Plan) {
    && (forall m :: m in plan.moves ==> m.from in files && m.sha == sha(files[m.from]) && m.to !in files)
    && (forall w :: w in plan.writes ==> w.expected == if w.path in files then Some(sha(files[w.path])) else None)
  }

  /** A plan is carried out on the trees it was made for, and, under a collision-free checksum, of two such trees one
      differs from the other nowhere the plan looks. */
  lemma ReadyIffMadeFor(sha: Bytes -> Digest, files: Files, plan: Plan)
    ensures MovesReady(sha, files, plan.moves) && WritesReady(sha, files, plan.writes) <==> MadeFor(sha, files, plan)
  {
  }

  lemma ReadyTreesAgree(sha: Bytes -> Digest, files: Files, other: Files, plan: Plan, p: Path)
    requires CollisionFree(sha) && p in Sources(plan.moves) + Targets(plan.moves) + WritePaths(plan.writes)
    requires MovesReady(sha, files, plan.moves) && WritesReady(sha, files, plan.writes)
    requires MovesReady(sha, other, plan.moves) && WritesReady(sha, other, plan.writes)
    ensures At(files, p) == At(other, p)
  {
    forall w | w in plan.writes ensures At(files, w.path) == At(other, w.path) {
      assert w.expected.Some? ==> sha(files[w.path]) == sha(other[w.path]);
    }
    forall m | m in plan.moves ensures At(files, m.from) == At(other, m.from) {
      assert sha(files[m.from]) == sha(other[m.from]);
    }
  }

  /** When the undo has run after `removed` sources were gone, every move has its bytes at exactly one of its two
      paths, and every other path holds what it held. */
  lemma RollbackConserves(sha: Bytes -> Digest, before: Files, after: Files, moves: seq<Move>, removed: nat)
    requires CollisionFree(sha) && DistinctMoves(moves) && MovesReady(sha, before, moves)
    requires removed <= |moves| && Migrated(sha, before, after, moves[..removed], [])
    ensures forall i :: 0 <= i < |moves| ==>
              if i < removed
              then moves[i].from !in after && At(after, moves[i].to) == At(before, moves[i].from)
              else moves[i].to !in after && At(after, moves[i].from) == At(before, moves[i].from)
    ensures forall p :: p !in Sources(moves) && p !in Targets(moves) ==> At(after, p) == At(before, p)
    ensures removed == 0 <==> after == before
  {
    var done := moves[..removed];
    forall i | 0 <= i < |moves|
      ensures if i < removed
              then moves[i].from !in after && At(after, moves[i].to) == At(before, moves[i].from)
              else moves[i].to !in after && At(after, moves[i].from) == At(before, moves[i].from)
    {
      var m := moves[i];
      if i < removed {
        assert done[i] == m && m in done;
        assert m.from in Sources(done);
        assert sha(after[m.to]) == sha(before[m.from]);
      } else {
        assert forall d :: d in done ==> exists j :: 0 <= j < removed && moves[j] == d;
        assert m.from !in Sources(done) && m.to !in Targets(done);
        assert m.to !in Sources(done) && m.from !in Targets(done);
        assert At(after, m.from) == At(before, m.from) && At(after, m.to) == At(before, m.to);
      }
    }
    forall p | p !in Sources(moves) && p !in Targets(moves) ensures At(after, p) == At(before, p) {
      assert Sources(done) <= Sources(moves) && Targets(done) <= Targets(moves);
    }
    if removed == 0 {
      SameEverywhere(after, before);
    } else {
      assert moves[0] in moves;
    }
  }

  /** The checksum must tell the contents apart: of two contents with the same one, a copy may hold the other. */
  lemma CollisionLosesBytes(sha: Bytes -> Digest, content: Bytes, other: Bytes)
    requires content != other && sha(content) == sha(other)
    ensures var moves := [Move(["a"], ["b"], sha(content))];
            var before: Files, after: Files := map[["a"] := content], map[["b"] := other];
            && DistinctMoves(moves) && MovesReady(sha, before, moves) && Migrated(sha, before, after, moves[..1], [])
            && At(after, moves[0].to) != At(before, moves[0].from)
  {
    var moves := [Move(["a"], ["b"], sha(content))];
    assert moves[..1] == moves && moves[0] in moves;
    assert ["a"][0] != ["b"][0];
  }

  // ---------------------------------------------------------------- carrying a plan out

  datatype Refusal = DirtyWorktree | StaleCommit | NotReady

  /** How a run ends. `RolledBack` carries how many sources had been removed when a step raised. */
  datatype Outcome = Refused(why: Refusal) | AlreadyDone | Applied | RolledBack(removed: nat)

  /** The source of the first move onto `to`. */
  function SourceOf(moves: seq<Move>, to: Path): Path
    requires to in Targets(moves)
  {
    if moves[0].to == to then moves[0].from else SourceOf(moves[1..], to)
  }

  lemma {:induction false} SourceOfMove(moves: seq<Move>, i: nat)
    requires DistinctMoves(moves) && i < |moves|
    ensures moves[i].to in Targets(moves) && SourceOf(moves, moves[i].to) == moves[i].from
  {
    assert moves[i] in moves;
    if i > 0 {
      assert moves[1..][i - 1] == moves[i];
      SourceOfMove(moves[1..], i - 1);
    }
  }

  // ---------------------------------------------------------------- what the undo relies on

  /** The destinations of the moves, in order: what `created_destinations` holds once they are begun. */
  function Tos(moves: seq<Move>): seq<Path> { seq(|moves|, i requires 0 <= i < |moves| => moves[i].to) }

  /** What `previous_writes` holds once the writes are begun. */
  function Saved(before: Files, writes: seq<Write>): seq<(Path, Option<Bytes>)> {
    seq(|writes|, i requires 0 <= i < |writes| => (writes[i].path, At(before, writes[i].path)))
  }

  /** How far a run has come: copies begun, writes begun, temporary files made, sources removed. */
  datatype Progress = Progress(copies: nat, writes: nat, temps: seq<Path>, gone: nat)

  ghost predicate Within(plan: Plan, at: Progress) {
    at.copies <= |plan.moves| && at.writes <= |plan.writes| && at.gone <= |plan.moves|
  }

  /** Every path the run may have changed so far. */
  ghost function Touched(plan: Plan, at: Progress): set<Path>
    requires Within(plan, at)
  {
    Targets(plan.moves[..at.copies]) + WritePaths(plan.writes[..at.writes]) + (set t | t in at.temps)
      + Sources(plan.moves[..at.gone])
  }

  /** Every destination is in place with the checksum of its plan entry. */
  ghost predicate Staged(sha: Bytes -> Digest, files: Files, moves: seq<Move>) {
    forall m :: m in moves ==> m.to in files && sha(files[m.to]) == m.sha
  }

  /** The tree and the record are such that the undo restores what it should. */
  ghost predicate Undoable(sha: Bytes -> Digest, before: Files, plan: Plan, files: Files, at: Progress) {
    && Within(plan, at)
    && (forall t :: t in at.temps && t in before ==> t in WritePaths(plan.writes[..at.writes]))
    && (forall t :: t in at.temps ==> t !in Targets(plan.moves))
    && (forall p :: p in Sources(plan.moves[..at.gone]) ==> p !in files)
    && (at.gone > 0 ==> at.copies == |plan.moves| && Staged(sha, files, plan.moves))
    && (forall p :: p !in Touched(plan, at) ==> At(files, p) == At(before, p))
  }

  /** A step that goes further, and changes only what it has recorded, keeps the tree undoable. */
  lemma StepStaysUndoable(sha: Bytes -> Digest, before: Files, plan: Plan, f: Files, at: Progress, g: Files,
                          to: Progress)
    requires Undoable(sha, before, plan, f, at) && at.gone == to.gone == 0 && Within(plan, to)
    requires at.copies <= to.copies && at.writes <= to.writes && at.temps <= to.temps
    requires forall t :: t in to.temps[|at.temps|..] ==>
               (t in before ==> t in WritePaths(plan.writes[..to.writes])) && t !in Targets(plan.moves)
    requires forall p :: p !in Touched(plan, to) ==> At(g, p) == At(f, p)
    ensures Undoable(sha, before, plan, g, to)
  {
    assert to.temps == at.temps + to.temps[|at.temps|..];
    assert WritePaths(plan.writes[..at.writes]) <= WritePaths(plan.writes[..to.writes]) by {
      assert plan.writes[..to.writes] == plan.writes[..at.writes] + plan.writes[at.writes..to.writes];
    }
    assert Targets(plan.moves[..at.copies]) <= Targets(plan.moves[..to.copies]) by {
      assert plan.moves[..to.copies] == plan.moves[..at.copies] + plan.moves[at.copies..to.copies];
    }
    assert Touched(plan, at) <= Touched(plan, to);
  }

  /** A name that is free once every move is staged is safe for a temporary file: nothing the undo keeps or restores
      outside the writes is at that name. */
  lemma FreeNameIsSafe(sha: Bytes -> Digest, before: Files, plan: Plan, f: Files, at: Progress, t: Path)
    requires PlanShape(plan) && Undoable(sha, before, plan, f, at) && at.gone == 0
    requires MovesReady(sha, before, plan.moves) && Staged(sha, f, plan.moves) && t !in f
    ensures t in before ==> t in WritePaths(plan.writes[..at.writes])
    ensures t !in Targets(plan.moves)
  {
    if t in before {
      assert At(f, t) != At(before, t);
    }
  }

  /** A target whose write has not begun still holds what it held at the start. */
  lemma UnwrittenTargetIsUntouched(sha: Bytes -> Digest, before: Files, plan: Plan, f: Files, at: Progress)
    requires PlanShape(plan) && Undoable(sha, before, plan, f, at) && at.gone == 0 && at.writes < |plan.writes|
    requires forall t :: t in at.temps && t !in WritePaths(plan.writes[..at.writes]) ==> t !in f
    ensures At(f, plan.writes[at.writes].path) == At(before, plan.writes[at.writes].path)
  {
    var path := plan.writes[at.writes].path;
    assert plan.writes[at.writes] in plan.writes && path in WritePaths(plan.writes);
    assert path !in WritePaths(plan.writes[..at.writes]);
    assert Targets(plan.moves[..at.copies]) <= Targets(plan.moves);
  }

  /** Changes away from every destination leave the staged copies as they are. */
  lemma ChangeKeepsStaged(sha: Bytes -> Digest, moves: seq<Move>, f: Files, g: Files, changed: set<Path>)
    requires Staged(sha, f, moves) && changed !! Targets(moves)
    requires forall p :: p !in changed ==> At(g, p) == At(f, p)
    ensures Staged(sha, g, moves)
  {
    forall m | m in moves ensures m.to in g && sha(g[m.to]) == m.sha {
      assert m.to in Targets(moves) && At(g, m.to) == At(f, m.to);
    }
  }

  /** A temporary file and the target it may replace are all a write changes, and the undo knows both. */
  lemma WriteStaysUndoable(sha: Bytes -> Digest, before: Files, plan: Plan, f: Files, at: Progress,
                           t: Path, path: Path, g: Files)
    requires PlanShape(plan) && MovesReady(sha, before, plan.moves) && at.gone == 0
    requires Undoable(sha, before, plan, f, at) && Staged(sha, f, plan.moves)
    requires path in WritePaths(plan.writes[..at.writes]) && t !in f
    requires forall p :: p != t && p != path ==> At(g, p) == At(f, p)
    ensures Undoable(sha, before, plan, g, at.(temps := at.temps + [t])) && Staged(sha, g, plan.moves)
  {
    FreeNameIsSafe(sha, before, plan, f, at, t);
    StepStaysUndoable(sha, before, plan, f, at, g, at.(temps := at.temps + [t]));
    assert WritePaths(plan.writes[..at.writes]) <= WritePaths(plan.writes);
    ChangeKeepsStaged(sha, plan.moves, f, g, {t, path});
  }

  /** These writes are in place, and no temporary file is left beside them. */
  ghost predicate WritesMade(files: Files, temps: seq<Path>, writes: seq<Write>) {
    && (forall w :: w in writes ==> At(files, w.path) == w.content)
    && (forall t :: t in temps && t !in WritePaths(writes) ==> t !in files)
  }

  lemma DeletionMade(f: Files, temps: seq<Path>, writes: seq<Write>, i: nat)
    requires DistinctWrites(writes) && i < |writes| && WritesMade(f, temps, writes[..i]) && writes[i].content == None
    ensures WritesMade(f - {writes[i].path}, temps, writes[..i + 1])
  {
  }

  lemma ReplacementMade(f: Files, temps: seq<Path>, writes: seq<Write>, i: nat, t: Path, content: Bytes)
    requires DistinctWrites(writes) && i < |writes| && WritesMade(f, temps, writes[..i]) && t !in f
    requires writes[i].content == Some(content)
    ensures WritesMade((f - {t})[writes[i].path := content], temps + [t], writes[..i + 1])
  {
  }

  /** Removing one more source keeps the tree undoable. */
  lemma RemovalStaysUndoable(sha: Bytes -> Digest, before: Files, plan: Plan, f: Files, at: Progress)
    requires PlanShape(plan) && MovesReady(sha, before, plan.moves)
    requires Undoable(sha, before, plan, f, at) && at.copies == |plan.moves| && at.gone < |plan.moves|
    requires Staged(sha, f, plan.moves)
    ensures var m := plan.moves[at.gone];
            Undoable(sha, before, plan, f - {m.from}, at.(gone := at.gone + 1)) && Staged(sha, f - {m.from}, plan.moves)
  {
  }

  lemma EarlierMove(moves: seq<Move>, k: nat, i: nat)
    requires DistinctMoves(moves) && k <= |moves| && i < |moves|
    ensures i < k ==> moves[i].to in Targets(moves[..k])
    ensures i >= k ==> moves[i].from !in Sources(moves[..k])
  {
  }

  /** The sources were there at the start, the destinations were not, and the writes are elsewhere; so too for the
      parts a run has come to. */
  lemma PathsApart(sha: Bytes -> Digest, before: Files, plan: Plan, at: Progress)
    requires PlanShape(plan) && MovesReady(sha, before, plan.moves) && Within(plan, at)
    ensures Sources(plan.moves) <= before.Keys && Targets(plan.moves) !! before.Keys
    ensures WritePaths(plan.writes[..at.writes]) !! Sources(plan.moves) + Targets(plan.moves)
    ensures Sources(plan.moves[..at.gone]) <= Sources(plan.moves)
            && Targets(plan.moves[..at.gone]) <= Targets(plan.moves)
    ensures Targets(plan.moves[..at.copies]) <= Targets(plan.moves)
  {
  }

  lemma KeptCopy(sha: Bytes -> Digest, before: Files, plan: Plan, f: Files, at: Progress, i: nat)
    requires Undoable(sha, before, plan, f, at) && i < at.gone
    ensures at.copies == |plan.moves| && plan.moves[i].from in Sources(plan.moves[..at.gone])
    ensures var m := plan.moves[i]; m.to in Targets(plan.moves) && m.to in f && sha(f[m.to]) == m.sha
  {
  }

  /** The moves whose sources were removed stay made. */
  lemma UndoKeepsRemoved(sha: Bytes -> Digest, before: Files, plan: Plan, f0: Files, at: Progress,
                         f1: Files, f2: Files, f3: Files)
    requires PlanShape(plan) && MovesReady(sha, before, plan.moves) && Undoable(sha, before, plan, f0, at)
    requires f1 == f0 - (set t | t in at.temps)
    requires forall p :: At(f2, p) == if p in WritePaths(plan.writes[..at.writes]) then At(before, p) else At(f1, p)
    requires forall i :: 0 <= i < at.copies ==>
               At(f3, plan.moves[i].to)
               == if plan.moves[i].from in Sources(plan.moves[..at.gone]) then At(f2, plan.moves[i].to) else None
    requires forall p :: p !in Targets(plan.moves[..at.copies]) ==> At(f3, p) == At(f2, p)
    ensures forall p :: p in Sources(plan.moves[..at.gone]) ==> p !in f3
    ensures forall m :: m in plan.moves[..at.gone] ==> m.to in f3 && sha(f3[m.to]) == m.sha
  {
    var done := plan.moves[..at.gone];
    PathsApart(sha, before, plan, at);
    assert forall p :: p in Sources(done) ==> p !in f0;
    assert forall t :: t in at.temps ==> t !in Targets(plan.moves);
    hide PlanShape, MovesReady, Touched, Undoable;
    forall p | p in Sources(done) ensures p !in f3 {
      assert At(f3, p) == At(f2, p) == At(f1, p);
    }
    forall i | 0 <= i < at.gone ensures plan.moves[i].to in f3 && sha(f3[plan.moves[i].to]) == plan.moves[i].sha {
      KeptCopy(sha, before, plan, f0, at, i);
      var to := plan.moves[i].to;
      assert At(f3, to) == At(f2, to) == At(f1, to) == At(f0, to);
    }
  }

  /** Dropping the temporary files, restoring the writes and dropping every copy whose source is still there leaves the
      tree with just the removed sources moved. */
  lemma UndoRestores(sha: Bytes -> Digest, before: Files, plan: Plan, f0: Files, at: Progress, f1: Files, f2: Files,
                     f3: Files)
    requires PlanShape(plan) && MovesReady(sha, before, plan.moves) && Undoable(sha, before, plan, f0, at)
    requires f1 == f0 - (set t | t in at.temps)
    requires forall p :: At(f2, p) == if p in WritePaths(plan.writes[..at.writes]) then At(before, p) else At(f1, p)
    requires forall i :: 0 <= i < at.copies ==>
               At(f3, plan.moves[i].to)
               == if plan.moves[i].from in Sources(plan.moves[..at.gone]) then At(f2, plan.moves[i].to) else None
    requires forall p :: p !in Targets(plan.moves[..at.copies]) ==> At(f3, p) == At(f2, p)
    ensures Migrated(sha, before, f3, plan.moves[..at.gone], [])
  {
    var done := plan.moves[..at.gone];
    PathsApart(sha, before, plan, at);
    UndoKeepsRemoved(sha, before, plan, f0, at, f1, f2, f3);
    forall p | p !in Sources(done) && p !in Targets(done) && p !in WritePaths([]) ensures At(f3, p) == At(before, p) {
      if p in Targets(plan.moves[..at.copies]) {
        var i :| 0 <= i < at.copies && plan.moves[i].to == p;
        EarlierMove(plan.moves, at.gone, i);
      } else {
        assert At(f3, p) == At(f2, p);
      }
    }
  }

  /** A run that came to its end has done exactly what the plan says. */
  lemma CompletedIsMigrated(sha: Bytes -> Digest, before: Files, plan: Plan, f: Files, after: Files, at: Progress)
    requires PlanShape(plan) && MovesReady(sha, before, plan.moves)
    requires Undoable(sha, before, plan, after, at) && Staged(sha, after, plan.moves)
    requires at.gone == |plan.moves| && at.writes == |plan.writes|
    requires WritesMade(f, at.temps, plan.writes) && after == f - Sources(plan.moves)
    ensures Migrated(sha, before, after, plan.moves, plan.writes)
  {
    assert plan.moves[..|plan.moves|] == plan.moves && plan.writes[..|plan.writes|] == plan.writes;
    assert Targets(plan.moves[..at.copies]) <= Targets(plan.moves);
    forall w | w in plan.writes ensures At(after, w.path) == w.content {
      assert w.path in WritePaths(plan.writes);
    }
    forall p | p !in Sources(plan.moves) && p !in Targets(plan.moves) && p !in WritePaths(plan.writes)
      ensures At(after, p) == At(before, p)
    {
      if p in at.temps {
        assert p !in before && p !in f;
      }
    }
  }

  lemma {:induction false} CountSources(moves: seq<Move>)
    requires DistinctMoves(moves)
    ensures |Sources(moves)| == |moves|
  {
    if moves != [] {
      var init, m := moves[..|moves| - 1], moves[|moves| - 1];
      assert moves == init + [m];
      CountSources(init);
      assert Sources(moves) == Sources(init) + {m.from} && m.from !in Sources(init);
    }
  }

  lemma SavedPaths(before: Files, writes: seq<Write>)
    ensures forall p :: p in WritePaths(writes) <==>
              exists i :: 0 <= i < |Saved(before, writes)| && Saved(before, writes)[i].0 == p
  {
    forall p | p in WritePaths(writes)
      ensures exists i :: 0 <= i < |Saved(before, writes)| && Saved(before, writes)[i].0 == p
    {
      var w :| w in writes && w.path == p;
      var i :| 0 <= i < |writes| && writes[i] == w;
      assert Saved(before, writes)[i].0 == p;
    }
  }

  /** A source that has not been removed still holds what it held at the start. */
  lemma SourceIsStillThere(sha: Bytes -> Digest, before: Files, plan: Plan, f: Files, at: Progress, i: nat)
    requires PlanShape(plan) && MovesReady(sha, before, plan.moves) && Undoable(sha, before, plan, f, at)
    requires at.gone <= i < |plan.moves|
    ensures var m := plan.moves[i]; m.from in f && sha(f[m.from]) == m.sha
  {
    var m := plan.moves[i];
    assert m in plan.moves && m.from in Sources(plan.moves);
    PathsApart(sha, before, plan, at);
    EarlierMove(plan.moves, at.gone, i);
    assert m.from !in Touched(plan, at);
    assert At(f, m.from) == At(before, m.from);
  }

  /** Some name is free. */
  lemma {:induction false} FreeName(taken: set<Path>) returns (name: Path)
    ensures forall path :: path in taken ==> |path| < |name|
    decreases taken
  {
    if taken == {} {
      return [];
    }
    var path :| path in taken;
    var shorter := FreeName(taken - {path});
    name := seq(|shorter| + |path| + 1, _ => "");
  }

  /** The steps of an attempt that may raise, by the index of their move or write. */
  datatype Step =
    | MakeParents(move: nat) | Copy(move: nat)
    | ReadTarget(write: nat) | MakeWriteParents(write: nat) | Delete(write: nat)
    | CreateTemporary(write: nat) | FillTemporary(write: nat) | Replace(write: nat)
    | ReadCopy(move: nat) | Remove(move: nat)

  /** Every file that is to be deleted is there: removing one that is not raises. */
  predicate Deletable(before: Files, writes: seq<Write>) {
    forall w | w in writes :: w.content.None? ==> w.path in before
  }

  /** A working tree, and the record `apply_migration` keeps of what it has done to it. `mayFail` names the steps in
      which anything may go wrong; the others do what they are to do. */
  class Worktree {
    const sha: Bytes -> Digest
    const mayFail: Step -> bool
    var files: Files
    var createdDestinations: seq<Path>
    var previousWrites: seq<(Path, Option<Bytes>)>
    var temporaryFiles: seq<Path>
    var removedSources: set<Path>

    constructor (sha: Bytes -> Digest, mayFail: Step -> bool, files: Files)
      ensures this.sha == sha && this.mayFail == mayFail && this.files == files
    {
      this.sha, this.mayFail := sha, mayFail;
      this.files := files;
      createdDestinations, previousWrites, temporaryFiles, removedSources := [], [], [], {};
    }

    /** The record says the run came as far as `at`. */
    ghost predicate Records(before: Files, plan: Plan, at: Progress)
      reads this
    {
      && Within(plan, at)
      && createdDestinations == Tos(plan.moves[..at.copies])
      && previousWrites == Saved(before, plan.writes[..at.writes])
      && temporaryFiles == at.temps
      && removedSources == Sources(plan.moves[..at.gone])
    }

    /** No step goes wrong. */
    ghost predicate NothingFails() { forall step :: !mayFail(step) }

    // Disk operations: each may raise, which its result says.

    /** Copies a file. A copy that goes wrong may have left anything, or nothing, at the destination. */
    method CopyFile(step: Step, source: Path, destination: Path) returns (ok: bool)
      modifies `files
      ensures forall p :: p != destination ==> At(files, p) == At(old(files), p)
      ensures ok ==> destination in files
      ensures !mayFail(step) && source in old(files) ==> ok && At(files, destination) == At(old(files), source)
    {
      if source in files && !mayFail(step) {
        files := files[destination := files[source]];
        return true;
      }
      ok := *;
      var left: bool := *;
      if ok || left {
        var bytes: Bytes := *;
        files := files[destination := bytes];
      }
    }

    /** Removing a file that is not there raises. */
    method Unlink(step: Step, path: Path) returns (ok: bool)
      modifies `files
      ensures files == if ok then old(files) - {path} else old(files)
      ensures ok ==> path in old(files)
      ensures !mayFail(step) ==> (ok <==> path in old(files))
    {
      var raised: bool := *;
      ok := path in files && !(mayFail(step) && raised);
      if ok {
        files := files - {path};
      }
    }

    /** Copies one move to its destination and checks what arrived. */
    method StageMove(plan: Plan, ghost before: Files, i: nat) returns (ok: bool, ghost copies: nat)
      requires PlanShape(plan) && MovesReady(sha, before, plan.moves)
      requires i < |plan.moves| && |createdDestinations| == i
      requires Records(before, plan, Progress(i, 0, [], 0)) && Undoable(sha, before, plan, files, Progress(i, 0, [], 0))
      modifies `files, `createdDestinations
      ensures i <= copies <= i + 1 && (ok ==> copies == i + 1)
      ensures Records(before, plan, Progress(copies, 0, [], 0))
      ensures Undoable(sha, before, plan, files, Progress(copies, 0, [], 0))
      ensures ok ==> var m := plan.moves[i]; m.to in files && sha(files[m.to]) == m.sha
      ensures forall p :: p != plan.moves[i].to ==> At(files, p) == At(old(files), p)
      ensures NothingFails() ==> ok
    {
      var m := plan.moves[i];
      SourceIsStillThere(sha, before, plan, files, Progress(i, 0, [], 0), i);
      var raised: bool := *;
      if mayFail(MakeParents(i)) && raised {
        return false, i;
      }
      createdDestinations := createdDestinations + [m.to];
      var copied := CopyFile(Copy(i), m.from, m.to);
      ok, copies := copied && sha(files[m.to]) == m.sha, i + 1;
      assert plan.moves[..i + 1] == plan.moves[..i] + [m];
      StepStaysUndoable(sha, before, plan, old(files), Progress(i, 0, [], 0), files, Progress(i + 1, 0, [], 0));
    }

    /** Copies every move to its destination and checks what arrived. */
    method StageMoves(plan: Plan, ghost before: Files) returns (ok: bool, ghost copies: nat)
      requires PlanShape(plan) && MovesReady(sha, before, plan.moves)
      requires files == before && Records(before, plan, Progress(0, 0, [], 0))
      modifies `files, `createdDestinations
      ensures Records(before, plan, Progress(copies, 0, [], 0))
      ensures Undoable(sha, before, plan, files, Progress(copies, 0, [], 0))
      ensures ok ==> copies == |plan.moves| && Staged(sha, files, plan.moves)
      ensures NothingFails() ==> ok
    {
      ok, copies := true, 0;
      for i := 0 to |plan.moves|
        invariant ok && copies == i
        invariant Records(before, plan, Progress(i, 0, [], 0))
        invariant Undoable(sha, before, plan, files, Progress(i, 0, [], 0))
        invariant forall j :: 0 <= j < i ==>
                    plan.moves[j].to in files && sha(files[plan.moves[j].to]) == plan.moves[j].sha
      {
        ghost var f := files;
        ok, copies := StageMove(plan, before, i);
        if !ok {
          return;
        }
        forall j | 0 <= j < i ensures At(files, plan.moves[j].to) == At(f, plan.moves[j].to) {
        }
      }
    }

    /** The tree while the writes are made. */
    ghost predicate Writing(before: Files, plan: Plan, at: Progress)
      reads this
    {
      && PlanShape(plan) && MovesReady(sha, before, plan.moves)
      && Records(before, plan, at) && Undoable(sha, before, plan, files, at)
      && at.gone == 0 && at.copies == |plan.moves| && Staged(sha, files, plan.moves)
    }

    /** Remembers what a target holds before it is written. */
    method SaveTarget(plan: Plan, ghost before: Files, ghost at: Progress)
      requires Writing(before, plan, at) && at.writes < |plan.writes| && |previousWrites| == at.writes
      requires WritesMade(files, temporaryFiles, plan.writes[..at.writes])
      modifies `previousWrites
      ensures Writing(before, plan, at.(writes := at.writes + 1))
    {
      var w := plan.writes[|previousWrites|];
      UnwrittenTargetIsUntouched(sha, before, plan, files, at);
      previousWrites := previousWrites + [(w.path, At(files, w.path))];
      ghost var next := at.(writes := at.writes + 1);
      assert plan.writes[..next.writes] == plan.writes[..at.writes] + [w];
      StepStaysUndoable(sha, before, plan, files, at, files, next);
    }

    /** Deletes the target of the write last saved. */
    method DeleteTarget(plan: Plan, ghost before: Files, ghost at: Progress, i: nat, path: Path) returns (ok: bool)
      requires Writing(before, plan, at) && path in WritePaths(plan.writes[..at.writes])
      modifies `files
      ensures Writing(before, plan, at)
      ensures files == if ok then old(files) - {path} else old(files)
      ensures ok ==> path in old(files)
      ensures NothingFails() ==> (ok <==> path in old(files))
    {
      ok := Unlink(Delete(i), path);
      StepStaysUndoable(sha, before, plan, old(files), at, files, at);
      assert WritePaths(plan.writes[..at.writes]) <= WritePaths(plan.writes);
      ChangeKeepsStaged(sha, plan.moves, old(files), files, {path});
    }

    /** Puts a new content at the target of the write last saved, by way of a temporary file beside it. */
    method ReplaceTarget(plan: Plan, ghost before: Files, ghost from: Progress, i: nat, path: Path, content: Bytes)
      returns (ok: bool, ghost temps: seq<Path>)
      requires Writing(before, plan, from) && path in WritePaths(plan.writes[..from.writes])
      modifies `files, `temporaryFiles
      ensures Writing(before, plan, from.(temps := temps))
      ensures ok ==> |temps| > 0 && temps[..|temps| - 1] == from.temps && temps[|temps| - 1] !in old(files)
                     && files == (old(files) - {temps[|temps| - 1]})[path := content]
      ensures NothingFails() ==> ok
    {
      var raised: bool := *;
      if mayFail(CreateTemporary(i)) && raised {
        return false, from.temps;
      }
      ghost var free := FreeName(files.Keys);
      assert free !in files;
      var temporary: Path :| temporary !in files;
      ghost var f := files;
      temporaryFiles := temporaryFiles + [temporary];
      temps := from.temps + [temporary];
      var partial: Bytes, unfilled: bool, unreplaced: bool := *, *, *;
      var filled := !(mayFail(FillTemporary(i)) && unfilled);
      files := files[temporary := if filled then content else partial];
      ok := filled && !(mayFail(Replace(i)) && unreplaced);
      if ok {
        files := (files - {temporary})[path := content];
        assert files == (f - {temporary})[path := content];
      }
      WriteStaysUndoable(sha, before, plan, f, from, temporary, path, files);
    }

    /** Makes one write: a deletion directly, a new content through a temporary file. */
    method MakeWrite(plan: Plan, ghost before: Files, i: nat, ghost from: Progress)
      returns (ok: bool, ghost at: Progress)
      requires Writing(before, plan, from) && from.writes == i == |previousWrites| < |plan.writes|
      requires WritesMade(files, temporaryFiles, plan.writes[..i])
      modifies `files, `previousWrites, `temporaryFiles
      ensures Writing(before, plan, at)
      ensures ok ==> at.writes == i + 1 && WritesMade(files, temporaryFiles, plan.writes[..i + 1])
      ensures ok ==> Deletable(before, [plan.writes[i]])
      ensures NothingFails() && Deletable(before, [plan.writes[i]]) ==> ok
    {
      var w := plan.writes[i];
      ghost var f := files;
      UnwrittenTargetIsUntouched(sha, before, plan, files, from);
      var raised: bool := *;
      if mayFail(ReadTarget(i)) && raised {
        return false, from;
      }
      SaveTarget(plan, before, from);
      at := from.(writes := i + 1);
      assert w in plan.writes[..i + 1];
      raised := *;
      if mayFail(MakeWriteParents(i)) && raised {
        return false, at;
      }
      assert [w][0] == w;
      match w.content {
        case None =>
          ok := DeleteTarget(plan, before, at, i, w.path);
          DeletionMade(f, temporaryFiles, plan.writes, i);
        case Some(content) =>
          ghost var temps;
          ok, temps := ReplaceTarget(plan, before, at, i, w.path, content);
          if ok {
            ghost var t := temps[|temps| - 1];
            assert temps == at.temps + [t];
            ReplacementMade(f, at.temps, plan.writes, i, t, content);
          }
          at := at.(temps := temps);
      }
    }

    /** Makes every write of the plan. */
    method MakeWrites(plan: Plan, ghost before: Files, ghost from: Progress) returns (ok: bool, ghost at: Progress)
      requires Writing(before, plan, from) && from.writes == 0 && from.temps == []
      modifies `files, `previousWrites, `temporaryFiles
      ensures Writing(before, plan, at)
      ensures ok ==> at.writes == |plan.writes| && WritesMade(files, temporaryFiles, plan.writes)
      ensures ok ==> Deletable(before, plan.writes)
      ensures NothingFails() && Deletable(before, plan.writes) ==> ok
    {
      at := from;
      for i := 0 to |plan.writes|
        invariant Writing(before, plan, at) && at.writes == i
        invariant WritesMade(files, temporaryFiles, plan.writes[..i]) && Deletable(before, plan.writes[..i])
      {
        assert |previousWrites| == i;
        assert plan.writes[i] in plan.writes && plan.writes[..i + 1] == plan.writes[..i] + [plan.writes[i]];
        ok, at := MakeWrite(plan, before, i, at);
        if !ok {
          return;
        }
      }
      assert plan.writes[..|plan.writes|] == plan.writes;
      ok := true;
    }

    /** Checks every copy once more, just before the sources go. */
    method VerifyCopies(plan: Plan) returns (ok: bool)
      ensures ok ==> Staged(sha, files, plan.moves)
      ensures NothingFails() && Staged(sha, files, plan.moves) ==> ok
    {
      for i := 0 to |plan.moves|
        invariant forall j :: 0 <= j < i ==>
                    plan.moves[j].to in files && sha(files[plan.moves[j].to]) == plan.moves[j].sha
      {
        var m := plan.moves[i];
        var raised: bool := *;
        if (mayFail(ReadCopy(i)) && raised) || m.to !in files || sha(files[m.to]) != m.sha {
          return false;
        }
      }
      ok := true;
    }

    /** Removes the sources one by one. */
    method RemoveSources(plan: Plan, ghost before: Files, ghost from: Progress) returns (ok: bool, ghost at: Progress)
      requires Writing(before, plan, from)
      modifies `files, `removedSources
      ensures Records(before, plan, at) && Undoable(sha, before, plan, files, at) && Staged(sha, files, plan.moves)
      ensures at == from.(gone := at.gone) && (ok ==> at.gone == |plan.moves|)
      ensures files == old(files) - Sources(plan.moves[..at.gone])
      ensures NothingFails() ==> ok
    {
      at := from;
      for i := 0 to |plan.moves|
        invariant at == from.(gone := i)
        invariant Records(before, plan, at) && Undoable(sha, before, plan, files, at) && Staged(sha, files, plan.moves)
        invariant files == old(files) - Sources(plan.moves[..i])
      {
        var m := plan.moves[i];
        assert plan.moves[..i + 1] == plan.moves[..i] + [m];
        ghost var f := files;
        SourceIsStillThere(sha, before, plan, files, at, i);
        ok := Unlink(Remove(i), m.from);
        if !ok {
          return;
        }
        RemovalStaysUndoable(sha, before, plan, f, at);
        removedSources := removedSources + {m.from};
        at := at.(gone := i + 1);
      }
      ok := true;
    }

    // The undo.

    method DropTemporaries()
      modifies `files
      ensures files == old(files) - (set t | t in temporaryFiles)
    {
      for i := 0 to |temporaryFiles|
        invariant files == old(files) - (set t | t in temporaryFiles[..i])
      {
        files := files - {temporaryFiles[i]};
        assert temporaryFiles[..i + 1] == temporaryFiles[..i] + [temporaryFiles[i]];
      }
      assert temporaryFiles[..|temporaryFiles|] == temporaryFiles;
    }

    method RestoreWrites(ghost before: Files, ghost writes: seq<Write>)
      requires previousWrites == Saved(before, writes)
      modifies `files
      ensures forall p :: At(files, p) == if p in WritePaths(writes) then At(before, p) else At(old(files), p)
    {
      SavedPaths(before, writes);
      hide WritePaths;
      for n := |previousWrites| downto 0
        invariant forall i :: n <= i < |previousWrites| ==> At(files, previousWrites[i].0) == previousWrites[i].1
        invariant forall p :: (forall i :: n <= i < |previousWrites| ==> previousWrites[i].0 != p)
                    ==> At(files, p) == At(old(files), p)
      {
        var (path, previous) := previousWrites[n];
        files := match previous
          case None => files - {path}
          case Some(content) => files[path := content];
      }
    }

    method DropCopies(plan: Plan, ghost copies: nat)
      requires DistinctMoves(plan.moves) && copies <= |plan.moves|
      requires createdDestinations == Tos(plan.moves[..copies])
      modifies `files
      ensures forall i :: 0 <= i < copies ==>
                At(files, plan.moves[i].to)
                == if plan.moves[i].from in removedSources then At(old(files), plan.moves[i].to) else None
      ensures forall p :: p !in Targets(plan.moves[..copies]) ==> At(files, p) == At(old(files), p)
    {
      for n := |createdDestinations| downto 0
        invariant forall i :: 0 <= i < copies ==>
                    At(files, plan.moves[i].to)
                    == if i < n || plan.moves[i].from in removedSources then At(old(files), plan.moves[i].to) else None
        invariant forall p :: p !in Targets(plan.moves[..copies]) ==> At(files, p) == At(old(files), p)
      {
        var path := createdDestinations[n];
        SourceOfMove(plan.moves, n);
        assert plan.moves[..copies][n] == plan.moves[n] && plan.moves[n] in plan.moves[..copies];
        if SourceOf(plan.moves, path) !in removedSources {
          files := files - {path};
        }
      }
    }

    /** Undoes everything but the removals that were made: the copies of those sources are kept. */
    method Rollback(plan: Plan, ghost before: Files, ghost at: Progress)
      requires PlanShape(plan) && MovesReady(sha, before, plan.moves)
      requires Records(before, plan, at) && Undoable(sha, before, plan, files, at)
      modifies `files
      ensures Migrated(sha, before, files, plan.moves[..at.gone], [])
    {
      hide Migrated, MovesReady, Undoable;
      ghost var f0 := files;
      DropTemporaries();
      ghost var f1 := files;
      RestoreWrites(before, plan.writes[..at.writes]);
      ghost var f2 := files;
      DropCopies(plan, at.copies);
      UndoRestores(sha, before, plan, f0, at, f1, f2, files);
    }

    /** The body of the attempt: stage, write, verify, remove. */
    method Attempt(plan: Plan, ghost before: Files) returns (ok: bool, ghost at: Progress)
      requires PlanShape(plan) && MovesReady(sha, before, plan.moves) && files == before
      requires Records(before, plan, Progress(0, 0, [], 0))
      modifies this
      ensures Records(before, plan, at) && Undoable(sha, before, plan, files, at)
      ensures ok ==> Migrated(sha, before, files, plan.moves, plan.writes)
      ensures ok ==> Deletable(before, plan.writes)
      ensures NothingFails() && Deletable(before, plan.writes) ==> ok
    {
      ghost var copies;
      ok, copies := StageMoves(plan, before);
      at := Progress(copies, 0, [], 0);
      if !ok {
        return;
      }
      ok, at := MakeWrites(plan, before, at);
      if !ok {
        return;
      }
      ok := VerifyCopies(plan);
      if !ok {
        return;
      }
      ghost var f := files;
      ok, at := RemoveSources(plan, before, at);
      if ok {
        assert plan.moves[..|plan.moves|] == plan.moves && plan.writes[..|plan.writes|] == plan.writes;
        CompletedIsMigrated(sha, before, plan, f, files, at);
      }
    }

    /** Attempts the plan and, when a step raises, undoes it. */
    method Carry(plan: Plan) returns (outcome: Outcome)
      requires PlanShape(plan) && MovesReady(sha, files, plan.moves)
      modifies this
      ensures outcome.Applied? || outcome.RolledBack?
      ensures outcome.Applied? ==> Deletable(old(files), plan.writes)
      ensures NothingFails() && Deletable(old(files), plan.writes) ==> outcome.Applied?
      ensures outcome.Applied? ==> Migrated(sha, old(files), files, plan.moves, plan.writes)
      ensures outcome.RolledBack? ==>
                outcome.removed <= |plan.moves|
                && Migrated(sha, old(files), files, plan.moves[..outcome.removed], [])
    {
      ghost var before := files;
      createdDestinations, previousWrites, temporaryFiles, removedSources := [], [], [], {};
      var ok, at := Attempt(plan, before);
      if ok {
        return Applied;
      }
      Rollback(plan, before, at);
      CountSources(plan.moves[..at.gone]);
      outcome := RolledBack(|removedSources|);
    }

    /** `apply_migration`. `clean` and `headMatches` are what Git says of the tree and of the mapping's commit. An
        attempt in which no step goes wrong succeeds exactly when it is not to delete a file that must not exist. */
    method Apply(plan: Plan, clean: bool, headMatches: bool) returns (outcome: Outcome)
      requires PlanShape(plan)
      modifies this
      ensures outcome == Refused(DirtyWorktree) <==> !clean
      ensures outcome == AlreadyDone <==> clean && AlreadyApplied(sha, old(files), plan)
      ensures outcome == Refused(StaleCommit) <==> clean && !AlreadyApplied(sha, old(files), plan) && !headMatches
      ensures outcome == Refused(NotReady) <==>
                clean && !AlreadyApplied(sha, old(files), plan) && headMatches
                && !(MovesReady(sha, old(files), plan.moves) && WritesReady(sha, old(files), plan.writes))
      ensures outcome.Refused? || outcome.AlreadyDone? ==> files == old(files)
      ensures outcome.Applied? ==> forall w :: w in plan.writes ==> w.content.Some? || w.expected.Some?
      ensures outcome.RolledBack? && NothingFails() ==>
                exists w :: w in plan.writes && w.content.None? && w.expected.None?
      ensures outcome.Applied? ==> Migrated(sha, old(files), files, plan.moves, plan.writes)
      ensures outcome.RolledBack? ==>
                outcome.removed <= |plan.moves|
                && Migrated(sha, old(files), files, plan.moves[..outcome.removed], [])
    {
      if !clean {
        return Refused(DirtyWorktree);
      }
      if AlreadyApplied(sha, files, plan) {
        return AlreadyDone;
      }
      if !headMatches {
        return Refused(StaleCommit);
      }
      if !(MovesReady(sha, files, plan.moves) && WritesReady(sha, files, plan.writes)) {
        return Refused(NotReady);
      }
      outcome := Carry(plan);
    }
  }
}
