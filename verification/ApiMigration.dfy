/**
 The rename of the contract packages: every tracked file of a package moves to the package's new directory, its
 `src/api` level is flattened, and text is rewritten; then the plan is applied, and undone when a step raises.

 How text is rewritten is an input (`rewrite`); so is whether the declarations of the packages are ones the script can
 migrate.
 */
module ApiMigration {
  import opened Common

  const PACKAGES: seq<string> := ["auth-bearer", "breaker", "resilient", "retry", "transport"]

  function OldDir(package: string): Path { ["scm", "main", package] }

  function NewDir(package: string): Path { ["scm", "main", package + "-api"] }

  const MANIFEST: string := "Cargo.toml"
  const LOCKFILE: Path := ["scm", "Cargo.lock"]
  const API_MODULE: Path := ["src", "api", "mod.rs"]

  /** The package a path is in, if it is in one. */
  function PackageOf(packages: seq<string>, path: Path): Option<string> {
    if packages == [] then None
    else if OldDir(packages[0]) <= path then Some(packages[0]) else PackageOf(packages[1..], path)
  }

  lemma {:induction false} PackageOfIs(packages: seq<string>, path: Path)
    ensures match PackageOf(packages, path)
            case None => forall p :: p in packages ==> !(OldDir(p) <= path)
            case Some(p) => p in packages && OldDir(p) <= path
  {
    if packages != [] {
      PackageOfIs(packages[1..], path);
    }
  }

  /** The rest of a path, below its package, is below `src/api`. */
  predicate InApi(rest: Path) { |rest| > 2 && rest[..2] == ["src", "api"] }

  function Flattened(rest: Path): Path { if InApi(rest) then ["src"] + rest[2..] else rest }

  /** Where a tracked file goes; the module file of a flattened level goes nowhere. */
  function Place(path: Path): Option<Path> {
    match PackageOf(PACKAGES, path)
    case None => Some(path)
    case Some(package) =>
      PackageOfIs(PACKAGES, path);
      if path[3..] == API_MODULE then None else Some(NewDir(package) + Flattened(path[3..]))
  }

  datatype PlannedFile = PlannedFile(source: Path, destination: Option<Path>, content: Bytes)

  datatype Refusal =
    | NothingTracked | MissingPackage | PartlyMigrated | BadDeclarations | MissingFile | SharedDestination | Occupied

  // ---------------------------------------------------------------- new directories are new

  lemma EndsOtherwise(q: string)
    requires q in PACKAGES
    ensures q != "" && q[|q| - 1] != 'i'
  {
  }

  lemma NewDirsAreNotOld(p: string, q: string)
    requires q in PACKAGES
    ensures p + "-api" != q
  {
    assert (p + "-api")[|p| + 3] == 'i' && |p + "-api"| == |p| + 4;
    EndsOtherwise(q);
  }

  lemma InNoOldDir(package: string, rest: Path, p: string)
    requires p in PACKAGES
    ensures !(OldDir(p) <= NewDir(package) + rest)
  {
    NewDirsAreNotOld(package, p);
    assert (NewDir(package) + rest)[2] != OldDir(p)[2];
  }

  /** A file in a new directory is in no old one, and stays where it is. */
  lemma NewPlacesStay(package: string, rest: Path)
    ensures Place(NewDir(package) + rest) == Some(NewDir(package) + rest)
  {
    forall p | p in PACKAGES ensures !(OldDir(p) <= NewDir(package) + rest) {
      InNoOldDir(package, rest, p);
    }
    PackageOfIs(PACKAGES, NewDir(package) + rest);
  }

  /** A file that moves goes to a place from which it would not move again. */
  lemma MovedPlaceStays(path: Path)
    requires Place(path).Some? && Place(path).value != path
    ensures Place(Place(path).value) == Place(path)
  {
    PackageOfIs(PACKAGES, path);
    NewPlacesStay(PackageOf(PACKAGES, path).value, Flattened(path[3..]));
  }

  /** `q` is `p` with its `src/api` level flattened. */
  ghost predicate Flattens(p: Path, q: Path, package: string) {
    && package in PACKAGES && OldDir(package) <= p && OldDir(package) <= q
    && InApi(p[3..]) && q[3..] == Flattened(p[3..])
  }

  lemma FlattenedOnce(s: Path, t: Path)
    requires Flattened(s) == Flattened(t)
    ensures s == t || (InApi(s) && t == Flattened(s)) || (InApi(t) && s == Flattened(t))
  {
    if InApi(s) && InApi(t) {
      assert s[2..] == (["src"] + s[2..])[1..] == t[2..];
      assert s == s[..2] + s[2..] && t == t[..2] + t[2..];
    }
  }

  lemma SameName(a: string, b: string)
    requires a + "-api" == b + "-api"
    ensures a == b
  {
    assert a == (a + "-api")[..|a|] && b == (b + "-api")[..|b|];
  }

  lemma SamePlace(a: string, b: string, s: Path, t: Path)
    requires NewDir(a) + s == NewDir(b) + t
    ensures a == b && s == t
  {
    assert (NewDir(a) + s)[2] == a + "-api" && (NewDir(b) + t)[2] == b + "-api";
    SameName(a, b);
    assert (NewDir(a) + s)[3..] == s && (NewDir(b) + t)[3..] == t;
  }

  /** Two files go to one place only when one is the other with its `src/api` level flattened, or is already where the
      other goes. */
  lemma CollisionsAreFlattenings(p: Path, q: Path)
    requires p != q && Place(p).Some? && Place(p) == Place(q)
    ensures Place(p) == Some(q) || Place(q) == Some(p)
            || exists package :: Flattens(p, q, package) || Flattens(q, p, package)
  {
    PackageOfIs(PACKAGES, p);
    PackageOfIs(PACKAGES, q);
    var a, b := PackageOf(PACKAGES, p), PackageOf(PACKAGES, q);
    if a.Some? && b.Some? {
      var s, t := p[3..], q[3..];
      hide PackageOf, Flattened;
      SamePlace(a.value, b.value, Flattened(s), Flattened(t));
      assert p == OldDir(a.value) + s && q == OldDir(b.value) + t;
      FlattenedOnce(s, t);
      assert InApi(s) && t == Flattened(s) ==> Flattens(p, q, a.value);
      assert InApi(t) && s == Flattened(t) ==> Flattens(q, p, a.value);
    }
  }

  // ---------------------------------------------------------------- the plan

  function PlannedOf(files: Files, rewrite: (Path, Bytes) -> Bytes, path: Path): PlannedFile {
    PlannedFile(path, Place(path), if path in files && Place(path).Some? then rewrite(path, files[path]) else [])
  }

  function PlanOf(files: Files, rewrite: (Path, Bytes) -> Bytes, tracked: seq<Path>): seq<PlannedFile> {
    seq(|tracked|, i requires 0 <= i < |tracked| => PlannedOf(files, rewrite, tracked[i]))
  }

  /** The files that are kept exist, no two go to one place, and none goes to a place an untracked file is at. */
  ghost predicate Placeable(files: Files, tracked: seq<Path>, n: nat)
    requires n <= |tracked|
  {
    && (forall i :: 0 <= i < n && Place(tracked[i]).Some? ==> tracked[i] in files)
    && (forall i, j :: 0 <= i < j < n && Place(tracked[i]).Some? ==> Place(tracked[i]) != Place(tracked[j]))
    && (forall i :: 0 <= i < n && Place(tracked[i]).Some? && Place(tracked[i]).value != tracked[i] ==>
          !(Place(tracked[i]).value in files && Place(tracked[i]).value !in tracked))
  }

  predicate Active(files: Files, package: string) { OldDir(package) + [MANIFEST] in files }

  predicate Completed(files: Files, package: string) {
    !Active(files, package) && NewDir(package) + [MANIFEST] in files
  }

  /** Plans the whole migration, or nothing when every package is migrated already. */
  method PlanMigration(files: Files, tracked: seq<Path>, declarationsOk: bool, rewrite: (Path, Bytes) -> Bytes)
    returns (r: Result<seq<PlannedFile>, Refusal>)
    ensures r.Ok? <==> tracked != [] && ((forall p :: p in PACKAGES ==> Completed(files, p))
                                         || ((forall p :: p in PACKAGES ==> Active(files, p)) && declarationsOk
                                             && Placeable(files, tracked, |tracked|)))
    ensures r.Ok? && (forall p :: p in PACKAGES ==> Completed(files, p)) ==> r.value == []
    ensures r == Err(NothingTracked) <==> tracked == []
    ensures r == Err(MissingPackage) ==> exists p :: p in PACKAGES && !Active(files, p) && !Completed(files, p)
    ensures r == Err(PartlyMigrated) ==>
              (exists p :: p in PACKAGES && Active(files, p)) && exists p :: p in PACKAGES && Completed(files, p)
    ensures r == Err(BadDeclarations) ==> !declarationsOk
    ensures r == Err(MissingFile) ==> exists i :: 0 <= i < |tracked| && Place(tracked[i]).Some? && tracked[i] !in files
    ensures r == Err(SharedDestination) ==>
              exists i, j :: 0 <= i < j < |tracked| && Place(tracked[i]).Some? && Place(tracked[i]) == Place(tracked[j])
    ensures r == Err(Occupied) ==>
              exists i :: 0 <= i < |tracked| && Place(tracked[i]).Some? && Place(tracked[i]).value in files
                          && Place(tracked[i]).value !in tracked
    ensures r.Ok? && r.value != [] ==>
              r.value == PlanOf(files, rewrite, tracked) && Placeable(files, tracked, |tracked|)
              && forall p :: p in PACKAGES ==> Active(files, p)
  {
    hide Place;
    if tracked == [] {
      return Err(NothingTracked);
    }
    assert PACKAGES[0] in PACKAGES;
    if exists p | p in PACKAGES :: !Active(files, p) && !Completed(files, p) {
      return Err(MissingPackage);
    }
    if forall p | p in PACKAGES :: !Active(files, p) {
      return Ok([]);
    }
    if exists p | p in PACKAGES :: Completed(files, p) {
      return Err(PartlyMigrated);
    }
    if !declarationsOk {
      return Err(BadDeclarations);
    }
    var planned: seq<PlannedFile>, destinations: set<Path> := [], {};
    for i := 0 to |tracked|
      invariant planned == PlanOf(files, rewrite, tracked[..i])
      invariant destinations == (set j | 0 <= j < i && Place(tracked[j]).Some? :: Place(tracked[j]).value)
      invariant Placeable(files, tracked, i)
    {
      var source := tracked[i];
      var place := Place(source);
      if place.Some? {
        if source !in files {
          return Err(MissingFile);
        }
        if place.value in destinations {
          return Err(SharedDestination);
        }
        if place.value != source && place.value in files && place.value !in tracked {
          return Err(Occupied);
        }
        destinations := destinations + {place.value};
      }
      planned := planned + [PlannedOf(files, rewrite, source)];
    }
    assert tracked[..|tracked|] == tracked;
    r := Ok(planned);
  }

  /** What applying a plan relies on. */
  ghost predicate PlanShape(files: Files, plan: seq<PlannedFile>) {
    && (forall f, g :: f in plan && g in plan && f.source == g.source ==> f == g)
    && (forall i, j :: 0 <= i < j < |plan| && plan[i].destination.Some? ==> plan[i].destination != plan[j].destination)
    && (forall f :: f in plan && f.destination.Some? && f.destination.value != f.source ==>
          f.destination.value !in files)
    && (forall f, g :: f in plan && g in plan && f.destination.Some? && f.destination.value != f.source ==>
          f.destination.value != g.source)
  }

  lemma MovedTargetIsNotTracked(files: Files, tracked: seq<Path>, i: nat, j: nat)
    requires Placeable(files, tracked, |tracked|) && i < |tracked| && j < |tracked|
    requires Place(tracked[i]).Some? && Place(tracked[i]).value != tracked[i]
    ensures Place(tracked[i]).value != tracked[j]
  {
    MovedPlaceStays(tracked[i]);
    hide Place;
    assert i != j && Place(tracked[j]).Some? ==> Place(tracked[i]) != Place(tracked[j]);
  }

  /** Every plan has that shape: a moved file goes to a place that is free, and that is no tracked file's own. */
  lemma PlansHaveShape(files: Files, rewrite: (Path, Bytes) -> Bytes, tracked: seq<Path>)
    requires Placeable(files, tracked, |tracked|)
    ensures PlanShape(files, PlanOf(files, rewrite, tracked))
  {
    var plan := PlanOf(files, rewrite, tracked);
    forall i, j | 0 <= i < |plan| && 0 <= j < |plan| && Place(tracked[i]).Some? && Place(tracked[i]).value != tracked[i]
      ensures Place(tracked[i]).value != tracked[j]
    {
      MovedTargetIsNotTracked(files, tracked, i, j);
    }
    forall f | f in plan && f.destination.Some? && f.destination.value != f.source
      ensures f.destination.value !in files && forall g :: g in plan ==> f.destination.value != g.source
    {
      var i :| 0 <= i < |plan| && plan[i] == f;
      assert f.destination.value !in tracked;
    }
  }

  // ---------------------------------------------------------------- the image of a plan

  function Sources(plan: seq<PlannedFile>): set<Path> { set f | f in plan :: f.source }

  function Targets(plan: seq<PlannedFile>): set<Path> {
    set f | f in plan && f.destination.Some? :: f.destination.value
  }

  predicate Leaves(f: PlannedFile) { f.destination != Some(f.source) }

  /** Every path applying the plan may change: the sources, the targets and, when it is refreshed, the lock file. */
  function Touchable(plan: seq<PlannedFile>, refresh: bool): set<Path> {
    Sources(plan) + Targets(plan) + if refresh then {LOCKFILE} else {}
  }

  /** `after` is the planned image of `before`: every kept file at its place with its new content, no file left at a
      place it moved from or was dropped from, and nothing else changed. What refreshing does to the lock file is not
      said. */
  ghost predicate ImageOf(before: Files, after: Files, plan: seq<PlannedFile>, refresh: bool) {
    && (forall f :: f in plan && f.destination.Some? && !(refresh && f.destination.value == LOCKFILE)
          ==> At(after, f.destination.value) == Some(f.content))
    && (forall f :: f in plan && Leaves(f) && !(refresh && f.source == LOCKFILE) ==> f.source !in after)
    && (forall p :: p !in Touchable(plan, refresh) ==> At(after, p) == At(before, p))
  }

  /** No file is left below an old package directory, or at the flattened level of a new one. */
  predicate Cleared(files: Files) {
    && (forall path, package | path in files && package in PACKAGES :: !(OldDir(package) <= path))
    && (forall path, package | path in files && package in PACKAGES :: !(NewDir(package) + ["src", "api"] <= path))
  }

  /** In the image every tracked file that is kept is at its place, with its content rewritten. */
  lemma ImageHoldsRewrittenFiles(files: Files, rewrite: (Path, Bytes) -> Bytes, tracked: seq<Path>, after: Files,
                                 refresh: bool, path: Path)
    requires Placeable(files, tracked, |tracked|) && ImageOf(files, after, PlanOf(files, rewrite, tracked), refresh)
    requires path in tracked && Place(path).Some? && !(refresh && Place(path).value == LOCKFILE)
    ensures path in files && At(after, Place(path).value) == Some(rewrite(path, files[path]))
  {
    var plan := PlanOf(files, rewrite, tracked);
    var i :| 0 <= i < |tracked| && tracked[i] == path;
    assert plan[i] in plan && plan[i].destination == Place(path);
  }

  // ---------------------------------------------------------------- what the last checks find

  predicate BelowOld(path: Path) { exists package | package in PACKAGES :: OldDir(package) <= path }

  /** At or below the level that should have been flattened. */
  predicate BelowApi(path: Path) { exists package | package in PACKAGES :: NewDir(package) + ["src", "api"] <= path }

  lemma PlacesAreNotOld(path: Path)
    requires Place(path).Some?
    ensures !BelowOld(Place(path).value)
  {
    PackageOfIs(PACKAGES, path);
    var package := PackageOf(PACKAGES, path);
    if package.Some? {
      forall p | p in PACKAGES ensures !(OldDir(p) <= Place(path).value) {
        InNoOldDir(package.value, Flattened(path[3..]), p);
      }
    }
  }

  lemma PairFirst(path: Path)
    ensures ["src", "api"] <= path <==> |path| >= 2 && path[0] == "src" && path[1] == "api"
    ensures |path| >= 2 ==> (path[..2] == ["src", "api"] <==> path[0] == "src" && path[1] == "api")
  {
  }

  lemma StartsWithApi(rest: Path)
    ensures ["src", "api"] <= Flattened(rest) <==> rest == ["src", "api"] || ["src", "api", "api"] <= rest
  {
    PairFirst(rest);
    PairFirst(Flattened(rest));
    assert |rest| > 2 ==>
        (["src", "api", "api"] <= rest <==> rest[0] == "src" && rest[1] == "api" && rest[2] == "api");
  }

  lemma NewDirBelowApi(path: Path, package: string)
    requires package in PACKAGES && NewDir(package) <= path
    ensures BelowApi(path) <==> ["src", "api"] <= path[3..]
  {
  }

  /** Flattening takes one level away, so a file of a package ends up at the level again exactly when it was in an `api`
      below it, or is itself called `src/api`. */
  lemma FlattenedOnlyOnce(path: Path, package: string)
    requires package in PACKAGES && OldDir(package) <= path && Place(path).Some?
    ensures BelowApi(Place(path).value) <==> path[3..] == ["src", "api"] || ["src", "api", "api"] <= path[3..]
  {
    PackageOfIs(PACKAGES, path);
    var found := PackageOf(PACKAGES, path).value;
    assert found == OldDir(found)[2] == path[2] == OldDir(package)[2];
    var to := Place(path).value;
    assert to[..3] == NewDir(package) && to[3..] == Flattened(path[3..]);
    NewDirBelowApi(to, package);
    StartsWithApi(path[3..]);
  }

  /** The file stands in the way of the last checks. */
  predicate InTheWay(tracked: seq<Path>, path: Path) {
    if path in tracked then Place(path).Some? && BelowApi(Place(path).value) else BelowOld(path) || BelowApi(path)
  }

  /** A file that is there and untracked is where no planned file goes. */
  lemma UntrackedIsNoTarget(files: Files, rewrite: (Path, Bytes) -> Bytes, tracked: seq<Path>, p: Path)
    requires Placeable(files, tracked, |tracked|) && p in files && p !in tracked
    ensures p !in Targets(PlanOf(files, rewrite, tracked))
  {
  }

  lemma SourcesAreTracked(files: Files, rewrite: (Path, Bytes) -> Bytes, tracked: seq<Path>, p: Path)
    ensures p in Sources(PlanOf(files, rewrite, tracked)) <==> p in tracked
  {
    var plan := PlanOf(files, rewrite, tracked);
    if p in tracked {
      var i :| 0 <= i < |tracked| && tracked[i] == p;
      assert plan[i] in plan;
    }
  }

  lemma LockIsNowhere()
    ensures !BelowOld(LOCKFILE) && !BelowApi(LOCKFILE)
  {
  }

  lemma ClearedIff(files: Files)
    ensures Cleared(files) <==> forall q :: q in files ==> !BelowOld(q) && !BelowApi(q)
  {
  }

  /** The image of a plan passes the last checks exactly when no file of the tree stood in the way. */
  lemma ImageIsCleared(files: Files, rewrite: (Path, Bytes) -> Bytes, tracked: seq<Path>, after: Files, refresh: bool)
    requires Placeable(files, tracked, |tracked|)
    requires ImageOf(files, after, PlanOf(files, rewrite, tracked), refresh)
    ensures Cleared(after) <==> forall p :: p in files ==> !InTheWay(tracked, p)
  {
    var plan := PlanOf(files, rewrite, tracked);
    hide Place, BelowOld, BelowApi;
    LockIsNowhere();
    forall q | q in after && (BelowOld(q) || BelowApi(q)) ensures exists p :: p in files && InTheWay(tracked, p) {
      if q in Targets(plan) {
        var i :| 0 <= i < |plan| && plan[i].destination == Some(q);
        PlacesAreNotOld(tracked[i]);
        assert tracked[i] in files && InTheWay(tracked, tracked[i]);
      } else {
        SourcesAreTracked(files, rewrite, tracked, q);
        assert At(after, q) == At(files, q);
      }
    }
    forall p | p in files && InTheWay(tracked, p) ensures exists q :: q in after && (BelowOld(q) || BelowApi(q)) {
      if p in tracked {
        var i :| 0 <= i < |tracked| && tracked[i] == p;
        assert plan[i] in plan && plan[i].destination == Place(p);
        assert At(after, Place(p).value) == Some(plan[i].content);
      } else {
        SourcesAreTracked(files, rewrite, tracked, p);
        UntrackedIsNoTarget(files, rewrite, tracked, p);
        assert At(after, p) == At(files, p);
      }
    }
    ClearedIff(after);
  }

  // ---------------------------------------------------------------- carrying it out

  datatype Outcome = RefusedDirty | Unchanged | Unreadable | Applied | RolledBack

  /** A target was no file at the start, unless it is a source. */
  lemma RestoredPath(before: Files, plan: seq<PlannedFile>, refresh: bool, p: Path)
    requires PlanShape(before, plan) && Sources(plan) <= before.Keys
    ensures p in Targets(plan) && p !in Sources(plan) ==> p !in before
  {
  }

  /** The target of a kept file is no place another file leaves. */
  lemma TargetsStay(before: Files, plan: seq<PlannedFile>, f: PlannedFile)
    requires PlanShape(before, plan) && f in plan && f.destination.Some?
    ensures forall g :: g in plan && Leaves(g) ==> g.source != f.destination.value
  {
  }

  lemma LockIsInNoPackage()
    ensures forall package :: package in PACKAGES ==> !(OldDir(package) <= LOCKFILE)
  {
  }

  const WORKSPACE: Path := ["scm", MANIFEST]

  /** The steps that may raise, by the index of their file. */
  datatype Step = ReadOriginals | MakeParents(file: nat) | Write(file: nat) | Unlink(file: nat) | Prune | Refresh

  /** A working tree. `mayFail` names the steps in which anything may go wrong; the others do what they are to do. */
  class Worktree {
    const mayFail: Step -> bool
    var files: Files

    constructor (mayFail: Step -> bool, files: Files)
      ensures this.mayFail == mayFail && this.files == files
    {
      this.mayFail, this.files := mayFail, files;
    }

    /** No step goes wrong. */
    ghost predicate NothingFails() { forall step :: !mayFail(step) }

    /** Writing a file may raise, and may then have left anything there. */
    method WriteFile(step: Step, path: Path, content: Bytes) returns (ok: bool)
      modifies this
      ensures forall p :: p != path ==> At(files, p) == At(old(files), p)
      ensures ok ==> At(files, path) == Some(content)
      ensures !mayFail(step) ==> ok
    {
      var raised: bool := *;
      ok := !(mayFail(step) && raised);
      var left: bool, bytes: Bytes := *, *;
      if ok {
        files := files[path := content];
      } else if left {
        files := files[path := bytes];
      }
    }

    method WriteAll(plan: seq<PlannedFile>) returns (ok: bool)
      requires PlanShape(map[], plan)
      modifies this
      ensures forall p :: p !in Targets(plan) ==> At(files, p) == At(old(files), p)
      ensures ok ==> forall f :: f in plan && f.destination.Some? ==> At(files, f.destination.value) == Some(f.content)
      ensures NothingFails() ==> ok
    {
      for i := 0 to |plan|
        invariant forall p :: p !in Targets(plan) ==> At(files, p) == At(old(files), p)
        invariant forall j :: 0 <= j < i && plan[j].destination.Some? ==>
                    At(files, plan[j].destination.value) == Some(plan[j].content)
      {
        if plan[i].destination.Some? {
          assert plan[i] in plan;
          var raised: bool := *;
          if mayFail(MakeParents(i)) && raised {
            return false;
          }
          ok := WriteFile(Write(i), plan[i].destination.value, plan[i].content);
          if !ok {
            return;
          }
        }
      }
      ok := true;
    }

    /** Removes the sources that were moved or dropped; one that is not there is no failure. */
    method RemoveMoved(plan: seq<PlannedFile>) returns (ok: bool)
      modifies this
      ensures forall p :: p !in Sources(plan) ==> At(files, p) == At(old(files), p)
      ensures forall p :: (forall f :: f in plan && Leaves(f) ==> f.source != p) ==> At(files, p) == At(old(files), p)
      ensures ok ==> forall f :: f in plan && Leaves(f) ==> f.source !in files
      ensures NothingFails() ==> ok
    {
      for i := 0 to |plan|
        invariant forall p :: (forall f :: f in plan && Leaves(f) ==> f.source != p) ==>
                  At(files, p) == At(old(files), p)
        invariant forall j :: 0 <= j < i && Leaves(plan[j]) ==> plan[j].source !in files
      {
        assert plan[i] in plan;
        if Leaves(plan[i]) {
          var raised: bool := *;
          if mayFail(Unlink(i)) && raised {
            return false;
          }
          files := files - {plan[i].source};
        }
      }
      ok := true;
    }

    /** Refreshing the lock file may change it in any way, and may fail. */
    method RefreshLock() returns (ok: bool)
      modifies this
      ensures forall p :: p != LOCKFILE ==> At(files, p) == At(old(files), p)
      ensures !mayFail(Refresh) ==> ok
    {
      var there: bool, bytes: Bytes, raised: bool := *, *, *;
      files := if there then files[LOCKFILE := bytes] else files - {LOCKFILE};
      ok := !(mayFail(Refresh) && raised);
    }

    /** The body of the attempt. */
    method Attempt(plan: seq<PlannedFile>, refresh: bool) returns (ok: bool)
      requires PlanShape(files, plan)
      modifies this
      ensures forall p :: p !in Touchable(plan, refresh) ==> At(files, p) == At(old(files), p)
      ensures ok ==> ImageOf(old(files), files, plan, refresh) && Cleared(files)
      ensures NothingFails() && !ok ==> ImageOf(old(files), files, plan, refresh) && !Cleared(files)
    {
      ghost var before := files;
      assert PlanShape(map[], plan);
      ok := WriteAll(plan);
      if !ok {
        return;
      }
      ghost var written := files;
      ok := RemoveMoved(plan);
      if !ok {
        return;
      }
      forall f | f in plan && f.destination.Some? ensures At(files, f.destination.value) == Some(f.content) {
        TargetsStay(before, plan, f);
        assert At(files, f.destination.value) == At(written, f.destination.value);
      }
      var raised: bool := *;
      var oldPlaceInUse := exists path, package | path in files && package in PACKAGES :: OldDir(package) <= path;
      if (mayFail(Prune) && raised) || oldPlaceInUse {
        return false;
      }
      ghost var moved := files;
      if refresh && WORKSPACE in files {
        ok := RefreshLock();
        if !ok {
          return;
        }
        LockIsInNoPackage();
      }
      assert forall p :: p != LOCKFILE ==> At(files, p) == At(moved, p);
      assert forall p :: p in files && p != LOCKFILE ==> p in moved by {
        assert forall p :: p in files && p != LOCKFILE ==> At(files, p) == At(moved, p);
      }
      assert refresh || files == moved;
      if exists path, package | path in files && package in PACKAGES :: NewDir(package) + ["src", "api"] <= path {
        return false;
      }
      ok := true;
    }

    /** Undoes the attempt: what was not there goes, and every original comes back. `originals` holds what the sources
        and the lock file were. */
    method Restore(plan: seq<PlannedFile>, refresh: bool, originals: Files, lockExisted: bool)
      modifies this
      ensures forall p :: At(files, p) ==
                if p in originals then Some(originals[p])
                else if p in Targets(plan) || (refresh && !lockExisted && p == LOCKFILE) then None
                else At(old(files), p)
    {
      for i := 0 to |plan|
        invariant forall p :: At(files, p) ==
                    if p !in originals && p in Targets(plan[..i]) then None else At(old(files), p)
      {
        assert plan[..i + 1] == plan[..i] + [plan[i]];
        if plan[i].destination.Some? && plan[i].destination.value !in originals {
          files := files - {plan[i].destination.value};
        }
      }
      assert plan[..|plan|] == plan;
      if refresh && !lockExisted {
        files := files - {LOCKFILE};
      }
      files := files + originals;
    }

    /** `apply_plan`. When no step goes wrong it is undone only if the image of the plan does not pass the last
        checks. */
    method Apply(plan: seq<PlannedFile>, clean: bool, allowDirty: bool, refresh: bool) returns (outcome: Outcome)
      requires PlanShape(files, plan)
      modifies this
      ensures outcome == RefusedDirty <==> !clean && !allowDirty
      ensures outcome == Unchanged <==> (clean || allowDirty) && plan == []
      ensures Sources(plan) <= old(files).Keys || outcome in {RefusedDirty, Unchanged, Unreadable}
      ensures outcome != Applied ==> files == old(files)
      ensures outcome == Applied ==> ImageOf(old(files), files, plan, refresh) && Cleared(files)
      ensures NothingFails() && outcome == Unreadable ==> !(Sources(plan) <= old(files).Keys)
      ensures NothingFails() && outcome == RolledBack ==>
                exists image :: ImageOf(old(files), image, plan, refresh) && !Cleared(image)
    {
      if !clean && !allowDirty {
        return RefusedDirty;
      }
      if plan == [] {
        return Unchanged;
      }
      var raised: bool := *;
      if (mayFail(ReadOriginals) && raised) || !(Sources(plan) <= files.Keys) {
        return Unreadable;
      }
      ghost var before := files;
      var lockExisted := LOCKFILE in files;
      var originals := map p | p in files && (p in Sources(plan) || (refresh && p == LOCKFILE)) :: files[p];
      var ok := Attempt(plan, refresh);
      if ok {
        return Applied;
      }
      ghost var failed := files;
      Restore(plan, refresh, originals, lockExisted);
      forall p ensures At(files, p) == At(before, p) {
        RestoredPath(before, plan, refresh, p);
      }
      SameEverywhere(files, before);
      outcome := RolledBack;
    }
  }

  lemma PackageFileMoves(package: string, rest: Path)
    requires package in PACKAGES
    ensures Place(OldDir(package) + rest) ==
            if rest == API_MODULE then None else Some(NewDir(package) + Flattened(rest))
  {
    var path := OldDir(package) + rest;
    PackageOfIs(PACKAGES, path);
    assert OldDir(package) <= path && path[3..] == rest;
    assert OldDir(PackageOf(PACKAGES, path).value)[2] == path[2];
  }

  lemma ManifestMoves(package: string)
    requires package in PACKAGES
    ensures Place(OldDir(package) + [MANIFEST]) == Some(NewDir(package) + [MANIFEST])
    ensures OldDir(package) + [MANIFEST] != LOCKFILE && NewDir(package) + [MANIFEST] != LOCKFILE
  {
    PackageFileMoves(package, [MANIFEST]);
  }

  /** After a plan was applied every package is migrated, so planning again plans nothing: a second run changes
      nothing. */
  lemma AppliedIsComplete(files: Files, rewrite: (Path, Bytes) -> Bytes, tracked: seq<Path>, after: Files,
                          refresh: bool)
    requires Placeable(files, tracked, |tracked|)
    requires forall p :: p in PACKAGES ==> Active(files, p)
    requires ImageOf(files, after, PlanOf(files, rewrite, tracked), refresh) && Cleared(after)
    ensures forall p :: p in PACKAGES ==> Completed(after, p)
  {
    var plan := PlanOf(files, rewrite, tracked);
    forall p | p in PACKAGES ensures Completed(after, p) {
      var manifest := OldDir(p) + [MANIFEST];
      assert OldDir(p) <= manifest;
      assert manifest !in after;
      assert At(files, manifest) != At(after, manifest);
      assert manifest in Touchable(plan, refresh);
      ManifestMoves(p);
      PlansHaveShape(files, rewrite, tracked);
      forall f | f in plan && f.destination.Some? ensures f.destination.value != manifest {
        assert f.destination.value != LOCKFILE ==> At(after, f.destination.value) == Some(f.content);
      }
      var f :| f in plan && f.source == manifest;
      assert f.destination == Some(NewDir(p) + [MANIFEST]);
    }
  }

  /** A migration with a tracked file below `src/api/api` is planned, carried out, and then found wanting: its image
      never passes the last checks. */
  lemma NestedApiIsFoundWanting(files: Files, rewrite: (Path, Bytes) -> Bytes, tracked: seq<Path>, after: Files,
                                refresh: bool, package: string, path: Path)
    requires Placeable(files, tracked, |tracked|) && path in tracked
    requires package in PACKAGES && OldDir(package) + ["src", "api", "api"] <= path
    requires ImageOf(files, after, PlanOf(files, rewrite, tracked), refresh)
    ensures !Cleared(after)
  {
    var rest := path[3..];
    assert OldDir(package) <= path && rest[..3] == path[3..6] == ["src", "api", "api"];
    assert rest[2] == "api" && "api"[0] != "mod.rs"[0];
    PackageOfIs(PACKAGES, path);
    FlattenedOnlyOnce(path, package);
    var i :| 0 <= i < |tracked| && tracked[i] == path;
    assert InTheWay(tracked, path);
    ImageIsCleared(files, rewrite, tracked, after, refresh);
  }

  const NESTED: Path := ["src", "api", "api", "mod.rs"]

  /** What every package has, and where it goes below the package. */
  const KINDS: seq<Path> := [[MANIFEST], ["src", "lib.rs"], API_MODULE]

  /** The five packages, and in one of them a file that is nested too deep. */
  function NestedTree(): seq<Path> {
    seq(15, i requires 0 <= i < 15 => OldDir(PACKAGES[i / 3]) + KINDS[i % 3]) + [OldDir("retry") + NESTED]
  }

  lemma NestedTreePlaces(i: nat)
    requires i < 16
    ensures var path := NestedTree()[i];
            var package := if i < 15 then PACKAGES[i / 3] else "retry";
            && package in PACKAGES && path == OldDir(package) + (if i < 15 then KINDS[i % 3] else NESTED)
            && Place(path) == if i == 15 then Some(NewDir(package) + ["src", "api", "mod.rs"])
                              else if i % 3 == 2 then None
                              else Some(NewDir(package) + KINDS[i % 3])
  {
    if i < 15 {
      PackageFileMoves(PACKAGES[i / 3], KINDS[i % 3]);
      assert KINDS[0] == [MANIFEST] && KINDS[1] == ["src", "lib.rs"] && KINDS[2] == API_MODULE;
    } else {
      assert PACKAGES[3] == "retry";
      PackageFileMoves("retry", NESTED);
      assert NESTED[..2] == ["src", "api"] && NESTED[2..] == ["api", "mod.rs"];
      assert Flattened(NESTED) == ["src", "api", "mod.rs"];
    }
  }

  lemma PackagesDiffer(i: nat, j: nat)
    requires i < j < |PACKAGES|
    ensures PACKAGES[i] != PACKAGES[j]
  {
    assert |PACKAGES[i]| != |PACKAGES[j]| || PACKAGES[i][0] != PACKAGES[j][0];
  }

  lemma NestedTreePlacesDiffer(i: nat, j: nat)
    requires i < j < 16 && Place(NestedTree()[i]).Some?
    ensures Place(NestedTree()[i]) != Place(NestedTree()[j])
  {
    NestedTreePlaces(i);
    NestedTreePlaces(j);
    hide Place, NestedTree;
    if j < 15 && i % 3 == j % 3 {
      PackagesDiffer(i / 3, j / 3);
      if NewDir(PACKAGES[i / 3]) + KINDS[i % 3] == NewDir(PACKAGES[j / 3]) + KINDS[j % 3] {
        SamePlace(PACKAGES[i / 3], PACKAGES[j / 3], KINDS[i % 3], KINDS[j % 3]);
      }
    } else {
      assert |KINDS[0]| == 1 && |KINDS[1]| == 2;
    }
  }

  lemma NestedTreePlaceIsFree(i: nat, k: nat)
    requires i < 16 && k < 16 && Place(NestedTree()[i]).Some?
    ensures Place(NestedTree()[i]).value != NestedTree()[k]
  {
    NestedTreePlaces(i);
    NestedTreePlaces(k);
    hide Place, NestedTree;
    var p, q := if i < 15 then PACKAGES[i / 3] else "retry", if k < 15 then PACKAGES[k / 3] else "retry";
    NewDirsAreNotOld(p, q);
    assert Place(NestedTree()[i]).value[2] == p + "-api" && NestedTree()[k][2] == q;
  }

  /** For such a tree, all of it tracked, a plan is made. */
  lemma NestedTreeIsPlanned(files: Files)
    requires files.Keys == set p | p in NestedTree()
    ensures Placeable(files, NestedTree(), 16) && forall p :: p in PACKAGES ==> Active(files, p)
    ensures NestedTree()[15] == OldDir("retry") + NESTED && ["src", "api", "api"] <= NESTED
  {
    var tracked := NestedTree();
    assert forall i :: 0 <= i < 16 ==> tracked[i] in tracked;
    forall p | p in PACKAGES ensures Active(files, p) {
      var i :| 0 <= i < |PACKAGES| && PACKAGES[i] == p;
      assert tracked[3 * i] == OldDir(p) + [MANIFEST];
    }
    hide Place, NestedTree;
    forall i, j | 0 <= i < j < 16 && Place(tracked[i]).Some? ensures Place(tracked[i]) != Place(tracked[j]) {
      NestedTreePlacesDiffer(i, j);
    }
    forall i | 0 <= i < 16 && Place(tracked[i]).Some? ensures Place(tracked[i]).value !in files {
      forall k | 0 <= k < 16 ensures Place(tracked[i]).value != tracked[k] {
        NestedTreePlaceIsFree(i, k);
      }
    }
  }

  /** Where files go, in full: a file of a package to the package's new directory, with the level below `src` dropped
      if that is `api` and not the last, and the module file of that level nowhere. */
  lemma PackagePathsGo(p: string, rest: Path)
    requires p in PACKAGES
    ensures Place(["scm", "main", p] + rest) ==
            if rest == ["src", "api", "mod.rs"] then None
            else if |rest| > 2 && rest[0] == "src" && rest[1] == "api"
            then Some(["scm", "main", p + "-api", "src"] + rest[2..])
            else Some(["scm", "main", p + "-api"] + rest)
  {
    PackageFileMoves(p, rest);
    PairFirst(rest);
    hide Place;
    assert OldDir(p) + rest == ["scm", "main", p] + rest;
    if |rest| > 2 {
      assert NewDir(p) + (["src"] + rest[2..]) == ["scm", "main", p + "-api", "src"] + rest[2..];
    }
  }

  /** Any other file stays. */
  lemma OtherPathsStay(path: Path)
    requires forall p :: p in PACKAGES ==> !(["scm", "main", p] <= path)
    ensures Place(path) == Some(path)
  {
    PackageOfIs(PACKAGES, path);
  }

  /** A package is still to be migrated when its old manifest is there, and is migrated when only its new one is. */
  lemma PackageIsWhereItsManifestIs(files: Files, p: string)
    ensures Active(files, p) <==> ["scm", "main", p, "Cargo.toml"] in files
    ensures Completed(files, p) <==>
              ["scm", "main", p, "Cargo.toml"] !in files && ["scm", "main", p + "-api", "Cargo.toml"] in files
  {
    assert OldDir(p) + [MANIFEST] == ["scm", "main", p, "Cargo.toml"];
    assert NewDir(p) + [MANIFEST] == ["scm", "main", p + "-api", "Cargo.toml"];
  }

  /** The last checks look for files below the old directories and below `src/api` in the new ones. */
  lemma ClearedMeans(files: Files)
    ensures Cleared(files) <==>
              forall path, p :: path in files && p in PACKAGES ==>
                !(["scm", "main", p] <= path) && !(["scm", "main", p + "-api", "src", "api"] <= path)
  {
    assert forall p :: NewDir(p) + ["src", "api"] == ["scm", "main", p + "-api", "src", "api"];
  }
}
