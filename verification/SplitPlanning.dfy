/** From a reviewed ownership map to the plan that `SplitMigration` carries out: where every owned artifact goes, and
    the checks that refuse an ambiguous map. */
module SplitPlanning {
  import opened Common
  import opened SplitMigration

  datatype Artifact = Artifact(path: Path, sha: Digest)
  datatype Owner = Owner(package: string, sha: Digest)

  /** The inventory of the tree: the artifacts in path order, the directories of the packages they are in, and the
      manifests a map must write. */
  datatype Inventory = Inventory(artifacts: seq<Artifact>, sourceRoots: seq<Path>, manifests: set<Path>)

  datatype Mapping = Mapping(ownership: map<Path, Owner>, packagePaths: map<string, Path>, writes: seq<Write>)

  datatype MappingError =
    | OwnershipNotExact | EscapesRepository | SharedPackageDirectory | UnmappedPackage | StaleChecksum
    | OutsidePackages | AmbiguousDestination | AmbiguousWrite | MissingManifestWrite | NoOperations

  const CARGO_TOML: string := "Cargo.toml"
  const WORKSPACE_MANIFEST: Path := ["scm", CARGO_TOML]

  ghost predicate DistinctArtifacts(artifacts: seq<Artifact>) {
    forall i, j :: 0 <= i < j < |artifacts| ==> artifacts[i].path != artifacts[j].path
  }

  function ArtifactPaths(artifacts: seq<Artifact>): set<Path> { set a | a in artifacts :: a.path }

  predicate InsideRepository(path: Path) { ".." !in path }

  /** The first package directory `path` is in. */
  function RootOf(roots: seq<Path>, path: Path): Option<Path> {
    if roots == [] then None else if roots[0] <= path then Some(roots[0]) else RootOf(roots[1..], path)
  }

  lemma {:induction false} RootIsPrefix(roots: seq<Path>, path: Path)
    ensures var root := RootOf(roots, path); root.Some? ==> root.value in roots && root.value <= path
  {
    if roots != [] {
      RootIsPrefix(roots[1..], path);
    }
  }

  predicate Placeable(inventory: Inventory, mapping: Mapping, a: Artifact) {
    && a.path in mapping.ownership && mapping.ownership[a.path].package in mapping.packagePaths
    && mapping.ownership[a.path].sha == a.sha && InsideRepository(a.path)
    && RootOf(inventory.sourceRoots, a.path).Some?
  }

  /** Where an artifact goes: its path below its own package, below the directory of the package that is to own it. */
  function Destination(inventory: Inventory, mapping: Mapping, a: Artifact): Path
    requires Placeable(inventory, mapping, a)
  {
    RootIsPrefix(inventory.sourceRoots, a.path);
    mapping.packagePaths[mapping.ownership[a.path].package] + a.path[|RootOf(inventory.sourceRoots, a.path).value|..]
  }

  /** An artifact keeps the rest of its path: only the directory of its package is exchanged. */
  lemma DestinationKeepsTheRest(inventory: Inventory, mapping: Mapping, a: Artifact)
    requires Placeable(inventory, mapping, a)
    ensures exists root, rest ::
              && RootOf(inventory.sourceRoots, a.path) == Some(root) && root in inventory.sourceRoots
              && a.path == root + rest
              && Destination(inventory, mapping, a) == mapping.packagePaths[mapping.ownership[a.path].package] + rest
  {
    RootIsPrefix(inventory.sourceRoots, a.path);
    var root := RootOf(inventory.sourceRoots, a.path).value;
    assert a.path == root + a.path[|root|..];
  }

  /** The package of an artifact is the first whose directory it is in. */
  lemma {:induction false} RootIsFirst(roots: seq<Path>, path: Path)
    ensures RootOf(roots, path).None? <==> forall i :: 0 <= i < |roots| ==> !(roots[i] <= path)
    ensures RootOf(roots, path).Some? ==>
              exists i :: 0 <= i < |roots| && roots[i] == RootOf(roots, path).value && roots[i] <= path
                          && forall j :: 0 <= j < i ==> !(roots[j] <= path)
  {
    if roots != [] {
      RootIsFirst(roots[1..], path);
      assert forall i :: 1 <= i < |roots| ==> roots[i] == roots[1..][i - 1];
      if !(roots[0] <= path) && RootOf(roots, path).Some? {
        var i :| 0 <= i < |roots[1..]| && roots[1..][i] == RootOf(roots[1..], path).value && roots[1..][i] <= path
                 && forall j :: 0 <= j < i ==> !(roots[1..][j] <= path);
        assert roots[i + 1] == roots[1..][i];
      }
    }
  }

  /** An artifact and its place, as a move that may go nowhere. */
  function Placement(inventory: Inventory, mapping: Mapping, a: Artifact): Move
    requires Placeable(inventory, mapping, a)
  {
    Move(a.path, Destination(inventory, mapping, a), a.sha)
  }

  function Placements(inventory: Inventory, mapping: Mapping): seq<Move>
    requires forall a :: a in inventory.artifacts ==> Placeable(inventory, mapping, a)
  {
    seq(|inventory.artifacts|,
        i requires 0 <= i < |inventory.artifacts| => Placement(inventory, mapping, inventory.artifacts[i]))
  }

  /** The placements of the artifacts that do not stay where they are. */
  function Moving(placements: seq<Move>): seq<Move> {
    if placements == [] then [] else
    var m := placements[|placements| - 1];
    Moving(placements[..|placements| - 1]) + if m.from == m.to then [] else [m]
  }

  function RequiredWrites(inventory: Inventory, mapping: Mapping): set<Path> {
    {WORKSPACE_MANIFEST} + inventory.manifests + set p | p in mapping.packagePaths.Values :: p + [CARGO_TOML]
  }

  ghost predicate PackagesAcceptable(packagePaths: map<string, Path>) {
    && (forall package :: package in packagePaths ==> InsideRepository(packagePaths[package]))
    && (forall a, b :: a in packagePaths && b in packagePaths && a != b ==> packagePaths[a] != packagePaths[b])
  }

  ghost predicate DistinctTargets(placements: seq<Move>) {
    forall i, j :: 0 <= i < j < |placements| ==> placements[i].to != placements[j].to
  }

  ghost predicate WritesAcceptable(taken: set<Path>, writes: seq<Write>) {
    && (forall w :: w in writes ==> InsideRepository(w.path) && w.path !in taken)
    && DistinctWrites(writes)
  }

  /** The reviewed maps a plan is made for. */
  ghost predicate Acceptable(inventory: Inventory, mapping: Mapping) {
    && mapping.ownership.Keys == ArtifactPaths(inventory.artifacts)
    && PackagesAcceptable(mapping.packagePaths)
    && (forall a :: a in inventory.artifacts ==> Placeable(inventory, mapping, a))
    && DistinctTargets(Placements(inventory, mapping))
    && WritesAcceptable(Targets(Placements(inventory, mapping)) + ArtifactPaths(inventory.artifacts), mapping.writes)
    && RequiredWrites(inventory, mapping) <= WritePaths(mapping.writes)
  }

  /** The plan of a map. */
  function PlanOf(inventory: Inventory, mapping: Mapping): Plan
    requires forall a :: a in inventory.artifacts ==> Placeable(inventory, mapping, a)
  {
    Plan(Moving(Placements(inventory, mapping)), mapping.writes)
  }

  /** Dropping the placements that go nowhere keeps the rest, in which the dropped paths do not occur. */
  lemma {:induction false} MovingKeeps(placements: seq<Move>)
    requires DistinctMoves(placements)
    ensures DistinctMoves(Moving(placements))
    ensures forall m :: m in Moving(placements) <==> m in placements && m.from != m.to
  {
    if placements != [] {
      var init, m := placements[..|placements| - 1], placements[|placements| - 1];
      assert placements == init + [m];
      MovingKeeps(init);
      assert forall k :: 0 <= k < |Moving(init)| ==> Moving(init)[k] in init;
    }
  }

  lemma UnmovedStaysOut(placements: seq<Move>, m: Move)
    requires DistinctMoves(placements) && m in placements && m.from == m.to
    ensures m.from !in Sources(Moving(placements)) && m.from !in Targets(Moving(placements))
  {
    MovingKeeps(placements);
    assert forall d :: d in placements && (d.from == m.from || d.to == m.to) ==> d == m;
  }

  lemma PlacementsOf(inventory: Inventory, mapping: Mapping)
    requires DistinctArtifacts(inventory.artifacts)
    requires forall a :: a in inventory.artifacts ==> Placeable(inventory, mapping, a)
    ensures Sources(Placements(inventory, mapping)) == ArtifactPaths(inventory.artifacts)
    ensures DistinctTargets(Placements(inventory, mapping)) ==> DistinctMoves(Placements(inventory, mapping))
    ensures forall a :: a in inventory.artifacts ==> Placement(inventory, mapping, a) in Placements(inventory, mapping)
  {
    var placements := Placements(inventory, mapping);
    forall a | a in inventory.artifacts
      ensures Placement(inventory, mapping, a) in placements && a.path in Sources(placements)
    {
      var i :| 0 <= i < |inventory.artifacts| && inventory.artifacts[i] == a;
      assert placements[i] == Placement(inventory, mapping, a);
    }
  }

  /** Every plan has the shape its execution relies on. */
  lemma PlansHaveShape(inventory: Inventory, mapping: Mapping)
    requires DistinctArtifacts(inventory.artifacts) && Acceptable(inventory, mapping)
    ensures PlanShape(PlanOf(inventory, mapping))
  {
    PlacementsOf(inventory, mapping);
    MovingKeeps(Placements(inventory, mapping));
    assert Sources(Moving(Placements(inventory, mapping))) <= ArtifactPaths(inventory.artifacts);
    assert Targets(Moving(Placements(inventory, mapping))) <= Targets(Placements(inventory, mapping));
  }

  /** After a migration every inventoried artifact, moved or not, is at its own destination with its own checksum, no
      two artifacts share one, and nothing else but the reviewed writes has changed. */
  lemma MigrationKeepsArtifacts(sha: Bytes -> Digest, before: Files, after: Files, inventory: Inventory,
                                mapping: Mapping)
    requires DistinctArtifacts(inventory.artifacts) && Acceptable(inventory, mapping)
    requires forall a :: a in inventory.artifacts ==> a.path in before && sha(before[a.path]) == a.sha
    requires var plan := PlanOf(inventory, mapping); Migrated(sha, before, after, plan.moves, plan.writes)
    ensures forall a :: a in inventory.artifacts ==>
              var to := Destination(inventory, mapping, a); to in after && sha(after[to]) == a.sha
    ensures forall a, b :: a in inventory.artifacts && b in inventory.artifacts && a != b ==>
              Destination(inventory, mapping, a) != Destination(inventory, mapping, b)
    ensures forall p ::
              p !in ArtifactPaths(inventory.artifacts) + Targets(Placements(inventory, mapping))
                    + WritePaths(mapping.writes)
              ==> At(after, p) == At(before, p)
  {
    var placements := Placements(inventory, mapping);
    PlacementsOf(inventory, mapping);
    MovingKeeps(placements);
    forall a | a in inventory.artifacts
      ensures var to := Destination(inventory, mapping, a); to in after && sha(after[to]) == a.sha
    {
      var m := Placement(inventory, mapping, a);
      if m.from == m.to {
        UnmovedStaysOut(placements, m);
        assert At(after, m.to) == At(before, m.to);
      } else {
        assert m in Moving(placements);
      }
    }
    forall a, b | a in inventory.artifacts && b in inventory.artifacts && a != b
      ensures Destination(inventory, mapping, a) != Destination(inventory, mapping, b)
    {
      assert Placement(inventory, mapping, a) != Placement(inventory, mapping, b);
    }
  }

  /** No part of the path leads up. */
  predicate LeadsNowhereUp(path: Path) { forall i | 0 <= i < |path| :: path[i] != ".." }

  lemma InsideIsNowhereUp(path: Path)
    ensures InsideRepository(path) <==> LeadsNowhereUp(path)
  {
  }

  /** Which artifacts have a place: those of a package that has a directory, with their checksums, inside the
      repository and in a package of the inventory. */
  lemma PlaceablesAre(inventory: Inventory, mapping: Mapping)
    ensures forall a :: Placeable(inventory, mapping, a) <==>
              && a.path in mapping.ownership && mapping.ownership[a.path].sha == a.sha
              && mapping.ownership[a.path].package in mapping.packagePaths && LeadsNowhereUp(a.path)
              && exists i :: 0 <= i < |inventory.sourceRoots| && inventory.sourceRoots[i] <= a.path
  {
    forall a: Artifact ensures RootOf(inventory.sourceRoots, a.path).None? <==>
                       forall i :: 0 <= i < |inventory.sourceRoots| ==> !(inventory.sourceRoots[i] <= a.path) {
      RootIsFirst(inventory.sourceRoots, a.path);
    }
    hide RootOf;
  }

  /** Which writes a map must have: the workspace manifest, the manifest of every package, and every manifest of the
      inventory; no others. */
  lemma RequiredWritesAre(inventory: Inventory, mapping: Mapping)
    ensures RequiredWrites(inventory, mapping) <= WritePaths(mapping.writes) <==>
            && (exists w :: w in mapping.writes && w.path == ["scm", "Cargo.toml"])
            && (forall p :: p in mapping.packagePaths ==>
                  exists w :: w in mapping.writes && w.path == mapping.packagePaths[p] + ["Cargo.toml"])
            && (forall m :: m in inventory.manifests ==> exists w :: w in mapping.writes && w.path == m)
  {
    forall path ensures path in WritePaths(mapping.writes) <==> exists w :: w in mapping.writes && w.path == path {
    }
    assert forall p :: p in mapping.packagePaths ==> mapping.packagePaths[p] in mapping.packagePaths.Values;
    assert forall p :: p in mapping.packagePaths ==>
        mapping.packagePaths[p] + [CARGO_TOML] in RequiredWrites(inventory, mapping);
    hide WritePaths;
  }

  lemma DestinationStaysInside(inventory: Inventory, mapping: Mapping, a: Artifact)
    requires Placeable(inventory, mapping, a)
    requires InsideRepository(mapping.packagePaths[mapping.ownership[a.path].package])
    ensures LeadsNowhereUp(a.path) && LeadsNowhereUp(Destination(inventory, mapping, a))
  {
    var package := mapping.packagePaths[mapping.ownership[a.path].package];
    DestinationKeepsTheRest(inventory, mapping, a);
    InsideIsNowhereUp(a.path);
    InsideIsNowhereUp(package);
    hide Destination, RootOf;
    var root, rest :| a.path == root + rest && Destination(inventory, mapping, a) == package + rest;
    assert forall i :: 0 <= i < |rest| ==> rest[i] == a.path[|root| + i];
  }

  /** An accepted map writes all of those, and no path it writes, moves or moves to leads up. */
  lemma AcceptedMapsStayInside(inventory: Inventory, mapping: Mapping)
    requires Acceptable(inventory, mapping)
    ensures exists w :: w in mapping.writes && w.path == ["scm", "Cargo.toml"]
    ensures forall p :: p in mapping.packagePaths ==>
              exists w :: w in mapping.writes && w.path == mapping.packagePaths[p] + ["Cargo.toml"]
    ensures forall w :: w in mapping.writes ==> LeadsNowhereUp(w.path)
    ensures forall a :: a in inventory.artifacts ==>
              LeadsNowhereUp(a.path) && Placeable(inventory, mapping, a)
              && LeadsNowhereUp(Destination(inventory, mapping, a))
  {
    RequiredWritesAre(inventory, mapping);
    forall w | w in mapping.writes ensures LeadsNowhereUp(w.path) {
      InsideIsNowhereUp(w.path);
    }
    forall a | a in inventory.artifacts
      ensures LeadsNowhereUp(a.path) && LeadsNowhereUp(Destination(inventory, mapping, a))
    {
      DestinationStaysInside(inventory, mapping, a);
    }
    hide Placeable, Destination, RequiredWrites, LeadsNowhereUp, InsideRepository, DistinctTargets, Placements;
  }

  /** The destinations of the placements are those of the artifacts. */
  lemma TargetsAre(inventory: Inventory, mapping: Mapping)
    requires forall a :: a in inventory.artifacts ==> Placeable(inventory, mapping, a)
    ensures forall path :: path in Targets(Placements(inventory, mapping)) <==>
              exists a :: a in inventory.artifacts && Destination(inventory, mapping, a) == path
    ensures DistinctTargets(Placements(inventory, mapping)) <==>
              forall i, j :: 0 <= i < j < |inventory.artifacts| ==>
                Destination(inventory, mapping, inventory.artifacts[i])
                != Destination(inventory, mapping, inventory.artifacts[j])
  {
    var placements := Placements(inventory, mapping);
    assert forall i :: 0 <= i < |placements| ==>
        placements[i].to == Destination(inventory, mapping, inventory.artifacts[i]);
    hide Destination, Placeable;
    forall path ensures path in Targets(placements) <==>
                          exists a :: a in inventory.artifacts && Destination(inventory, mapping, a) == path {
      if path in Targets(placements) {
        var i :| 0 <= i < |placements| && placements[i].to == path;
        assert inventory.artifacts[i] in inventory.artifacts;
      }
      if a :| a in inventory.artifacts && Destination(inventory, mapping, a) == path {
        var i :| 0 <= i < |placements| && inventory.artifacts[i] == a;
        assert placements[i] in placements;
      }
    }
  }

  /** Every artifact has a place of its own, which leads nowhere up, and nothing is written on it or on the artifact. */
  ghost predicate PlacesAreFree(inventory: Inventory, mapping: Mapping) {
    && (forall a :: a in inventory.artifacts ==> Placeable(inventory, mapping, a))
    && (forall i, j :: 0 <= i < j < |inventory.artifacts| ==>
          Destination(inventory, mapping, inventory.artifacts[i])
          != Destination(inventory, mapping, inventory.artifacts[j]))
    && (forall a, w :: a in inventory.artifacts && w in mapping.writes ==>
          w.path != a.path && w.path != Destination(inventory, mapping, a))
  }

  lemma FreePlaces(inventory: Inventory, mapping: Mapping)
    requires forall a :: a in inventory.artifacts ==> Placeable(inventory, mapping, a)
    ensures PlacesAreFree(inventory, mapping) <==>
            && DistinctTargets(Placements(inventory, mapping))
            && forall w :: w in mapping.writes ==>
                 w.path !in Targets(Placements(inventory, mapping)) + ArtifactPaths(inventory.artifacts)
  {
    TargetsAre(inventory, mapping);
    forall path ensures path in ArtifactPaths(inventory.artifacts) <==>
                          exists a :: a in inventory.artifacts && a.path == path {
    }
    hide Placeable, Destination, DistinctTargets, Placements, ArtifactPaths, Targets;
  }

  lemma OwnershipIsExact(inventory: Inventory, mapping: Mapping)
    ensures mapping.ownership.Keys == ArtifactPaths(inventory.artifacts) <==>
            forall path :: path in mapping.ownership <==> exists a :: a in inventory.artifacts && a.path == path
  {
    forall path ensures path in ArtifactPaths(inventory.artifacts) <==>
                          exists a :: a in inventory.artifacts && a.path == path {
    }
    assert mapping.ownership.Keys == ArtifactPaths(inventory.artifacts) <==>
      forall path :: path in mapping.ownership <==> path in ArtifactPaths(inventory.artifacts);
    hide ArtifactPaths;
  }

  /** The maps a plan is made for, in full: those that own exactly the inventoried artifacts, give no two packages one
      directory and none that leads up, give every artifact a free place, and write no path twice, none that leads up,
      and every required manifest. */
  lemma AcceptedMapsAre(inventory: Inventory, mapping: Mapping)
    ensures Acceptable(inventory, mapping) <==>
            && (forall path :: path in mapping.ownership <==> exists a :: a in inventory.artifacts && a.path == path)
            && (forall p, q :: p in mapping.packagePaths && q in mapping.packagePaths && p != q ==>
                  mapping.packagePaths[p] != mapping.packagePaths[q])
            && (forall p :: p in mapping.packagePaths ==> LeadsNowhereUp(mapping.packagePaths[p]))
            && PlacesAreFree(inventory, mapping)
            && (forall i, j :: 0 <= i < j < |mapping.writes| ==> mapping.writes[i].path != mapping.writes[j].path)
            && (forall w :: w in mapping.writes ==> LeadsNowhereUp(w.path))
            && RequiredWrites(inventory, mapping) <= WritePaths(mapping.writes)
  {
    OwnershipIsExact(inventory, mapping);
    forall path ensures InsideRepository(path) <==> LeadsNowhereUp(path) {
      InsideIsNowhereUp(path);
    }
    if forall a :: a in inventory.artifacts ==> Placeable(inventory, mapping, a) {
      FreePlaces(inventory, mapping);
    }
    hide InsideRepository, LeadsNowhereUp, ArtifactPaths, Targets, Placements, RequiredWrites, Placeable, Destination,
      DistinctTargets, WritePaths;
  }

  /** A migration that moved anything has used its map up: whatever inventory is taken of the tree it leaves, the map is
      refused for it, because it still owns a path that is gone. */
  lemma UsedMapIsRefused(sha: Bytes -> Digest, before: Files, after: Files, inventory: Inventory, mapping: Mapping,
                         again: Inventory)
    requires DistinctArtifacts(inventory.artifacts) && Acceptable(inventory, mapping)
    requires var plan := PlanOf(inventory, mapping);
             plan.moves != [] && Migrated(sha, before, after, plan.moves, plan.writes)
    requires ArtifactPaths(again.artifacts) <= after.Keys
    ensures !Acceptable(again, mapping)
  {
    var moves := PlanOf(inventory, mapping).moves;
    PlacementsOf(inventory, mapping);
    MovingKeeps(Placements(inventory, mapping));
    var gone := moves[0].from;
    assert moves[0] in moves && gone in Sources(moves) && gone !in after;
    assert gone in Sources(Placements(inventory, mapping));
  }

  /** The second half of `build_migration_plan`: the writes. */
  method CheckWrites(inventory: Inventory, mapping: Mapping, destinations: set<Path>, moves: seq<Move>)
    returns (r: Result<Plan, MappingError>)
    ensures r.Ok? <==> WritesAcceptable(destinations + ArtifactPaths(inventory.artifacts), mapping.writes)
                       && RequiredWrites(inventory, mapping) <= WritePaths(mapping.writes)
    ensures r.Ok? ==> r.value == Plan(moves, mapping.writes)
    ensures r == Err(MissingManifestWrite) ==> !(RequiredWrites(inventory, mapping) <= WritePaths(mapping.writes))
    ensures r.Err? ==> r.error in {EscapesRepository, AmbiguousWrite, MissingManifestWrite}
    ensures r != Err(NoOperations)
  {
    var writePaths: set<Path> := {};
    var owned := ArtifactPaths(inventory.artifacts);
    for i := 0 to |mapping.writes|
      invariant writePaths == WritePaths(mapping.writes[..i])
      invariant WritesAcceptable(destinations + owned, mapping.writes[..i])
    {
      var w := mapping.writes[i];
      assert mapping.writes[..i + 1] == mapping.writes[..i] + [w];
      if !InsideRepository(w.path) {
        return Err(EscapesRepository);
      }
      if w.path in writePaths || w.path in destinations || w.path in owned {
        return Err(AmbiguousWrite);
      }
      writePaths := writePaths + {w.path};
    }
    assert mapping.writes[..|mapping.writes|] == mapping.writes;
    if !(RequiredWrites(inventory, mapping) <= writePaths) {
      return Err(MissingManifestWrite);
    }
    assert WORKSPACE_MANIFEST in WritePaths(mapping.writes);
    if moves == [] && mapping.writes == [] {
      return Err(NoOperations);
    }
    r := Ok(Plan(moves, mapping.writes));
  }

  /** Why an artifact has no place, if it has none. */
  method Unplaceable(inventory: Inventory, mapping: Mapping, a: Artifact) returns (refused: Option<MappingError>)
    requires a.path in mapping.ownership
    ensures refused.None? <==> Placeable(inventory, mapping, a)
    ensures refused.Some? ==> refused.value in {UnmappedPackage, StaleChecksum, EscapesRepository, OutsidePackages}
    ensures refused == Some(UnmappedPackage) <==> mapping.ownership[a.path].package !in mapping.packagePaths
    ensures refused == Some(StaleChecksum) ==> mapping.ownership[a.path].sha != a.sha
    ensures refused == Some(EscapesRepository) ==> !LeadsNowhereUp(a.path)
    ensures refused == Some(OutsidePackages) ==> RootOf(inventory.sourceRoots, a.path).None?
    ensures refused != Some(NoOperations)
  {
    var owner := mapping.ownership[a.path];
    if owner.package !in mapping.packagePaths {
      return Some(UnmappedPackage);
    }
    if owner.sha != a.sha {
      return Some(StaleChecksum);
    }
    if !InsideRepository(a.path) {
      return Some(EscapesRepository);
    }
    if RootOf(inventory.sourceRoots, a.path).None? {
      return Some(OutsidePackages);
    }
    refused := None;
  }

  ghost predicate PlacedSoFar(inventory: Inventory, mapping: Mapping, placed: seq<Move>) {
    && |placed| <= |inventory.artifacts|
    && forall j :: 0 <= j < |placed| ==>
         Placeable(inventory, mapping, inventory.artifacts[j])
         && placed[j] == Placement(inventory, mapping, inventory.artifacts[j])
  }

  lemma CollisionRefuses(inventory: Inventory, mapping: Mapping, placed: seq<Move>)
    requires |placed| < |inventory.artifacts| && PlacedSoFar(inventory, mapping, placed)
    requires Placeable(inventory, mapping, inventory.artifacts[|placed|])
    requires Destination(inventory, mapping, inventory.artifacts[|placed|]) in Targets(placed)
    ensures !((forall a :: a in inventory.artifacts ==> Placeable(inventory, mapping, a))
              && DistinctTargets(Placements(inventory, mapping)))
  {
    var j :| 0 <= j < |placed| && placed[j].to == Destination(inventory, mapping, inventory.artifacts[|placed|]);
    if forall a :: a in inventory.artifacts ==> Placeable(inventory, mapping, a) {
      var placements := Placements(inventory, mapping);
      assert placements[j].to == placements[|placed|].to;
    }
  }

  lemma AppendPlacement(placed: seq<Move>, m: Move)
    requires DistinctTargets(placed) && m.to !in Targets(placed)
    ensures DistinctTargets(placed + [m]) && Targets(placed + [m]) == Targets(placed) + {m.to}
    ensures Moving(placed + [m]) == Moving(placed) + if m.from == m.to then [] else [m]
  {
  }

  lemma AllPlaced(inventory: Inventory, mapping: Mapping, placed: seq<Move>)
    requires |placed| == |inventory.artifacts| && PlacedSoFar(inventory, mapping, placed)
    ensures forall a :: a in inventory.artifacts ==> Placeable(inventory, mapping, a)
    ensures placed == Placements(inventory, mapping)
  {
  }

  lemma OneMorePlaced(inventory: Inventory, mapping: Mapping, placed: seq<Move>)
    requires |placed| < |inventory.artifacts| && PlacedSoFar(inventory, mapping, placed)
    requires Placeable(inventory, mapping, inventory.artifacts[|placed|])
    ensures PlacedSoFar(inventory, mapping, placed + [Placement(inventory, mapping, inventory.artifacts[|placed|])])
  {
  }

  lemma NonePlaced(inventory: Inventory, mapping: Mapping)
    ensures PlacedSoFar(inventory, mapping, []) && DistinctTargets([]) && Moving([]) == []
  {
  }

  /** The destinations of the artifacts, and the moves of those that do not stay. */
  method PlaceArtifacts(inventory: Inventory, mapping: Mapping)
    returns (r: Result<(set<Path>, seq<Move>), MappingError>)
    requires mapping.ownership.Keys == ArtifactPaths(inventory.artifacts)
    ensures r.Ok? <==> (forall a :: a in inventory.artifacts ==> Placeable(inventory, mapping, a))
                       && DistinctTargets(Placements(inventory, mapping))
    ensures r.Ok? ==> r.value == (Targets(Placements(inventory, mapping)), Moving(Placements(inventory, mapping)))
    ensures r != Err(NoOperations)
    ensures r.Err? ==>
              r.error in {UnmappedPackage, StaleChecksum, EscapesRepository, OutsidePackages, AmbiguousDestination}
  {
    hide RootOf, Destination, Placeable, PlacedSoFar, Placements;
    var artifacts := inventory.artifacts;
    var destinations: map<Path, Path>, moves := map[], [];
    ghost var placed: seq<Move> := [];
    NonePlaced(inventory, mapping);
    for i := 0 to |artifacts|
      invariant |placed| == i && PlacedSoFar(inventory, mapping, placed) && DistinctTargets(placed)
      invariant destinations.Keys == Targets(placed)
      invariant moves == Moving(placed)
    {
      var a := artifacts[i];
      assert a.path in ArtifactPaths(artifacts);
      var refused := Unplaceable(inventory, mapping, a);
      if refused.Some? {
        return Err(refused.value);
      }
      var to := Destination(inventory, mapping, a);
      if to in destinations {
        CollisionRefuses(inventory, mapping, placed);
        return Err(AmbiguousDestination);
      }
      destinations := destinations[to := a.path];
      OneMorePlaced(inventory, mapping, placed);
      AppendPlacement(placed, Placement(inventory, mapping, a));
      placed := placed + [Placement(inventory, mapping, a)];
      if a.path != to {
        moves := moves + [Move(a.path, to, a.sha)];
      }
    }
    AllPlaced(inventory, mapping, placed);
    r := Ok((destinations.Keys, moves));
  }

  /** `build_migration_plan`: the plan of the map when it is acceptable, a refusal otherwise. The last check of the
      script, that there is something to do, never refuses: the workspace manifest must be among the writes. */
  method BuildMigrationPlan(inventory: Inventory, mapping: Mapping) returns (r: Result<Plan, MappingError>)
    requires DistinctArtifacts(inventory.artifacts)
    ensures r.Ok? <==> Acceptable(inventory, mapping)
    ensures r.Ok? ==> r.value == PlanOf(inventory, mapping) && PlanShape(r.value)
    ensures r == Err(OwnershipNotExact) <==> mapping.ownership.Keys != ArtifactPaths(inventory.artifacts)
    ensures r != Err(NoOperations)
  {
    if mapping.ownership.Keys != ArtifactPaths(inventory.artifacts) {
      return Err(OwnershipNotExact);
    }
    if exists package | package in mapping.packagePaths :: !InsideRepository(mapping.packagePaths[package]) {
      return Err(EscapesRepository);
    }
    if exists a, b | a in mapping.packagePaths && b in mapping.packagePaths ::
        a != b && mapping.packagePaths[a] == mapping.packagePaths[b] {
      return Err(SharedPackageDirectory);
    }
    var placed := PlaceArtifacts(inventory, mapping);
    if placed.Err? {
      return Err(placed.error);
    }
    r := CheckWrites(inventory, mapping, placed.value.0, placed.value.1);
    if r.Ok? {
      PlansHaveShape(inventory, mapping);
    }
  }
}
