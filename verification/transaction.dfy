/**
 * The best-effort rollback log of backend/database.py (`AtomicTransaction`
 * and the `atomic_write` context manager), over the content directory seen
 * as a map from file path to JSON document. A transaction remembers the
 * paths it created and, per path, the first pre-image a caller handed it;
 * rolling back deletes the created paths and then rewrites the pre-images.
 */
module Transactions {
  import opened Values

  /** A record file's location. */
  type Path = string

  /** The content directory: each file's JSON document. */
  type Files = map<Path, Config>

  /** `created_files` in tracking order, and `modified_files` in insertion order. */
  datatype Transaction = Transaction(created: seq<Path>, modified: seq<(Path, Config)>)

  /** A fresh transaction has tracked nothing. */
  function NewTransaction(): (t: Transaction)
    ensures |t.created| == 0 && |t.modified| == 0
  {
    Transaction([], [])
  }

  /** The paths that have a tracked pre-image. */
  function ModifiedPaths(mods: seq<(Path, Config)>): set<Path> {
    set i | 0 <= i < |mods| :: mods[i].0
  }

  /** Each path is tracked once, as the keys of a dict are. */
  ghost predicate DistinctPaths(mods: seq<(Path, Config)>) {
    forall i, j | 0 <= i < j < |mods| :: mods[i].0 != mods[j].0
  }

  /** The pre-image tracked for `p`. */
  function PreImage(mods: seq<(Path, Config)>, p: Path): Config
    requires p in ModifiedPaths(mods)
  {
    if mods[0].0 == p then mods[0].1
    else
      assert p in ModifiedPaths(mods[1..]) by {
        var i :| 0 <= i < |mods| && mods[i].0 == p;
        assert mods[1..][i - 1] == mods[i];
      }
      PreImage(mods[1..], p)
  }

  /** `track_create`: the path joins the created list. */
  function TrackCreate(t: Transaction, path: Path): (r: Transaction)
    ensures r.modified == t.modified
    ensures path in r.created && forall p | p in t.created :: p in r.created
    ensures forall p | p in r.created :: p in t.created || p == path
  {
    t.(created := t.created + [path])
  }

  /** `track_modify`: only the first pre-image handed in for a path is kept. */
  function TrackModify(t: Transaction, path: Path, original: Config): (r: Transaction)
    ensures r.created == t.created
    ensures ModifiedPaths(r.modified) == ModifiedPaths(t.modified) + {path}
    ensures DistinctPaths(t.modified) ==> DistinctPaths(r.modified)
    ensures path !in ModifiedPaths(t.modified) ==> PreImage(r.modified, path) == original
    ensures forall p | p in ModifiedPaths(t.modified) :: PreImage(r.modified, p) == PreImage(t.modified, p)
  {
    if path in ModifiedPaths(t.modified) then t
    else
      var mods := t.modified + [(path, original)];
      assert mods[|t.modified|].0 == path;
      assert forall i | 0 <= i < |t.modified| :: mods[i] == t.modified[i];
      AppendedPreImages(t.modified, path, original);
      t.(modified := mods)
  }

  /** Appending an entry for a new path leaves the earlier pre-images where they were. */
  lemma {:induction false} AppendedPreImages(mods: seq<(Path, Config)>, path: Path, original: Config)
    requires path !in ModifiedPaths(mods)
    ensures ModifiedPaths(mods + [(path, original)]) == ModifiedPaths(mods) + {path}
    ensures PreImage(mods + [(path, original)], path) == original
    ensures forall p | p in ModifiedPaths(mods) :: PreImage(mods + [(path, original)], p) == PreImage(mods, p)
  {
    var ext := mods + [(path, original)];
    assert ext[|mods|] == (path, original);
    assert forall i | 0 <= i < |mods| :: ext[i] == mods[i];
    if |mods| > 0 {
      assert ext[1..] == mods[1..] + [(path, original)];
      TailPaths(mods);
      AppendedPreImages(mods[1..], path, original);
      forall p | p in ModifiedPaths(mods)
        ensures PreImage(ext, p) == PreImage(mods, p)
      {
        if mods[0].0 != p {
          var i :| 0 <= i < |mods| && mods[i].0 == p;
          assert mods[1..][i - 1].0 == p;
        }
      }
    }
  }

  /** The first loop of `rollback`: delete every created path, present or not. */
  function DeleteAll(files: Files, paths: seq<Path>): (r: Files)
    ensures forall p :: p in r <==> p in files && p !in paths
    ensures forall p | p in r :: r[p] == files[p]
    decreases |paths|
  {
    if |paths| == 0 then files
    else
      var rest := DeleteAll(files, paths[1..]);
      assert forall p :: p in paths <==> p == paths[0] || p in paths[1..];
      rest - {paths[0]}
  }

  /** The second loop of `rollback`: write each tracked pre-image back, in order. */
  function RestoreAll(files: Files, mods: seq<(Path, Config)>): (r: Files)
    ensures forall p :: p in r <==> p in files || p in ModifiedPaths(mods)
    ensures forall p | p in r && p !in ModifiedPaths(mods) :: r[p] == files[p]
    ensures DistinctPaths(mods) ==> forall p | p in ModifiedPaths(mods) :: r[p] == PreImage(mods, p)
    decreases |mods|
  {
    if |mods| == 0 then files
    else
      TailPaths(mods);
      RestoreAll(files[mods[0].0 := mods[0].1], mods[1..])
  }

  /** How the tracked paths split into the first entry and the rest. */
  lemma TailPaths(mods: seq<(Path, Config)>)
    requires |mods| > 0
    ensures forall p :: p in ModifiedPaths(mods) <==> p == mods[0].0 || p in ModifiedPaths(mods[1..])
    ensures DistinctPaths(mods) ==> DistinctPaths(mods[1..]) && mods[0].0 !in ModifiedPaths(mods[1..])
  {
    forall p ensures p in ModifiedPaths(mods) <==> p == mods[0].0 || p in ModifiedPaths(mods[1..]) {
      if p in ModifiedPaths(mods) && p != mods[0].0 {
        var i :| 0 <= i < |mods| && mods[i].0 == p;
        assert mods[1..][i - 1].0 == p;
      }
      if p in ModifiedPaths(mods[1..]) {
        var i :| 0 <= i < |mods[1..]| && mods[1..][i].0 == p;
        assert mods[i + 1].0 == p;
      }
    }
    if DistinctPaths(mods) {
      forall i, j | 0 <= i < j < |mods[1..]| ensures mods[1..][i].0 != mods[1..][j].0 {
        assert mods[1..][i] == mods[i + 1] && mods[1..][j] == mods[j + 1];
      }
      forall i | 0 <= i < |mods[1..]| ensures mods[1..][i].0 != mods[0].0 {
        assert mods[1..][i] == mods[i + 1];
      }
    }
  }

  /**
   * `rollback`: the created paths are gone unless a pre-image brings them
   * back, every tracked path holds its pre-image, and every other file is
   * as it was.
   */
  function Rollback(files: Files, t: Transaction): (r: Files)
    ensures forall p :: p in r <==> (p in files && p !in t.created) || p in ModifiedPaths(t.modified)
    ensures forall p | p in r && p !in ModifiedPaths(t.modified) :: r[p] == files[p]
    ensures DistinctPaths(t.modified) ==>
      forall p | p in ModifiedPaths(t.modified) :: r[p] == PreImage(t.modified, p)
  {
    RestoreAll(DeleteAll(files, t.created), t.modified)
  }

  // ---- transactions over a run of writes ------------------------------------------

  /**
   * A tracked write inside `atomic_write`: a new file is tracked as created;
   * an overwrite is tracked with the pre-image its caller read.
   */
  datatype Write =
    | Create(path: Path, data: Config)
    | Modify(path: Path, original: Config, data: Config)

  /** Track, then save. */
  function Step(files: Files, t: Transaction, w: Write): (Files, Transaction) {
    match w
    case Create(p, d) => (files[p := d], TrackCreate(t, p))
    case Modify(p, o, d) => (files[p := d], TrackModify(t, p, o))
  }

  function Run(files: Files, t: Transaction, ws: seq<Write>): (Files, Transaction)
    decreases |ws|
  {
    if |ws| == 0 then (files, t)
    else
      var (f, u) := Step(files, t, ws[0]);
      Run(f, u, ws[1..])
  }

  /**
   * A write its caller tracked truthfully against the state `files0` the
   * transaction began in: a created path did not exist, and the first
   * pre-image of an overwritten path is its original document.
   */
  ghost predicate Honest(files0: Files, t: Transaction, w: Write) {
    match w
    case Create(p, _) => p !in files0
    case Modify(p, o, _) =>
      p in files0 && (p !in ModifiedPaths(t.modified) ==> o == files0[p])
  }

  ghost predicate HonestRun(files0: Files, files: Files, t: Transaction, ws: seq<Write>)
    decreases |ws|
  {
    |ws| > 0 ==>
      var (f, u) := Step(files, t, ws[0]);
      Honest(files0, t, ws[0]) && HonestRun(files0, f, u, ws[1..])
  }

  /** What a truthfully kept log knows about the state it began in. */
  ghost predicate Tracks(files0: Files, files: Files, t: Transaction) {
    && (forall p | p in t.created :: p !in files0)
    && DistinctPaths(t.modified)
    && (forall p | p in ModifiedPaths(t.modified) :: p in files0 && PreImage(t.modified, p) == files0[p])
    && (forall p | p in files0 && p !in ModifiedPaths(t.modified) :: p in files && files[p] == files0[p])
    && (forall p | p in files && p !in files0 :: p in t.created)
  }

  /** Rolling back a truthfully kept log gives back exactly the state it began in. */
  lemma RollbackRestores(files0: Files, files: Files, t: Transaction)
    requires Tracks(files0, files, t)
    ensures Rollback(files, t) == files0
  {
    var r := Rollback(files, t);
    forall p ensures p in r <==> p in files0 {
      if p in files && p !in files0 { assert p in t.created; }
    }
    forall p | p in r ensures r[p] == files0[p] {
    }
  }

  /** Every truthfully tracked write keeps the log truthful. */
  lemma {:induction false} RunTracks(files0: Files, files: Files, t: Transaction, ws: seq<Write>)
    requires Tracks(files0, files, t) && HonestRun(files0, files, t, ws)
    ensures Tracks(files0, Run(files, t, ws).0, Run(files, t, ws).1)
    decreases |ws|
  {
    if |ws| > 0 {
      var (f, u) := Step(files, t, ws[0]);
      StepTracks(files0, files, t, ws[0]);
      RunTracks(files0, f, u, ws[1..]);
    }
  }

  /** One truthfully tracked write keeps the log truthful. */
  lemma StepTracks(files0: Files, files: Files, t: Transaction, w: Write)
    requires Tracks(files0, files, t) && Honest(files0, t, w)
    ensures Tracks(files0, Step(files, t, w).0, Step(files, t, w).1)
  {
    var (f, u) := Step(files, t, w);
    match w
    case Create(p, d) =>
      assert u.modified == t.modified;
      assert forall q | q in f && q !in files0 :: q in u.created;
    case Modify(p, o, d) =>
      assert u.created == t.created;
      assert ModifiedPaths(u.modified) == ModifiedPaths(t.modified) + {p};
      assert forall q | q in ModifiedPaths(u.modified) :: q in files0 && PreImage(u.modified, q) == files0[q];
  }

  /**
   * `atomic_write`: the body's tracked writes happen; if the body then
   * raises, the log is rolled back and the error is raised again
   * (`raised`); on success `commit` writes nothing further.
   */
  function AtomicWrite(files: Files, ws: seq<Write>, raises: bool): (r: (Files, bool))
    ensures r.1 == raises
    ensures !raises ==> r.0 == Run(files, NewTransaction(), ws).0
    ensures raises ==>
      var (f, t) := Run(files, NewTransaction(), ws);
      r.0 == Rollback(f, t)
  {
    var (f, t) := Run(files, NewTransaction(), ws);
    if raises then (Rollback(f, t), true) else (f, false)
  }

  /** A failed `atomic_write` whose writes were tracked truthfully leaves the directory as it found it. */
  lemma AtomicWriteFailureRestores(files: Files, ws: seq<Write>)
    requires HonestRun(files, files, NewTransaction(), ws)
    ensures AtomicWrite(files, ws, true).0 == files
  {
    var t0 := NewTransaction();
    assert ModifiedPaths(t0.modified) == {};
    assert Tracks(files, files, t0);
    RunTracks(files, files, t0, ws);
    var (f, t) := Run(files, t0, ws);
    RollbackRestores(files, f, t);
  }
}
