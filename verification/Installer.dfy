/** The installer's ownership ledger over runs of installs and user edits, and its publish step. */
module Installer {
  import opened Ordering

  type Path = string
  type Bytes = string
  type Digest = string

  datatype Node = File(bytes: Bytes) | Link | Directory

  /** `owned` and `digests` are the manifest the last install wrote. */
  datatype State = State(files: map<Path, Node>, owned: set<Path>, digests: map<Path, Digest>)

  /** Distinct contents have distinct digests, and no digest is empty. */
  ghost predicate Collisionless(sha: Bytes -> Digest) {
    (forall a, b :: sha(a) == sha(b) ==> a == b) && forall a :: sha(a) != ""
  }

  // ---------- cleanup ----------

  /** A path that was owned, is not shipped now, and is a regular file with the recorded digest. */
  predicate Stale(files: map<Path, Node>, previous: set<Path>, current: set<Path>, digests: map<Path, Digest>,
                  sha: Bytes -> Digest, p: Path)
  {
    && p in previous && p !in current
    && p in files && files[p].File?
    && p in digests && digests[p] != "" && sha(files[p].bytes) == digests[p]
  }

  ghost function Cleaned(files: map<Path, Node>, previous: set<Path>, current: set<Path>, digests: map<Path, Digest>,
                         sha: Bytes -> Digest): map<Path, Node>
  {
    map p | p in files && !Stale(files, previous, current, digests, sha, p) :: files[p]
  }

  /** The tree after the paths in `done` have been looked at. */
  ghost function CleanedUpTo(files: map<Path, Node>, done: set<Path>, stale: Path -> bool): map<Path, Node> {
    map p | p in files && !(p in done && stale(p)) :: files[p]
  }

  lemma {:induction false} CleanNext(files: map<Path, Node>, done: set<Path>, stale: Path -> bool, path: Path)
    requires path !in done
    ensures path in CleanedUpTo(files, done, stale) <==> path in files
    ensures path in files ==> CleanedUpTo(files, done, stale)[path] == files[path]
    ensures CleanedUpTo(files, done + {path}, stale)
         == if stale(path) then CleanedUpTo(files, done, stale) - {path} else CleanedUpTo(files, done, stale)
  {}

  lemma {:induction false} MoveOne(todo: set<Path>, done: set<Path>, path: Path)
    requires path in todo && done !! todo
    ensures done + {path} + (todo - {path}) == done + todo && done + {path} !! todo - {path}
  {}

  lemma {:induction false} CleanAll(files: map<Path, Node>, previous: set<Path>, current: set<Path>, digests: map<Path, Digest>,
                                    sha: Bytes -> Digest)
    ensures CleanedUpTo(files, {}, p => Stale(files, previous, current, digests, sha, p)) == files
    ensures CleanedUpTo(files, previous - current, p => Stale(files, previous, current, digests, sha, p))
         == Cleaned(files, previous, current, digests, sha)
  {}

  /** The content digests of the owned regular files. */
  ghost function DigestsOf(files: map<Path, Node>, paths: set<Path>, sha: Bytes -> Digest): map<Path, Digest> {
    map p | p in paths && p in files && files[p].File? :: sha(files[p].bytes)
  }

  /** A writable registry: its tree and the ownership manifest stored beside it. */
  class Registry {
    var files: map<Path, Node>
    var owned: set<Path>
    var digests: map<Path, Digest>

    ghost function View(): State
      reads this
    {
      State(files, owned, digests)
    }

    /** Deletes the stale paths one by one, in any order. */
    method CleanupOwnedPaths(previous: set<Path>, current: set<Path>, recorded: map<Path, Digest>, sha: Bytes -> Digest)
      modifies this`files
      ensures files == Cleaned(old(files), previous, current, recorded, sha)
    {
      var todo := previous - current;
      ghost var before := files;
      ghost var stale := p => Stale(before, previous, current, recorded, sha, p);
      ghost var done: set<Path> := {};
      CleanAll(before, previous, current, recorded, sha);
      while todo != {}
        invariant done + todo == previous - current && done !! todo
        invariant files == CleanedUpTo(before, done, stale)
        decreases |todo|
      {
        hide CleanedUpTo, Cleaned;
        var path :| path in todo;
        CleanNext(before, done, stale, path);
        if path in files && path in recorded && recorded[path] != "" && files[path].File? {
          if sha(files[path].bytes) == recorded[path] {
            assert stale(path);
            files := files - {path};
          }
        }
        MoveOne(todo, done, path);
        todo, done := todo - {path}, done + {path};
      }
      assert done == previous - current;
    }

    method WriteOwnedPaths(paths: set<Path>, sha: Bytes -> Digest)
      modifies this`owned, this`digests
      ensures owned == paths && digests == DigestsOf(files, paths, sha)
    {
      owned := paths;
      digests := map p | p in paths && p in files && files[p].File? :: sha(files[p].bytes);
    }

    /** One successful install: copy what ships, clean up what no longer ships, record the rest. */
    method Install(shipped: map<Path, Node>, sha: Bytes -> Digest)
      modifies this
      ensures View() == Step(old(View()), Event.Install(shipped), sha)
    {
      var previous, recorded := owned, digests;
      files := files + shipped;
      CleanupOwnedPaths(previous, shipped.Keys, recorded, sha);
      WriteOwnedPaths(shipped.Keys, sha);
    }
  }

  // ---------- runs ----------

  /** A user may put anything at a path, or remove what is there. */
  datatype Event = Install(shipped: map<Path, Node>) | Edit(path: Path, node: Option<Node>)

  ghost function Step(s: State, e: Event, sha: Bytes -> Digest): State {
    match e
    case Install(shipped) =>
      var cleaned := Cleaned(s.files + shipped, s.owned, shipped.Keys, s.digests, sha);
      State(cleaned, shipped.Keys, DigestsOf(cleaned, shipped.Keys, sha))
    case Edit(path, node) =>
      s.(files := if node.Some? then s.files[path := node.value] else s.files - {path})
  }

  ghost function After(s: State, run: seq<Event>, sha: Bytes -> Digest): State {
    if run == [] then s else Step(After(s, run[..|run| - 1], sha), run[|run| - 1], sha)
  }

  /** The files of the last install, told from the history alone, without digests. */
  ghost function LastShipped(run: seq<Event>): map<Path, Node> {
    if run == [] then map[]
    else match run[|run| - 1]
      case Install(shipped) => shipped
      case Edit(_, _) => LastShipped(run[..|run| - 1])
  }

  ghost predicate LedgerMatches(s: State, shipped: map<Path, Node>, sha: Bytes -> Digest) {
    && s.owned == shipped.Keys
    && (forall p :: p in s.digests <==> p in shipped && shipped[p].File?)
    && (forall p :: p in s.digests ==> s.digests[p] == sha(shipped[p].bytes))
  }

  lemma {:induction false} LedgerFollowsHistory(run: seq<Event>, sha: Bytes -> Digest, start: map<Path, Node>)
    ensures LedgerMatches(After(State(start, {}, map[]), run, sha), LastShipped(run), sha)
  {
    if run != [] {
      LedgerFollowsHistory(run[..|run| - 1], sha, start);
    }
  }

  /** After any run, an install deletes exactly the paths the last install shipped as files, that do not
      ship now, and that still hold the very bytes shipped then. */
  lemma {:induction false} InstallDeletesExactly(run: seq<Event>, shipped: map<Path, Node>, sha: Bytes -> Digest,
                                                 start: map<Path, Node>, p: Path)
    requires Collisionless(sha)
    ensures var s := After(State(start, {}, map[]), run, sha);
            var s' := Step(s, Install(shipped), sha);
            var last := LastShipped(run);
            && (p in s.files && p !in s'.files
                <==> p in s.files && p in last && p !in shipped && last[p].File? && s.files[p] == last[p])
            && (p in shipped ==> p in s'.files && s'.files[p] == shipped[p])
            && (p in s'.files && p !in shipped ==> p in s.files && s'.files[p] == s.files[p])
  {
    LedgerFollowsHistory(run, sha, start);
    hide After, LastShipped;
    var s := After(State(start, {}, map[]), run, sha);
    var files := s.files + shipped;
    assert p in Step(s, Install(shipped), sha).files <==> p in files && !Stale(files, s.owned, shipped.Keys, s.digests, sha, p);
  }

  ghost predicate Touches(e: Event, p: Path) {
    match e
    case Install(shipped) => p in shipped
    case Edit(path, _) => path == p
  }

  /** The path holds `node`, and `node` is not what the last install shipped there. */
  ghost predicate UserOwned(run: seq<Event>, p: Path, node: Node, sha: Bytes -> Digest, start: map<Path, Node>) {
    && p in After(State(start, {}, map[]), run, sha).files
    && After(State(start, {}, map[]), run, sha).files[p] == node
    && (p in LastShipped(run) ==> LastShipped(run)[p] != node)
  }

  lemma {:induction false} RunAppend(s: State, run: seq<Event>, e: Event, sha: Bytes -> Digest)
    ensures After(s, run + [e], sha) == Step(After(s, run, sha), e, sha)
    ensures LastShipped(run + [e]) == if e.Install? then e.shipped else LastShipped(run)
  {
    assert (run + [e])[..|run|] == run;
  }

  lemma {:induction false} UserOwnedStays(run: seq<Event>, e: Event, p: Path, node: Node, sha: Bytes -> Digest, start: map<Path, Node>)
    requires Collisionless(sha) && !Touches(e, p) && UserOwned(run, p, node, sha, start)
    ensures UserOwned(run + [e], p, node, sha, start)
  {
    hide After, LastShipped, Collisionless;
    RunAppend(State(start, {}, map[]), run, e, sha);
    match e {
      case Install(shipped) => InstallDeletesExactly(run, shipped, sha, start, p);
      case Edit(path, _) =>
    }
  }

  /** What a user puts at a path survives every later event that does not touch that path, installs
      included, unless it restores the shipped bytes. */
  lemma {:induction false} UserContentSurvives(run: seq<Event>, later: seq<Event>, p: Path, node: Node, sha: Bytes -> Digest,
                                               start: map<Path, Node>)
    requires Collisionless(sha)
    requires p in LastShipped(run) ==> LastShipped(run)[p] != node
    requires forall e :: e in later ==> !Touches(e, p)
    ensures UserOwned(run + [Edit(p, Some(node))] + later, p, node, sha, start)
    decreases |later|
  {
    hide UserOwned, Collisionless, Touches;
    var edited := run + [Edit(p, Some(node))];
    if later == [] {
      assert edited + later == edited;
      UserEdits(run, p, node, sha, start);
    } else {
      var front, e := later[..|later| - 1], later[|later| - 1];
      assert later == front + [e];
      assert edited + later == edited + front + [e];
      UserContentSurvives(run, front, p, node, sha, start);
      UserOwnedStays(edited + front, e, p, node, sha, start);
    }
  }

  lemma {:induction false} UserEdits(run: seq<Event>, p: Path, node: Node, sha: Bytes -> Digest, start: map<Path, Node>)
    requires p in LastShipped(run) ==> LastShipped(run)[p] != node
    ensures UserOwned(run + [Edit(p, Some(node))], p, node, sha, start)
  {
    hide After, LastShipped;
    RunAppend(State(start, {}, map[]), run, Edit(p, Some(node)), sha);
  }

  // ---------- publishing the runtime tree ----------

  /** A removal succeeds, or raises and leaves some remnant of the tree behind. */
  datatype Removal<+Tree> = Removed | Stuck(rest: Option<Tree>)

  /** What would happen at each call that can raise: clearing the old backup, moving the destination there,
      publishing, removing the destination in the handler, moving the backup back, dropping the backup. */
  datatype Faults<+Tree> = Faults(clear: Removal<Tree>, move: bool, publish: bool, strip: Removal<Tree>,
                                  restore: bool, drop: Removal<Tree>)

  /** The destination directory, its staged replacement and the backup slot beside it. */
  datatype Slots<+Tree> = Slots(staged: Option<Tree>, destination: Option<Tree>, backup: Option<Tree>)

  function Remnant<Tree>(removal: Removal<Tree>): Option<Tree> {
    if removal.Stuck? then removal.rest else None
  }

  /** The attempt publishes: no call before or at the second rename raises. */
  predicate Publishes<Tree>(s: Slots<Tree>, f: Faults<Tree>) {
    !(s.backup.Some? && f.clear.Stuck?) && !(s.destination.Some? && f.move) && !f.publish
  }

  /** A tree was moved to the backup slot and did not come back from there. */
  predicate BackupAbandoned<Tree>(s: Slots<Tree>, f: Faults<Tree>) {
    s.destination.Some? && !f.move && (!f.publish || f.restore)
  }

  /** The slots an attempt leaves behind. */
  function Settled<Tree>(s: Slots<Tree>, f: Faults<Tree>): Slots<Tree> {
    if s.backup.Some? && f.clear.Stuck? then s.(backup := f.clear.rest)
    else
      var left := if BackupAbandoned(s, f) then Remnant(f.drop) else None;
      if Publishes(s, f) then Slots(None, s.staged, left)
      else if s.destination.Some? && f.move then Slots(s.staged, Remnant(f.strip), left)
      else Slots(s.staged, if f.restore then None else s.destination, left)
  }

  class RuntimeRoot<Tree(==)> {
    var staged: Option<Tree>
    var destination: Option<Tree>
    var backup: Option<Tree>

    function Current(): Slots<Tree>
      reads this
    {
      Slots(staged, destination, backup)
    }

    method Clear(f: Faults<Tree>) returns (ok: bool)
      modifies this`backup
      ensures ok <==> !(old(backup).Some? && f.clear.Stuck?)
      ensures backup == if ok then None else f.clear.rest
    {
      ok := true;
      if backup.Some? {
        ok := f.clear.Removed?;
        backup := Remnant(f.clear);
      }
    }

    /** `f` says what the six calls that can raise would do. */
    method AtomicReplace(f: Faults<Tree>) returns (ok: bool)
      requires staged.Some?
      modifies this
      ensures Current() == Settled(old(Current()), f)
      // the staged tree is published whole, or it is still staged
      ensures staged.None? <==> Publishes(old(Current()), f)
      ensures staged.None? ==> destination == old(staged)
      ensures staged.Some? ==> staged == old(staged)
      // it returns exactly when it publishes and can drop the tree it replaced
      ensures ok <==> staged.None? && !(old(destination).Some? && f.drop.Stuck?)
      // an attempt that publishes nothing leaves the old tree exactly when
      ensures staged.Some? ==>
        (destination == old(destination) <==>
           || old(destination).None? || (old(backup).Some? && f.clear.Stuck?)
           || (if f.move then f.strip == Stuck(old(destination)) else !f.restore))
      // and otherwise leaves none, or what a stuck removal left of it
      ensures staged.Some? && destination != old(destination) ==>
        destination == if f.move && f.strip.Stuck? then f.strip.rest else None
      // a backup remains only where a removal got stuck
      ensures backup ==
        if old(backup).Some? && f.clear.Stuck? then f.clear.rest
        else if old(destination).Some? && !f.move && (staged.None? || f.restore) && f.drop.Stuck? then f.drop.rest
        else None
    {
      ok := Clear(f);
      if !ok {
        return false;
      }
      var movedOld := false;
      if destination.Some? {
        if f.move {
          ok := false;
        } else {
          backup, destination := destination, None;
          movedOld := true;
        }
      }
      if ok {
        if f.publish {
          ok := false;
        } else {
          destination, staged := staged, None;
        }
      }
      if !ok {
        var stripped := true;
        if destination.Some? {
          stripped := f.strip.Removed?;
          destination := Remnant(f.strip);
        }
        if stripped && movedOld && backup.Some? && !f.restore {
          destination, backup := backup, None;
        }
      }
      if backup.Some? {
        ok := ok && f.drop.Removed?;
        backup := Remnant(f.drop);
      }
    }
  }

  /** When only the first rename fails, the handler removes the old tree: no slot holds it any more. */
  lemma FailedMoveLosesOldTree(next: Bytes, current: Bytes)
    ensures Settled(Slots(Some(next), Some(current), None), Faults(Removed, true, false, Removed, false, Removed))
         == Slots(Some(next), None, None)
  {}

  /** When only the last removal fails, the new tree is published although the call raises. */
  lemma FailedDropPublishes(next: Bytes, current: Bytes, rest: Option<Bytes>)
    ensures Settled(Slots(Some(next), Some(current), None), Faults(Removed, false, false, Removed, false, Stuck(rest)))
         == Slots(None, Some(next), rest)
  {}

  // ---------- publishing again and again ----------

  datatype Attempt<+Tree> = Attempt(tree: Tree, faults: Faults<Tree>)

  /** Each attempt stages its own tree beside whatever the earlier ones left. */
  function Attempts<Tree>(start: Slots<Tree>, run: seq<Attempt<Tree>>): Slots<Tree> {
    if run == [] then start
    else
      var last := run[|run| - 1];
      Settled(Attempts(start, run[..|run| - 1]).(staged := Some(last.tree)), last.faults)
  }

  /** Attempt `k` of the run publishes its tree. */
  predicate PublishedAt<Tree>(start: Slots<Tree>, run: seq<Attempt<Tree>>, k: nat)
    requires k < |run|
  {
    Publishes(Attempts(start, run[..k]).(staged := Some(run[k].tree)), run[k].faults)
  }

  /** Attempt `k` publishes nothing, and could not move the old tree away or back. */
  predicate LostAt<Tree>(start: Slots<Tree>, run: seq<Attempt<Tree>>, k: nat)
    requires k < |run|
  {
    !PublishedAt(start, run, k) && (run[k].faults.move || run[k].faults.restore)
  }

  /** No attempt after the first `k` published another tree or lost the one that stood. */
  ghost predicate Undisturbed<Tree>(start: Slots<Tree>, run: seq<Attempt<Tree>>, k: nat) {
    forall j :: k <= j < |run| ==> !PublishedAt(start, run, j) && !LostAt(start, run, j)
  }

  /** The tree comes from the start or from attempt `k - 1`, and nothing disturbed it since. */
  ghost predicate Standing<Tree>(start: Slots<Tree>, run: seq<Attempt<Tree>>, k: nat, tree: Tree) {
    && k <= |run| && Undisturbed(start, run, k)
    && if k == 0 then start.destination == Some(tree) else PublishedAt(start, run, k - 1) && run[k - 1].tree == tree
  }

  lemma {:induction false} StandingAppend<Tree>(start: Slots<Tree>, run: seq<Attempt<Tree>>, a: Attempt<Tree>, k: nat, tree: Tree)
    requires k <= |run|
    ensures Standing(start, run + [a], k, tree)
       <==> Standing(start, run, k, tree) && !PublishedAt(start, run + [a], |run|) && !LostAt(start, run + [a], |run|)
  {
    hide Attempts;
    var more := run + [a];
    forall j | 0 <= j < |run|
      ensures PublishedAt(start, more, j) == PublishedAt(start, run, j) && LostAt(start, more, j) == LostAt(start, run, j)
    {
      assert more[..j] == run[..j] && more[j] == run[j];
    }
  }

  lemma {:induction false} StandsInside<Tree>(start: Slots<Tree>, run: seq<Attempt<Tree>>, tree: Tree)
    ensures forall k: nat :: Standing(start, run, k, tree) ==> k <= |run|
  {}

  lemma {:induction false} NewestStands<Tree>(start: Slots<Tree>, run: seq<Attempt<Tree>>, tree: Tree)
    requires run != []
    ensures Standing(start, run, |run|, tree) <==> PublishedAt(start, run, |run| - 1) && run[|run| - 1].tree == tree
  {
    hide PublishedAt, LostAt;
  }

  ghost predicate Stands<Tree>(start: Slots<Tree>, run: seq<Attempt<Tree>>, tree: Tree) {
    exists k :: Standing(start, run, k, tree)
  }

  /** One more attempt: its own tree stands when it publishes, the old one when it neither publishes nor loses it. */
  lemma {:induction false} StandsAppend<Tree>(start: Slots<Tree>, run: seq<Attempt<Tree>>, a: Attempt<Tree>, tree: Tree)
    ensures Stands(start, run + [a], tree) <==>
      if PublishedAt(start, run + [a], |run|) then a.tree == tree
      else !LostAt(start, run + [a], |run|) && Stands(start, run, tree)
  {
    var more := run + [a];
    StandsInside(start, run, tree);
    StandsInside(start, more, tree);
    NewestStands(start, more, tree);
    hide Standing, PublishedAt, LostAt;
    if k: nat :| Standing(start, more, k, tree) {
      if k <= |run| { StandingAppend(start, run, a, k, tree); }
    }
    if k: nat :| Standing(start, run, k, tree) {
      StandingAppend(start, run, a, k, tree);
    }
  }

  lemma {:induction false} SettledWithoutStuck<Tree>(s: Slots<Tree>, f: Faults<Tree>)
    requires f.clear.Removed? && f.strip.Removed? && f.drop.Removed?
    ensures Settled(s, f).backup.None?
    ensures Settled(s, f).destination ==
      if Publishes(s, f) then s.staged else if f.move || f.restore then None else s.destination
  {}

  /** Over any run of attempts whose removals succeed, whatever renames fail: the destination holds a whole
      tree, namely the one standing, or nothing when the last one was lost; no backup is left behind. */
  lemma {:induction false} DestinationHoldsStanding<Tree>(start: Slots<Tree>, run: seq<Attempt<Tree>>, tree: Tree)
    requires forall a :: a in run ==> a.faults.clear.Removed? && a.faults.strip.Removed? && a.faults.drop.Removed?
    ensures Attempts(start, run).destination == Some(tree) <==> Stands(start, run, tree)
    ensures run != [] ==> Attempts(start, run).backup.None?
  {
    if run == [] {
      assert Standing(start, run, 0, tree) <==> start.destination == Some(tree);
    } else {
      hide Stands, Standing, Settled, Publishes;
      var n := |run| - 1;
      var front, a := run[..n], run[n];
      assert run == front + [a] && a in run;
      DestinationHoldsStanding(start, front, tree);
      StandsAppend(start, front, a, tree);
      SettledWithoutStuck(Attempts(start, front).(staged := Some(a.tree)), a.faults);
    }
  }
}
