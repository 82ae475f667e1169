/** The application's start command: it reads the configured source
    directory and the five target directories and, only when none of them is
    empty, saves the settings and schedules a non-recursive watch of the
    source directory whose handler holds a snapshot of the target directories.
    Otherwise it does nothing at all. */
module Organizer {

  import opened Wrappers
  import opened Classifier
  import opened Paths
  import opened FileHandler

  /** What the settings file holds once written. */
  datatype Settings = Settings(sourceDir: string, targetDirs: map<string, string>)

  /** A scheduled watch: the handler, the watched path and whether
      sub-directories are watched too. */
  datatype Watch = Watch(handler: Handler, path: string, recursive: bool)

  /** The application state the start command reads and changes: the values
      of the entry fields, the settings file's contents and the watches that
      are running, oldest first. Every successful start creates a new
      observer without stopping the previous one, so earlier watches stay
      live; the application's own observer attribute refers to the newest. */
  datatype AppState = AppState(
    sourceDir: string,
    targetDirs: map<string, string>,
    settingsFile: Option<Settings>,
    watches: seq<Watch>)

  /** The target-directory fields are exactly the five the application creates. */
  predicate WellFormed(app: AppState) {
    app.targetDirs.Keys == Keys
  }

  /** The guard of the start command: the source directory and every target
      directory are non-empty. Over the five target fields this means every
      category has a non-empty target directory. */
  function ConfigComplete(sourceDir: string, targetDirs: map<string, string>): (ok: bool)
    ensures ok ==> sourceDir != []
    ensures ok && targetDirs.Keys == Keys ==> forall c :: targetDirs[Key(c)] != []
  {
    sourceDir != [] && forall k :: k in targetDirs ==> targetDirs[k] != []
  }

  /** The watch a successful start schedules: a non-recursive watch of the
      source directory whose handler holds a snapshot of the target directories. */
  function NewWatch(app: AppState): Watch {
    Watch(Handler(app.sourceDir, app.targetDirs), app.sourceDir, false)
  }

  function Start(app: AppState): (app': AppState)
    ensures app'.sourceDir == app.sourceDir && app'.targetDirs == app.targetDirs
    ensures !ConfigComplete(app.sourceDir, app.targetDirs) ==> app' == app
    ensures ConfigComplete(app.sourceDir, app.targetDirs) ==>
      && app'.settingsFile == Some(Settings(app.sourceDir, app.targetDirs))
      && |app'.watches| == |app.watches| + 1
      && app'.watches[..|app.watches|] == app.watches
      && app'.watches[|app.watches|].path == app.sourceDir
      && !app'.watches[|app.watches|].recursive
      && app'.watches[|app.watches|].handler == Handler(app.sourceDir, app.targetDirs)
  {
    if ConfigComplete(app.sourceDir, app.targetDirs) then
      var saved := app.(settingsFile := Some(Settings(app.sourceDir, app.targetDirs)));
      saved.(watches := app.watches + [NewWatch(app)])
    else
      app
  }

  /** Over the five target fields, the guard says exactly: the source
      directory and each category's target directory are non-empty. */
  lemma GuardPerCategory(app: AppState)
    requires WellFormed(app)
    ensures ConfigComplete(app.sourceDir, app.targetDirs) <==>
      app.sourceDir != [] && forall c :: app.targetDirs[Key(c)] != []
  {
    KeysMatchCategories();
  }

  /** When the source directory and all five target directories are
      non-empty, Start writes the settings and adds a non-recursive watch of
      the source directory to those already running; when any of them is
      empty it has no effect at all: no settings are written and no watch is
      scheduled. */
  lemma StartGuard(app: AppState)
    requires WellFormed(app)
    ensures (app.sourceDir != [] && forall c :: app.targetDirs[Key(c)] != []) ==>
      && Start(app).settingsFile == Some(Settings(app.sourceDir, app.targetDirs))
      && Start(app).watches == app.watches + [Watch(Handler(app.sourceDir, app.targetDirs), app.sourceDir, false)]
    ensures !(app.sourceDir != [] && forall c :: app.targetDirs[Key(c)] != []) ==>
      Start(app) == app
  {
    GuardPerCategory(app);
  }

  /** Starting twice with a complete configuration leaves two watches of the
      source directory running, one more than before each start, both with
      the same handler. */
  lemma StartTwiceWatchesTwice(app: AppState)
    requires ConfigComplete(app.sourceDir, app.targetDirs)
    ensures var n, w := |app.watches|, Start(Start(app)).watches;
      && |w| == n + 2
      && w[..n] == app.watches
      && w[n] == w[n + 1]
      && w[n].path == app.sourceDir
  {
  }

  /** Once Start has scheduled a watch, every file created in the watched
      directory is renamed, never dropped on a missing key, into the non-empty
      target directory of its category under its own base name. */
  lemma ScheduledHandlerRoutesEveryFile(app: AppState, e: Event)
    requires WellFormed(app)
    requires ConfigComplete(app.sourceDir, app.targetDirs)
    requires !e.isDirectory
    ensures var h := Start(app).watches[|app.watches|].handler;
      var a, t := OnCreated(h, e), app.targetDirs[Key(CategoryOf(e.srcPath))];
      && a.Rename?
      && a.src == e.srcPath
      && t != []
      && Basename(a.dst) == Basename(e.srcPath)
      && (Head(a.dst) == t || Head(a.dst) == t + [Sep])
  {
    var h := Start(app).watches[|app.watches|].handler;
    FileEventsAreRenamed(h, e);
    RenameTarget(h, e);
  }

}
