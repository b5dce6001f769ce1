/** The plugin bootstrapper (class Plan): selecting and initialising the
    storage backend, and the enable step that, once storage is up, creates
    the caches and schedules the analysis tasks. The host runtime appears
    only as the objects the bootstrapper talks to: the backends, the
    scheduler and the cache handles. */
module Bootstrap {
  import opened Options
  import opened Strings
  import opened AnalysisSchedule

  /** The configuration values the enable step reads. */
  datatype Settings = Settings(
    dbType: string,
    webserverEnabled: bool,
    refreshOnEnable: bool,
    autoRefreshMinutes: int32)

  /** A storage backend. Its connection logic is abstracted to whether init()
      succeeds; initCalls counts the init() calls it received. */
  class Database {
    const configName: string
    const initSucceeds: bool
    var initCalls: nat

    constructor (configName: string, initSucceeds: bool)
      ensures this.configName == configName && this.initSucceeds == initSucceeds
      ensures initCalls == 0
    {
      this.configName := configName;
      this.initSucceeds := initSucceeds;
      initCalls := 0;
    }

    method Init() returns (ok: bool)
      modifies this`initCalls
      ensures ok == initSucceeds && initCalls == old(initCalls) + 1
    {
      initCalls := initCalls + 1;
      ok := initSucceeds;
    }
  }

  function ConfigNames(ds: seq<Database>): seq<string>
  {
    seq(|ds|, i requires 0 <= i < |ds| => ds[i].configName)
  }

  /** The position of the first name equal to dbType ignoring case, if any. */
  function FirstMatch(names: seq<string>, dbType: string): (r: Option<nat>)
    ensures r.Some? ==> r.value < |names| && EqualsIgnoreCase(dbType, names[r.value])
    ensures r.Some? ==> forall j :: 0 <= j < r.value ==> !EqualsIgnoreCase(dbType, names[j])
    ensures r.None? <==> forall j :: 0 <= j < |names| ==> !EqualsIgnoreCase(dbType, names[j])
  {
    if names == [] then None
    else if EqualsIgnoreCase(dbType, names[0]) then Some(0)
    else
      match FirstMatch(names[1..], dbType)
      case None => None
      case Some(k) => Some(k + 1)
  }

  /** No two names are equal ignoring case. */
  predicate DistinctIgnoringCase(names: seq<string>)
  {
    forall i, j :: 0 <= i < j < |names| ==> !EqualsIgnoreCase(names[i], names[j])
  }

  /** With case-insensitively distinct names at most one name matches. */
  lemma AtMostOneMatch(names: seq<string>, dbType: string, i: nat, j: nat)
    requires DistinctIgnoringCase(names) && i < |names| && j < |names|
    requires EqualsIgnoreCase(dbType, names[i]) && EqualsIgnoreCase(dbType, names[j])
    ensures i == j
  {
    EqualsIgnoreCaseEquivalence(dbType, names[i], names[j]);
    EqualsIgnoreCaseEquivalence(names[i], dbType, names[j]);
    EqualsIgnoreCaseEquivalence(dbType, names[j], names[i]);
    EqualsIgnoreCaseEquivalence(names[j], dbType, names[i]);
  }

  function SelectedName(names: seq<string>, dbType: string): Option<string>
  {
    match FirstMatch(names, dbType)
    case None => None
    case Some(k) => Some(names[k])
  }

  /** The backends live in a hash set whose iteration order is unspecified;
      with distinct names, any order selects the same backend. */
  lemma SelectionIgnoresOrder(a: seq<string>, b: seq<string>, dbType: string)
    requires multiset(a) == multiset(b) && DistinctIgnoringCase(a)
    ensures SelectedName(a, dbType) == SelectedName(b, dbType)
  {
    match FirstMatch(a, dbType)
    case Some(i) =>
      assert a[i] in multiset(b);
      var j :| 0 <= j < |b| && b[j] == a[i];
      var k := FirstMatch(b, dbType).value;
      assert b[k] in multiset(a);
      var i' :| 0 <= i' < |a| && a[i'] == b[k];
      AtMostOneMatch(a, dbType, i, i');
    case None =>
      if FirstMatch(b, dbType).Some? {
        var k := FirstMatch(b, dbType).value;
        assert b[k] in multiset(a);
        var i' :| 0 <= i' < |a| && a[i'] == b[k];
      }
  }

  /** Whether initDatabase succeeds: the first backend whose name matches
      exists and its init() succeeds. */
  function DatabaseReady(ds: seq<Database>, dbType: string): bool
  {
    var k := FirstMatch(ConfigNames(ds), dbType);
    k.Some? && ds[k.value].initSucceeds
  }

  /** With distinct names: initDatabase succeeds iff some backend's name
      equals the configured type ignoring case and that backend's init()
      succeeds. */
  lemma DatabaseReadyIff(ds: seq<Database>, dbType: string)
    requires DistinctIgnoringCase(ConfigNames(ds))
    ensures DatabaseReady(ds, dbType) <==>
      exists i :: 0 <= i < |ds| && EqualsIgnoreCase(dbType, ds[i].configName) && ds[i].initSucceeds
  {
    var names := ConfigNames(ds);
    if i :| 0 <= i < |ds| && EqualsIgnoreCase(dbType, ds[i].configName) && ds[i].initSucceeds {
      assert names[i] == ds[i].configName;
      var k := FirstMatch(names, dbType).value;
      AtMostOneMatch(names, dbType, i, k);
    }
  }

  /** The tasks the host scheduler was given, in order (a task's id is its
      position plus one), and the ids of those cancelled since. */
  class Scheduler {
    var tasks: seq<TaskRequest>
    var cancelled: set<nat>

    constructor ()
      ensures tasks == [] && cancelled == {}
    {
      tasks := [];
      cancelled := {};
    }

    /** runTaskLater: run once after `delay` ticks. */
    method RunTaskLater(kind: TaskKind, delay: int) returns (id: nat)
      modifies this`tasks
      ensures tasks == old(tasks) + [TaskRequest(kind, delay, None)] && id == |tasks|
    {
      tasks := tasks + [TaskRequest(kind, delay, None)];
      id := |tasks|;
    }

    /** runTaskTimerAsynchronously: run after `delay` ticks, then every `period`. */
    method RunTaskTimer(kind: TaskKind, delay: int, period: int) returns (id: nat)
      modifies this`tasks
      ensures tasks == old(tasks) + [TaskRequest(kind, delay, Some(period))] && id == |tasks|
    {
      tasks := tasks + [TaskRequest(kind, delay, Some(period))];
      id := |tasks|;
    }

    /** A task's cancel(): its id joins the cancelled ids. */
    method Cancel(id: nat)
      modifies this`cancelled
      ensures cancelled == old(cancelled) + {id}
    {
      cancelled := cancelled + {id};
    }
  }

  class DataCacheHandler {
    constructor () {}
  }

  class InspectCacheHandler {
    constructor () {}
  }

  class WebSocketServer {
    constructor () {}
  }

  /** The analysis cache, reduced to what the tasks read (whether a snapshot
      is cached, and its refresh date) and to a count of the updateCache()
      calls it received. */
  class AnalysisCacheHandler {
    var cached: bool
    var refreshDate: int
    var updateRequests: nat

    constructor ()
      ensures !cached && updateRequests == 0
    {
      cached := false;
      refreshDate := 0;
      updateRequests := 0;
    }

    method UpdateCache()
      modifies this`updateRequests
      ensures updateRequests == old(updateRequests) + 1
    {
      updateRequests := updateRequests + 1;
    }
  }

  class Plan {
    const settings: Settings
    const scheduler: Scheduler
    var databases: seq<Database>
    var db: Database?
    var enabled: bool
    var handler: DataCacheHandler?
    var inspectCache: InspectCacheHandler?
    var analysisCache: AnalysisCacheHandler?
    var uiServer: WebSocketServer?
    var bootAnalysisTaskID: int

    /** The plugin as the host hands it to onEnable: marked enabled, its
        reference fields null and its int field 0. */
    constructor (settings: Settings, scheduler: Scheduler)
      ensures this.settings == settings && this.scheduler == scheduler
      ensures databases == [] && db == null && enabled
      ensures handler == null && inspectCache == null && analysisCache == null && uiServer == null
      ensures bootAnalysisTaskID == 0
    {
      this.settings := settings;
      this.scheduler := scheduler;
      databases := [];
      db := null;
      enabled := true;
      handler := null;
      inspectCache := null;
      analysisCache := null;
      uiServer := null;
      bootAnalysisTaskID := 0;
    }

    /** initDatabase: db becomes the first backend whose config name equals
        the configured type ignoring case; init() is called on it and on no
        other backend. No match: false, db null. Failed init(): false and the
        plugin disabled. */
    method InitDatabase() returns (ok: bool)
      modifies this`db, this`enabled, databases
      ensures ok == DatabaseReady(databases, settings.dbType)
      ensures var k := FirstMatch(ConfigNames(databases), settings.dbType);
        && (k.None? ==> db == null && enabled == old(enabled))
        && (k.Some? ==> db == databases[k.value] && enabled == (old(enabled) && ok))
      ensures forall d :: d in databases && d != db ==> d.initCalls == old(d.initCalls)
      ensures forall d :: d in databases && d == db ==> d.initCalls == old(d.initCalls) + 1
    {
      ghost var names := ConfigNames(databases);
      assert forall j :: 0 <= j < |databases| ==> names[j] == databases[j].configName;
      db := null;
      var i := 0;
      while i < |databases|
        invariant 0 <= i <= |databases| && db == null
        invariant forall j :: 0 <= j < i ==> !EqualsIgnoreCase(settings.dbType, databases[j].configName)
        invariant forall d :: d in databases ==> d.initCalls == old(d.initCalls)
        invariant enabled == old(enabled)
      {
        if EqualsIgnoreCase(settings.dbType, databases[i].configName) {
          db := databases[i];
          break;
        }
        i := i + 1;
      }
      if db == null {
        ok := false;
        return;
      }
      ok := db.Init();
      if !ok {
        enabled := false;
      }
    }

    /** startBootAnalysisTask: a one-shot task 30 seconds out; its id is kept. */
    method StartBootAnalysisTask()
      modifies this`bootAnalysisTaskID, scheduler`tasks
      ensures scheduler.tasks == old(scheduler.tasks) + [BootTask]
      ensures bootAnalysisTaskID == |scheduler.tasks|
    {
      var id := scheduler.RunTaskLater(BootAnalysis, BootDelayTicks);
      bootAnalysisTaskID := id;
    }

    /** startAnalysisRefreshTask: a repeating task whose first delay and
        period are both the interval in ticks. */
    method StartAnalysisRefreshTask(minutes: int32)
      modifies scheduler`tasks
      ensures scheduler.tasks == old(scheduler.tasks) + [PeriodicTask(minutes)]
    {
      var ticks := RefreshPeriodTicks(minutes);
      var _ := scheduler.RunTaskTimer(PeriodicAnalysis, ticks as int, ticks as int);
    }

    /** What onEnable does once storage is up: create the caches, set
        bootAnalysisTaskID to -1 and, with the webserver enabled, start it
        and schedule the boot task (if refresh-on-enable is set) and the
        periodic task (unless the interval is -1). */
    method StartCachesAndAnalysis()
      modifies this`handler, this`inspectCache, this`analysisCache, this`uiServer
      modifies this`bootAnalysisTaskID, scheduler`tasks
      ensures fresh(handler) && fresh(inspectCache) && fresh(analysisCache)
      ensures !analysisCache.cached && analysisCache.updateRequests == 0
      ensures if settings.webserverEnabled then fresh(uiServer) else uiServer == old(uiServer)
      ensures scheduler.tasks == old(scheduler.tasks)
        + AnalysisTasks(settings.webserverEnabled, settings.refreshOnEnable, settings.autoRefreshMinutes)
      ensures bootAnalysisTaskID ==
        if settings.webserverEnabled && settings.refreshOnEnable then |old(scheduler.tasks)| + 1 else -1
    {
      handler := new DataCacheHandler();
      inspectCache := new InspectCacheHandler();
      analysisCache := new AnalysisCacheHandler();
      bootAnalysisTaskID := -1;
      if settings.webserverEnabled {
        uiServer := new WebSocketServer();
        if settings.refreshOnEnable {
          StartBootAnalysisTask();
        }
        var minutes := settings.autoRefreshMinutes;
        if minutes as int != DisabledMinutes {
          StartAnalysisRefreshTask(minutes);
        }
      }
    }

    /** The decision steps of onEnable, from registering the backends to
        scheduling analysis. If initDatabase fails the plugin is disabled
        and nothing further happens: no cache is created, no task scheduled
        and bootAnalysisTaskID keeps its value. Otherwise the caches are
        created, bootAnalysisTaskID is -1 unless the boot task was scheduled,
        and the analysis tasks are those AnalysisTasks names. */
    method OnEnable(registered: seq<Database>)
      modifies this, registered, scheduler`tasks
      ensures databases == registered
      ensures var k := FirstMatch(ConfigNames(registered), settings.dbType);
        db == if k.Some? then registered[k.value] else null
      ensures forall d :: d in registered && d != db ==> d.initCalls == old(d.initCalls)
      ensures forall d :: d in registered && d == db ==> d.initCalls == old(d.initCalls) + 1
      ensures !DatabaseReady(registered, settings.dbType) ==>
        && !enabled
        && handler == old(handler) && inspectCache == old(inspectCache)
        && analysisCache == old(analysisCache) && uiServer == old(uiServer)
        && bootAnalysisTaskID == old(bootAnalysisTaskID)
        && scheduler.tasks == old(scheduler.tasks)
      ensures DatabaseReady(registered, settings.dbType) ==>
        && enabled == old(enabled)
        && fresh(handler) && fresh(inspectCache) && fresh(analysisCache)
        && !analysisCache.cached && analysisCache.updateRequests == 0
        && (if settings.webserverEnabled then fresh(uiServer) else uiServer == old(uiServer))
        && scheduler.tasks == old(scheduler.tasks)
             + AnalysisTasks(settings.webserverEnabled, settings.refreshOnEnable, settings.autoRefreshMinutes)
        && bootAnalysisTaskID ==
             if settings.webserverEnabled && settings.refreshOnEnable then |old(scheduler.tasks)| + 1 else -1
    {
      databases := registered;
      var ok := InitDatabase();
      if !ok {
        enabled := false;
        return;
      }
      StartCachesAndAnalysis();
    }

    /** The boot task's run(): one updateCache(), then the task cancels itself.
        Java's this.cancel() cancels the runnable's own task; here the task is
        named by the id kept in bootAnalysisTaskID, which the requires ties to
        the scheduled BootTask entry, so the two agree. */
    method RunBootAnalysisTask()
      requires analysisCache != null && 1 <= bootAnalysisTaskID <= |scheduler.tasks|
      requires scheduler.tasks[bootAnalysisTaskID - 1] == BootTask
      modifies analysisCache`updateRequests, scheduler`cancelled
      ensures analysisCache.updateRequests == old(analysisCache.updateRequests) + 1
      ensures scheduler.cancelled == old(scheduler.cancelled) + {bootAnalysisTaskID}
    {
      analysisCache.UpdateCache();
      scheduler.Cancel(bootAnalysisTaskID);
    }

    /** The periodic task's run() at wall-clock time `now` (epoch ms): it
        calls updateCache() exactly when PeriodicRunUpdates says so. */
    method RunPeriodicAnalysisTask(now: int)
      requires analysisCache != null
      modifies analysisCache`updateRequests
      ensures analysisCache.updateRequests == old(analysisCache.updateRequests)
        + (if PeriodicRunUpdates(analysisCache.cached, now, analysisCache.refreshDate) then 1 else 0)
    {
      if !analysisCache.cached {
        analysisCache.UpdateCache();
      } else if now - analysisCache.refreshDate > FreshnessMs {
        analysisCache.UpdateCache();
      }
    }
  }
}
