/**
 The alerts of the native shell: three values sampled on every tick, each debounced on its own, and
 a cooldown shared by the notifications about them.
 */
module ShellAlerts {

  datatype Runtime = Runtime(serverRunning: bool, localHealthReady: bool, stopRequested: bool, viewerCount: nat,
                             detailText: string)

  datatype Config = Config(healthStableSamples: int, viewerStableSamples: int, exitStableSamples: int,
                           notificationCooldownTicks: int)

  datatype Kind = HealthRecovered | HealthDegraded | ViewerCountChanged | ServerExitedUnexpectedly

  datatype Notification = Notification(kind: Kind, title: string, body: string)

  function Max(a: int, b: int): int {
    if a < b then b else a
  }

  // ----- one debounced value

  datatype Channel<T> = Channel(stable: T, pending: T, samples: int)

  datatype Memory = Memory(initialized: bool, health: Channel<bool>, viewers: Channel<nat>, server: Channel<bool>,
                           cooldownRemainingTicks: int)

  /** A value that differs from the stable one must be sampled n times in a row to replace it. */
  function Observe<T(==)>(c: Channel<T>, value: T, n: int): Channel<T> {
    if value == c.stable then c.(samples := 0)
    else if (if value == c.pending then c.samples + 1 else 1) >= n then Channel(value, value, 0)
    else Channel(c.stable, value, if value == c.pending then c.samples + 1 else 1)
  }

  function ObserveAll<T(==)>(values: seq<T>, n: int): Channel<T>
    requires values != []
  {
    if |values| == 1 then Channel(values[0], values[0], 0)
    else Observe(ObserveAll(values[..|values| - 1], n), values[|values| - 1], n)
  }

  // ----- one tick, as a function

  function Decimal(n: nat): string {
    (if n < 10 then "" else Decimal(n / 10)) + ["0123456789"[n % 10]]
  }

  function ViewerBody(count: nat): string {
    if count == 0 then "No viewers are connected right now."
    else if count == 1 then "1 viewer is connected."
    else Decimal(count) + " viewers are connected."
  }

  function Title(kind: Kind): string {
    match kind
    case HealthRecovered => "Sharing service recovered"
    case HealthDegraded => "Sharing service needs attention"
    case ViewerCountChanged => "Viewer count changed"
    case ServerExitedUnexpectedly => "Sharing service stopped"
  }

  /** The body of a notification whose runtime state has no detail text of its own */
  function DefaultBody(kind: Kind): string {
    match kind
    case HealthRecovered => "The local sharing service is healthy again."
    case HealthDegraded => "The local sharing service health probe is failing."
    case ViewerCountChanged => ""
    case ServerExitedUnexpectedly => "The local sharing service exited unexpectedly."
  }

  function Detail(r: Runtime, kind: Kind): string {
    if r.detailText == "" then DefaultBody(kind) else r.detailText
  }

  function HealthNotice(r: Runtime): Notification {
    if r.localHealthReady then Notification(HealthRecovered, Title(HealthRecovered), DefaultBody(HealthRecovered))
    else Notification(HealthDegraded, Title(HealthDegraded), Detail(r, HealthDegraded))
  }

  function ViewerNotice(r: Runtime): Notification {
    Notification(ViewerCountChanged, Title(ViewerCountChanged), ViewerBody(r.viewerCount))
  }

  function ServerNotice(r: Runtime): Notification {
    Notification(ServerExitedUnexpectedly, Title(ServerExitedUnexpectedly), Detail(r, ServerExitedUnexpectedly))
  }

  /** What a tick would report without a cooldown, in order */
  function Notices(r: Runtime, healthChanged: bool, viewersChanged: bool, serverStopped: bool): seq<Notification> {
    (if healthChanged then [HealthNotice(r)] else [])
    + (if viewersChanged then [ViewerNotice(r)] else [])
    + (if serverStopped && !r.stopRequested then [ServerNotice(r)] else [])
  }

  /** With a cooldown of at least one tick only the first notice is reported. */
  function Reported(notices: seq<Notification>, remaining: int, cooldown: int): seq<Notification> {
    if remaining > 0 || notices == [] then []
    else if cooldown > 0 then [notices[0]]
    else notices
  }

  function CooldownAfter(reported: seq<Notification>, remaining: int, cooldown: int): int {
    if reported == [] then remaining else Max(0, cooldown)
  }

  function Remaining(m: Memory): int {
    if m.cooldownRemainingTicks > 0 then m.cooldownRemainingTicks - 1 else m.cooldownRemainingTicks
  }

  function NextHealth(m: Memory, r: Runtime, config: Config): Channel<bool> {
    if m.initialized then Observe(m.health, r.localHealthReady, Max(1, config.healthStableSamples))
    else Channel(r.localHealthReady, r.localHealthReady, 0)
  }

  function NextViewers(m: Memory, r: Runtime, config: Config): Channel<nat> {
    if m.initialized then Observe(m.viewers, r.viewerCount, Max(1, config.viewerStableSamples))
    else Channel(r.viewerCount, r.viewerCount, 0)
  }

  function NextServer(m: Memory, r: Runtime, config: Config): Channel<bool> {
    if m.initialized then Observe(m.server, r.serverRunning, Max(1, config.exitStableSamples))
    else Channel(r.serverRunning, r.serverRunning, 0)
  }

  function TickReport(m: Memory, r: Runtime, config: Config): seq<Notification> {
    if !m.initialized then []
    else
      Reported(
        Notices(r,
          NextHealth(m, r, config).stable != m.health.stable,
          NextViewers(m, r, config).stable != m.viewers.stable,
          m.server.stable && !NextServer(m, r, config).stable),
        Remaining(m), config.notificationCooldownTicks)
  }

  function NextMemory(m: Memory, r: Runtime, config: Config): Memory {
    Memory(true, NextHealth(m, r, config), NextViewers(m, r, config), NextServer(m, r, config),
             CooldownAfter(TickReport(m, r, config), Remaining(m), config.notificationCooldownTicks))
  }

  /** What has been reported so far in a tick, and the cooldown left */
  datatype Report = Report(sent: seq<Notification>, cooldown: int)

  function Add(report: Report, happened: bool, notice: Notification, config: Config): Report {
    if !happened || report.cooldown > 0 then report
    else Report(report.sent + [notice], Max(0, config.notificationCooldownTicks))
  }

  lemma AddedOneByOne(m: Memory, r: Runtime, config: Config) returns (report: Report)
    requires m.initialized
    ensures var health := Add(Report([], Remaining(m)), NextHealth(m, r, config).stable != m.health.stable,
                              HealthNotice(r), config);
            var viewers := Add(health, NextViewers(m, r, config).stable != m.viewers.stable, ViewerNotice(r), config);
            report == Add(viewers, m.server.stable && !NextServer(m, r, config).stable && !r.stopRequested,
                          ServerNotice(r), config)
    ensures report.sent == TickReport(m, r, config)
            && report.cooldown == NextMemory(m, r, config).cooldownRemainingTicks
  {
    hide HealthNotice, ViewerNotice, ServerNotice, NextHealth, NextViewers, NextServer;
    var health := Add(Report([], Remaining(m)), NextHealth(m, r, config).stable != m.health.stable, HealthNotice(r),
                      config);
    var viewers := Add(health, NextViewers(m, r, config).stable != m.viewers.stable, ViewerNotice(r), config);
    report := Add(viewers, m.server.stable && !NextServer(m, r, config).stable && !r.stopRequested,
                  ServerNotice(r), config);
  }

  // ----- one tick, as the program computes it

  method AddNotification(notifications: seq<Notification>, memory: Memory, config: Config, kind: Kind, title: string,
                         body: string)
    returns (notifications': seq<Notification>, memory': Memory)
    ensures Report(notifications', memory'.cooldownRemainingTicks)
            == Add(Report(notifications, memory.cooldownRemainingTicks), true, Notification(kind, title, body), config)
    ensures memory' == memory.(cooldownRemainingTicks := memory'.cooldownRemainingTicks)
  {
    notifications', memory' := notifications, memory;
    if memory'.cooldownRemainingTicks > 0 { return; }
    notifications' := notifications' + [Notification(kind, title, body)];
    memory' := memory'.(cooldownRemainingTicks := Max(0, config.notificationCooldownTicks));
  }

  /** The health section of a tick */
  method TickHealth(runtime: Runtime, inputMemory: Memory, input: seq<Notification>, config: Config)
    returns (memory: Memory, notifications: seq<Notification>)
    requires inputMemory.initialized
    ensures memory.health == NextHealth(inputMemory, runtime, config)
    ensures memory.initialized && memory.viewers == inputMemory.viewers && memory.server == inputMemory.server
    ensures Report(notifications, memory.cooldownRemainingTicks)
            == Add(Report(input, inputMemory.cooldownRemainingTicks),
                   memory.health.stable != inputMemory.health.stable, HealthNotice(runtime), config)
  {
    hide ViewerBody, Title, DefaultBody, Detail;
    memory, notifications := inputMemory, input;
    if runtime.localHealthReady == memory.health.stable {
      memory := memory.(health := memory.health.(samples := 0));
    } else if runtime.localHealthReady == memory.health.pending {
      memory := memory.(health := memory.health.(samples := memory.health.samples + 1));
    } else {
      memory := memory.(health := memory.health.(pending := runtime.localHealthReady));
      memory := memory.(health := memory.health.(samples := 1));
    }
    if memory.health.samples >= Max(1, config.healthStableSamples) {
      var previous := memory.health.stable;
      memory := memory.(health := memory.health.(stable := memory.health.pending));
      memory := memory.(health := memory.health.(samples := 0));
      if memory.health.stable != previous {
        if memory.health.stable {
          notifications, memory := AddNotification(notifications, memory, config, HealthRecovered,
            Title(HealthRecovered), DefaultBody(HealthRecovered));
        } else {
          notifications, memory := AddNotification(notifications, memory, config, HealthDegraded,
            Title(HealthDegraded), Detail(runtime, HealthDegraded));
        }
      }
    }
  }

  /** The viewer section of a tick */
  method TickViewers(runtime: Runtime, inputMemory: Memory, input: seq<Notification>, config: Config)
    returns (memory: Memory, notifications: seq<Notification>)
    requires inputMemory.initialized
    ensures memory.viewers == NextViewers(inputMemory, runtime, config)
    ensures memory.initialized && memory.health == inputMemory.health && memory.server == inputMemory.server
    ensures Report(notifications, memory.cooldownRemainingTicks)
            == Add(Report(input, inputMemory.cooldownRemainingTicks),
                   memory.viewers.stable != inputMemory.viewers.stable, ViewerNotice(runtime), config)
  {
    hide ViewerBody, Title, DefaultBody, Detail;
    memory, notifications := inputMemory, input;
    if runtime.viewerCount == memory.viewers.stable {
      memory := memory.(viewers := memory.viewers.(samples := 0));
    } else if runtime.viewerCount == memory.viewers.pending {
      memory := memory.(viewers := memory.viewers.(samples := memory.viewers.samples + 1));
    } else {
      memory := memory.(viewers := memory.viewers.(pending := runtime.viewerCount));
      memory := memory.(viewers := memory.viewers.(samples := 1));
    }
    if memory.viewers.samples >= Max(1, config.viewerStableSamples) {
      var previous := memory.viewers.stable;
      memory := memory.(viewers := memory.viewers.(stable := memory.viewers.pending));
      memory := memory.(viewers := memory.viewers.(samples := 0));
      if memory.viewers.stable != previous {
        notifications, memory := AddNotification(notifications, memory, config, ViewerCountChanged,
          Title(ViewerCountChanged), ViewerBody(memory.viewers.stable));
      }
    }
  }

  /** The server section of a tick */
  method TickServer(runtime: Runtime, inputMemory: Memory, input: seq<Notification>, config: Config)
    returns (memory: Memory, notifications: seq<Notification>)
    requires inputMemory.initialized
    ensures memory.server == NextServer(inputMemory, runtime, config)
    ensures memory.initialized && memory.health == inputMemory.health && memory.viewers == inputMemory.viewers
    ensures Report(notifications, memory.cooldownRemainingTicks)
            == Add(Report(input, inputMemory.cooldownRemainingTicks),
                   inputMemory.server.stable && !memory.server.stable && !runtime.stopRequested,
                   ServerNotice(runtime), config)
  {
    hide ViewerBody, Title, DefaultBody, Detail;
    memory, notifications := inputMemory, input;
    if runtime.serverRunning == memory.server.stable {
      memory := memory.(server := memory.server.(samples := 0));
    } else if runtime.serverRunning == memory.server.pending {
      memory := memory.(server := memory.server.(samples := memory.server.samples + 1));
    } else {
      memory := memory.(server := memory.server.(pending := runtime.serverRunning));
      memory := memory.(server := memory.server.(samples := 1));
    }
    if memory.server.samples >= Max(1, config.exitStableSamples) {
      var previous := memory.server.stable;
      memory := memory.(server := memory.server.(stable := memory.server.pending));
      memory := memory.(server := memory.server.(samples := 0));
      if previous && !memory.server.stable && !runtime.stopRequested {
        notifications, memory := AddNotification(notifications, memory, config, ServerExitedUnexpectedly,
          Title(ServerExitedUnexpectedly), Detail(runtime, ServerExitedUnexpectedly));
      }
    }
  }

  method TickNativeShellAlerts(runtime: Runtime, inputMemory: Memory, config: Config)
    returns (memory: Memory, notifications: seq<Notification>)
    ensures memory == NextMemory(inputMemory, runtime, config)
    ensures notifications == TickReport(inputMemory, runtime, config)
  {
    memory, notifications := inputMemory, [];
    if memory.cooldownRemainingTicks > 0 {
      memory := memory.(cooldownRemainingTicks := memory.cooldownRemainingTicks - 1);
    }
    if !memory.initialized {
      memory := memory.(initialized := true);
      memory := memory.(health := memory.health.(stable := runtime.localHealthReady));
      memory := memory.(server := memory.server.(stable := runtime.serverRunning));
      memory := memory.(viewers := memory.viewers.(stable := runtime.viewerCount));
      memory := memory.(health := memory.health.(pending := runtime.localHealthReady));
      memory := memory.(viewers := memory.viewers.(pending := runtime.viewerCount));
      memory := memory.(server := memory.server.(pending := runtime.serverRunning));
      memory := memory.(health := memory.health.(samples := 0));
      memory := memory.(viewers := memory.viewers.(samples := 0));
      memory := memory.(server := memory.server.(samples := 0));
      return;
    }

    ghost var report := AddedOneByOne(inputMemory, runtime, config);
    memory, notifications := TickHealth(runtime, memory, notifications, config);
    memory, notifications := TickViewers(runtime, memory, notifications, config);
    memory, notifications := TickServer(runtime, memory, notifications, config);
  }

  // ----- what debouncing means

  /** The n values that end before position k are equal. */
  predicate Window<T(==)>(values: seq<T>, n: nat, k: nat) {
    n <= k <= |values| && 0 < k && forall i | k - n <= i < k :: values[i] == values[k - 1]
  }

  /** v is the value of the latest window of n equal samples, or the first sample if there is none. */
  ghost predicate Debounced<T(!new)>(values: seq<T>, n: nat, v: T)
    requires values != []
  {
    || (exists k: nat :: Window(values, n, k) && v == values[k - 1]
                       && forall j | k < j <= |values| :: !Window(values, n, j))
    || (v == values[0] && forall k: nat | k <= |values| :: !Window(values, n, k))
  }

  function RunLength<T(==)>(values: seq<T>): nat
    requires values != []
  {
    var n := |values| - 1;
    if n > 0 && values[n - 1] == values[n] then RunLength(values[..n]) + 1 else 1
  }

  lemma {:induction false} RunIsWindow<T>(values: seq<T>, n: nat)
    requires values != [] && n > 0
    ensures RunLength(values) >= n <==> Window(values, n, |values|)
  {
    var last := |values| - 1;
    if last > 0 && values[last - 1] == values[last] && n > 1 {
      RunIsWindow(values[..last], n - 1);
      if Window(values, n, |values|) {
        assert forall i | last - (n - 1) <= i < last :: values[..last][i] == values[i];
        assert Window(values[..last], n - 1, last);
      }
    }
  }

  /** Between samples, the counter is the length of the run of equal samples that differ from the stable value. */
  predicate Counting<T(==)>(values: seq<T>, n: nat, c: Channel<T>)
    requires values != []
  {
    var last := values[|values| - 1];
    0 <= c.samples < n
    && if last == c.stable then c.samples == 0 else c.pending == last && c.samples == RunLength(values)
  }

  /** The counters implement the meaning: the stable value is the debounced one. */
  lemma {:induction false} StableIsDebounced<T(!new)>(values: seq<T>, n: nat)
    requires values != [] && n > 0
    ensures Debounced(values, n, ObserveAll(values, n).stable) && Counting(values, n, ObserveAll(values, n))
  {
    var last := |values| - 1;
    if last == 0 {
      assert Window(values, 1, 1);
    } else {
      StableIsDebounced(values[..last], n);
      ObserveKeeps(values[..last], values[last], n, ObserveAll(values[..last], n));
      assert values[..last] + [values[last]] == values;
    }
  }

  lemma ObserveKeeps<T(!new)>(values: seq<T>, x: T, n: nat, c: Channel<T>)
    requires values != [] && n > 0 && Debounced(values, n, c.stable) && Counting(values, n, c)
    ensures Debounced(values + [x], n, Observe(c, x, n).stable) && Counting(values + [x], n, Observe(c, x, n))
  {
    hide Debounced, Window;
    var after := values + [x];
    assert after[..|values|] == values;
    RunIsWindow(after, n);
    DebouncedSnoc(values, x, n, c.stable);
  }

  lemma DebouncedSnoc<T(!new)>(values: seq<T>, x: T, n: nat, v: T)
    requires values != [] && n > 0 && Debounced(values, n, v)
    ensures Debounced(values + [x], n, if Window(values + [x], n, |values| + 1) then x else v)
  {
    var after := values + [x];
    forall k: nat | k <= |values|
      ensures Window(after, n, k) <==> Window(values, n, k)
    {
      assert forall i | 0 <= i < |values| :: after[i] == values[i];
    }
    if Window(after, n, |after|) {
      assert after[|after| - 1] == x;
    }
  }

  /** At most one value fits. */
  lemma DebouncedUnique<T(!new)>(values: seq<T>, n: nat, v: T, w: T)
    requires values != [] && Debounced(values, n, v) && Debounced(values, n, w)
    ensures v == w
  {}

  // ----- whole runs

  function MemoryAfter(rs: seq<Runtime>, config: Config): Memory {
    if rs == [] then Memory(false, Channel(false, false, 0), Channel(0, 0, 0), Channel(false, false, 0), 0)
    else NextMemory(MemoryAfter(rs[..|rs| - 1], config), rs[|rs| - 1], config)
  }

  function HealthSamples(rs: seq<Runtime>): seq<bool> {
    seq(|rs|, i requires 0 <= i < |rs| => rs[i].localHealthReady)
  }

  function ViewerSamples(rs: seq<Runtime>): seq<nat> {
    seq(|rs|, i requires 0 <= i < |rs| => rs[i].viewerCount)
  }

  function ServerSamples(rs: seq<Runtime>): seq<bool> {
    seq(|rs|, i requires 0 <= i < |rs| => rs[i].serverRunning)
  }

  /** Each channel sees its own samples only. */
  lemma {:induction false} ChannelsSeparate(rs: seq<Runtime>, config: Config)
    requires rs != []
    ensures var m := MemoryAfter(rs, config);
            && m.initialized
            && m.health == ObserveAll(HealthSamples(rs), Max(1, config.healthStableSamples))
            && m.viewers == ObserveAll(ViewerSamples(rs), Max(1, config.viewerStableSamples))
            && m.server == ObserveAll(ServerSamples(rs), Max(1, config.exitStableSamples))
  {
    var before := rs[..|rs| - 1];
    if before != [] {
      ChannelsSeparate(before, config);
      assert HealthSamples(rs)[..|rs| - 1] == HealthSamples(before);
      assert ViewerSamples(rs)[..|rs| - 1] == ViewerSamples(before);
      assert ServerSamples(rs)[..|rs| - 1] == ServerSamples(before);
    }
  }

  /** After every tick the three stable values are the debounced ones, and the counters are below their thresholds. */
  lemma StableValues(rs: seq<Runtime>, config: Config)
    requires rs != []
    ensures var m := MemoryAfter(rs, config);
            && Debounced(HealthSamples(rs), Max(1, config.healthStableSamples), m.health.stable)
            && Debounced(ViewerSamples(rs), Max(1, config.viewerStableSamples), m.viewers.stable)
            && Debounced(ServerSamples(rs), Max(1, config.exitStableSamples), m.server.stable)
            && 0 <= m.health.samples < Max(1, config.healthStableSamples)
            && 0 <= m.viewers.samples < Max(1, config.viewerStableSamples)
            && 0 <= m.server.samples < Max(1, config.exitStableSamples)
  {
    hide Debounced, ObserveAll;
    ChannelsSeparate(rs, config);
    StableIsDebounced(HealthSamples(rs), Max(1, config.healthStableSamples));
    StableIsDebounced(ViewerSamples(rs), Max(1, config.viewerStableSamples));
    StableIsDebounced(ServerSamples(rs), Max(1, config.exitStableSamples));
  }

  /** Neither the other channels, their thresholds nor the cooldown influence a stable value. */
  lemma NoInfluence(rs: seq<Runtime>, config: Config, rs': seq<Runtime>, config': Config)
    requires rs != [] && rs' != []
    ensures HealthSamples(rs) == HealthSamples(rs') && config.healthStableSamples == config'.healthStableSamples ==>
              MemoryAfter(rs, config).health == MemoryAfter(rs', config').health
    ensures ViewerSamples(rs) == ViewerSamples(rs') && config.viewerStableSamples == config'.viewerStableSamples ==>
              MemoryAfter(rs, config).viewers == MemoryAfter(rs', config').viewers
    ensures ServerSamples(rs) == ServerSamples(rs') && config.exitStableSamples == config'.exitStableSamples ==>
              MemoryAfter(rs, config).server == MemoryAfter(rs', config').server
  {
    ChannelsSeparate(rs, config);
    ChannelsSeparate(rs', config');
  }

  // ----- the notifications of a run

  function ReportAt(rs: seq<Runtime>, k: nat, config: Config): seq<Notification>
    requires k < |rs|
  {
    TickReport(MemoryAfter(rs[..k], config), rs[k], config)
  }

  /** Some tick from lo on and before hi reported something. */
  predicate Recent(rs: seq<Runtime>, config: Config, lo: int, hi: nat)
    requires hi <= |rs|
  {
    exists i: nat :: lo <= i < hi && ReportAt(rs, i, config) != []
  }

  lemma MemoryStep(rs: seq<Runtime>, k: nat, config: Config)
    requires k < |rs|
    ensures MemoryAfter(rs[..k + 1], config) == NextMemory(MemoryAfter(rs[..k], config), rs[k], config)
    ensures MemoryAfter(rs[..k], config).initialized <==> k > 0
  {
    assert rs[..k + 1][..k] == rs[..k];
    if k > 0 { ChannelsSeparate(rs[..k], config); }
  }

  lemma ReportOnlyWhenIdle(m: Memory, r: Runtime, config: Config)
    ensures TickReport(m, r, config) != [] ==> Remaining(m) <= 0
    ensures var left := NextMemory(m, r, config).cooldownRemainingTicks;
            left == if TickReport(m, r, config) == [] then Remaining(m) else Max(0, config.notificationCooldownTicks)
  {
    hide Notices, NextHealth, NextViewers, NextServer;
  }

  /** The cooldown counts down from the latest report. */
  lemma {:induction false} CooldownMeans(rs: seq<Runtime>, k: nat, d: nat, config: Config)
    requires k <= |rs| && d > 0
    ensures MemoryAfter(rs[..k], config).cooldownRemainingTicks >= d
            <==> Recent(rs, config, k - 1 - config.notificationCooldownTicks + d, k)
    ensures MemoryAfter(rs[..k], config).cooldownRemainingTicks >= 0
  {
    hide TickReport, NextMemory;
    if k > 0 {
      var m := MemoryAfter(rs[..k - 1], config);
      CooldownMeans(rs, k - 1, d + 1, config);
      MemoryStep(rs, k - 1, config);
      ReportOnlyWhenIdle(m, rs[k - 1], config);
      var lo := k - 1 - config.notificationCooldownTicks + d;
      if ReportAt(rs, k - 1, config) == [] {
        assert Recent(rs, config, lo, k) <==> Recent(rs, config, lo, k - 1);
      } else if lo <= k - 1 {
        assert Recent(rs, config, lo, k);
      }
    }
  }

  /**
   Exactly what each tick reports: nothing on the first tick and within the cooldown of an earlier
   report; otherwise the first change of a stable value, or all of them without a cooldown.
   */
  lemma ReportExact(rs: seq<Runtime>, k: nat, config: Config)
    requires k < |rs|
    ensures var before, after := MemoryAfter(rs[..k], config), MemoryAfter(rs[..k + 1], config);
            var cooldown := config.notificationCooldownTicks;
            var notices := Notices(rs[k], after.health.stable != before.health.stable,
                                   after.viewers.stable != before.viewers.stable,
                                   before.server.stable && !after.server.stable);
            ReportAt(rs, k, config)
            == if k == 0 || Recent(rs, config, k + 1 - cooldown, k) then []
               else if cooldown > 0 then (if notices == [] then [] else [notices[0]])
               else notices
  {
    hide Notices, NextHealth, NextViewers, NextServer, Recent;
    MemoryStep(rs, k, config);
    CooldownMeans(rs, k, 2, config);
  }

  /** With a cooldown of at least one tick, reporting ticks are that far apart, with one notification each. */
  lemma ReportsSpaced(rs: seq<Runtime>, i: nat, j: nat, config: Config)
    requires i < j < |rs| && config.notificationCooldownTicks >= 1
    requires ReportAt(rs, i, config) != [] && ReportAt(rs, j, config) != []
    ensures j - i >= config.notificationCooldownTicks && |ReportAt(rs, j, config)| == 1
  {
    hide Notices;
    ReportExact(rs, j, config);
  }

  /** The number of notifications of the first k ticks */
  function Reports(rs: seq<Runtime>, k: nat, config: Config): nat
    requires k <= |rs|
  {
    if k == 0 then 0 else Reports(rs, k - 1, config) + |ReportAt(rs, k - 1, config)|
  }

  lemma {:induction false} ReportsBounded(rs: seq<Runtime>, k: nat, config: Config)
    requires 0 < k <= |rs| && config.notificationCooldownTicks >= 1
    ensures var left := MemoryAfter(rs[..k], config).cooldownRemainingTicks;
            && 0 <= left <= config.notificationCooldownTicks
            && (Reports(rs, k, config) > 0 ==>
                  Reports(rs, k, config) * config.notificationCooldownTicks <= k - 2 + left)
  {
    hide Notices, TickReport, NextMemory, Recent;
    ReportExact(rs, k - 1, config);
    MemoryStep(rs, k - 1, config);
    ReportOnlyWhenIdle(MemoryAfter(rs[..k - 1], config), rs[k - 1], config);
    if k > 1 {
      ReportsBounded(rs, k - 1, config);
      var count, c := Reports(rs, k - 1, config), config.notificationCooldownTicks;
      assert (count + 1) * c == count * c + c;
    }
  }

  /** T ticks report at most (T + c - 2) / c notifications: one on the second tick and one every c ticks. */
  lemma NotificationRate(rs: seq<Runtime>, config: Config)
    requires rs != [] && config.notificationCooldownTicks >= 1
    ensures Reports(rs, |rs|, config) * config.notificationCooldownTicks <= |rs| + config.notificationCooldownTicks - 2
  {
    hide MemoryAfter, ReportAt;
    ReportsBounded(rs, |rs|, config);
  }

  // ----- what a report says

  /** The stable values before and after tick k of a run */
  datatype Change = Change(before: Memory, after: Memory)

  function ChangeAt(rs: seq<Runtime>, k: nat, config: Config): Change
    requires k < |rs|
  {
    Change(MemoryAfter(rs[..k], config), MemoryAfter(rs[..k + 1], config))
  }

  /** The change a notification of each kind is about */
  predicate Happened(c: Change, r: Runtime, kind: Kind) {
    match kind
    case HealthRecovered => !c.before.health.stable && c.after.health.stable
    case HealthDegraded => c.before.health.stable && !c.after.health.stable
    case ViewerCountChanged => c.before.viewers.stable != c.after.viewers.stable
    case ServerExitedUnexpectedly => c.before.server.stable && !c.after.server.stable && !r.stopRequested
  }

  /** The kinds in the order in which one tick reports them */
  function Rank(kind: Kind): nat {
    match kind
    case HealthRecovered => 0
    case HealthDegraded => 0
    case ViewerCountChanged => 1
    case ServerExitedUnexpectedly => 2
  }

  /**
   A tick after the first that is in no cooldown reports, without a cooldown, exactly the kinds of
   change that happened; with one, the first of them. Health comes before viewers, viewers before the
   server.
   */
  lemma ReportMeans(rs: seq<Runtime>, k: nat, config: Config, kind: Kind)
    requires k < |rs|
    ensures var cooldown, c := config.notificationCooldownTicks, ChangeAt(rs, k, config);
            var idle := k > 0 && !Recent(rs, config, k + 1 - cooldown, k);
            (exists n :: n in ReportAt(rs, k, config) && n.kind == kind)
            <==> idle && Happened(c, rs[k], kind)
                 && (cooldown > 0 ==> forall other: Kind :: Happened(c, rs[k], other) ==> Rank(kind) <= Rank(other))
  {
    hide Notices, Recent, MemoryAfter, ReportAt;
    ReportExact(rs, k, config);
    if k > 0 {
      var c := ChangeAt(rs, k, config);
      HealthFollows(rs, k, config);
      NoticesMean(rs[k], c, kind);
      var notices := Notices(rs[k], c.after.health.stable != c.before.health.stable,
                             c.after.viewers.stable != c.before.viewers.stable,
                             c.before.server.stable && !c.after.server.stable);
      if notices != [] {
        var first := [notices[0]];
        assert first[0] in first;
      }
    }
  }

  lemma NoticesMean(r: Runtime, c: Change, kind: Kind)
    requires c.after.health.stable != c.before.health.stable ==> c.after.health.stable == r.localHealthReady
    ensures var notices := Notices(r, c.after.health.stable != c.before.health.stable,
                                   c.after.viewers.stable != c.before.viewers.stable,
                                   c.before.server.stable && !c.after.server.stable);
            && ((exists n :: n in notices && n.kind == kind) <==> Happened(c, r, kind))
            && (notices != [] && notices[0].kind == kind
                <==> Happened(c, r, kind) && forall other: Kind :: Happened(c, r, other) ==> Rank(kind) <= Rank(other))
  {
    hide Notices;
    var health := c.after.health.stable != c.before.health.stable;
    var viewers := c.after.viewers.stable != c.before.viewers.stable;
    var stopped := c.before.server.stable && !c.after.server.stable;
    NoticeKinds(r, health, viewers, stopped, kind);
    var notices := Notices(r, health, viewers, stopped);
    if notices != [] {
      NoticeKinds(r, health, viewers, stopped, notices[0].kind);
      assert notices[0] in notices;
      assert Happened(c, r, notices[0].kind);
    }
  }

  /** The stable health only changes to the value sampled in that tick. */
  lemma HealthFollows(rs: seq<Runtime>, k: nat, config: Config)
    requires 0 < k < |rs|
    ensures var c := ChangeAt(rs, k, config);
            c.after.health.stable != c.before.health.stable ==> c.after.health.stable == rs[k].localHealthReady
  {
    hide TickReport;
    MemoryStep(rs, k, config);
  }

  lemma NoticeKinds(r: Runtime, health: bool, viewers: bool, stopped: bool, kind: Kind)
    ensures var notices := Notices(r, health, viewers, stopped);
            && ((exists n :: n in notices && n.kind == kind)
                <==> match kind
                     case HealthRecovered => health && r.localHealthReady
                     case HealthDegraded => health && !r.localHealthReady
                     case ViewerCountChanged => viewers
                     case ServerExitedUnexpectedly => stopped && !r.stopRequested)
            && (notices != [] ==>
                  notices[0].kind == if health then (if r.localHealthReady then HealthRecovered else HealthDegraded)
                                     else if viewers then ViewerCountChanged else ServerExitedUnexpectedly)
  {
    hide Title, DefaultBody, ViewerBody, Detail;
    var notices := Notices(r, health, viewers, stopped);
    var a, b, c := if health then [HealthNotice(r)] else [], if viewers then [ViewerNotice(r)] else [],
                   if stopped && !r.stopRequested then [ServerNotice(r)] else [];
    assert notices == a + b + c;
    if health { assert notices[0] == HealthNotice(r); }
    if viewers { assert notices[|a|] == ViewerNotice(r); }
    if stopped && !r.stopRequested { assert notices[|a| + |b|] == ServerNotice(r); }
  }

  /** What the notifications say, and that their own text gives way to the detail text */
  lemma NoticeTexts(r: Runtime)
    ensures HealthNotice(r)
            == if r.localHealthReady then
                 Notification(HealthRecovered, "Sharing service recovered",
                              "The local sharing service is healthy again.")
               else
                 Notification(HealthDegraded, "Sharing service needs attention",
                   if r.detailText == "" then "The local sharing service health probe is failing." else r.detailText)
    ensures ServerNotice(r)
            == Notification(ServerExitedUnexpectedly, "Sharing service stopped",
                 if r.detailText == "" then "The local sharing service exited unexpectedly." else r.detailText)
    ensures ViewerNotice(r).kind == ViewerCountChanged && ViewerNotice(r).title == "Viewer count changed"
  {}

  /** The number a string of digits stands for */
  function Number(digits: string): int {
    if digits == "" then 0
    else 10 * Number(digits[..|digits| - 1]) + (digits[|digits| - 1] as int - '0' as int)
  }

  /** The viewer count is written in decimal, without leading zeros. */
  lemma {:induction false} DecimalReads(n: nat)
    ensures Decimal(n) != "" && Number(Decimal(n)) == n && (Decimal(n)[0] == '0' <==> n == 0)
    ensures forall c | c in Decimal(n) :: '0' <= c <= '9'
  {
    var before := if n < 10 then "" else Decimal(n / 10);
    if n >= 10 { DecimalReads(n / 10); }
    DigitIs(n % 10);
    assert Decimal(n) == before + ["0123456789"[n % 10]];
    assert Decimal(n)[..|Decimal(n)| - 1] == before;
  }

  lemma DigitIs(d: nat)
    requires d < 10
    ensures "0123456789"[d] as int == '0' as int + d
  {}

  lemma ViewerTexts(n: nat)
    ensures ViewerBody(0) == "No viewers are connected right now." && ViewerBody(1) == "1 viewer is connected."
    ensures n > 1 ==> ViewerBody(n) == Decimal(n) + " viewers are connected."
  {}
}
