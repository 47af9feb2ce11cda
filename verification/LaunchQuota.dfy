/** Which kernel launches are profiled, and where their data goes (device_process_manager.cpp and .h). */
module LaunchQuota {
  import opened Common
  import opened Strings

  const U16: nat := 0x1_0000
  const NO_PATH := "\n"

  /** The profiling configuration: where output goes, which kernel name patterns are selected, how many launches
      are profiled per client and device, and how many are skipped before. `fits` is the pattern matcher. */
  datatype Config = Config(outputPath: string, names: set<string>, profMaxTimes: nat, profSkipTimes: nat,
                           fits: set<(string, string)>)

  datatype Launch = Launch(client: nat, device: int, kernel: string)

  /** The program's widths: 16-bit limits, 32-bit device numbers. */
  predicate Sized(config: Config) {
    config.profMaxTimes < U16 && config.profSkipTimes < U16
  }

  predicate Int32(d: int) {
    -0x8000_0000 <= d < 0x8000_0000
  }

  // ---------------------------------------------------------------------------------------
  // The reference: counting in the history of launches
  // ---------------------------------------------------------------------------------------

  /** Whether the name passes the selection: everything passes if there is none. */
  predicate Selected(config: Config, kernel: string) {
    config.names == {} || (kernel != "" && exists p | p in config.names :: (kernel, p) in config.fits)
  }

  /** A name passes if nothing is selected, or if it is not empty and one of the patterns fits, whatever the others
      say; a further pattern never takes a name away. */
  lemma SelectedExactly(config: Config, kernel: string, pattern: string)
    ensures config.names == {} ==> Selected(config, kernel)
    ensures kernel != "" && pattern in config.names && (kernel, pattern) in config.fits ==> Selected(config, kernel)
    ensures config.names != {} && (kernel == "" || forall p | p in config.names :: (kernel, p) !in config.fits) ==>
              !Selected(config, kernel)
    ensures config.names != {} && Selected(config, kernel) ==>
              Selected(config.(names := config.names + {pattern}), kernel)
  {
    if config.names != {} && Selected(config, kernel) {
      var p :| p in config.names && (kernel, p) in config.fits;
      assert p in config.names + {pattern};
    }
  }

  /** The launches of a client on a device so far, of any name. */
  function Launches(history: seq<Launch>, client: nat, device: int): nat {
    if history == [] then 0
    else
      var last := history[|history| - 1];
      Launches(history[..|history| - 1], client, device) +
      if last.client == client && last.device == device then 1 else 0
  }

  /** Those with a selected name that came after the first profSkipTimes launches. */
  function Candidates(config: Config, history: seq<Launch>, client: nat, device: int): nat {
    if history == [] then 0
    else
      var front, last := history[..|history| - 1], history[|history| - 1];
      Candidates(config, front, client, device) +
      if last.client == client && last.device == device && Selected(config, last.kernel)
         && Launches(front, client, device) >= config.profSkipTimes then 1 else 0
  }

  /** A launch is profiled if it is one of the first profMaxTimes selected ones after the first profSkipTimes
      launches of its client and device. */
  predicate Profiled(config: Config, history: seq<Launch>, e: Launch) {
    && Launches(history, e.client, e.device) >= config.profSkipTimes
    && Selected(config, e.kernel)
    && Candidates(config, history, e.client, e.device) < config.profMaxTimes
  }

  /** How often a kernel has been profiled on a device, by whatever client. */
  function Recorded(config: Config, history: seq<Launch>, device: int, kernel: string): nat {
    if history == [] then 0
    else
      var front, last := history[..|history| - 1], history[|history| - 1];
      Recorded(config, front, device, kernel) +
      if last.device == device && last.kernel == kernel && Profiled(config, front, last) then 1 else 0
  }

  function OutputDir(device: int, kernel: string, num: nat): string {
    Joined(["device" + Decimal(device % 0x1_0000_0000), kernel, Decimal(num), "dump"], "/") + "\n"
  }

  function PathOf(config: Config, device: int, kernel: string, num: nat): string {
    Joined([config.outputPath, OutputDir(device, kernel, num)], "/")
  }

  /** The answer to a launch, given everything that was launched before. */
  function Answer(config: Config, history: seq<Launch>, e: Launch): string {
    if Profiled(config, history, e)
    then PathOf(config, e.device, e.kernel, Recorded(config, history, e.device, e.kernel) % U16)
    else NO_PATH
  }

  // ---------------------------------------------------------------------------------------
  // The code
  // ---------------------------------------------------------------------------------------

  function Key(client: nat, device: int): string {
    Decimal(client) + "_" + Signed(device)
  }

  /** Keys of different clients or devices never collide. */
  lemma KeyInjective(c: nat, d: int, e: nat, f: int)
    requires Key(c, d) == Key(e, f)
    ensures c == e && d == f
  {
    hide Decimal, Signed;
    assert Decimal(c) + ['_'] + Signed(d) == Decimal(e) + ['_'] + Signed(f);
    CutAtFirst(Decimal(c), Signed(d), Decimal(e), Signed(f), '_');
    DecimalInjective(c, e);
    SignedInjective(d, f);
  }

  /** Counters as the code keeps them: reading a missing one gives zero. */
  function Count(counters: map<string, nat>, key: string): nat {
    if key in counters then counters[key] else 0
  }

  class DeviceProcess {
    const deviceId: int
    var kernelToRunningTimes: map<string, nat>

    constructor (device: int)
      ensures deviceId == device && kernelToRunningTimes == map[]
    {
      deviceId := device;
      kernelToRunningTimes := map[];
    }

    /** The directory of the next run of a kernel; its number is kept in 16 bits. */
    method GetOutputPath(name: string) returns (path: string)
      requires Count(kernelToRunningTimes, name) < U16
      modifies this
      ensures path == OutputDir(deviceId, name, old(Count(kernelToRunningTimes, name)))
      ensures kernelToRunningTimes ==
              old(kernelToRunningTimes)[name := (old(Count(kernelToRunningTimes, name)) + 1) % U16]
    {
      if name !in kernelToRunningTimes {
        kernelToRunningTimes := kernelToRunningTimes[name := 0];
      }
      var num := kernelToRunningTimes[name];
      kernelToRunningTimes := kernelToRunningTimes[name := (num + 1) % U16];
      path := Join(["device" + Decimal(deviceId % 0x1_0000_0000), name, Decimal(num), "dump"], "/");
      path := path + "\n";
    }
  }

  /** The counters after a history of launches. */
  ghost predicate Counted(config: Config, history: seq<Launch>, skiped: map<string, nat>, profed: map<string, nat>) {
    forall client: nat, device: int ::
      && Count(skiped, Key(client, device)) == Min(Launches(history, client, device), config.profSkipTimes)
      && Count(profed, Key(client, device)) == Min(Candidates(config, history, client, device), config.profMaxTimes)
  }

  /** The running numbers after a history of launches, per device. */
  ghost predicate Numbered(config: Config, history: seq<Launch>, times: map<int, map<string, nat>>) {
    forall device: int, kernel: string ::
      Count(if device in times then times[device] else map[], kernel)
        == Recorded(config, history, device, kernel) % U16
  }

  lemma CountedNothing(config: Config)
    ensures Counted(config, [], map[], map[]) && Numbered(config, [], map[])
  {
  }

  lemma HistorySnoc(config: Config, history: seq<Launch>, e: Launch, client: nat, device: int)
    ensures Launches(history + [e], client, device) ==
            Launches(history, client, device) + if e.client == client && e.device == device then 1 else 0
    ensures Candidates(config, history + [e], client, device) ==
            Candidates(config, history, client, device) +
            if e.client == client && e.device == device && Selected(config, e.kernel)
               && Launches(history, client, device) >= config.profSkipTimes then 1 else 0
  {
    assert (history + [e])[..|history|] == history;
  }

  lemma RecordedSnoc(config: Config, history: seq<Launch>, e: Launch, device: int, kernel: string)
    ensures Recorded(config, history + [e], device, kernel) ==
            Recorded(config, history, device, kernel) +
            if e.device == device && e.kernel == kernel && Profiled(config, history, e) then 1 else 0
  {
    assert (history + [e])[..|history|] == history;
  }

  /** Launches and candidates: nothing is a candidate before the skipping is over. */
  lemma {:induction false} NoCandidatesWhileSkipping(config: Config, history: seq<Launch>, client: nat, device: int)
    ensures Launches(history, client, device) <= config.profSkipTimes
            ==> Candidates(config, history, client, device) == 0
  {
    if history != [] { NoCandidatesWhileSkipping(config, history[..|history| - 1], client, device); }
  }

  /** The counters move as the code moves them. */
  lemma CountersStep(config: Config, history: seq<Launch>, e: Launch, skiped: map<string, nat>,
                     profed: map<string, nat>)
    requires Counted(config, history, skiped, profed)
    ensures var key := Key(e.client, e.device);
            Counted(config, history + [e],
                    if Count(skiped, key) < config.profSkipTimes then skiped[key := Count(skiped, key) + 1] else skiped,
                    if Profiled(config, history, e) then profed[key := Count(profed, key) + 1] else profed)
    ensures Profiled(config, history, e) <==>
            && Count(skiped, Key(e.client, e.device)) >= config.profSkipTimes
            && Count(profed, Key(e.client, e.device)) < config.profMaxTimes
            && Selected(config, e.kernel)
  {
    hide Selected, Key;
    var key := Key(e.client, e.device);
    var s := if Count(skiped, key) < config.profSkipTimes then skiped[key := Count(skiped, key) + 1] else skiped;
    var p := if Profiled(config, history, e) then profed[key := Count(profed, key) + 1] else profed;
    forall client: nat, device: int
      ensures Count(s, Key(client, device)) == Min(Launches(history + [e], client, device), config.profSkipTimes)
      ensures Count(p, Key(client, device))
           == Min(Candidates(config, history + [e], client, device), config.profMaxTimes)
    {
      OneCounterStep(config, history, e, skiped, profed, client, device);
    }
  }

  lemma OneCounterStep(config: Config, history: seq<Launch>, e: Launch, skiped: map<string, nat>,
                       profed: map<string, nat>, client: nat, device: int)
    requires Counted(config, history, skiped, profed)
    ensures var key := Key(e.client, e.device);
            var s := if Count(skiped, key) < config.profSkipTimes then skiped[key := Count(skiped, key) + 1]
                     else skiped;
            var p := if Profiled(config, history, e) then profed[key := Count(profed, key) + 1] else profed;
            && Count(s, Key(client, device)) == Min(Launches(history + [e], client, device), config.profSkipTimes)
            && Count(p, Key(client, device))
               == Min(Candidates(config, history + [e], client, device), config.profMaxTimes)
  {
    hide Selected, Key, Launches, Candidates;
    HistorySnoc(config, history, e, client, device);
    if Key(client, device) == Key(e.client, e.device) {
      KeyInjective(client, device, e.client, e.device);
    }
  }

  lemma NumbersStep(config: Config, history: seq<Launch>, e: Launch, times: map<int, map<string, nat>>)
    requires Numbered(config, history, times)
    ensures var own := if e.device in times then times[e.device] else map[];
            Numbered(config, history + [e],
                     if Profiled(config, history, e)
                     then times[e.device := own[e.kernel := (Count(own, e.kernel) + 1) % U16]] else times)
    ensures Count(if e.device in times then times[e.device] else map[], e.kernel)
         == Recorded(config, history, e.device, e.kernel) % U16
  {
    hide Profiled, Recorded;
    var own := if e.device in times then times[e.device] else map[];
    var next := if Profiled(config, history, e)
                then times[e.device := own[e.kernel := (Count(own, e.kernel) + 1) % U16]] else times;
    forall device: int, kernel: string
      ensures Count(if device in next then next[device] else map[], kernel)
           == Recorded(config, history + [e], device, kernel) % U16
    {
      RecordedSnoc(config, history, e, device, kernel);
      assert Count(if device in times then times[device] else map[], kernel)
          == Recorded(config, history, device, kernel) % U16;
    }
  }

  datatype Packet = NullPacket | LaunchPacket(launch: Launch)

  class DeviceProcessManager {
    var processMap: map<int, DeviceProcess>
    var profConfig: Config
    var skipedKernels: map<string, nat>
    var profedKernels: map<string, nat>
    ghost var history: seq<Launch>
    ghost var times: map<int, map<string, nat>>

    /** The process objects hold the running numbers; each belongs to the device it is filed under. */
    ghost predicate Filed()
      reads this`processMap, this`times, processMap.Values
    {
      && processMap.Keys == times.Keys
      && forall d | d in processMap :: processMap[d].deviceId == d && processMap[d].kernelToRunningTimes == times[d]
    }

    ghost predicate Valid()
      reads this, processMap.Values
    {
      && Sized(profConfig) && Filed()
      && Counted(profConfig, history, skipedKernels, profedKernels) && Numbered(profConfig, history, times)
    }

    constructor (config: Config)
      requires Sized(config)
      ensures Valid() && profConfig == config && history == [] && fresh(processMap.Values)
    {
      processMap, profConfig, skipedKernels, profedKernels := map[], config, map[], map[];
      history, times := [], map[];
      new;
      CountedNothing(config);
    }

    /** A new configuration forgets everything. */
    method SetProfConfig(config: Config)
      requires Valid() && Sized(config)
      modifies this
      ensures Valid() && profConfig == config && history == []
    {
      processMap := map[];
      profConfig := config;
      skipedKernels, profedKernels := map[], map[];
      history, times := [], map[];
      CountedNothing(config);
    }

    method CheckKernel(kernel: string) returns (r: bool)
      ensures r == Selected(profConfig, kernel)
    {
      if profConfig.names == {} {
        return true;
      }
      if kernel == "" {
        return false;
      }
      var left := profConfig.names;
      while left != {}
        invariant left <= profConfig.names
        invariant forall p | p in profConfig.names - left :: (kernel, p) !in profConfig.fits
        decreases |left|
      {
        var pattern :| pattern in left;
        if (kernel, pattern) in profConfig.fits {
          return true;
        }
        left := left - {pattern};
      }
      return false;
    }

    /** Finds the process of a device, or files a new one. */
    method FindProcess(device: int)
      requires Filed()
      modifies this`processMap, this`times
      ensures Filed() && device in processMap
      ensures fresh(processMap.Values - old(processMap.Values))
      ensures times == if device in old(times) then old(times) else old(times)[device := map[]]
    {
      if device !in processMap {
        var process := new DeviceProcess(device);
        processMap := processMap[device := process];
        times := times[device := map[]];
      }
    }

    /** Takes the next output directory of a kernel from the process of the device. */
    method TakeOutput(device: int, kernel: string) returns (path: string)
      requires Filed() && device in processMap && Count(times[device], kernel) < U16
      modifies this`times, processMap.Values
      ensures Filed()
      ensures var own := old(times[device]);
              && times == old(times)[device := own[kernel := (Count(own, kernel) + 1) % U16]]
              && path == OutputDir(device, kernel, Count(own, kernel))
    {
      hide OutputDir, Count, U16;
      var process := processMap[device];
      path := process.GetOutputPath(kernel);
      times := times[device := process.kernelToRunningTimes];
    }

    method NextOutput(device: int, kernel: string) returns (path: string)
      requires Filed()
      requires Count(if device in times then times[device] else map[], kernel) < U16
      modifies this`processMap, this`times, processMap.Values
      ensures Filed() && fresh(processMap.Values - old(processMap.Values))
      ensures var own := old(if device in times then times[device] else map[]);
              && times == old(times)[device := own[kernel := (Count(own, kernel) + 1) % U16]]
              && path == OutputDir(device, kernel, Count(own, kernel))
    {
      hide *;
      FindProcess(device);
      KeysAgree();
      path := TakeOutput(device, kernel);
    }

    lemma KeysAgree()
      requires Filed()
      ensures processMap.Keys == times.Keys
    {
    }

    method ProcessKernelEvent(packet: Packet) returns (path: string)
      requires Valid()
      modifies this`processMap, this`skipedKernels, this`profedKernels, this`history, this`times, processMap.Values
      ensures Valid() && fresh(processMap.Values - old(processMap.Values))
      ensures packet.NullPacket? ==> path == "\n" && history == old(history)
      ensures packet.LaunchPacket? ==>
                path == Answer(profConfig, old(history), packet.launch) && history == old(history) + [packet.launch]
    {
      hide *;
      if packet.NullPacket? {
        return "\n";
      }
      var e := packet.launch;
      var key := Key(e.client, e.device);
      Facts();
      CountersStep(profConfig, history, e, skipedKernels, profedKernels);
      NumbersStep(profConfig, history, e, times);
      AnswerIs(profConfig, history, e);
      if Count(skipedKernels, key) < profConfig.profSkipTimes {
        skipedKernels := skipedKernels[key := Count(skipedKernels, key) + 1];
        history := history + [e];
        Established();
        return "\n";
      }
      if Count(profedKernels, key) >= profConfig.profMaxTimes {
        history := history + [e];
        Established();
        return "\n";
      }
      var selected := CheckKernel(e.kernel);
      if !selected {
        history := history + [e];
        Established();
        return "\n";
      }
      var output := NextOutput(e.device, e.kernel);
      path := Join([profConfig.outputPath, output], "/");
      profedKernels := profedKernels[key := Count(profedKernels, key) + 1];
      history := history + [e];
      Established();
    }

    /** A client is told to stop once it reports completion and its quota on the device is used up. */
    method ProcessCtrl(done: int, device: int, client: nat) returns (termination: nat)
      requires Valid()
      ensures termination == 1 <==>
                done > 0 && Candidates(profConfig, history, client, device) >= profConfig.profMaxTimes
      ensures termination <= 1
    {
      hide Key, Candidates, Launches, Numbered;
      termination := 0;
      assert Count(profedKernels, Key(client, device))
          == Min(Candidates(profConfig, history, client, device), profConfig.profMaxTimes);
      if done > 0 && Count(profedKernels, Key(client, device)) >= profConfig.profMaxTimes {
        termination := 1;
      }
    }

    lemma Facts()
      requires Valid()
      ensures Sized(profConfig) && Filed()
      ensures Counted(profConfig, history, skipedKernels, profedKernels) && Numbered(profConfig, history, times)
    {
    }

    lemma Established()
      requires Sized(profConfig) && Filed()
      requires Counted(profConfig, history, skipedKernels, profedKernels) && Numbered(profConfig, history, times)
      ensures Valid()
    {
    }
  }

  lemma AnswerIs(config: Config, history: seq<Launch>, e: Launch)
    ensures U16 == 0x1_0000
    ensures var num := Recorded(config, history, e.device, e.kernel) % 0x1_0000;
            num < 0x1_0000 && Answer(config, history, e) ==
            if Profiled(config, history, e)
            then Joined([config.outputPath, OutputDir(e.device, e.kernel, num)], "/") else "\n"
  {
    hide Profiled, Recorded, OutputDir;
  }

  // ---------------------------------------------------------------------------------------
  // Whole runs
  // ---------------------------------------------------------------------------------------

  /** How many launches of a client on a device have been given a path. */
  function Given(config: Config, history: seq<Launch>, client: nat, device: int): nat {
    if history == [] then 0
    else
      var front, last := history[..|history| - 1], history[|history| - 1];
      Given(config, front, client, device) +
      if last.client == client && last.device == device && Profiled(config, front, last) then 1 else 0
  }

  /** Of the selected launches after the skipped ones, exactly the first profMaxTimes are given a path. */
  lemma {:induction false} QuotaIsMet(config: Config, history: seq<Launch>, client: nat, device: int)
    ensures Given(config, history, client, device)
         == Min(Candidates(config, history, client, device), config.profMaxTimes)
  {
    if history != [] {
      var front, last := history[..|history| - 1], history[|history| - 1];
      QuotaIsMet(config, front, client, device);
      assert history == front + [last];
      HistorySnoc(config, front, last, client, device);
      hide Candidates, Launches, Selected;
    }
  }

  /** The launches of one client on one device. */
  function Only(history: seq<Launch>, client: nat, device: int): seq<Launch> {
    if history == [] then []
    else
      var front, last := Only(history[..|history| - 1], client, device), history[|history| - 1];
      if last.client == client && last.device == device then front + [last] else front
  }

  /** Other clients and other devices make no difference to who is profiled. */
  lemma {:induction false} KeysDoNotInterfere(config: Config, history: seq<Launch>, e: Launch)
    ensures Profiled(config, history, e) == Profiled(config, Only(history, e.client, e.device), e)
    ensures Launches(history, e.client, e.device) == Launches(Only(history, e.client, e.device), e.client, e.device)
    ensures Candidates(config, history, e.client, e.device)
         == Candidates(config, Only(history, e.client, e.device), e.client, e.device)
  {
    if history != [] {
      var front, last := history[..|history| - 1], history[|history| - 1];
      KeysDoNotInterfere(config, front, e);
      assert history == front + [last];
      HistorySnoc(config, front, last, e.client, e.device);
      HistorySnoc(config, Only(front, e.client, e.device), last, e.client, e.device);
      hide Candidates, Launches, Selected;
    }
  }

  /** The launches with a selected name. */
  function WithSelectedName(config: Config, launches: seq<Launch>): (n: nat) {
    if launches == [] then 0
    else WithSelectedName(config, launches[..|launches| - 1]) +
         if Selected(config, launches[|launches| - 1].kernel) then 1 else 0
  }

  lemma {:induction false} OnlyIs(history: seq<Launch>, client: nat, device: int)
    ensures Launches(history, client, device) == |Only(history, client, device)|
    ensures forall e :: e in Only(history, client, device) <==>
                        e in history && e.client == client && e.device == device
  {
    if history != [] {
      var front, last := history[..|history| - 1], history[|history| - 1];
      assert history == front + [last];
      OnlyIs(front, client, device);
    }
  }

  lemma {:induction false} CandidatesAre(config: Config, history: seq<Launch>, client: nat, device: int)
    ensures var own := Only(history, client, device);
            Candidates(config, history, client, device) ==
            if |own| < config.profSkipTimes then 0 else WithSelectedName(config, own[config.profSkipTimes..])
  {
    var own, skip := Only(history, client, device), config.profSkipTimes;
    if history == [] {
      assert own[0..] == own;
    } else {
      var front, last := history[..|history| - 1], history[|history| - 1];
      var before := Only(front, client, device);
      CandidatesAre(config, front, client, device);
      OnlyIs(front, client, device);
      if own == before + [last] && |before| >= skip {
        assert own[skip..] == before[skip..] + [last];
        assert own[skip..][..|own[skip..]| - 1] == before[skip..];
      } else if |own| == skip {
        assert own[skip..] == [];
      }
    }
  }

  /** Who is profiled, by the client's own launches on the device: the first profSkipTimes are skipped whatever their
      names, and of the later ones with a selected name the first profMaxTimes are profiled. */
  lemma ProfiledExactly(config: Config, history: seq<Launch>, e: Launch)
    ensures var own := Only(history, e.client, e.device);
            Profiled(config, history, e) <==>
            && |own| >= config.profSkipTimes && Selected(config, e.kernel)
            && WithSelectedName(config, own[config.profSkipTimes..]) < config.profMaxTimes
  {
    hide Selected, Launches, Candidates, Only, WithSelectedName;
    OnlyIs(history, e.client, e.device);
    CandidatesAre(config, history, e.client, e.device);
  }

  /** The earlier launches of a kernel on a device that were given a path. */
  function GivenBefore(config: Config, trace: seq<Launch>, device: int, kernel: string): set<nat> {
    set i: nat | i < |trace| && trace[i].device == device && trace[i].kernel == kernel && Gives(config, trace, i)
  }

  /** The running number of a kernel on a device is how often it was given a path before, by whatever client. */
  lemma {:induction false} RecordedExactly(config: Config, trace: seq<Launch>, device: int, kernel: string)
    ensures Recorded(config, trace, device, kernel) == |GivenBefore(config, trace, device, kernel)|
  {
    hide Profiled;
    if trace != [] {
      var n := |trace| - 1;
      RecordedExactly(config, trace[..n], device, kernel);
      GivenWithLast(config, trace, device, kernel);
      assert trace[..n] == trace[..|trace| - 1];
    }
  }

  lemma GivenWithLast(config: Config, trace: seq<Launch>, device: int, kernel: string)
    requires trace != []
    ensures var n := |trace| - 1;
            var before := GivenBefore(config, trace[..n], device, kernel);
            && n !in before
            && GivenBefore(config, trace, device, kernel) ==
               if trace[n].device == device && trace[n].kernel == kernel && Profiled(config, trace[..n], trace[n])
               then before + {n} else before
  {
    hide Profiled;
    var n := |trace| - 1;
    var front := trace[..n];
    var now, before := GivenBefore(config, trace, device, kernel), GivenBefore(config, front, device, kernel);
    forall i: nat | i < n ensures i in now <==> i in before { assert front[..i] == trace[..i] && front[i] == trace[i]; }
    forall i: nat | i in now ensures i <= n {}
    assert forall i: nat :: i in before ==> i < n;
  }

  /** What a profiled launch is answered: directory, device number, kernel and running number, in decimal. */
  lemma PathExactly(config: Config, device: nat, kernel: string, num: nat)
    requires config.outputPath != "" && kernel != "" && device < 0x8000_0000
    ensures PathOf(config, device, kernel, num) ==
            config.outputPath + "/" + ("device" + Decimal(device) + "/" + kernel + "/" + Decimal(num) + "/dump\n")
  {
    PathShape(config, device, kernel, num);
    DirShape(device, kernel, num);
    hide PathOf, Joined, Decimal;
    assert OutputDir(device, kernel, num)
        == Joined(["device" + Decimal(device), kernel, Decimal(num), "dump"], "/") + "\n";
    Regroup("device" + Decimal(device), "/", kernel);
  }

  /** A directory tells its device, kernel and number: kernel names may be empty or contain separators. */
  lemma DirInjective(device: int, kernel: string, num: nat, device': int, kernel': string, num': nat)
    requires Int32(device) && Int32(device')
    requires OutputDir(device, kernel, num) == OutputDir(device', kernel', num')
    ensures device == device' && kernel == kernel' && num == num'
  {
    var d, d' := device % 0x1_0000_0000, device' % 0x1_0000_0000;
    var a, b := "device" + Decimal(d), "device" + Decimal(d');
    var k, k' := if kernel == "" then "" else "/" + kernel, if kernel' == "" then "" else "/" + kernel';
    DirShape(d, kernel, num);
    DirShape(d', kernel', num');
    hide Decimal, Joined;
    DropEnd(a + k + "/" + Decimal(num), b + k' + "/" + Decimal(num'), "/dump\n");
    CutAtLast(a + k, Decimal(num), b + k', Decimal(num'), '/');
    DecimalInjective(num, num');
    CutHead(a, kernel, b, kernel');
    assert a[6..] == Decimal(d) && b[6..] == Decimal(d');
    DecimalInjective(d, d');
  }

  lemma DirShape(d: nat, kernel: string, num: nat)
    ensures Joined(["device" + Decimal(d), kernel, Decimal(num), "dump"], "/") + "\n" ==
            (("device" + Decimal(d)) + (if kernel == "" then "" else "/" + kernel) + "/" + Decimal(num)) + "/dump\n"
    ensures '/' !in "device" + Decimal(d) && '/' !in Decimal(num)
  {
    hide Joined;
    var a, n := "device" + Decimal(d), Decimal(num);
    FourParts(a, kernel, n, "dump");
    assert "/" + "dump" + "\n" == "/dump\n";
    Regroup(a + (if kernel == "" then "" else "/" + kernel) + "/" + n, "/dump", "\n");
    forall k | 0 <= k < |a| ensures a[k] != '/' {
      if k >= 6 { assert a[k] == Decimal(d)[k - 6]; }
    }
  }

  lemma Regroup(a: string, b: string, c: string)
    ensures (a + b) + c == a + (b + c)
  {
  }

  lemma FourParts(a: string, k: string, n: string, end: string)
    requires a != "" && n != "" && end != ""
    ensures Joined([a, k, n, end], "/") == (a + (if k == "" then "" else "/" + k) + "/" + n) + ("/" + end)
  {
    hide Joined;
    var none: seq<string> := [];
    assert none + [a] == [a] && [a] + [k] == [a, k] && [a, k] + [n] == [a, k, n] && [a, k, n] + [end] == [a, k, n, end];
    JoinedNothing();
    JoinedSnoc(none, a, "/");
    JoinedSnoc([a], k, "/");
    JoinedSnoc([a, k], n, "/");
    JoinedSnoc([a, k, n], end, "/");
    Regroup(a, "/", k);
    Regroup(a + (if k == "" then "" else "/" + k) + "/" + n, "/", end);
  }

  lemma JoinedNothing()
    ensures Joined([], "/") == ""
  {
  }

  lemma DropEnd(a: string, b: string, end: string)
    requires a + end == b + end
    ensures a == b
  {
    assert |a| == |b|;
    assert a == (a + end)[..|a|] && b == (b + end)[..|b|];
  }

  lemma CutHead(a: string, k: string, b: string, k': string)
    requires '/' !in a && '/' !in b
    requires a + (if k == "" then "" else "/" + k) == b + (if k' == "" then "" else "/" + k')
    ensures a == b && k == k'
  {
    var s := a + (if k == "" then "" else "/" + k);
    assert k != "" ==> s[|a|] == '/' && s[|a|] in s;
    assert k' != "" ==> s[|b|] == '/' && s[|b|] in s;
    assert k == "" ==> s == a;
    assert k' == "" ==> s == b;
    if k != "" && k' != "" {
      assert s == a + ['/'] + k && s == b + ['/'] + k';
      CutAtFirst(a, k, b, k', '/');
    }
  }

  lemma PathInjective(config: Config, device: int, kernel: string, num: nat, device': int, kernel': string, num': nat)
    requires Int32(device) && Int32(device')
    requires PathOf(config, device, kernel, num) == PathOf(config, device', kernel', num')
    ensures device == device' && kernel == kernel' && num == num'
  {
    PathShape(config, device, kernel, num);
    PathShape(config, device', kernel', num');
    hide PathOf, OutputDir;
    DropFront(if config.outputPath == "" then "" else config.outputPath + "/",
              OutputDir(device, kernel, num), OutputDir(device', kernel', num'));
    DirInjective(device, kernel, num, device', kernel', num');
  }

  lemma PathShape(config: Config, device: int, kernel: string, num: nat)
    ensures PathOf(config, device, kernel, num) ==
            (if config.outputPath == "" then "" else config.outputPath + "/") + OutputDir(device, kernel, num)
  {
    hide OutputDir, Joined;
    var none: seq<string> := [];
    var dir := OutputDir(device, kernel, num);
    assert dir != "" by { DirNotEmpty(device, kernel, num); }
    assert none + [config.outputPath] == [config.outputPath];
    assert [config.outputPath] + [dir] == [config.outputPath, dir];
    JoinedNothing();
    JoinedSnoc(none, config.outputPath, "/");
    JoinedSnoc([config.outputPath], dir, "/");
  }

  lemma DirNotEmpty(device: int, kernel: string, num: nat)
    ensures OutputDir(device, kernel, num) != ""
  {
    hide Joined;
  }

  lemma DropFront(front: string, a: string, b: string)
    requires front + a == front + b
    ensures a == b
  {
    assert a == (front + a)[|front|..] && b == (front + b)[|front|..];
  }

  predicate Gives(config: Config, trace: seq<Launch>, i: nat) {
    i < |trace| && Profiled(config, trace[..i], trace[i])
  }

  function AnswerAt(config: Config, trace: seq<Launch>, i: nat): string
    requires i < |trace|
  {
    Answer(config, trace[..i], trace[i])
  }

  lemma {:induction false} RecordedGrows(config: Config, trace: seq<Launch>, i: nat, j: nat, device: int,
                                         kernel: string)
    requires i <= j <= |trace|
    ensures Recorded(config, trace[..i], device, kernel) <= Recorded(config, trace[..j], device, kernel)
    ensures i < j && Gives(config, trace, i) && trace[i].device == device && trace[i].kernel == kernel ==>
              Recorded(config, trace[..i], device, kernel) < Recorded(config, trace[..j], device, kernel)
    decreases j
  {
    if i < j {
      hide Recorded, Profiled;
      RecordedGrows(config, trace, i, j - 1, device, kernel);
      assert trace[..j] == trace[..j - 1] + [trace[j - 1]];
      RecordedSnoc(config, trace[..j - 1], trace[j - 1], device, kernel);
    }
  }

  /** Two profiled launches share a path only if they are of one kernel on one device and 65536 recordings of it
      lie between them. */
  lemma PathsRepeatOnlyAfterWrap(config: Config, trace: seq<Launch>, i: nat, j: nat)
    requires i < j && Gives(config, trace, i) && Gives(config, trace, j)
    requires Int32(trace[i].device) && Int32(trace[j].device)
    requires AnswerAt(config, trace, i) == AnswerAt(config, trace, j)
    ensures trace[i].device == trace[j].device && trace[i].kernel == trace[j].kernel
    ensures Recorded(config, trace[..j], trace[j].device, trace[j].kernel) >= U16
  {
    hide Profiled, Recorded, PathOf;
    var e, f := trace[i], trace[j];
    var m, n := Recorded(config, trace[..i], e.device, e.kernel), Recorded(config, trace[..j], f.device, f.kernel);
    PathInjective(config, e.device, e.kernel, m % U16, f.device, f.kernel, n % U16);
    RecordedGrows(config, trace, i, j, e.device, e.kernel);
    SameNumberLater(m, n);
  }

  lemma SameNumberLater(m: nat, n: nat)
    requires m < n && m % U16 == n % U16
    ensures n >= U16
  {
  }

  /** The launch with which a count is reached. */
  lemma {:induction false} Reached(config: Config, trace: seq<Launch>, device: int, kernel: string, n: nat)
    returns (i: nat)
    requires n < Recorded(config, trace, device, kernel)
    ensures Gives(config, trace, i) && trace[i].device == device && trace[i].kernel == kernel
    ensures Recorded(config, trace[..i], device, kernel) == n
    decreases |trace|
  {
    hide Profiled;
    var m := |trace| - 1;
    var front, last := trace[..m], trace[m];
    if Recorded(config, front, device, kernel) > n {
      i := Reached(config, front, device, kernel, n);
      assert front[..i] == trace[..i];
    } else {
      i := m;
    }
  }

  /** All given paths are distinct if and only if no kernel is recorded more than 65536 times on one device. */
  lemma PathsDistinctExactly(config: Config, trace: seq<Launch>)
    requires forall i | 0 <= i < |trace| :: Int32(trace[i].device)
    ensures (forall i, j | 0 <= i < j < |trace| && Gives(config, trace, i) && Gives(config, trace, j) ::
               AnswerAt(config, trace, i) != AnswerAt(config, trace, j))
       <==> (forall device: int, kernel: string :: Recorded(config, trace, device, kernel) <= 0x1_0000)
  {
    assert U16 == 0x1_0000;
    hide Recorded, Profiled, AnswerAt;
    if device: int, kernel: string :| Recorded(config, trace, device, kernel) > U16 {
      var i := Reached(config, trace, device, kernel, 0);
      var j := Reached(config, trace, device, kernel, U16);
      SamePath(config, trace, i, j, device, kernel);
      if j < i { RecordedGrows(config, trace, j, i, device, kernel); }
    }
    if i, j :| 0 <= i < j < |trace| && Gives(config, trace, i) && Gives(config, trace, j)
               && AnswerAt(config, trace, i) == AnswerAt(config, trace, j) {
      PathsRepeatOnlyAfterWrap(config, trace, i, j);
      RecordedGrows(config, trace, j, |trace|, trace[j].device, trace[j].kernel);
      assert trace[..|trace|] == trace;
      assert Recorded(config, trace, trace[j].device, trace[j].kernel) > U16;
    }
  }

  lemma SamePath(config: Config, trace: seq<Launch>, i: nat, j: nat, device: int, kernel: string)
    requires Gives(config, trace, i) && trace[i].device == device && trace[i].kernel == kernel
    requires Gives(config, trace, j) && trace[j].device == device && trace[j].kernel == kernel
    requires Recorded(config, trace[..i], device, kernel) == 0
    requires Recorded(config, trace[..j], device, kernel) == U16
    ensures i != j && AnswerAt(config, trace, i) == AnswerAt(config, trace, j)
  {
    hide Recorded, Profiled, PathOf;
  }
}
