/** The control server: dispatching requests to the store and auditing every mutation. */
module ControlServer {
  import opened Text
  import opened Disk
  import opened Backup
  import opened ControlProtocol
  import AlertListing
  import M = AlertMessage
  import R = Retention
  import S = AlertStore
  import T = AlertTarget

  datatype Code =
    | InvalidRequestCode | UnsupportedVersionCode | UnknownOperationCode
    | InvalidTargetCode | InvalidMessageCode | InvalidSettingsCode | DurabilityUncertainCode
    | NotFoundCode | AlreadyExistsCode | LegacyConflictCode | OversizedConflictCode
    | ManagedConflictCode | SourceChangedCode | UnsafeFileCode | StoreClosedCode | InternalCode

  datatype Payload =
    | Listed(listing: AlertListing.Listing)
    | Found(target: string, entry: S.Entry)
    | Stored(target: string)
    | BackedUp(target: string, backup: string)
    | Current(config: Config)

  datatype Response = Success(result: Payload) | Failure(code: Code)

  datatype Outcome = OutcomeSuccess | OutcomeWarning | OutcomeFailure

  datatype AuditLine = AuditLine(auth: Option<Audit>, operation: string, target: string, outcome: Outcome,
                                 errorCode: Option<Code>, warningCode: Option<Code>)

  /** One connection: what arrived, the response, and what changed: alerts, settings, and backups. */
  datatype Exchange = Exchange(arrival: Arrival, response: Response, acts: seq<Act>, config: Option<Config>, saves: seq<Act>)

  // ----- error codes -----

  function ProtocolCode(e: ProtocolError): Code {
    match e
    case UnsupportedVersion => UnsupportedVersionCode
    case UnknownOperation => UnknownOperationCode
    case InvalidRequest => InvalidRequestCode
    case RequestTooLarge => InvalidRequestCode
  }

  lemma ProtocolCodes(e: ProtocolError)
    ensures ProtocolCode(e) == UnsupportedVersionCode <==> e == UnsupportedVersion
    ensures ProtocolCode(e) == UnknownOperationCode <==> e == UnknownOperation
    ensures ProtocolCode(e) == InvalidRequestCode <==> e in {InvalidRequest, RequestTooLarge}
  {
  }

  /** A failed step reads as not found when the system reported a missing file. */
  function StoreCode(e: StoreError, missing: bool): Code {
    match e
    case InvalidTarget => InvalidTargetCode
    case InvalidMessage => InvalidMessageCode
    case NotFound => NotFoundCode
    case AlreadyExists => AlreadyExistsCode
    case LegacyConflict => LegacyConflictCode
    case OversizedConflict => OversizedConflictCode
    case ManagedConflict => ManagedConflictCode
    case SourceChanged => SourceChangedCode
    case UnsafeFile => UnsafeFileCode
    case Closed => StoreClosedCode
    case Failed => if missing then NotFoundCode else InternalCode
    case Unsettled => if missing then NotFoundCode else InternalCode
  }

  /** Each error of the store has its own code, but for a failed call, which has one of two. */
  lemma StoreCodes(e: StoreError, missing: bool)
    ensures StoreCode(e, missing) == InvalidTargetCode <==> e == InvalidTarget
    ensures StoreCode(e, missing) == InvalidMessageCode <==> e == InvalidMessage
    ensures StoreCode(e, missing) == AlreadyExistsCode <==> e == AlreadyExists
    ensures StoreCode(e, missing) == LegacyConflictCode <==> e == LegacyConflict
    ensures StoreCode(e, missing) == OversizedConflictCode <==> e == OversizedConflict
    ensures StoreCode(e, missing) == ManagedConflictCode <==> e == ManagedConflict
    ensures StoreCode(e, missing) == SourceChangedCode <==> e == SourceChanged
    ensures StoreCode(e, missing) == UnsafeFileCode <==> e == UnsafeFile
    ensures StoreCode(e, missing) == StoreClosedCode <==> e == Closed
    ensures StoreCode(e, missing) == InternalCode <==> e in {Failed, Unsettled} && !missing
    ensures StoreCode(e, missing) == NotFoundCode <==> e == NotFound || (e in {Failed, Unsettled} && missing)
  {
  }

  lemma FailCode(e: StoreError, code: Code)
    requires code in {StoreCode(e, false), StoreCode(e, true)}
    ensures code == InvalidTargetCode <==> e == InvalidTarget
    ensures code == InvalidMessageCode <==> e == InvalidMessage
    ensures e == Unsettled ==> code in {InternalCode, NotFoundCode}
  {
  }

  lemma OneCode(e: StoreError)
    requires e !in {Failed, Unsettled}
    ensures StoreCode(e, true) == StoreCode(e, false)
  {
  }

  // ----- audit lines -----

  function LineFor(r: Request, response: Response): AuditLine {
    match response
    case Success(_) => AuditLine(r.audit, r.operation, r.target, OutcomeSuccess, None, None)
    case Failure(code) =>
      if r.operation == "settings_replace" && code == DurabilityUncertainCode
      then AuditLine(r.audit, r.operation, r.target, OutcomeWarning, None, Some(code))
      else AuditLine(r.audit, r.operation, r.target, OutcomeFailure, Some(code), None)
  }

  /** The part of a refused request that may be recorded: its target in canonical form, its audit only
      if it is valid. */
  function SafePart(r: Request, codec: Codec, wide: string -> string, t: M.Tables): Request {
    NO_REQUEST.(operation := r.operation,
                target := match T.Parse(r.target, wide)
                          case Some(name) => name
                          case None => "",
                audit := if HasValidAudit(r, codec, t) then r.audit else None)
  }

  // ----- what an exchange may do -----

  predicate IsAlertMutation(operation: string) {
    operation in {"create", "write", "convert", "delete"}
  }

  /** `act` is what the request asks for: its operation, on its parsed target, with its parsed message. */
  ghost predicate Performs(r: Request, act: Act, wide: string -> string, t: M.Tables) {
    var target := T.Parse(r.target, wide);
    && target.Some? && IsStepOf(r.operation, act, T.Filename(target.value))
    && (act.Link? || act.Replace? ==> M.Parse(r.message, t) == Ok(act.message))
  }

  /** The step that carries out an operation on the file `name`. */
  ghost predicate IsStepOf(operation: string, act: Act, name: string) {
    match act
    case Link(n, _, _, _) => operation == "create" && n == name
    case Replace(n, _, _, _, _, copy) => operation == (if copy.None? then "write" else "convert") && n == name
    case Unlink(n, _, _) => operation == "delete" && n == name
    case _ => false
  }

  /** A change of alerts is one step, the one asked for; success needs it, and only a failure that may
      follow a publication leaves it behind. */
  ghost predicate AlertsSound(r: Request, response: Response, acts: seq<Act>, wide: string -> string, t: M.Tables) {
    if acts == [] then IsAlertMutation(r.operation) ==> response.Failure?
    else
      && |acts| == 1 && Performs(r, acts[0], wide, t)
      && (response.Failure? ==> response.code in {InternalCode, NotFoundCode})
  }

  /** A bad target or message is reported as such, and nothing else is. */
  ghost predicate ArgumentsSound(r: Request, response: Response, wide: string -> string, t: M.Tables) {
    IsAlertMutation(r.operation) ==>
      && (response == Failure(InvalidTargetCode) <==> T.Parse(r.target, wide).None?)
      && (response == Failure(InvalidMessageCode) <==>
            r.operation != "delete" && T.Parse(r.target, wide).Some? && M.Parse(r.message, t).Err?)
  }

  /** The settings change exactly on success and on uncertain durability. */
  ghost predicate SettingsSound(r: Request, response: Response, config: Option<Config>) {
    if r.operation == "settings_replace" && (response.Success? || response.code == DurabilityUncertainCode)
    then config.Some? && config == r.settings
    else config.None?
  }

  /** The code with which an operation on one alert is refused, by what is there: the arguments first, then
      whether the store is open, then the alert. */
  ghost function Refusal(r: Request, d: Dir, open: bool, wide: string -> string, t: M.Tables): Option<Code> {
    var target := T.Parse(r.target, wide);
    if target.None? then Some(InvalidTargetCode)
    else if r.operation in {"create", "write", "convert"} && M.Parse(r.message, t).Err? then Some(InvalidMessageCode)
    else if !open then Some(StoreClosedCode)
    else RefusedAt(r.operation, d, target.value + ".txt", t)
  }

  ghost function RefusedAt(operation: string, d: Dir, name: string, t: M.Tables): Option<Code> {
    if operation == "create" then (if name in d then Some(AlreadyExistsCode) else None)
    else if name !in d then (if operation == "write" then None else Some(NotFoundCode))
    else if d[name].kind == Unsafe then Some(UnsafeFileCode)
    else if operation == "read" then None
    else if |d[name].data| > 65536 then Some(OversizedConflictCode)
    else if operation == "write" && M.ParseManaged(d[name].data, t).None? then Some(LegacyConflictCode)
    else if operation == "convert" && M.ParseManaged(d[name].data, t).Some? then Some(ManagedConflictCode)
    else None
  }

  /** The response is what the directory alone decides. */
  ghost predicate IsDecided(r: Request, response: Response, d: Dir, open: bool, wide: string -> string, t: M.Tables) {
    match Refusal(r, d, open, wide, t)
    case Some(code) => response == Failure(code)
    case None => response.Success?
  }

  /** The store's outcomes are these. */
  lemma ReadRefused(target: string, d: Dir, t: M.Tables)
    requires T.IsTarget(target)
    ensures var e := S.EntryAt(d, T.Filename(target), t);
            && RefusedAt("read", d, target + ".txt", t) == (if e.Ok? then None else Some(StoreCode(e.error, false)))
            && (e.Err? ==> e.error !in {Failed, Unsettled, Closed})
  {
  }

  lemma WriteRefused(target: string, d: Dir, t: M.Tables)
    requires T.IsTarget(target)
    ensures var e := S.WriteAt(d, T.Filename(target), t);
            && RefusedAt("write", d, target + ".txt", t) == (if e.Ok? then None else Some(StoreCode(e.error, false)))
            && (e.Err? ==> e.error !in {Failed, Unsettled, Closed})
  {
    hide M.ParseManaged;
  }

  lemma CreateRefused(target: string, d: Dir, t: M.Tables)
    requires T.IsTarget(target)
    ensures RefusedAt("create", d, target + ".txt", t)
         == if T.Filename(target) in d then Some(StoreCode(AlreadyExists, false)) else None
  {
  }

  lemma ConvertRefused(target: string, d: Dir, t: M.Tables)
    requires T.IsTarget(target)
    ensures var e := S.ConvertProblem(d, T.Filename(target), t);
            && RefusedAt("convert", d, target + ".txt", t) == (if e.None? then None else Some(StoreCode(e.value, false)))
            && (e.Some? ==> e.value !in {Failed, Unsettled, Closed})
  {
    hide M.ParseManaged;
  }

  lemma DeleteRefused(target: string, d: Dir, t: M.Tables)
    requires T.IsTarget(target)
    ensures var e := S.DeleteProblem(d, T.Filename(target));
            && RefusedAt("delete", d, target + ".txt", t) == (if e.None? then None else Some(StoreCode(e.value, false)))
            && (e.Some? ==> e.value !in {Failed, Unsettled, Closed})
  {
  }

  lemma BadTarget(r: Request, response: Response, d: Dir, open: bool, wide: string -> string, t: M.Tables)
    requires T.Parse(r.target, wide).None? && response == Failure(InvalidTargetCode)
    ensures IsDecided(r, response, d, open, wide, t)
  {
    hide T.Parse;
  }

  lemma BadMessage(r: Request, response: Response, d: Dir, open: bool, wide: string -> string, t: M.Tables)
    requires T.Parse(r.target, wide).Some? && r.operation in {"create", "write", "convert"}
    requires M.Parse(r.message, t).Err? && response == Failure(InvalidMessageCode)
    ensures IsDecided(r, response, d, open, wide, t)
  {
    hide T.Parse, M.Parse;
  }

  /** With good arguments the response follows the outcome of the store. */
  lemma DecidedByStore(r: Request, target: string, problem: Option<StoreError>, response: Response, d: Dir, open: bool,
                       wide: string -> string, t: M.Tables)
    requires T.Parse(r.target, wide) == Some(target)
    requires r.operation in {"create", "write", "convert"} ==> M.Parse(r.message, t).Ok?
    requires problem.None? ==> open && response.Success? && RefusedAt(r.operation, d, target + ".txt", t).None?
    requires problem.Some? ==>
               && problem.value !in {Failed, Unsettled} && response.Failure?
               && response.code in {StoreCode(problem.value, false), StoreCode(problem.value, true)}
               && (if open then RefusedAt(r.operation, d, target + ".txt", t) == Some(StoreCode(problem.value, false))
                   else problem.value == Closed)
    ensures IsDecided(r, response, d, open, wide, t)
  {
    hide T.Parse, M.Parse, RefusedAt;
    if problem.Some? {
      OneCode(problem.value);
    }
  }

  /** What a success reports: the parsed target, and the backup that belongs to the change. */
  ghost predicate ResultSound(r: Request, response: Response, acts: seq<Act>, config: Option<Config>, wide: string -> string) {
    response.Success? ==>
      match r.operation
      case "list" => response.result.Listed?
      case "read" => response.result.Found? && T.Parse(r.target, wide) == Some(response.result.target)
      case "create" => T.Parse(r.target, wide).Some? && response.result == Stored(T.Parse(r.target, wide).value)
      case "write" => T.Parse(r.target, wide).Some? && response.result == Stored(T.Parse(r.target, wide).value)
      case "convert" =>
        && T.Parse(r.target, wide).Some? && |acts| == 1 && acts[0].Replace? && acts[0].copy.Some?
        && response.result == BackedUp(T.Parse(r.target, wide).value, acts[0].copy.value.backup)
      case "delete" =>
        && T.Parse(r.target, wide).Some? && |acts| == 1 && acts[0].Unlink?
        && response.result == BackedUp(T.Parse(r.target, wide).value, acts[0].saved.backup)
      case "settings_replace" => config.Some? && response.result == Current(config.value)
      case "settings_read" => response.result.Current?
      case _ => false
  }

  predicate MakesBackups(operation: string) {
    operation in {"convert", "delete"}
  }

  ghost predicate IsSound(x: Exchange, codec: Codec, wide: string -> string, t: M.Tables) {
    match x.arrival
    case Accepted(r) =>
      && ValidateRequest(r, codec, t).None?
      && AlertsSound(r, x.response, x.acts, wide, t)
      && ArgumentsSound(r, x.response, wide, t)
      && SettingsSound(r, x.response, x.config)
      && ResultSound(r, x.response, x.acts, x.config, wide)
      && (x.saves != [] ==> MakesBackups(r.operation))
    case Refused(_, e) => x.acts == [] && x.config.None? && x.saves == [] && x.response == Failure(ProtocolCode(e))
    case Unread(e) => x.acts == [] && x.config.None? && x.saves == [] && x.response == Failure(ProtocolCode(e))
  }

  /** The audit lines of an exchange. */
  function LinesOf(x: Exchange, codec: Codec, wide: string -> string, t: M.Tables): (lines: seq<AuditLine>)
    ensures |lines| <= 1
  {
    match x.arrival
    case Unread(_) => []
    case Refused(r, _) => if IsMutation(r.operation) then [LineFor(SafePart(r, codec, wide, t), x.response)] else []
    case Accepted(r) => if IsMutation(r.operation) then [LineFor(r, x.response)] else []
  }

  function AllLines(xs: seq<Exchange>, codec: Codec, wide: string -> string, t: M.Tables): seq<AuditLine> {
    if xs == [] then [] else AllLines(xs[..|xs| - 1], codec, wide, t) + LinesOf(xs[|xs| - 1], codec, wide, t)
  }

  function AllActs(xs: seq<Exchange>): seq<Act> {
    if xs == [] then [] else AllActs(xs[..|xs| - 1]) + xs[|xs| - 1].acts
  }

  function AllSaves(xs: seq<Exchange>): seq<Act> {
    if xs == [] then [] else AllSaves(xs[..|xs| - 1]) + xs[|xs| - 1].saves
  }

  /** The steps that published or expired a backup, in order. */
  ghost function Saves(log: seq<Event>): seq<Act> {
    if log == [] then []
    else
      var act := log[|log| - 1].act;
      Saves(log[..|log| - 1]) + (if act.KeepsBackups() then [] else [act])
  }

  lemma {:induction false} SavesKept(front: seq<Event>, log: seq<Event>)
    requires front <= log && BackupsKept(log, |front|)
    ensures Saves(log) == Saves(front)
  {
    if |front| < |log| {
      SavesKept(front, log[..|log| - 1]);
    } else {
      assert log == front;
    }
  }

  lemma {:induction false} SavesGrow(front: seq<Event>, log: seq<Event>)
    requires front <= log
    ensures Saves(front) <= Saves(log)
  {
    if |front| < |log| {
      SavesGrow(front, log[..|log| - 1]);
    } else {
      assert log == front;
    }
  }

  /** The settings after the exchanges. */
  function LastConfig(first: Config, xs: seq<Exchange>): Config {
    if xs == [] then first
    else
      match xs[|xs| - 1].config
      case Some(c) => c
      case None => LastConfig(first, xs[..|xs| - 1])
  }

  lemma OneMoreExchange(xs: seq<Exchange>, x: Exchange, first: Config, codec: Codec, wide: string -> string, t: M.Tables)
    ensures AllLines(xs + [x], codec, wide, t) == AllLines(xs, codec, wide, t) + LinesOf(x, codec, wide, t)
    ensures AllActs(xs + [x]) == AllActs(xs) + x.acts
    ensures AllSaves(xs + [x]) == AllSaves(xs) + x.saves
    ensures LastConfig(first, xs + [x]) == if x.config.Some? then x.config.value else LastConfig(first, xs)
  {
    hide LinesOf;
    assert (xs + [x])[..|xs|] == xs;
  }

  // ----- settings -----

  datatype SettingsProblem = Rejected | Uncertain | NotSaved

  class Settings {
    var current: Config

    constructor (current: Config)
      ensures this.current == current
    {
      this.current := current;
    }

    /** Replace the stored settings; saving may fail before the file is replaced or after. */
    method Replace(config: Config) returns (e: Option<SettingsProblem>)
      modifies this
      ensures config.version != 1 <==> e == Some(Rejected)
      ensures current == if e.None? || e == Some(Uncertain) then config else old(current)
    {
      if config.version != 1 {
        return Some(Rejected);
      }
      var committed: bool := *;
      if !committed {
        return Some(NotSaved);
      }
      current := config;
      var synced: bool := *;
      e := if synced then None else Some(Uncertain);
    }
  }

  // ----- the server -----

  /** Every input was answered by the exchange at its place, and soundly. */
  ghost predicate Answers(inputs: seq<Input>, xs: seq<Exchange>, codec: Codec, wide: string -> string, t: M.Tables) {
    && |inputs| == |xs|
    && forall i :: 0 <= i < |xs| ==> xs[i].arrival == ArrivalOf(inputs[i], codec, t) && IsSound(xs[i], codec, wide, t)
  }

  /** A connection: what the client sends, and whether the read deadline can be set at all. */
  datatype Connection = Connection(input: Input, ready: bool)

  function Inputs(connections: seq<Connection>): seq<Input> {
    if connections == [] then []
    else
      var last := connections[|connections| - 1];
      Inputs(connections[..|connections| - 1]) + (if last.ready then [last.input] else [])
  }

  class Server {
    const store: S.Store
    const settings: Settings?
    const codec: Codec
    const auditing: bool
    ghost const earlier: seq<Act>
    ghost const earlierSaves: seq<Act>
    ghost const initial: Config
    var lines: seq<AuditLine>
    ghost var inputs: seq<Input>
    ghost var exchanges: seq<Exchange>

    /** What was received, the audit, the directories and the settings tell the same history. */
    ghost predicate Valid()
      reads this, store, store.disk, settings
    {
      && store.disk.Valid()
      && Answers(inputs, exchanges, codec, store.wide, store.disk.tables)
      && lines == (if auditing then AllLines(exchanges, codec, store.wide, store.disk.tables) else [])
      && Publications(store.disk.log) == earlier + AllActs(exchanges)
      && Saves(store.disk.log) == earlierSaves + AllSaves(exchanges)
      && (settings != null ==> settings.current == LastConfig(initial, exchanges))
    }

    constructor (store: S.Store, settings: Settings?, codec: Codec, auditing: bool)
      requires store.disk.Valid()
      ensures Valid() && inputs == [] && exchanges == [] && lines == []
      ensures this.store == store && this.settings == settings && this.codec == codec && this.auditing == auditing
      ensures earlier == Publications(store.disk.log) && earlierSaves == Saves(store.disk.log)
    {
      this.store, this.settings, this.codec, this.auditing := store, settings, codec, auditing;
      lines, inputs, exchanges := [], [], [];
      earlier, earlierSaves := Publications(store.disk.log), Saves(store.disk.log);
      initial := if settings != null then settings.current else Config(0);
    }

    // ----- dispatching -----

    /** `responseForError` on a store error. */
    method Fail(e: StoreError) returns (response: Response)
      ensures response.Failure?
      ensures response.code in {StoreCode(e, false), StoreCode(e, true)}
      ensures response.code != DurabilityUncertainCode
    {
      var missing: bool := *;
      response := Failure(StoreCode(e, missing));
    }

    method DispatchList() returns (response: Response)
      requires store.disk.Valid()
      modifies store.disk
      ensures store.disk.Looked()
      ensures response.Success? ==>
                response.result.Listed? && AlertListing.IsSorted(response.result.listing, store.wide)
      ensures response.Success? && store.disk.edits == old(store.disk.edits) ==>
                AlertListing.IsListing(store.disk.tree.alerts, Finished(store.disk.tree.alerts), response.result.listing,
                                       store.disk.faults != old(store.disk.faults),
                                       store.disk.tables, store.wide)
      ensures response.Failure? ==> response.code != DurabilityUncertainCode
      ensures store.disk.Calm() ==> response.Success? || (!store.alertRootOpen && response == Failure(StoreClosedCode))
    {
      hide AlertListing.IsListing, AlertListing.IsSorted, Finished;
      var listing := AlertListing.List(store);
      if listing.Err? {
        response := Fail(listing.error);
        return;
      }
      response := Success(Listed(listing.value));
    }

    method DispatchRead(r: Request) returns (response: Response)
      requires store.disk.Valid()
      modifies store.disk
      ensures store.disk.Looked()
      ensures response.Success? ==>
                response.result.Found? && T.Parse(r.target, store.wide) == Some(response.result.target)
      ensures response.Success? && store.disk.edits == old(store.disk.edits) ==>
                var name := T.Filename(response.result.target);
                && name in store.disk.tree.alerts && store.disk.tree.alerts[name].kind == Regular
                && response.result.entry == S.Classify(store.disk.tree.alerts[name].data, store.disk.tables)
      ensures response.Failure? ==> response.code != DurabilityUncertainCode
      ensures store.disk.Calm() && r.operation == "read" ==>
                IsDecided(r, response, old(store.disk.tree.alerts), store.alertRootOpen, store.wide, store.disk.tables)
    {
      hide RefusedAt, T.Parse, T.IsTarget, T.Filename, S.Classify, StoreCode, M.Parse, IsDecided;
      var target := T.Parse(r.target, store.wide);
      if target.None? {
        response := Failure(InvalidTargetCode);
        BadTarget(r, response, store.disk.tree.alerts, store.alertRootOpen, store.wide, store.disk.tables);
        return;
      }
      TargetNotEmpty(target.value);
      ReadRefused(target.value, store.disk.tree.alerts, store.disk.tables);
      ghost var open, d := store.alertRootOpen, store.disk.tree.alerts;
      var entry := store.Read(target.value);
      if entry.Err? {
        response := Fail(entry.error);
      } else {
        response := Success(Found(target.value, entry.value));
      }
      if store.disk.Calm() && r.operation == "read" {
        DecidedByStore(r, target.value, if entry.Ok? then None else Some(entry.error), response, d, open, store.wide,
                       store.disk.tables);
      }
    }

    // Each operation of the store with the one change of alerts it makes, if any.

    method CreateOnce(target: string, message: string) returns (done: Result<(), StoreError>, ghost acts: seq<Act>)
      requires store.disk.Valid() && T.IsTarget(target) && target != "" && M.IsMessage(message, store.disk.tables) && message != ""
      modifies store.disk
      ensures store.disk.Valid() && old(store.disk.log) <= store.disk.log && BackupsKept(store.disk.log, |old(store.disk.log)|)
      ensures Publications(store.disk.log) == old(Publications(store.disk.log)) + acts
      ensures if done.Ok? || done == Err(Unsettled)
              then |acts| == 1 && acts[0].Link? && acts[0].name == T.Filename(target) && acts[0].message == message
              else acts == []
      ensures done.Err? ==> done.error !in {InvalidTarget, InvalidMessage}
      ensures done.Ok? ==> store.alertRootOpen
      ensures store.disk.Calm() ==>
                done == if !store.alertRootOpen then Err(Closed)
                        else if T.Filename(target) in old(store.disk.tree.alerts) then Err(AlreadyExists) else Ok(())
    {
      hide M.Parse, T.Parse, T.Filename, T.IsTarget, M.ParseManaged, Leads, Publications, R.IsRetained, Finished, Holds,
        HasBytes, SameExcept, SameButTemporary, IsRendering, IsManaged, IsLegacy, IsOversized, IsBackupName, Replaceable,
        S.WriteAt, S.ConvertProblem, S.DeleteProblem, CleanBackups;
      acts := [];
      done := store.Create(target, message);
      if done.Ok? || done == Err(Unsettled) {
        acts := OneAct(old(Publications(store.disk.log)), Publications(store.disk.log));
      }
    }

    method WriteOnce(target: string, message: string) returns (done: Result<(), StoreError>, ghost acts: seq<Act>)
      requires store.disk.Valid() && T.IsTarget(target) && target != "" && M.IsMessage(message, store.disk.tables) && message != ""
      modifies store.disk
      ensures store.disk.Valid() && old(store.disk.log) <= store.disk.log && BackupsKept(store.disk.log, |old(store.disk.log)|)
      ensures Publications(store.disk.log) == old(Publications(store.disk.log)) + acts
      ensures if done.Ok? || done == Err(Unsettled)
              then && |acts| == 1 && acts[0].Replace? && acts[0].name == T.Filename(target)
                   && acts[0].message == message && acts[0].copy.None?
              else acts == []
      ensures done.Err? ==> done.error !in {InvalidTarget, InvalidMessage}
      ensures done.Ok? ==> store.alertRootOpen
      ensures store.disk.Calm() ==>
                done == if !store.alertRootOpen then Err(Closed)
                        else S.WriteAt(old(store.disk.tree.alerts), T.Filename(target), store.disk.tables)
    {
      hide M.Parse, T.Parse, T.Filename, T.IsTarget, M.ParseManaged, Leads, Publications, R.IsRetained, Finished, Holds,
        HasBytes, SameExcept, SameButTemporary, IsRendering, IsManaged, IsLegacy, IsOversized, IsBackupName, Replaceable,
        S.WriteAt, S.ConvertProblem, S.DeleteProblem, CleanBackups;
      acts := [];
      done := store.Write(target, message);
      if done.Ok? || done == Err(Unsettled) {
        acts := OneAct(old(Publications(store.disk.log)), Publications(store.disk.log));
      }
    }

    method ConvertOnce(target: string, message: string) returns (done: Result<string, StoreError>, ghost acts: seq<Act>)
      requires store.disk.Valid() && T.IsTarget(target) && target != "" && M.IsMessage(message, store.disk.tables) && message != ""
      modifies store.disk
      ensures store.disk.Valid() && old(store.disk.log) <= store.disk.log
      ensures Publications(store.disk.log) == old(Publications(store.disk.log)) + acts
      ensures if done.Ok? || done == Err(Unsettled)
              then && |acts| == 1 && acts[0].Replace? && acts[0].name == T.Filename(target)
                   && acts[0].message == message && acts[0].copy.Some?
              else acts == []
      ensures done.Ok? ==> done.value == acts[0].copy.value.backup && Holds(store.disk.tree.backups, acts[0].copy.value)
      ensures done.Err? ==> done.error !in {InvalidTarget, InvalidMessage}
      ensures done.Ok? ==> store.alertRootOpen && store.backupRootOpen
      ensures Undisturbed() ==>
                (if done.Ok? then None else Some(done.error))
                == if !(store.alertRootOpen && store.backupRootOpen) then Some(Closed)
                   else S.ConvertProblem(old(store.disk.tree.alerts), T.Filename(target), store.disk.tables)
    {
      hide M.Parse, T.Parse, T.Filename, T.IsTarget, M.ParseManaged, Leads, Publications, R.IsRetained, Finished, Holds,
        HasBytes, SameExcept, SameButTemporary, IsRendering, IsManaged, IsLegacy, IsOversized, IsBackupName, Replaceable,
        S.WriteAt, S.ConvertProblem, S.DeleteProblem, CleanBackups;
      acts := [];
      ghost var copy;
      done, copy := store.ConvertLegacy(target, message);
      if done.Ok? || done == Err(Unsettled) {
        acts := OneAct(old(Publications(store.disk.log)), Publications(store.disk.log));
      }
    }

    method DeleteOnce(target: string) returns (done: Result<string, StoreError>, ghost acts: seq<Act>)
      requires store.disk.Valid() && T.IsTarget(target) && target != ""
      modifies store.disk
      ensures store.disk.Valid() && old(store.disk.log) <= store.disk.log
      ensures Publications(store.disk.log) == old(Publications(store.disk.log)) + acts
      ensures if done.Ok? || done == Err(Unsettled)
              then |acts| == 1 && acts[0].Unlink? && acts[0].name == T.Filename(target)
              else acts == []
      ensures done.Ok? ==> done.value == acts[0].saved.backup && Holds(store.disk.tree.backups, acts[0].saved)
      ensures done.Err? ==> done.error !in {InvalidTarget, InvalidMessage}
      ensures done.Ok? ==> store.alertRootOpen && store.backupRootOpen
      ensures Undisturbed() ==>
                (if done.Ok? then None else Some(done.error))
                == if !(store.alertRootOpen && store.backupRootOpen) then Some(Closed)
                   else S.DeleteProblem(old(store.disk.tree.alerts), T.Filename(target))
    {
      hide M.Parse, T.Parse, T.Filename, T.IsTarget, M.ParseManaged, Leads, Publications, R.IsRetained, Finished, Holds,
        HasBytes, SameExcept, SameButTemporary, IsRendering, IsManaged, IsLegacy, IsOversized, IsBackupName, Replaceable,
        S.WriteAt, S.ConvertProblem, S.DeleteProblem, CleanBackups;
      acts := [];
      ghost var copy;
      done, copy := store.Delete(target);
      if done.Ok? || done == Err(Unsettled) {
        acts := OneAct(old(Publications(store.disk.log)), Publications(store.disk.log));
      }
    }

    method DispatchCreate(r: Request) returns (response: Response, ghost acts: seq<Act>)
      requires store.disk.Valid() && r.operation == "create"
      modifies store.disk
      ensures old(store.disk.log) <= store.disk.log && BackupsKept(store.disk.log, |old(store.disk.log)|)
      ensures store.disk.Valid() && Publications(store.disk.log) == old(Publications(store.disk.log)) + acts
      ensures AlertsSound(r, response, acts, store.wide, store.disk.tables)
      ensures ArgumentsSound(r, response, store.wide, store.disk.tables)
      ensures ResultSound(r, response, acts, None, store.wide)
      ensures store.disk.Calm() ==>
                IsDecided(r, response, old(store.disk.tree.alerts), store.alertRootOpen, store.wide, store.disk.tables)
      ensures response.Failure? ==> response.code != DurabilityUncertainCode
    {
      hide M.Parse, T.Parse, T.Filename, T.IsTarget, M.ParseManaged, Leads, Publications, R.IsRetained, Finished, Holds,
        HasBytes, SameExcept, SameButTemporary, IsRendering, IsManaged, IsOversized, IsBackupName,
        RefusedAt, StoreCode, IsDecided, S.WriteAt, S.ConvertProblem, S.DeleteProblem, CleanBackups;
      acts := [];
      ghost var d, open := store.disk.tree.alerts, store.alertRootOpen;
      var target := T.Parse(r.target, store.wide);
      if target.None? {
        response := Failure(InvalidTargetCode);
        BadTarget(r, response, d, open, store.wide, store.disk.tables);
        return;
      }
      TargetNotEmpty(target.value);
      var message := M.ParseMessage(r.message, store.disk.tables);
      if message.Err? {
        response := Failure(InvalidMessageCode);
        BadMessage(r, response, d, open, store.wide, store.disk.tables);
        return;
      }
      MessageNotEmpty(r.message, message.value, store.disk.tables);
      CreateRefused(target.value, store.disk.tree.alerts, store.disk.tables);
      var done;
      done, acts := CreateOnce(target.value, message.value);
      if done.Err? {
        response := Fail(done.error);
        FailCode(done.error, response.code);
      } else {
        response := Success(Stored(target.value));
      }
      if store.disk.Calm() {
        DecidedByStore(r, target.value, if done.Ok? then None else Some(done.error), response, d, open, store.wide,
                       store.disk.tables);
      }
    }

    method DispatchWrite(r: Request) returns (response: Response, ghost acts: seq<Act>)
      requires store.disk.Valid() && r.operation == "write"
      modifies store.disk
      ensures old(store.disk.log) <= store.disk.log && BackupsKept(store.disk.log, |old(store.disk.log)|)
      ensures store.disk.Valid() && Publications(store.disk.log) == old(Publications(store.disk.log)) + acts
      ensures AlertsSound(r, response, acts, store.wide, store.disk.tables)
      ensures ArgumentsSound(r, response, store.wide, store.disk.tables)
      ensures ResultSound(r, response, acts, None, store.wide)
      ensures store.disk.Calm() ==>
                IsDecided(r, response, old(store.disk.tree.alerts), store.alertRootOpen, store.wide, store.disk.tables)
      ensures response.Failure? ==> response.code != DurabilityUncertainCode
    {
      hide M.Parse, T.Parse, T.Filename, T.IsTarget, M.ParseManaged, Leads, Publications, R.IsRetained, Finished, Holds,
        HasBytes, SameExcept, SameButTemporary, IsRendering, IsManaged, IsOversized, IsBackupName,
        RefusedAt, StoreCode, IsDecided, S.WriteAt, S.ConvertProblem, S.DeleteProblem, CleanBackups;
      acts := [];
      ghost var d, open := store.disk.tree.alerts, store.alertRootOpen;
      var target := T.Parse(r.target, store.wide);
      if target.None? {
        response := Failure(InvalidTargetCode);
        BadTarget(r, response, d, open, store.wide, store.disk.tables);
        return;
      }
      TargetNotEmpty(target.value);
      var message := M.ParseMessage(r.message, store.disk.tables);
      if message.Err? {
        response := Failure(InvalidMessageCode);
        BadMessage(r, response, d, open, store.wide, store.disk.tables);
        return;
      }
      MessageNotEmpty(r.message, message.value, store.disk.tables);
      WriteRefused(target.value, store.disk.tree.alerts, store.disk.tables);
      var done;
      done, acts := WriteOnce(target.value, message.value);
      if done.Err? {
        response := Fail(done.error);
        FailCode(done.error, response.code);
      } else {
        response := Success(Stored(target.value));
      }
      if store.disk.Calm() {
        DecidedByStore(r, target.value, if done.Ok? then None else Some(done.error), response, d, open, store.wide,
                       store.disk.tables);
      }
    }

    method DispatchConvert(r: Request) returns (response: Response, ghost acts: seq<Act>)
      requires store.disk.Valid() && r.operation == "convert"
      modifies store.disk
      ensures old(store.disk.log) <= store.disk.log
      ensures store.disk.Valid() && Publications(store.disk.log) == old(Publications(store.disk.log)) + acts
      ensures AlertsSound(r, response, acts, store.wide, store.disk.tables)
      ensures ArgumentsSound(r, response, store.wide, store.disk.tables)
      ensures response.Success? ==>
                && acts != [] && acts[0].Replace? && acts[0].copy.Some?
                && response.result == BackedUp(T.Parse(r.target, store.wide).value, acts[0].copy.value.backup)
                && Holds(store.disk.tree.backups, acts[0].copy.value)
      ensures ResultSound(r, response, acts, None, store.wide)
      ensures store.disk.Calm() && CleanBackups(old(store.disk.tree.backups)) ==>
                IsDecided(r, response, old(store.disk.tree.alerts), store.alertRootOpen && store.backupRootOpen, store.wide,
                          store.disk.tables)
      ensures response.Failure? ==> response.code != DurabilityUncertainCode
    {
      hide M.Parse, T.Parse, T.Filename, T.IsTarget, M.ParseManaged, Leads, Publications, R.IsRetained, Finished, Holds,
        HasBytes, SameExcept, SameButTemporary, IsRendering, IsManaged, IsOversized, IsBackupName,
        RefusedAt, StoreCode, IsDecided, S.WriteAt, S.ConvertProblem, S.DeleteProblem, CleanBackups;
      acts := [];
      ghost var d, open := store.disk.tree.alerts, store.alertRootOpen && store.backupRootOpen;
      var target := T.Parse(r.target, store.wide);
      if target.None? {
        response := Failure(InvalidTargetCode);
        BadTarget(r, response, d, open, store.wide, store.disk.tables);
        return;
      }
      TargetNotEmpty(target.value);
      var message := M.ParseMessage(r.message, store.disk.tables);
      if message.Err? {
        response := Failure(InvalidMessageCode);
        BadMessage(r, response, d, open, store.wide, store.disk.tables);
        return;
      }
      MessageNotEmpty(r.message, message.value, store.disk.tables);
      ConvertRefused(target.value, store.disk.tree.alerts, store.disk.tables);
      var done;
      done, acts := ConvertOnce(target.value, message.value);
      if done.Err? {
        response := Fail(done.error);
        FailCode(done.error, response.code);
      } else {
        response := Success(BackedUp(target.value, done.value));
      }
      if store.disk.Calm() && CleanBackups(old(store.disk.tree.backups)) {
        DecidedByStore(r, target.value, if done.Ok? then None else Some(done.error), response, d, open, store.wide,
                       store.disk.tables);
      }
    }

    method DispatchDelete(r: Request) returns (response: Response, ghost acts: seq<Act>)
      requires store.disk.Valid() && r.operation == "delete"
      modifies store.disk
      ensures old(store.disk.log) <= store.disk.log
      ensures store.disk.Valid() && Publications(store.disk.log) == old(Publications(store.disk.log)) + acts
      ensures AlertsSound(r, response, acts, store.wide, store.disk.tables)
      ensures ArgumentsSound(r, response, store.wide, store.disk.tables)
      ensures response.Success? ==>
                && acts != [] && acts[0].Unlink?
                && response.result == BackedUp(T.Parse(r.target, store.wide).value, acts[0].saved.backup)
                && Holds(store.disk.tree.backups, acts[0].saved)
      ensures ResultSound(r, response, acts, None, store.wide)
      ensures store.disk.Calm() && CleanBackups(old(store.disk.tree.backups)) ==>
                IsDecided(r, response, old(store.disk.tree.alerts), store.alertRootOpen && store.backupRootOpen, store.wide,
                          store.disk.tables)
      ensures response.Failure? ==> response.code != DurabilityUncertainCode
    {
      hide M.Parse, T.Parse, T.Filename, T.IsTarget, M.ParseManaged, Leads, Publications, R.IsRetained, Finished, Holds,
        HasBytes, SameExcept, SameButTemporary, IsRendering, IsManaged, IsOversized, IsBackupName,
        RefusedAt, StoreCode, IsDecided, S.WriteAt, S.ConvertProblem, S.DeleteProblem, CleanBackups;
      acts := [];
      ghost var d, open := store.disk.tree.alerts, store.alertRootOpen && store.backupRootOpen;
      var target := T.Parse(r.target, store.wide);
      if target.None? {
        response := Failure(InvalidTargetCode);
        BadTarget(r, response, d, open, store.wide, store.disk.tables);
        return;
      }
      TargetNotEmpty(target.value);
      DeleteRefused(target.value, store.disk.tree.alerts, store.disk.tables);
      var done;
      done, acts := DeleteOnce(target.value);
      if done.Err? {
        response := Fail(done.error);
        FailCode(done.error, response.code);
      } else {
        response := Success(BackedUp(target.value, done.value));
      }
      if store.disk.Calm() && CleanBackups(old(store.disk.tree.backups)) {
        DecidedByStore(r, target.value, if done.Ok? then None else Some(done.error), response, d, open, store.wide,
                       store.disk.tables);
      }
    }

    /** Nobody else wrote, no call failed that could have succeeded, and the backups were regular files. */
    twostate predicate Undisturbed()
      reads store.disk
    {
      store.disk.Calm() && CleanBackups(old(store.disk.tree.backups))
    }

    /** The directories as they were decide about every operation on alerts. */
    ghost predicate DirectoriesDecide(r: Request, response: Response, d: Dir)
      reads store
    {
      && (r.operation == "list" ==> response.Success? || (!store.alertRootOpen && response == Failure(StoreClosedCode)))
      && (r.operation in {"read", "create", "write", "convert", "delete"} ==>
            IsDecided(r, response, d, store.alertRootOpen && (MakesBackups(r.operation) ==> store.backupRootOpen), store.wide,
                      store.disk.tables))
    }

    /** `Dispatch`. */
    method Dispatch(r: Request) returns (response: Response, ghost acts: seq<Act>, ghost saves: seq<Act>)
      requires store.disk.Valid()
      modifies store.disk
      ensures store.disk.Valid() && Publications(store.disk.log) == old(Publications(store.disk.log)) + acts
      ensures Saves(store.disk.log) == old(Saves(store.disk.log)) + saves
      ensures AlertsSound(r, response, acts, store.wide, store.disk.tables)
      ensures ArgumentsSound(r, response, store.wide, store.disk.tables)
      ensures saves != [] ==> MakesBackups(r.operation)
      ensures response.Failure? ==> response.code != DurabilityUncertainCode
      ensures ResultSound(r, response, acts, None, store.wide)
      ensures r.operation !in {"list", "read", "create", "write", "convert", "delete"} ==> response == Failure(UnknownOperationCode)
      ensures Undisturbed() ==> DirectoriesDecide(r, response, old(store.disk.tree.alerts))
    {
      hide Leads, Publications, Saves, Performs, T.Parse, M.Parse, AlertListing.IsListing, AlertListing.IsSorted, S.Classify,
        IsDecided, CleanBackups;
      acts := [];
      match r.operation {
        case "list" => response := DispatchList();
        case "read" => response := DispatchRead(r);
        case "create" => response, acts := DispatchCreate(r);
        case "write" => response, acts := DispatchWrite(r);
        case "convert" => response, acts := DispatchConvert(r);
        case "delete" => response, acts := DispatchDelete(r);
        case _ => response := Failure(UnknownOperationCode);
      }
      saves := NewSaves(old(store.disk.log), store.disk.log);
      if !MakesBackups(r.operation) {
        SavesKept(old(store.disk.log), store.disk.log);
      }
    }

    /** `Dispatch` or, with a settings store, `DispatchWithSettings`. */
    method DispatchAny(r: Request)
      returns (response: Response, ghost acts: seq<Act>, ghost config: Option<Config>, ghost saves: seq<Act>)
      requires store.disk.Valid()
      modifies store.disk, settings
      ensures store.disk.Valid() && Publications(store.disk.log) == old(Publications(store.disk.log)) + acts
      ensures Saves(store.disk.log) == old(Saves(store.disk.log)) + saves
      ensures AlertsSound(r, response, acts, store.wide, store.disk.tables)
      ensures ArgumentsSound(r, response, store.wide, store.disk.tables)
      ensures saves != [] ==> MakesBackups(r.operation)
      ensures SettingsSound(r, response, config)
      ensures settings != null ==> settings.current == if config.Some? then config.value else old(settings.current)
      ensures ResultSound(r, response, acts, config, store.wide)
      ensures Undisturbed() ==> DirectoriesDecide(r, response, old(store.disk.tree.alerts))
      ensures r.operation == "settings_read" ==>
                response == if settings != null then Success(Current(settings.current)) else Failure(UnknownOperationCode)
      ensures r.operation == "settings_replace" && settings != null && r.settings.Some? && r.settings.value.version != 1 ==>
                response == Failure(InvalidSettingsCode)
      ensures r.operation == "settings_replace" && settings != null && r.settings.Some? && r.settings.value.version == 1 ==>
                response.Success? || response.code in {DurabilityUncertainCode, InternalCode}
    {
      hide Leads, Publications, Saves, Performs, T.Parse, M.Parse, IsDecided, CleanBackups;
      acts, config, saves := [], None, [];
      if settings != null && r.operation == "settings_read" {
        return Success(Current(settings.current)), acts, config, saves;
      }
      if settings != null && r.operation == "settings_replace" {
        if r.settings.None? {
          return Failure(InvalidRequestCode), acts, config, saves;
        }
        var problem := settings.Replace(r.settings.value);
        if problem.None? {
          return Success(Current(settings.current)), acts, r.settings, saves;
        }
        match problem.value {
          case Uncertain => response, config := Failure(DurabilityUncertainCode), r.settings;
          case Rejected => response := Failure(InvalidSettingsCode);
          case NotSaved => response := Failure(InternalCode);
        }
        return;
      }
      response, acts, saves := Dispatch(r);
    }

    // ----- auditing -----

    method WriteMutationAudit(r: Request, response: Response)
      modifies this`lines
      ensures lines == old(lines) + if auditing && IsMutation(r.operation) then [LineFor(r, response)] else []
    {
      if !auditing || !IsMutation(r.operation) {
        return;
      }
      var outcome, errorCode, warningCode := OutcomeSuccess, None, None;
      if response.Failure? {
        if r.operation == "settings_replace" && response.code == DurabilityUncertainCode {
          outcome, warningCode := OutcomeWarning, Some(response.code);
        } else {
          outcome, errorCode := OutcomeFailure, Some(response.code);
        }
      }
      lines := lines + [AuditLine(r.audit, r.operation, r.target, outcome, errorCode, warningCode)];
    }

    method WriteRejectedMutationAudit(r: Request, response: Response)
      modifies this`lines
      ensures lines == old(lines) + LinesIf(auditing, Exchange(Refused(r, InvalidRequest), response, [], None, []))
    {
      if !auditing || !IsMutation(r.operation) {
        return;
      }
      var safe := NO_REQUEST.(operation := r.operation);
      var target := T.Parse(r.target, store.wide);
      if target.Some? {
        safe := safe.(target := target.value);
      }
      if r.audit.Some? && IsValidAudit(r.audit.value, codec, store.disk.tables) {
        safe := safe.(audit := r.audit);
      }
      WriteMutationAudit(safe, response);
    }

    ghost function LinesIf(enabled: bool, x: Exchange): seq<AuditLine> {
      if enabled then LinesOf(x, codec, store.wide, store.disk.tables) else []
    }

    // ----- connections -----

    /** From the bytes of a connection to the response, with the audit line written in between. */
    method Answer(input: Input) returns (answer: Response, ghost x: Exchange)
      requires store.disk.Valid()
      modifies this`lines, store.disk, settings
      ensures store.disk.Valid() && Publications(store.disk.log) == old(Publications(store.disk.log)) + x.acts
      ensures Saves(store.disk.log) == old(Saves(store.disk.log)) + x.saves
      ensures x.arrival == ArrivalOf(input, codec, store.disk.tables) && x.response == answer
      ensures lines == old(lines) + LinesIf(auditing, x)
      ensures IsSound(x, codec, store.wide, store.disk.tables)
      ensures Undisturbed() && x.arrival.Accepted? ==>
                DirectoriesDecide(x.arrival.request, answer, old(store.disk.tree.alerts))
      ensures settings != null ==> settings.current == if x.config.Some? then x.config.value else old(settings.current)
    {
      hide AlertsSound, ArgumentsSound, SettingsSound, ResultSound, DirectoriesDecide, CleanBackups, ValidateRequest,
        SafePart, LineFor, IsMutation, MakesBackups, FitsLimit, Publications, Saves, Leads;
      ArrivalIsChecked(input, codec, store.disk.tables);
      var data := ReadRequest(input);
      if data.Err? {
        answer := Failure(ProtocolCode(data.error));
        x := Exchange(Unread(data.error), answer, [], None, []);
        return;
      }
      var (request, problem) := DecodeRequest(data.value, codec, store.disk.tables);
      if problem.Some? {
        answer := Failure(ProtocolCode(problem.value));
        WriteRejectedMutationAudit(request, answer);
        x := Exchange(Refused(request, problem.value), answer, [], None, []);
        return;
      }
      ghost var acts: seq<Act>;
      ghost var config: Option<Config>;
      ghost var saves: seq<Act>;
      answer, acts, config, saves := DispatchAny(request);
      WriteMutationAudit(request, answer);
      x := Exchange(Accepted(request), answer, acts, config, saves);
    }

    /** `handleConnectionWithSettings`; nothing happens when setting the read deadline fails. */
    method HandleConnection(connection: Connection) returns (response: Option<Response>)
      requires Valid()
      modifies this, store.disk, settings
      ensures Valid()
      ensures inputs == old(inputs) + (if connection.ready then [connection.input] else [])
      ensures old(exchanges) <= exchanges
      ensures response.Some? ==> connection.ready && exchanges[|exchanges| - 1].response == response.value
    {
      hide IsSound, LinesOf, Leads, Publications, AllLines, AllActs, LastConfig, Saves, AllSaves, ArrivalOf;
      if !connection.ready {
        return None;
      }
      var answer, x := Answer(connection.input);
      OneMoreExchange(exchanges, x, initial, codec, store.wide, store.disk.tables);
      exchanges := exchanges + [x];
      inputs := inputs + [connection.input];
      var sent: bool := *;
      response := if sent then Some(answer) else None;
    }

    /** The accept loop: one connection after the other. */
    method Serve(connections: seq<Connection>)
      requires Valid()
      modifies this, store.disk, settings
      ensures Valid() && old(exchanges) <= exchanges && inputs == old(inputs) + Inputs(connections)
    {
      hide Answers, AllLines, AllActs, AllSaves, LastConfig, Publications, Saves, Leads;
      for i := 0 to |connections|
        invariant Valid() && old(exchanges) <= exchanges && inputs == old(inputs) + Inputs(connections[..i])
      {
        assert connections[..i + 1][..i] == connections[..i];
        var response := HandleConnection(connections[i]);
      }
      assert connections[..|connections|] == connections;
    }
  }

  lemma TargetNotEmpty(target: string)
    requires T.IsTarget(target)
    ensures target != ""
  {
  }

  lemma MessageNotEmpty(value: string, message: string, t: M.Tables)
    requires M.Parse(value, t) == Ok(message)
    ensures message != "" && M.IsMessage(message, t)
  {
    hide M.Parse;
    M.ParseIdempotent(message, t);
  }

  ghost function NewSaves(front: seq<Event>, log: seq<Event>): (saves: seq<Act>)
    requires front <= log
    ensures Saves(log) == Saves(front) + saves
  {
    SavesGrow(front, log);
    Saves(log)[|Saves(front)|..]
  }

  /** The step by which a history grew. */
  ghost function OneAct(before: seq<Act>, after: seq<Act>): (acts: seq<Act>)
    requires |after| == |before| + 1 && after[..|before|] == before
    ensures acts == [after[|before|]] && after == before + acts
  {
    [after[|before|]]
  }

  // ----- what the audit says of a run -----

  /** The request to mutate that arrived, if one was decoded. */
  function MutationOf(a: Arrival): Option<Request> {
    match a
    case Unread(_) => None
    case Refused(r, _) => if IsMutation(r.operation) then Some(r) else None
    case Accepted(r) => if IsMutation(r.operation) then Some(r) else None
  }

  /** What a line says of the request and the response. A refused request leaves its operation, its
      error, its canonical target and its audit if that is valid; an accepted one everything it sent. */
  ghost predicate Describes(line: AuditLine, a: Arrival, response: Response, codec: Codec, wide: string -> string, t: M.Tables) {
    match a
    case Unread(_) => false
    case Refused(r, e) =>
      && line.operation == r.operation && line.outcome == OutcomeFailure
      && response == Failure(ProtocolCode(e)) && line.errorCode == Some(ProtocolCode(e))
      && line.auth == (if r.audit.Some? && NamesAdmin(r.audit.value, codec, t) then r.audit else None)
      && Some(line.target) == (if T.Parse(r.target, wide).Some? then T.Parse(r.target, wide) else Some(""))
    case Accepted(r) =>
      && line.operation == r.operation && line.target == r.target && line.auth == r.audit
      && r.audit.Some? && NamesAdmin(r.audit.value, codec, t)
      && (line.outcome == OutcomeSuccess <==> response.Success?)
      && (line.outcome == OutcomeWarning <==> r.operation == "settings_replace" && response == Failure(DurabilityUncertainCode))
      && (response.Failure? ==> Some(response.code) == if line.outcome == OutcomeWarning then line.warningCode else line.errorCode)
  }

  /** One exchange: a decoded request to mutate has one line, which describes it; nothing else has any. */
  lemma OneLine(x: Exchange, codec: Codec, wide: string -> string, t: M.Tables)
    requires IsSound(x, codec, wide, t)
    ensures var lines := LinesOf(x, codec, wide, t);
            if MutationOf(x.arrival).None? then lines == []
            else |lines| == 1 && Describes(lines[0], x.arrival, x.response, codec, wide, t)
  {
    hide IsAuditText, T.Parse, AlertsSound, ArgumentsSound, SettingsSound, ResultSound, IsValidAudit, NamesAdmin;
    match x.arrival
    case Accepted(r) => ValidatedRequest(r, codec, t);
    case Refused(r, _) =>
      if r.audit.Some? {
        ValidAuditNamesAdmin(r.audit.value, codec, t);
      }
    case Unread(_) =>
  }

  /** The inputs that decode to a request to mutate. */
  function Mutations(inputs: seq<Input>, codec: Codec, t: M.Tables): seq<Input> {
    if inputs == [] then []
    else
      var last := inputs[|inputs| - 1];
      Mutations(inputs[..|inputs| - 1], codec, t) + (if MutationOf(ArrivalOf(last, codec, t)).Some? then [last] else [])
  }

  /** The responses to these inputs. */
  ghost function MutationResponses(xs: seq<Exchange>): seq<Response> {
    if xs == [] then []
    else
      var last := xs[|xs| - 1];
      MutationResponses(xs[..|xs| - 1]) + (if MutationOf(last.arrival).Some? then [last.response] else [])
  }

  /** The lines are those of the inputs that decode to a request to mutate, one for each, in order. */
  ghost predicate LinesDescribe(lines: seq<AuditLine>, inputs: seq<Input>, responses: seq<Response>, codec: Codec,
                                wide: string -> string, t: M.Tables) {
    && |lines| == |inputs| == |responses|
    && forall j :: 0 <= j < |lines| ==> Describes(lines[j], ArrivalOf(inputs[j], codec, t), responses[j], codec, wide, t)
  }

  lemma {:induction false} OneLinePerMutation(inputs: seq<Input>, xs: seq<Exchange>, codec: Codec, wide: string -> string, t: M.Tables)
    requires Answers(inputs, xs, codec, wide, t)
    ensures LinesDescribe(AllLines(xs, codec, wide, t), Mutations(inputs, codec, t), MutationResponses(xs), codec, wide, t)
  {
    hide IsSound, LinesOf, Describes, ArrivalOf, MutationOf;
    if xs != [] {
      var n := |xs| - 1;
      OneLinePerMutation(inputs[..n], xs[..n], codec, wide, t);
      OneLine(xs[n], codec, wide, t);
    }
  }

  /** Over every run of the server: every input that decodes to a request to mutate, accepted or
      refused, has exactly one audit line, in the order of the inputs, and it describes what was sent
      and what was answered. */
  lemma ServerLinesDescribe(s: Server)
    requires s.Valid() && s.auditing
    ensures LinesDescribe(s.lines, Mutations(s.inputs, s.codec, s.store.disk.tables), MutationResponses(s.exchanges), s.codec,
                          s.store.wide, s.store.disk.tables)
  {
    hide Answers, LinesDescribe, AllLines, Mutations, MutationResponses;
    OneLinePerMutation(s.inputs, s.exchanges, s.codec, s.store.wide, s.store.disk.tables);
  }

  /** An audit line with the change it stands for. */
  datatype LedgerEntry = LedgerEntry(line: AuditLine, acts: seq<Act>, config: Option<Config>, saves: seq<Act>)

  function Ledger(xs: seq<Exchange>, codec: Codec, wide: string -> string, t: M.Tables): seq<LedgerEntry> {
    if xs == [] then []
    else
      var x := xs[|xs| - 1];
      var lines := LinesOf(x, codec, wide, t);
      Ledger(xs[..|xs| - 1], codec, wide, t)
      + if lines == [] then [] else [LedgerEntry(lines[0], x.acts, x.config, x.saves)]
  }

  function LedgerLines(ledger: seq<LedgerEntry>): seq<AuditLine> {
    if ledger == [] then [] else LedgerLines(ledger[..|ledger| - 1]) + [ledger[|ledger| - 1].line]
  }

  function LedgerActs(ledger: seq<LedgerEntry>): seq<Act> {
    if ledger == [] then [] else LedgerActs(ledger[..|ledger| - 1]) + ledger[|ledger| - 1].acts
  }

  function LedgerSaves(ledger: seq<LedgerEntry>): seq<Act> {
    if ledger == [] then [] else LedgerSaves(ledger[..|ledger| - 1]) + ledger[|ledger| - 1].saves
  }

  function LedgerConfig(first: Config, ledger: seq<LedgerEntry>): Config {
    if ledger == [] then first
    else
      match ledger[|ledger| - 1].config
      case Some(c) => c
      case None => LedgerConfig(first, ledger[..|ledger| - 1])
  }

  /** The line names the administrator who asked, for what, on which target; success is never claimed without the change,
      and a change goes unclaimed only by a failure that the store met after publishing. Backups are
      made and expired only for conversions and deletions. */
  ghost predicate AccountsFor(e: LedgerEntry, codec: Codec, wide: string -> string, t: M.Tables) {
    && IsMutation(e.line.operation)
    && (e.acts != [] || e.saves != [] || e.config.Some? ==> e.line.auth.Some? && NamesAdmin(e.line.auth.value, codec, t))
    && (e.acts != [] ==> |e.acts| == 1 && Records(e.line, e.acts[0], wide))
    && (e.saves != [] ==> MakesBackups(e.line.operation))
    && (e.line.outcome == OutcomeSuccess && IsAlertMutation(e.line.operation) ==> e.acts != [])
    && (e.config.Some? <==> e.line.operation == "settings_replace" && e.line.outcome != OutcomeFailure)
  }

  ghost predicate Records(line: AuditLine, act: Act, wide: string -> string) {
    var target := T.Parse(line.target, wide);
    && target.Some? && IsStepOf(line.operation, act, T.Filename(target.value))
    && (line.outcome == OutcomeSuccess
        || (line.outcome == OutcomeFailure && line.errorCode in {Some(InternalCode), Some(NotFoundCode)}))
  }

  lemma ExchangeAccounts(x: Exchange, codec: Codec, wide: string -> string, t: M.Tables)
    requires IsSound(x, codec, wide, t)
    ensures var lines := LinesOf(x, codec, wide, t);
            if lines == [] then x.acts == [] && x.config.None? && x.saves == []
            else AccountsFor(LedgerEntry(lines[0], x.acts, x.config, x.saves), codec, wide, t)
  {
    hide ResultSound, IsValidAudit, NamesAdmin, M.Parse, T.Parse, T.Filename, SafePart, ArgumentsSound;
    match x.arrival
    case Accepted(r) => ValidatedRequest(r, codec, t);
    case Refused(r, _) =>
      if IsMutation(r.operation) {
        SafeOperation(r, codec, wide, t);
      }
    case Unread(_) =>
  }

  lemma SafeOperation(r: Request, codec: Codec, wide: string -> string, t: M.Tables)
    ensures SafePart(r, codec, wide, t).operation == r.operation
  {
  }

  /** Over every run, the audit lines in order account for exactly the changes of alerts, settings and
      backups in order: none is missing from the audit, and none that the audit claims is missing. */
  lemma {:induction false} AuditAccountsForEverything(first: Config, xs: seq<Exchange>, codec: Codec, wide: string -> string, t: M.Tables)
    requires forall i :: 0 <= i < |xs| ==> IsSound(xs[i], codec, wide, t)
    ensures var ledger := Ledger(xs, codec, wide, t);
            && LedgerLines(ledger) == AllLines(xs, codec, wide, t)
            && LedgerActs(ledger) == AllActs(xs) && LedgerSaves(ledger) == AllSaves(xs)
            && LedgerConfig(first, ledger) == LastConfig(first, xs)
            && forall i :: 0 <= i < |ledger| ==> AccountsFor(ledger[i], codec, wide, t)
  {
    hide IsSound, LinesOf, AccountsFor;
    if xs != [] {
      var front, x := xs[..|xs| - 1], xs[|xs| - 1];
      AuditAccountsForEverything(first, front, codec, wide, t);
      ExchangeAccounts(x, codec, wide, t);
      var lines := LinesOf(x, codec, wide, t);
      var before := Ledger(front, codec, wide, t);
      if lines == [] {
        assert Ledger(xs, codec, wide, t) == before;
      } else {
        var entry := LedgerEntry(lines[0], x.acts, x.config, x.saves);
        assert Ledger(xs, codec, wide, t)[..|before|] == before;
        assert lines == [lines[0]];
      }
    }
  }

  /** So under the server alerts, backups and settings change only in audited steps, in the order of
      the lines. */
  lemma ServerIsAudited(s: Server)
    requires s.Valid() && s.auditing
    ensures var ledger := Ledger(s.exchanges, s.codec, s.store.wide, s.store.disk.tables);
            && s.lines == LedgerLines(ledger)
            && Publications(s.store.disk.log) == s.earlier + LedgerActs(ledger)
            && Saves(s.store.disk.log) == s.earlierSaves + LedgerSaves(ledger)
            && (s.settings != null ==> s.settings.current == LedgerConfig(s.initial, ledger))
            && forall i :: 0 <= i < |ledger| ==> AccountsFor(ledger[i], s.codec, s.store.wide, s.store.disk.tables)
  {
    hide AccountsFor, Ledger, LedgerLines, LedgerActs, LedgerSaves, LedgerConfig;
    AuditAccountsForEverything(s.initial, s.exchanges, s.codec, s.store.wide, s.store.disk.tables);
  }
}
