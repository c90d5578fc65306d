/** The device health service (device-health-service/): a persisted map of active
    errors, a volatile set of devices whose update failed, and writes that may fail. */
module DeviceHealthService {
  import opened PropertyValues

  // --------------------------------------------------------------- the error map

  datatype Health = OK | Warning | Critical

  datatype Level = CriticalLevel | WarningLevel

  datatype Errors = Errors(critical: set<string>, warning: set<string>) {
    function Of(level: Level): set<string> {
      match level case CriticalLevel => critical case WarningLevel => warning
    }

    function Plus(level: Level, id: string): Errors {
      match level
      case CriticalLevel => this.(critical := critical + {id})
      case WarningLevel => this.(warning := warning + {id})
    }

    predicate Has(id: string) {
      id in critical || id in warning
    }

    function Minus(id: string): Errors {
      Errors(critical - {id}, warning - {id})
    }
  }

  type ErrorMap = map<string, Errors>

  function ErrorsOf(m: ErrorMap, device: string): Errors {
    if device in m then m[device] else Errors({}, {})
  }

  function WithMapping(m: ErrorMap, device: string): ErrorMap {
    m[device := ErrorsOf(m, device)]
  }

  predicate HasRoom(m: ErrorMap, level: Level, device: string, limit: nat) {
    |ErrorsOf(m, device).Of(level)| < limit
  }

  function Added(m: ErrorMap, level: Level, id: string, device: string, limit: nat): ErrorMap {
    var e := ErrorsOf(m, device);
    m[device := if HasRoom(m, level, device, limit) then e.Plus(level, id) else e]
  }

  function Removed(m: ErrorMap, id: string, device: string): ErrorMap {
    if device in m then m[device := m[device].Minus(id)] else m
  }

  function HealthOf(m: ErrorMap, device: string): Health {
    if ErrorsOf(m, device).critical != {} then Critical
    else if ErrorsOf(m, device).warning != {} then Warning
    else OK
  }

  ghost predicate Bounded(m: ErrorMap, limit: nat) {
    forall d, level :: d in m ==> |m[d].Of(level)| <= limit
  }

  lemma AddedIsBounded(m: ErrorMap, level: Level, id: string, device: string, limit: nat)
    requires Bounded(m, limit)
    ensures Bounded(Added(m, level, id, device, limit), limit)
    ensures Bounded(WithMapping(m, device), limit)
  {
    var e := ErrorsOf(m, device);
    assert |e.Of(CriticalLevel)| <= limit && |e.Of(WarningLevel)| <= limit;
    assert |e.critical + {id}| <= |e.critical| + 1 && |e.warning + {id}| <= |e.warning| + 1;
  }

  lemma RemovedIsBounded(m: ErrorMap, id: string, device: string, limit: nat)
    requires Bounded(m, limit)
    ensures Bounded(Removed(m, id, device), limit)
  {
    if device in m {
      var e := m[device];
      assert |e.Of(CriticalLevel)| <= limit && |e.Of(WarningLevel)| <= limit;
      assert e.critical == (e.critical - {id}) + (e.critical * {id});
      assert e.warning == (e.warning - {id}) + (e.warning * {id});
    }
  }

  /** Adding once the mapping is there: the set is looked at and perhaps enlarged. */
  lemma AddedAfterMapping(m: ErrorMap, level: Level, id: string, device: string, limit: nat)
    ensures device in WithMapping(m, device)
    ensures HasRoom(m, level, device, limit) <==> |ErrorsOf(m, device).Of(level)| < limit
    ensures HasRoom(m, level, device, limit) <==> |WithMapping(m, device)[device].Of(level)| < limit
    ensures Added(m, level, id, device, limit)
         == if HasRoom(m, level, device, limit)
            then WithMapping(m, device)[device := WithMapping(m, device)[device].Plus(level, id)]
            else WithMapping(m, device)
    ensures Added(WithMapping(m, device), level, id, device, limit) == Added(m, level, id, device, limit)
    ensures HasRoom(WithMapping(m, device), level, device, limit) <==> HasRoom(m, level, device, limit)
    ensures WithMapping(WithMapping(m, device), device) == WithMapping(m, device)
  {
  }

  // ------------------------------------------------------------ the persisted file

  /** How an operation ends when memory in the file may run out. */
  datatype Attempt<T> = Cut | Done(result: T)

  datatype GrowResult = Refused | Grown | Threw

  class TmpFileManager {
    const limit: nat
    const increment: nat
    const maximum: nat
    var errors: ErrorMap
    var size: nat

    constructor (limit: nat, increment: nat, maximum: nat, initial: nat)
      ensures this.limit == limit && this.increment == increment && this.maximum == maximum
      ensures errors == map[] && size == initial
    {
      this.limit, this.increment, this.maximum := limit, increment, maximum;
      errors := map[];
      size := initial;
    }

    /** An allocation either fails or does not. */
    method Allocate() returns (ok: bool) {
      ok := *;
    }

    method EnsureMappingPresent(device: string) returns (ok: bool)
      modifies this`errors
      ensures errors == if ok then WithMapping(old(errors), device) else old(errors)
    {
      if device !in errors {
        ok := Allocate();
        if ok {
          errors := errors[device := Errors({}, {})];
        }
      } else {
        assert WithMapping(errors, device) == errors;
        ok := true;
      }
    }

    /** Adding may be cut short at any allocation; the mapping may be there already. */
    method AddUnchecked(level: Level, id: string, device: string) returns (r: Attempt<bool>)
      modifies this`errors
      ensures r.Done? ==> errors == Added(old(errors), level, id, device, limit)
      ensures r.Done? ==> r.result == HasRoom(old(errors), level, device, limit)
      ensures r.Done? ==> r.result == (|ErrorsOf(old(errors), device).Of(level)| < limit)
      ensures r.Cut? ==> errors == old(errors) || errors == WithMapping(old(errors), device)
    {
      AddedAfterMapping(errors, level, id, device, limit);
      hide Added, WithMapping, HasRoom;
      var ok := Allocate();
      if !ok {
        return Cut;
      }
      ok := EnsureMappingPresent(device);
      if !ok {
        return Cut;
      }
      if |errors[device].Of(level)| >= limit {
        return Done(false);
      }
      ok := Allocate();
      if !ok {
        return Cut;
      }
      ok := Allocate();
      if !ok {
        return Cut;
      }
      errors := errors[device := errors[device].Plus(level, id)];
      return Done(true);
    }

    method RemoveUnchecked(id: string, device: string) returns (r: Attempt<bool>)
      modifies this`errors
      ensures errors == if r.Done? then Removed(old(errors), id, device) else old(errors)
      ensures r.Done? ==> r.result == ErrorsOf(old(errors), device).Has(id)
    {
      var ok := Allocate();
      if !ok {
        return Cut;
      }
      if device !in errors {
        return Done(false);
      }
      ok := Allocate();
      if !ok {
        return Cut;
      }
      var e := errors[device];
      errors := errors[device := e.Minus(id)];
      return Done(e.Has(id));
    }

    method CountUnchecked(level: Level, device: string) returns (r: Attempt<nat>)
      ensures r.Done? ==> r.result == |ErrorsOf(errors, device).Of(level)|
    {
      var ok := Allocate();
      if !ok {
        return Cut;
      }
      return Done(if device in errors then |errors[device].Of(level)| else 0);
    }

    method GrowRegion() returns (r: GrowResult)
      modifies this`size
      ensures r.Refused? <==> old(size) + increment > maximum
      ensures r.Refused? ==> size == old(size)
      ensures r.Grown? ==> size == old(size) + increment
      ensures old(size) <= maximum ==> size <= maximum
    {
      var newSize := size + increment;
      if newSize > maximum {
        return Refused;
      }
      var grows: bool := *;
      if !grows {
        return Threw;
      }
      size := newSize;
      var reopens: bool := *;
      if !reopens {
        return Threw;
      }
      return Grown;
    }

    /** Cut short once, the file is made larger and the whole operation repeated: the
        outcome is that of one clean run. Cut short for good, no error is changed. */
    method AddError(level: Level, id: string, device: string) returns (r: Attempt<bool>)
      modifies this`errors, this`size
      ensures r.Done? ==> errors == Added(old(errors), level, id, device, limit)
      ensures r.Done? ==> r.result == HasRoom(old(errors), level, device, limit)
      ensures r.Done? ==> r.result == (|ErrorsOf(old(errors), device).Of(level)| < limit)
      ensures r.Cut? ==> errors == old(errors) || errors == WithMapping(old(errors), device)
      ensures old(size) <= maximum ==> size <= maximum
    {
      AddedAfterMapping(errors, level, id, device, limit);
      hide Added, WithMapping, HasRoom;
      r := AddUnchecked(level, id, device);
      if r.Cut? {
        var grown := GrowRegion();
        if grown.Threw? {
          return Cut;
        }
        r := AddUnchecked(level, id, device);
      }
    }

    method RemoveError(id: string, device: string) returns (r: Attempt<bool>)
      modifies this`errors, this`size
      ensures errors == if r.Done? then Removed(old(errors), id, device) else old(errors)
      ensures r.Done? ==> r.result == ErrorsOf(old(errors), device).Has(id)
      ensures old(size) <= maximum ==> size <= maximum
    {
      r := RemoveUnchecked(id, device);
      if r.Cut? {
        var grown := GrowRegion();
        if grown.Threw? {
          return Cut;
        }
        r := RemoveUnchecked(id, device);
      }
    }

    method CountErrors(level: Level, device: string) returns (r: Attempt<nat>)
      modifies this`size
      ensures r.Done? ==> r.result == |ErrorsOf(errors, device).Of(level)|
      ensures old(size) <= maximum ==> size <= maximum
    {
      r := CountUnchecked(level, device);
      if r.Cut? {
        var grown := GrowRegion();
        if grown.Threw? {
          return Cut;
        }
        r := CountUnchecked(level, device);
      }
    }
  }

  // ----------------------------------------------------------------------- writes

  /** What happens to one write of the health property of an object: it is carried
      out, or an exception comes before the call, or out of the call. */
  datatype Write = Applied | ThrownBefore | ThrownInCall(applied: bool)

  /** `setDbusProperty`: an exception out of the call leaves the result true. */
  predicate Reported(w: Write) {
    !w.ThrownBefore?
  }

  predicate AllReported(ws: Writes) {
    ws != [] && forall i :: 0 <= i < |ws| ==> Reported(ws[i])
  }

  predicate TookEffect(w: Write) {
    w.Applied? || (w.ThrownInCall? && w.applied)
  }

  /** The writes for the objects of a device, none if it has none or the look-up fails. */
  type Writes = seq<Write>

  /** Success is reported although not every object shows the new health. */
  predicate Silent(ws: Writes) {
    AllReported(ws) && exists i :: 0 <= i < |ws| && !TookEffect(ws[i])
  }

  // -------------------------------------------------------------------- messages

  /** A message about a new log entry. */
  datatype Message = Message(
    hasLogEntry: bool,
    severity: Option<string>,
    eventId: Option<string>,
    resolved: Option<bool>,
    additionalData: Option<seq<string>>)

  datatype Config = Config(maxErrorIdLength: nat, deassertion: bool)

  datatype Request = Ignored | Assert(level: Level, id: string, device: string) | Resolve(id: string, device: string)

  function IndexOf(s: string, c: char): (i: nat)
    ensures i <= |s| && (i < |s| ==> s[i] == c) && forall k :: 0 <= k < i ==> s[k] != c
  {
    if s == "" || s[0] == c then 0 else 1 + IndexOf(s[1..], c)
  }

  predicate NamesDevice(item: string) {
    var eq := IndexOf(item, '=');
    eq + 1 < |item| && item[..eq] == "DEVICE_NAME"
  }

  /** The value of the first item that names a device. */
  function DeviceName(items: seq<string>): string {
    if items == [] then ""
    else if NamesDevice(items[0]) then items[0][IndexOf(items[0], '=') + 1..]
    else DeviceName(items[1..])
  }

  method FindDeviceName(items: seq<string>) returns (deviceName: string)
    ensures deviceName == DeviceName(items)
  {
    deviceName := "";
    assert items[0..] == items;
    for i := 0 to |items|
      invariant deviceName == "" && DeviceName(items) == DeviceName(items[i..])
    {
      assert items[i..][1..] == items[i + 1..];
      var eqPos := IndexOf(items[i], '=');
      if eqPos + 1 < |items[i]| {
        var key := items[i][..eqPos];
        if key == "DEVICE_NAME" {
          return items[i][eqPos + 1..];
        }
      }
    }
  }

  /** A device name is found exactly when an item `DEVICE_NAME=value` has a value. */
  lemma {:induction false} DeviceNameFound(items: seq<string>)
    ensures DeviceName(items) != "" <==> exists i :: 0 <= i < |items| && NamesDevice(items[i])
    ensures forall i :: 0 <= i < |items| && NamesDevice(items[i]) && (forall k :: 0 <= k < i ==> !NamesDevice(items[k]))
              ==> items[i] == "DEVICE_NAME" + "=" + DeviceName(items)
  {
    if items != [] {
      DeviceNameFound(items[1..]);
      if NamesDevice(items[0]) {
        NamedItem(items[0]);
      }
      hide IndexOf, NamesDevice;
      assert forall i :: 0 < i < |items| ==> items[i] == items[1..][i - 1];
    }
  }

  lemma NamedItem(item: string)
    requires NamesDevice(item)
    ensures item[IndexOf(item, '=') + 1..] != ""
    ensures item == "DEVICE_NAME" + "=" + item[IndexOf(item, '=') + 1..]
  {
    var eq := IndexOf(item, '=');
    assert item == item[..eq] + [item[eq]] + item[eq + 1..];
  }

  /** What a message asks for. */
  function Decode(msg: Message, config: Config): Request {
    var device := match msg.additionalData case Some(items) => DeviceName(items) case None => "";
    if !msg.hasLogEntry || msg.severity.None? || msg.eventId.None? || msg.resolved.None? then Ignored
    else if msg.severity.value == "" || msg.eventId.value == "" || device == "" then Ignored
    else if |msg.eventId.value| > config.maxErrorIdLength then Ignored
    else if msg.resolved.value then
      if config.deassertion then Resolve(msg.eventId.value, device) else Ignored
    else if msg.severity.value == "xyz.openbmc_project.Logging.Entry.Level.Critical" then
      Assert(CriticalLevel, msg.eventId.value, device)
    else if msg.severity.value == "xyz.openbmc_project.Logging.Entry.Level.Warning" then
      Assert(WarningLevel, msg.eventId.value, device)
    else Ignored
  }

  /** What a request does to the error map. */
  function Effect(m: ErrorMap, request: Request, limit: nat): ErrorMap {
    match request
    case Ignored => m
    case Assert(level, id, device) => Added(m, level, id, device, limit)
    case Resolve(id, device) => Removed(m, id, device)
  }

  function Concerned(request: Request): set<string> {
    match request
    case Ignored => {}
    case Assert(_, _, device) => {device}
    case Resolve(_, device) => {device}
  }

  /** A request that finds no room. */
  predicate Refuses(m: ErrorMap, request: Request, limit: nat) {
    request.Assert? && !HasRoom(m, request.level, request.device, limit)
  }

  // ----------------------------------------------------------------- the service

  /** A device that is due for another try, shows its health, or whose last write failed
      without being reported. */
  ghost predicate SettledIn(m: ErrorMap, deferred: set<string>, shown: map<string, Health>, misled: set<string>,
                            device: string)
  {
    device in deferred || (device in shown && shown[device] == HealthOf(m, device)) || device in misled
  }

  ghost predicate TrackedIn(m: ErrorMap, deferred: set<string>, shown: map<string, Health>, misled: set<string>,
                            dropped: set<string>)
  {
    forall d :: d in m ==> SettledIn(m, deferred, shown, misled, d) || d in dropped
  }

  lemma AllSettledTracked(m: ErrorMap, deferred: set<string>, shown: map<string, Health>, misled: set<string>)
    requires forall d :: d in m ==> SettledIn(m, deferred, shown, misled, d)
    ensures TrackedIn(m, deferred, shown, misled, {})
  {
  }

  /** A refused request leaves a new device untracked, and that at limit 0 only. */
  lemma RefusalTracked(m: ErrorMap, level: Level, id: string, device: string, limit: nat,
                       deferred: set<string>, shown: map<string, Health>, misled: set<string>, dropped: set<string>)
    requires Bounded(m, limit) && !HasRoom(m, level, device, limit)
    ensures
      var n := Added(m, level, id, device, limit);
      && (TrackedIn(m, deferred, shown, misled, dropped) ==>
            TrackedIn(n, deferred, shown, misled, dropped + NewlyDropped(m, Assert(level, id, device), limit)))
      && (TrackedIn(m, deferred, shown, misled, {}) && limit > 0 ==> TrackedIn(n, deferred, shown, misled, {}))
      && (TrackedIn(m, deferred, shown, misled, {}) && limit == 0 ==>
            (TrackedIn(n, deferred, shown, misled, {}) <==> SettledIn(m, deferred, shown, misled, device)))
  {
    NoRoomMeansKnown(m, level, id, device, limit);
    NewlyDroppedIs(m, level, id, device, limit);
    var n := Added(m, level, id, device, limit);
    OthersUnchanged(m, n, device);
    assert HealthOf(n, device) == HealthOf(m, device);
    hide Bounded, HasRoom, HealthOf;
    forall d ensures SettledIn(n, deferred, shown, misled, d) <==> SettledIn(m, deferred, shown, misled, d) {
    }
    assert forall d :: d in n <==> d in m || d == device;
  }

  /** An updated device is tracked, and the others as before. */
  lemma UpdateTracked(m: ErrorMap, n: ErrorMap, device: string,
                      deferred: set<string>, shown: map<string, Health>, misled: set<string>,
                      deferred': set<string>, shown': map<string, Health>, misled': set<string>, dropped: set<string>)
    requires forall d :: d in n ==> d in m || d == device
    requires forall d :: d != device ==> HealthOf(m, d) == HealthOf(n, d)
    requires SettledIn(n, deferred', shown', misled', device)
    requires forall d :: d != device ==>
      (SettledIn(n, deferred', shown', misled', d) <==> SettledIn(n, deferred, shown, misled, d))
    ensures TrackedIn(m, deferred, shown, misled, dropped) ==>
      TrackedIn(n, deferred', shown', misled', dropped - {device})
  {
    hide HealthOf;
    forall d | d != device
      ensures SettledIn(n, deferred, shown, misled, d) <==> SettledIn(m, deferred, shown, misled, d)
    {
    }
  }

  class Service {
    const files: TmpFileManager
    const config: Config
    var deferred: set<string>
    var timerEnabled: bool
    var alive: bool
    /** The health that all objects of a device are known to show. */
    var shown: map<string, Health>
    /** The devices whose last write failed without being reported. */
    ghost var misled: set<string>
    /** The devices that entered the error map without an update in this process. */
    ghost var dropped: set<string>

    constructor (files: TmpFileManager, config: Config)
      ensures this.files == files && this.config == config && !alive
      ensures deferred == {} && shown == map[] && misled == {} && dropped == {}
    {
      this.files, this.config := files, config;
      deferred, timerEnabled, alive, shown, misled, dropped := {}, false, false, map[], {}, {};
    }

    ghost predicate Shows(device: string)
      reads this, files
    {
      device in shown && shown[device] == HealthOf(files.errors, device)
    }

    ghost predicate Settled(device: string)
      reads this, files
    {
      SettledIn(files.errors, deferred, shown, misled, device)
    }

    /** Every known device shows its health or is due for another try, unless its last
        write failed without being reported; and there is a timer for the tries. */
    ghost predicate Consistent()
      reads this, files
    {
      TrackedIn(files.errors, deferred, shown, misled, {}) && (deferred != {} ==> timerEnabled)
    }

    /** The same but for the devices that entered the map without an update. */
    ghost predicate Tracked()
      reads this, files
    {
      TrackedIn(files.errors, deferred, shown, misled, dropped) && (deferred != {} ==> timerEnabled)
    }

    ghost predicate Within()
      reads files
    {
      Bounded(files.errors, files.limit) && files.size <= files.maximum
    }

    method ComputeHealth(device: string) returns (r: Attempt<Health>)
      modifies files`size
      ensures r.Done? ==> r.result == HealthOf(files.errors, device)
      ensures old(files.size) <= files.maximum ==> files.size <= files.maximum
    {
      var criticals := files.CountErrors(CriticalLevel, device);
      if criticals.Cut? {
        return Cut;
      }
      if criticals.result > 0 {
        return Done(Critical);
      }
      var warnings := files.CountErrors(WarningLevel, device);
      if warnings.Cut? {
        return Cut;
      }
      return Done(if warnings.result > 0 then Warning else OK);
    }

    method SetDeviceHealth(device: string, health: Health, ws: Writes) returns (reported: bool)
      modifies this`shown, this`misled
      ensures reported <==> AllReported(ws)
      ensures reported <==> ws != [] && ThrownBefore !in ws
      ensures shown == if ws != [] && (forall i :: 0 <= i < |ws| ==> ws[i] == Applied || ws[i] == ThrownInCall(true))
                       then old(shown)[device := health] else old(shown) - {device}
      ensures misled == if Silent(ws) then old(misled) + {device} else old(misled) - {device}
    {
      ThrowingCallIsSilent(ws);
      misled := if Silent(ws) then misled + {device} else misled - {device};
      reported := ws != [];
      var effective := ws != [];
      for i := 0 to |ws|
        invariant reported <==> ws != [] && forall k :: 0 <= k < i ==> Reported(ws[k])
        invariant effective <==> ws != [] && forall k :: 0 <= k < i ==> TookEffect(ws[k])
      {
        reported := reported && Reported(ws[i]);
        effective := effective && TookEffect(ws[i]);
      }
      shown := if effective then shown[device := health] else shown - {device};
    }

    method AddDeferred(device: string)
      modifies this`deferred, this`timerEnabled
      ensures deferred == old(deferred) + {device} && timerEnabled
    {
      deferred := deferred + {device};
      if !timerEnabled {
        timerEnabled := true;
      }
    }

    /** After an update the device shows its health or is deferred, exactly unless a
        failed write was reported as a success. */
    method UpdateDeviceHealth(device: string, ws: Writes)
      requires alive
      modifies this`deferred, this`timerEnabled, this`alive, this`shown, this`misled, files`size
      ensures deferred == old(deferred) + if alive && !AllReported(ws) then {device} else {}
      ensures timerEnabled == (old(timerEnabled) || (alive && !AllReported(ws)))
      ensures alive ==> (Shows(device) || device in deferred <==> !Silent(ws) || device in old(deferred))
      ensures alive ==> misled == if Silent(ws) then old(misled) + {device} else old(misled) - {device}
      ensures !Silent(ws) ==> misled <= old(misled)
      ensures !alive ==> misled == old(misled)
      ensures forall d :: d != device ==> (Shows(d) <==> old(Shows(d))) && (d in shown <==> d in old(shown))
      ensures forall d :: d != device ==> (Settled(d) <==> old(Settled(d)))
      ensures alive ==> Settled(device)
      ensures forall d :: d != device ==> (d in misled <==> d in old(misled))
      ensures old(files.size) <= files.maximum ==> files.size <= files.maximum
    {
      var health := ComputeHealth(device);
      if health.Cut? {
        alive := false;
        return;
      }
      var reported := SetDeviceHealth(device, health.result, ws);
      if !reported {
        AddDeferred(device);
      }
    }

    method RetryOne(device: string, ws: Writes)
      requires alive && device in deferred
      modifies this`deferred, this`alive, this`shown, this`misled, files`size
      ensures deferred == if alive && AllReported(ws) then old(deferred) - {device} else old(deferred)
      ensures alive && device !in deferred ==> (Shows(device) <==> !Silent(ws))
      ensures alive ==> misled == if Silent(ws) then old(misled) + {device} else old(misled) - {device}
      ensures !Silent(ws) ==> misled <= old(misled)
      ensures forall d :: d != device ==> (Shows(d) <==> old(Shows(d)))
      ensures forall d :: d != device && alive ==> (Settled(d) <==> old(Settled(d)))
      ensures alive ==> Settled(device)
      ensures old(files.size) <= files.maximum ==> files.size <= files.maximum
    {
      var health := ComputeHealth(device);
      if health.Cut? {
        alive := false;
        return;
      }
      var reported := SetDeviceHealth(device, health.result, ws);
      if reported {
        deferred := deferred - {device};
      }
    }

    /** A timer tick. With no failing write it settles everything there is to settle. */
    method RetryDeferred(ws: string -> Writes)
      requires alive && Tracked() && Within()
      modifies this, files`size
      ensures Within()
      ensures alive ==> Tracked() && (old(Consistent()) ==> Consistent())
      ensures alive ==> forall d :: old(Settled(d)) ==> Settled(d)
      ensures dropped == old(dropped)
      ensures alive ==> timerEnabled == (old(timerEnabled) && deferred != {})
      ensures alive ==> deferred == set d | d in old(deferred) && !AllReported(ws(d))
      ensures alive ==> forall d :: d in old(deferred) && d !in deferred ==> (Shows(d) <==> !Silent(ws(d)))
      ensures alive ==> forall d :: (d in misled <==> if d in old(deferred) then Silent(ws(d)) else d in old(misled))
      ensures (forall d :: !Silent(ws(d))) ==> misled <= old(misled)
    {
      hide Silent, HealthOf, Bounded, AllReported;
      var todo := deferred;
      while todo != {}
        invariant alive && Within() && todo <= deferred <= old(deferred) && timerEnabled == old(timerEnabled)
        invariant forall d :: old(Settled(d)) ==> Settled(d)
        invariant dropped == old(dropped)
        invariant forall d :: d in old(deferred) - todo ==> (d in deferred <==> !AllReported(ws(d)))
        invariant forall d :: d in old(deferred) - todo && d !in deferred ==> (Shows(d) <==> !Silent(ws(d)))
        invariant forall d :: (d in misled <==> if d in old(deferred) - todo then Silent(ws(d)) else d in old(misled))
        invariant (forall d :: !Silent(ws(d))) ==> misled <= old(misled)
      {
        var device :| device in todo;
        todo := todo - {device};
        RetryOne(device, ws(device));
        if !alive {
          return;
        }
      }
      forall d | old(Settled(d)) ensures SettledIn(files.errors, deferred, shown, misled, d) {
        assert Settled(d);
      }
      if |deferred| == 0 {
        timerEnabled := false;
      }
    }

    /** A message: validate it, change the error map, update the device. A request that
        finds no room is dropped before the update, which matters only if there is room
        for no error at all. */
    method InterfacesAdded(msg: Message, ws: Writes)
      requires alive && Tracked() && Within()
      modifies this, files
      ensures Within()
      ensures alive ==> files.errors == Effect(old(files.errors), Decode(msg, config), files.limit)
      ensures !alive ==> CutEffect(old(files.errors), files.errors, Decode(msg, config), files.limit)
      ensures alive ==> Tracked()
      ensures alive && old(Consistent()) && !(files.limit == 0 && Decode(msg, config).Assert?) ==> Consistent()
      ensures alive && old(Consistent()) && files.limit == 0 && Decode(msg, config).Assert? ==>
        (Consistent() <==> old(Settled(Decode(msg, config).device)))
      ensures dropped <= old(dropped) + NewlyDropped(old(files.errors), Decode(msg, config), files.limit)
      ensures alive && Refuses(old(files.errors), Decode(msg, config), files.limit) ==>
        deferred == old(deferred) && timerEnabled == old(timerEnabled) && shown == old(shown) && misled == old(misled)
      ensures !Silent(ws) ==> misled <= old(misled)
      ensures misled <= old(misled) + if alive then Concerned(Decode(msg, config)) else {}
    {
      hide Silent, HealthOf, Bounded, Added, Removed;
      if !msg.hasLogEntry {
        return;
      }
      if msg.severity.None? || msg.severity.value == "" {
        return;
      }
      if msg.eventId.None? || msg.eventId.value == "" {
        return;
      }
      if |msg.eventId.value| > config.maxErrorIdLength {
        return;
      }
      if msg.resolved.None? {
        return;
      }
      if msg.additionalData.None? {
        return;
      }
      var deviceName := FindDeviceName(msg.additionalData.value);
      if deviceName == "" {
        return;
      }
      if msg.resolved.value {
        if !config.deassertion {
          return;
        }
        ResolveError(msg.eventId.value, deviceName, ws);
      } else if msg.severity.value == "xyz.openbmc_project.Logging.Entry.Level.Critical" {
        AssertError(CriticalLevel, msg.eventId.value, deviceName, ws);
      } else if msg.severity.value == "xyz.openbmc_project.Logging.Entry.Level.Warning" {
        AssertError(WarningLevel, msg.eventId.value, deviceName, ws);
      }
    }

    method ResolveError(id: string, device: string, ws: Writes)
      requires alive && Tracked() && Within()
      modifies this, files
      ensures Within()
      ensures alive ==> files.errors == Removed(old(files.errors), id, device)
      ensures alive ==> Tracked() && (old(Consistent()) ==> Consistent())
      ensures dropped <= old(dropped)
      ensures !alive ==> files.errors == old(files.errors) || files.errors == Removed(old(files.errors), id, device)
      ensures !Silent(ws) ==> misled <= old(misled)
      ensures misled <= old(misled) + if alive then {device} else {}
    {
      ghost var m := files.errors;
      RemovedIsBounded(m, id, device, files.limit);
      OthersUnchanged(m, Removed(m, id, device), device);
      assert forall d :: d in Removed(m, id, device) ==> d in m;
      hide Silent, HealthOf, Bounded, Removed, TrackedIn, SettledIn;
      var removed := files.RemoveError(id, device);
      if removed.Cut? {
        alive := false;
        return;
      }
      UpdateAfter(m, device, ws);
    }

    /** The update after the errors of the device have changed. */
    method UpdateAfter(ghost m: ErrorMap, device: string, ws: Writes)
      requires alive && Within() && (deferred != {} ==> timerEnabled)
      requires forall d :: d in files.errors ==> d in m || d == device
      requires forall d :: d != device ==> HealthOf(m, d) == HealthOf(files.errors, d)
      modifies this, files`size
      ensures Within() && (deferred != {} ==> timerEnabled) && dropped <= old(dropped)
      ensures alive && TrackedIn(m, old(deferred), old(shown), old(misled), old(dropped)) ==> Tracked()
      ensures alive && TrackedIn(m, old(deferred), old(shown), old(misled), {}) ==> Consistent()
      ensures !Silent(ws) ==> misled <= old(misled)
      ensures misled <= old(misled) + if alive then {device} else {}
    {
      hide Silent, HealthOf, Bounded, AllReported, TrackedIn, SettledIn;
      UpdateDeviceHealth(device, ws);
      if alive {
        ghost var n := files.errors;
        forall d | d != device
          ensures SettledIn(n, deferred, shown, misled, d) <==> SettledIn(n, old(deferred), old(shown), old(misled), d)
        {
          assert Settled(d) <==> old(Settled(d));
        }
        UpdateTracked(m, n, device, old(deferred), old(shown), old(misled), deferred, shown, misled, old(dropped));
        UpdateTracked(m, n, device, old(deferred), old(shown), old(misled), deferred, shown, misled, {});
        dropped := dropped - {device};
        assert {} - {device} == {};
      }
    }

    method AssertError(level: Level, id: string, device: string, ws: Writes)
      requires alive && Tracked() && Within()
      modifies this, files
      ensures Within()
      ensures alive ==> files.errors == Added(old(files.errors), level, id, device, files.limit)
      ensures !alive ==> CutEffect(old(files.errors), files.errors, Assert(level, id, device), files.limit)
      ensures alive ==> Tracked()
      ensures alive && old(Consistent()) && files.limit > 0 ==> Consistent()
      ensures alive && old(Consistent()) && files.limit == 0 ==> (Consistent() <==> old(Settled(device)))
      ensures dropped <= old(dropped) + NewlyDropped(old(files.errors), Assert(level, id, device), files.limit)
      ensures alive && Refuses(old(files.errors), Assert(level, id, device), files.limit) ==>
        deferred == old(deferred) && timerEnabled == old(timerEnabled) && shown == old(shown) && misled == old(misled)
      ensures !Silent(ws) ==> misled <= old(misled)
      ensures misled <= old(misled) + if alive then {device} else {}
    {
      ghost var m, n := files.errors, Added(files.errors, level, id, device, files.limit);
      AddedIsBounded(m, level, id, device, files.limit);
      OthersUnchanged(m, n, device);
      AddMayBeCut(m, level, id, device, files.limit);
      if !HasRoom(m, level, device, files.limit) {
        RefusalTracked(m, level, id, device, files.limit, deferred, shown, misled, dropped);
      }
      NewlyDroppedIs(m, level, id, device, files.limit);
      OnlyDeviceIsNew(m, level, id, device, files.limit);
      hide Silent, HealthOf, Bounded, Added, HasRoom, WithMapping, CutEffect, Refuses, AllReported, ErrorsOf;
      hide TrackedIn, SettledIn, NewlyDropped;
      var added := files.AddError(level, id, device);
      if added.Cut? {
        alive := false;
        return;
      }
      if !added.result {
        dropped := dropped + NewlyDropped(m, Assert(level, id, device), files.limit);
        return;
      }
      UpdateAfter(m, device, ws);
    }

    /** A new process: the deferred set is gone, the error map and the objects are not. */
    method Startup(ws: string -> Writes)
      requires Within()
      modifies this, files`size
      ensures Within() && (alive ==> Consistent()) && dropped == {}
      ensures (forall d :: !Silent(ws(d))) ==> misled <= old(misled)
      ensures alive ==> forall d :: d in files.errors ==> (d in misled <==> Silent(ws(d)))
      ensures alive ==> deferred == set d | d in files.errors && !AllReported(ws(d))
      ensures forall d :: d !in files.errors ==>
        (d in shown <==> d in old(shown)) && (d in misled <==> d in old(misled))
    {
      hide Silent, HealthOf, Bounded, AllReported, SettledIn, TrackedIn;
      deferred, dropped := {}, {};
      timerEnabled := *;
      alive := true;
      var todo := files.errors.Keys;
      while todo != {}
        invariant alive && Within() && todo <= files.errors.Keys && (deferred != {} ==> timerEnabled) && dropped == {}
        invariant forall d :: d in files.errors && d !in todo ==> Settled(d)
        invariant forall d :: d in files.errors && d !in todo ==> (d in misled <==> Silent(ws(d)))
        invariant forall d :: (d in deferred <==> d in files.errors && d !in todo && !AllReported(ws(d)))
        invariant forall d :: (d !in files.errors || d in todo ==> (d in misled <==> d in old(misled)))
        invariant forall d :: (d !in files.errors ==> (d in shown <==> d in old(shown)))
      {
        var device :| device in todo;
        todo := todo - {device};
        UpdateDeviceHealth(device, ws(device));
        if !alive {
          return;
        }
      }
      forall d | d in files.errors ensures SettledIn(files.errors, deferred, shown, misled, d) {
        assert Settled(d);
      }
      AllSettledTracked(files.errors, deferred, shown, misled);
    }

    /** One event: a message or a tick to a process that is up, or a restart. */
    method Handle(e: Event) returns (ghost fate: Fate)
      requires Within() && (alive ==> Tracked())
      modifies this, files
      ensures Within() && (alive ==> Tracked())
      ensures files.limit > 0 && (old(alive) ==> old(Consistent())) && alive ==> Consistent()
      ensures NoSilence(e) ==> misled <= old(misled)
      ensures Passage(e, old(alive), alive, fate)
      ensures files.errors == FateEffect(old(files.errors), RequestOf(e, config), fate, files.limit)
      ensures DropsAtMost(e, old(dropped), dropped, old(files.errors), config, files.limit)
    {
      hide Silent, Effect, Decode, FateEffect, NewlyDropped, TrackedIn, SettledIn;
      ghost var before := files.errors;
      fate := Took;
      match e {
        case Arrives(msg, ws) =>
          if alive {
            InterfacesAdded(msg, ws);
            fate := FateOf(before, files.errors, Decode(msg, config), files.limit, alive);
          } else {
            fate := Lost;
            LostChangesNothing(before, Decode(msg, config), files.limit);
          }
        case Tick(ws) =>
          if alive && timerEnabled {
            RetryDeferred(ws);
          }
          IgnoredChangesNothing(before, files.limit);
        case Restart(ws) =>
          Startup(ws);
          IgnoredChangesNothing(before, files.limit);
      }
    }

    /** Any sequence of messages, ticks and restarts, with any failures of writes and
        allocations. `up` tells when the process was up and `fates` what became of the
        requests: whenever the process is up it is consistent, also after a callback has
        died; and the error map is the replay of the requests with their fates. */
    method Run(events: seq<Event>) returns (ghost up: seq<bool>, ghost fates: seq<Fate>)
      requires Within() && (alive ==> Tracked())
      modifies this, files
      ensures Within() && (alive ==> Tracked())
      ensures files.limit > 0 && (old(alive) ==> old(Consistent())) && alive ==> Consistent()
      ensures forall d :: d in dropped && d !in old(dropped) ==>
        files.limit == 0 && exists i :: AssertedSince(events, i, d, config)
      ensures (exists i :: 0 <= i < |events| && events[i].Restart?) ==>
        forall d :: d in dropped ==> exists i :: AssertedSince(events, i, d, config)
      ensures AllReportedRightly(events) && old(misled) == {} ==> misled == {}
      ensures AllReportedRightly(events) && old(misled) == {} && alive ==>
        forall d :: d in files.errors ==> d in deferred || Shows(d) || d in dropped
      ensures Course(events, up, fates) && up[0] == old(alive) && up[|events|] == alive
      ensures AllReportedRightly(events) && old(misled) == {} && alive ==>
        forall d :: d in files.errors && d !in deferred && d !in dropped ==>
          d in shown && Tells(shown[d], old(files.errors), Kept(Requests(events, config), fates), d, files.limit)
      ensures files.errors == ReplayFates(old(files.errors), Requests(events, config), fates, files.limit)
    {
      hide FateEffect, ReplayFates, DroppedBy, DropsAtMost, NoSilence, TrackedIn, SettledIn, Passage, Bounded;
      DroppedByNobody(dropped, config, files.limit);
      ghost var rs := Requests(events, config);
      up, fates := [alive], [];
      ReplayNothing(files.errors, files.limit);
      assert rs[..0] == [];
      for i := 0 to |events|
        invariant Within() && (alive ==> Tracked())
        invariant files.limit > 0 && (old(alive) ==> old(Consistent())) && alive ==> Consistent()
        invariant DroppedBy(old(dropped), dropped, events[..i], config, files.limit)
        invariant (forall k :: 0 <= k < i ==> NoSilence(events[k])) && old(misled) == {} ==> misled == {}
        invariant |up| == i + 1 && |fates| == i && up[0] == old(alive) && up[i] == alive
        invariant forall k :: 0 <= k < i ==> Passage(events[k], up[k], up[k + 1], fates[k])
        invariant files.errors == ReplayFates(old(files.errors), rs[..i], fates, files.limit)
      {
        ghost var before, wasDropped := files.errors, dropped;
        ghost var fate := Handle(events[i]);
        DroppedByOneMore(old(dropped), wasDropped, dropped, events, i, config, before, files.limit);
        ReplayOneMoreFate(old(files.errors), rs, i, fates, fate, files.limit);
        up, fates := up + [alive], fates + [fate];
      }
      assert rs[..|events|] == rs && events[..|events|] == events;
      DroppedByMeans(old(dropped), dropped, events, config, files.limit);
      TrackedMeans(files.errors, deferred, shown, dropped);
      forall d ensures Tells(HealthOf(files.errors, d), old(files.errors), Kept(rs, fates), d, files.limit) {
        HealthTells(old(files.errors), rs, fates, d, files.limit);
      }
      hide Tells, HealthOf;
    }
  }

  /** With no failure unreported, what is tracked is due or shows its health. */
  lemma TrackedMeans(m: ErrorMap, deferred: set<string>, shown: map<string, Health>, dropped: set<string>)
    ensures TrackedIn(m, deferred, shown, {}, dropped) ==>
      forall d :: d in m ==> d in deferred || (d in shown && shown[d] == HealthOf(m, d)) || d in dropped
  {
  }

  /** The device that a request makes known without an update: one that is new and finds
      no room. */
  function NewlyDropped(m: ErrorMap, request: Request, limit: nat): set<string> {
    if Refuses(m, request, limit) && request.device !in m then {request.device} else {}
  }

  lemma NewlyDroppedIs(m: ErrorMap, level: Level, id: string, device: string, limit: nat)
    ensures NewlyDropped(m, Assert(level, id, device), limit)
         == if !HasRoom(m, level, device, limit) && device !in m then {device} else {}
    ensures limit > 0 ==> NewlyDropped(m, Assert(level, id, device), limit) == {}
  {
  }

  /** An error of the device was asserted, and there has been no restart since. */
  ghost predicate AssertedSince(events: seq<Event>, i: int, device: string, config: Config) {
    && 0 <= i < |events| && events[i].Arrives?
    && Decode(events[i].msg, config).Assert? && Decode(events[i].msg, config).device == device
    && forall j :: i < j < |events| ==> !events[j].Restart?
  }

  ghost predicate DroppedBy(before: set<string>, after: set<string>, events: seq<Event>, config: Config, limit: nat) {
    forall d :: d in after ==>
      || (d in before && forall i :: 0 <= i < |events| ==> !events[i].Restart?)
      || (limit == 0 && exists i :: AssertedSince(events, i, d, config))
  }

  lemma DroppedByNobody(dropped: set<string>, config: Config, limit: nat)
    ensures DroppedBy(dropped, dropped, [], config, limit)
  {
  }

  lemma DroppedByMeans(before: set<string>, after: set<string>, events: seq<Event>, config: Config, limit: nat)
    requires DroppedBy(before, after, events, config, limit)
    ensures forall d :: d in after && d !in before ==> limit == 0 && exists i :: AssertedSince(events, i, d, config)
    ensures (exists i :: 0 <= i < |events| && events[i].Restart?) ==>
      forall d :: d in after ==> exists i :: AssertedSince(events, i, d, config)
  {
  }

  /** What one event adds to the untracked devices. */
  ghost predicate DropsAtMost(e: Event, now: set<string>, after: set<string>, m: ErrorMap, config: Config, limit: nat) {
    match e
    case Arrives(msg, _) => after <= now + NewlyDropped(m, Decode(msg, config), limit)
    case Tick(_) => after <= now
    case Restart(_) => after == {}
  }

  lemma DroppedByOneMore(before: set<string>, now: set<string>, after: set<string>, events: seq<Event>, n: nat,
                         config: Config, m: ErrorMap, limit: nat)
    requires n < |events| && DroppedBy(before, now, events[..n], config, limit)
    requires DropsAtMost(events[n], now, after, m, config, limit)
    ensures DroppedBy(before, after, events[..n + 1], config, limit)
  {
    hide Decode;
    var more := events[..n + 1];
    forall d | d in after
      ensures (d in before && forall i :: 0 <= i < |more| ==> !more[i].Restart?)
           || (limit == 0 && exists i :: AssertedSince(more, i, d, config))
    {
      if d in now {
        if limit == 0 && exists i :: AssertedSince(events[..n], i, d, config) {
          var i :| AssertedSince(events[..n], i, d, config);
          assert AssertedSince(more, i, d, config);
        }
      } else {
        assert AssertedSince(more, n, d, config);
      }
    }
  }

  datatype Event = Arrives(msg: Message, writes: Writes) | Tick(ws: string -> Writes) | Restart(ws: string -> Writes)

  ghost predicate NoSilence(e: Event) {
    match e
    case Arrives(_, writes) => !Silent(writes)
    case Tick(ws) => forall d :: !Silent(ws(d))
    case Restart(ws) => forall d :: !Silent(ws(d))
  }

  ghost predicate AllReportedRightly(events: seq<Event>) {
    forall i :: 0 <= i < |events| ==> NoSilence(events[i])
  }

  /** What becomes of a request: it takes effect, is lost, or leaves an empty mapping. */
  datatype Fate = Took | Lost | MappingOnly

  function FateEffect(m: ErrorMap, request: Request, fate: Fate, limit: nat): ErrorMap {
    match fate
    case Took => Effect(m, request, limit)
    case Lost => m
    case MappingOnly => if request.Assert? then WithMapping(m, request.device) else m
  }

  /** One event: a process that is down comes up by a restart only, and a request fails
      to take effect only if the process is down afterwards. */
  ghost predicate Passage(e: Event, before: bool, after: bool, fate: Fate) {
    && (after ==> before || e.Restart?)
    && (fate != Took ==> !after && e.Arrives?)
  }

  ghost predicate Course(events: seq<Event>, up: seq<bool>, fates: seq<Fate>) {
    && |up| == |events| + 1 && |fates| == |events|
    && forall i :: 0 <= i < |events| ==> Passage(events[i], up[i], up[i + 1], fates[i])
  }

  /** What may be left of the effect of a request when the process dies over it. */
  ghost predicate CutEffect(before: ErrorMap, after: ErrorMap, request: Request, limit: nat) {
    || after == before
    || after == Effect(before, request, limit)
    || (request.Assert? && after == WithMapping(before, request.device))
  }

  ghost function FateOf(before: ErrorMap, after: ErrorMap, request: Request, limit: nat, alive: bool): (fate: Fate)
    requires CutEffect(before, after, request, limit) && (alive ==> after == Effect(before, request, limit))
    ensures after == FateEffect(before, request, fate, limit) && (alive ==> fate == Took)
  {
    if after == Effect(before, request, limit) then Took else if after == before then Lost else MappingOnly
  }

  lemma LostChangesNothing(m: ErrorMap, request: Request, limit: nat)
    ensures FateEffect(m, request, Lost, limit) == m
  {
  }

  lemma IgnoredChangesNothing(m: ErrorMap, limit: nat)
    ensures FateEffect(m, Ignored, Took, limit) == m
  {
  }

  lemma OnlyDeviceIsNew(m: ErrorMap, level: Level, id: string, device: string, limit: nat)
    ensures forall d :: d in Added(m, level, id, device, limit) ==> d in m || d == device
    ensures limit == 0 ==> !HasRoom(m, level, device, limit)
    ensures HasRoom(m, level, device, limit) ==> NewlyDropped(m, Assert(level, id, device), limit) == {}
  {
  }

  lemma AddMayBeCut(m: ErrorMap, level: Level, id: string, device: string, limit: nat)
    ensures CutEffect(m, m, Assert(level, id, device), limit)
    ensures CutEffect(m, WithMapping(m, device), Assert(level, id, device), limit)
    ensures CutEffect(m, Added(m, level, id, device, limit), Assert(level, id, device), limit)
    ensures Refuses(m, Assert(level, id, device), limit) <==> !HasRoom(m, level, device, limit)
  {
  }

  lemma OthersUnchanged(m: ErrorMap, n: ErrorMap, device: string)
    requires forall d :: d != device ==> (d in m <==> d in n) && (d in m ==> m[d] == n[d])
    ensures forall d :: d != device ==> HealthOf(m, d) == HealthOf(n, d)
  {
  }

  /** Without room the map stays as it is, unless there is no room for anything. */
  lemma NoRoomMeansKnown(m: ErrorMap, level: Level, id: string, device: string, limit: nat)
    requires Bounded(m, limit)
    ensures !HasRoom(m, level, device, limit) && limit > 0 ==> Added(m, level, id, device, limit) == m
    ensures limit == 0 ==> !HasRoom(m, level, device, limit)
    ensures device in Added(m, level, id, device, limit)
  {
  }

  // -------------------------------------------------------------- the error history

  function RequestOf(e: Event, config: Config): Request {
    match e case Arrives(msg, _) => Decode(msg, config) case _ => Ignored
  }

  function Requests(events: seq<Event>, config: Config): seq<Request> {
    seq(|events|, i requires 0 <= i < |events| => RequestOf(events[i], config))
  }

  function Replay(m: ErrorMap, rs: seq<Request>, limit: nat): ErrorMap
    decreases |rs|
  {
    if rs == [] then m else Effect(Replay(m, rs[..|rs| - 1], limit), rs[|rs| - 1], limit)
  }

  /** The replay of requests with their fates. */
  function ReplayFates(m: ErrorMap, rs: seq<Request>, fates: seq<Fate>, limit: nat): ErrorMap
    requires |rs| == |fates|
    decreases |rs|
  {
    if rs == [] then m
    else
      var n := |rs| - 1;
      FateEffect(ReplayFates(m, rs[..n], fates[..n], limit), rs[n], fates[n], limit)
  }

  lemma ReplayNothing(m: ErrorMap, limit: nat)
    ensures ReplayFates(m, [], [], limit) == m
  {
  }

  lemma ReplayOneMoreFate(m: ErrorMap, rs: seq<Request>, i: nat, fates: seq<Fate>, fate: Fate, limit: nat)
    requires i < |rs| && |fates| == i
    ensures ReplayFates(m, rs[..i + 1], fates + [fate], limit)
         == FateEffect(ReplayFates(m, rs[..i], fates, limit), rs[i], fate, limit)
  {
    assert rs[..i + 1][..i] == rs[..i] && (fates + [fate])[..i] == fates;
  }

  /** The requests that took effect, the others passed over. */
  function Kept(rs: seq<Request>, fates: seq<Fate>): seq<Request>
    requires |rs| == |fates|
  {
    seq(|rs|, i requires 0 <= i < |rs| => if fates[i].Took? then rs[i] else Ignored)
  }

  ghost predicate SameErrors(m: ErrorMap, n: ErrorMap) {
    forall d :: ErrorsOf(m, d) == ErrorsOf(n, d)
  }

  /** However often the process dies, the active errors are those of the requests that
      took effect; if none was lost, the whole map is. */
  lemma {:induction false} FatesAreReplay(m: ErrorMap, rs: seq<Request>, fates: seq<Fate>, limit: nat)
    requires |rs| == |fates|
    ensures SameErrors(ReplayFates(m, rs, fates, limit), Replay(m, Kept(rs, fates), limit))
    ensures (forall i :: 0 <= i < |fates| ==> fates[i].Took?) ==>
      ReplayFates(m, rs, fates, limit) == Replay(m, rs, limit)
    decreases |rs|
  {
    hide Effect, SameErrors;
    if rs != [] {
      var n := |rs| - 1;
      FatesAreReplay(m, rs[..n], fates[..n], limit);
      assert Kept(rs, fates)[..n] == Kept(rs[..n], fates[..n]);
      SameErrorsAfter(ReplayFates(m, rs[..n], fates[..n], limit), Replay(m, Kept(rs[..n], fates[..n]), limit),
                      rs[n], fates[n], limit);
    } else {
      SameErrorsReflexive(m);
    }
  }

  lemma SameErrorsReflexive(m: ErrorMap)
    ensures SameErrors(m, m)
  {
  }

  lemma SameErrorsAfter(m: ErrorMap, n: ErrorMap, r: Request, fate: Fate, limit: nat)
    requires SameErrors(m, n)
    ensures SameErrors(FateEffect(m, r, fate, limit), Effect(n, if fate.Took? then r else Ignored, limit))
  {
    hide Effect;
    var k := if fate.Took? then r else Ignored;
    forall d ensures ErrorsOf(FateEffect(m, r, fate, limit), d) == ErrorsOf(Effect(n, k, limit), d) {
      ErrorsAfter(m, r, d, limit);
      ErrorsAfter(n, k, d, limit);
    }
  }

  /** A request that records the error, given what went before. */
  ghost predicate Records(m: ErrorMap, rs: seq<Request>, k: nat, level: Level, id: string, device: string, limit: nat)
    requires k < |rs|
  {
    rs[k] == Assert(level, id, device) && HasRoom(Replay(m, rs[..k], limit), level, device, limit)
  }

  ghost predicate Unresolved(rs: seq<Request>, from: nat, id: string, device: string) {
    forall j :: from <= j < |rs| ==> rs[j] != Resolve(id, device)
  }

  ghost predicate Active(m: ErrorMap, level: Level, id: string, device: string) {
    id in ErrorsOf(m, device).Of(level)
  }

  lemma ErrorsAfter(m: ErrorMap, r: Request, device: string, limit: nat)
    ensures ErrorsOf(Effect(m, r, limit), device)
         == if r.Assert? && r.device == device && HasRoom(m, r.level, device, limit)
            then ErrorsOf(m, device).Plus(r.level, r.id)
            else if r.Resolve? && r.device == device then ErrorsOf(m, device).Minus(r.id)
            else ErrorsOf(m, device)
  {
    hide HasRoom;
  }

  lemma EffectOnError(m: ErrorMap, r: Request, level: Level, id: string, device: string, limit: nat)
    ensures Active(Effect(m, r, limit), level, id, device) <==>
      || (r == Assert(level, id, device) && HasRoom(m, level, device, limit))
      || (Active(m, level, id, device) && r != Resolve(id, device))
  {
    ErrorsAfter(m, r, device, limit);
    hide Effect, HasRoom, ErrorsOf;
  }

  /** An error is active exactly if some request recorded it, or it was active at first,
      and no later request resolved it. */
  lemma {:induction false} ActiveIff(m: ErrorMap, rs: seq<Request>, level: Level, id: string, device: string,
                                     limit: nat)
    ensures Active(Replay(m, rs, limit), level, id, device) <==>
      || (Active(m, level, id, device) && Unresolved(rs, 0, id, device))
      || (exists k: nat :: k < |rs| && Records(m, rs, k, level, id, device, limit) && Unresolved(rs, k + 1, id, device))
    decreases |rs|
  {
    if rs != [] {
      hide Active, Effect, HasRoom;
      var n := |rs| - 1;
      var front := rs[..n];
      ActiveIff(m, front, level, id, device, limit);
      EffectOnError(Replay(m, front, limit), rs[n], level, id, device, limit);
      assert rs == front + [rs[n]];
      forall k: nat | k < n
        ensures Records(m, rs, k, level, id, device, limit) <==> Records(m, front, k, level, id, device, limit)
      {
        assert rs[..k] == front[..k];
      }
      forall k: nat | k <= n
        ensures Unresolved(rs, k, id, device) <==> Unresolved(front, k, id, device) && rs[n] != Resolve(id, device)
      {
        StillUnresolved(rs, n, k, id, device);
      }
      assert Unresolved(rs, n + 1, id, device);
      assert Records(m, rs, n, level, id, device, limit) <==>
        rs[n] == Assert(level, id, device) && HasRoom(Replay(m, front, limit), level, device, limit);
    }
  }

  lemma StillUnresolved(rs: seq<Request>, n: nat, k: nat, id: string, device: string)
    requires |rs| == n + 1 && k <= n
    ensures Unresolved(rs, k, id, device) <==> Unresolved(rs[..n], k, id, device) && rs[n] != Resolve(id, device)
  {
  }

  /** A write that throws out of the call and is not carried out: nothing is reported,
      so the device is neither up to date nor tried again. */
  lemma ThrowingCallIsSilent(ws: Writes)
    ensures AllReported(ws) <==> ws != [] && ThrownBefore !in ws
    ensures Silent(ws) <==> ThrownInCall(false) in ws && ThrownBefore !in ws
  {
    if ThrownInCall(false) in ws && ThrownBefore !in ws {
      var i :| 0 <= i < |ws| && ws[i] == ThrownInCall(false);
      assert !TookEffect(ws[i]);
    }
  }

  // ------------------------------------------------------- what the messages amount to

  /** An error is active after some requests. */
  ghost predicate ActiveAfter(m: ErrorMap, rs: seq<Request>, level: Level, id: string, device: string, limit: nat) {
    || (Active(m, level, id, device) && Unresolved(rs, 0, id, device))
    || (exists k: nat :: k < |rs| && Records(m, rs, k, level, id, device, limit) && Unresolved(rs, k + 1, id, device))
  }

  /** A health tells which errors are active after some requests. */
  ghost predicate Tells(h: Health, m: ErrorMap, rs: seq<Request>, device: string, limit: nat) {
    match h
    case Critical => exists id :: ActiveAfter(m, rs, CriticalLevel, id, device, limit)
    case Warning =>
      && (forall id :: !ActiveAfter(m, rs, CriticalLevel, id, device, limit))
      && exists id :: ActiveAfter(m, rs, WarningLevel, id, device, limit)
    case OK => forall id, level :: !ActiveAfter(m, rs, level, id, device, limit)
  }

  /** The health of a device: critical exactly if it has an active critical error, a warning
      exactly if it has none but an active warning, and otherwise fine. */
  lemma HealthMeans(m: ErrorMap, device: string)
    ensures HealthOf(m, device) == Critical <==> exists id :: Active(m, CriticalLevel, id, device)
    ensures HealthOf(m, device) == Warning <==>
      (forall id :: !Active(m, CriticalLevel, id, device)) && exists id :: Active(m, WarningLevel, id, device)
    ensures HealthOf(m, device) == OK <==> forall id, level :: !Active(m, level, id, device)
  {
    var e := ErrorsOf(m, device);
    if e.critical != {} {
      var id :| id in e.critical;
      assert Active(m, CriticalLevel, id, device);
    }
    if e.warning != {} {
      var id :| id in e.warning;
      assert Active(m, WarningLevel, id, device);
    }
    assert forall id :: Active(m, CriticalLevel, id, device) ==> id in e.critical;
    assert forall id :: Active(m, WarningLevel, id, device) ==> id in e.warning;
  }

  /** So the health after some requests tells what they amount to. */
  lemma HealthTells(m: ErrorMap, rs: seq<Request>, fates: seq<Fate>, device: string, limit: nat)
    requires |rs| == |fates|
    ensures Tells(HealthOf(ReplayFates(m, rs, fates, limit), device), m, Kept(rs, fates), device, limit)
  {
    var kept := Kept(rs, fates);
    var n := ReplayFates(m, rs, fates, limit);
    FatesAreReplay(m, rs, fates, limit);
    HealthMeans(n, device);
    SameErrorsActive(n, Replay(m, kept, limit), device);
    forall level, id ensures Active(n, level, id, device) <==> ActiveAfter(m, kept, level, id, device, limit) {
      ActiveIff(m, kept, level, id, device, limit);
    }
    hide HealthOf, Active, ActiveAfter, ReplayFates, Replay, SameErrors;
  }

  lemma SameErrorsActive(m: ErrorMap, n: ErrorMap, device: string)
    requires SameErrors(m, n)
    ensures forall level, id :: Active(m, level, id, device) <==> Active(n, level, id, device)
  {
  }

  /** What a message asks for, in terms of its fields. */
  lemma DecodeMeans(msg: Message, config: Config, id: string, device: string)
    requires id != "" && device != ""
    ensures Decode(msg, config) == Assert(CriticalLevel, id, device) <==>
      Complete(msg, config, id, device) && msg.resolved == Some(false)
      && msg.severity == Some("xyz.openbmc_project.Logging.Entry.Level.Critical")
    ensures Decode(msg, config) == Assert(WarningLevel, id, device) <==>
      Complete(msg, config, id, device) && msg.resolved == Some(false)
      && msg.severity == Some("xyz.openbmc_project.Logging.Entry.Level.Warning")
    ensures Decode(msg, config) == Resolve(id, device) <==>
      Complete(msg, config, id, device) && msg.resolved == Some(true) && config.deassertion
  {
    if msg.additionalData.Some? {
      DeviceNameIs(msg.additionalData.value);
    }
    hide DeviceName, NamesDevice;
  }

  /** A message that lacks nothing. */
  ghost predicate Complete(msg: Message, config: Config, id: string, device: string) {
    && msg.hasLogEntry && msg.eventId == Some(id) && |id| <= config.maxErrorIdLength
    && msg.severity.Some? && msg.severity.value != ""
    && msg.additionalData.Some? && IsDeviceName(msg.additionalData.value, device)
  }

  /** The first item of the form `DEVICE_NAME=value`, with a value, has this one. */
  ghost predicate IsDeviceName(items: seq<string>, device: string) {
    && device != ""
    && exists i :: (0 <= i < |items| && items[i] == "DEVICE_NAME=" + device
                    && forall k, value :: 0 <= k < i && value != "" ==> items[k] != "DEVICE_NAME=" + value)
  }

  lemma NamesDeviceMeans(item: string)
    ensures NamesDevice(item) <==> exists value :: value != "" && item == "DEVICE_NAME=" + value
    ensures NamesDevice(item) ==> item == "DEVICE_NAME=" + item[IndexOf(item, '=') + 1..]
  {
    if NamesDevice(item) {
      NamedItem(item);
      assert "DEVICE_NAME" + "=" == "DEVICE_NAME=";
    }
    if exists value :: value != "" && item == "DEVICE_NAME=" + value {
      var value :| value != "" && item == "DEVICE_NAME=" + value;
      FirstEquals(item, value);
    }
  }

  lemma FirstEquals(item: string, value: string)
    requires item == "DEVICE_NAME=" + value
    ensures IndexOf(item, '=') == 11 && item[..11] == "DEVICE_NAME"
  {
    var name := "DEVICE_NAME";
    assert forall k :: 0 <= k < 11 ==> item[k] == name[k] && name[k] != '=';
    assert item[11] == '=';
    var i := IndexOf(item, '=');
    assert i >= 11 && i <= 11;
  }

  lemma {:induction false} DeviceNameIs(items: seq<string>)
    ensures forall device :: device != "" ==> (DeviceName(items) == device <==> IsDeviceName(items, device))
  {
    if items != [] {
      NamesDeviceMeans(items[0]);
      DeviceNameIs(items[1..]);
      hide NamesDevice, IndexOf;
      forall device | device != "" ensures DeviceName(items) == device <==> IsDeviceName(items, device) {
        FirstOrLater(items, device);
      }
    }
  }

  lemma FirstOrLater(items: seq<string>, device: string)
    requires items != [] && device != ""
    ensures IsDeviceName(items, device) <==>
      || items[0] == "DEVICE_NAME=" + device
      || ((forall value :: value != "" ==> items[0] != "DEVICE_NAME=" + value) && IsDeviceName(items[1..], device))
  {
    var rest := items[1..];
    if IsDeviceName(rest, device) && (forall value :: value != "" ==> items[0] != "DEVICE_NAME=" + value) {
      var i :| 0 <= i < |rest| && rest[i] == "DEVICE_NAME=" + device
        && forall k, value :: 0 <= k < i && value != "" ==> rest[k] != "DEVICE_NAME=" + value;
      assert items[i + 1] == "DEVICE_NAME=" + device;
      assert forall k :: 0 < k < i + 1 ==> items[k] == rest[k - 1];
    }
    if IsDeviceName(items, device) && items[0] != "DEVICE_NAME=" + device {
      var i :| 0 <= i < |items| && items[i] == "DEVICE_NAME=" + device
        && forall k, value :: 0 <= k < i && value != "" ==> items[k] != "DEVICE_NAME=" + value;
      assert rest[i - 1] == "DEVICE_NAME=" + device;
      assert forall k :: 0 <= k < i - 1 ==> rest[k] == items[k + 1];
    }
  }

  /** With room for no error at all, every message that asserts one leaves a new device
      known, but neither shown nor due for an update. */
  method NoRoomAtAll(msg: Message, config: Config, ws: Writes, up: string -> Writes) returns (s: Service)
    requires Decode(msg, config).Assert?
    ensures s.alive ==>
      && Decode(msg, config).device in s.files.errors
      && !s.Settled(Decode(msg, config).device) && !s.Consistent()
  {
    hide Decode, HealthOf, Silent, AllReported;
    var files := new TmpFileManager(0, 65536, 1048576, 65536);
    s := new Service(files, config);
    s.Startup(up);
    if s.alive {
      ghost var device := Decode(msg, config).device;
      assert !s.Settled(device);
      s.InterfacesAdded(msg, ws);
    }
  }
}
