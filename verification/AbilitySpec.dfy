/** The JSON codec of AbilitySpec in src/resourcemgr/ability_cr.cpp, recursive in the
    subabilities. Numbers are integers here, and a UUID is its canonical text. */
module AbilitySpec {

  import opened Wrappers
  import D = Decimal
  import Semver

  /** An integer of the library: a signed or an unsigned one of 64 bits. */
  type Number = v: int | -0x8000_0000_0000_0000 <= v < 0x1_0000_0000_0000_0000

  datatype Json =
    | JNull | JBool(flag: bool) | JInt(number: Number) | JString(text: string)
    | JArray(elements: seq<Json>) | JObject(members: map<string, Json>)

  /** json::empty(): null, or an array or object without members. */
  predicate Empty(j: Json) {
    j.JNull? || (j.JArray? && j.elements == []) || (j.JObject? && j.members == map[])
  }

  predicate IsHex(c: char) {
    '0' <= c <= '9' || 'a' <= c <= 'f'
  }

  predicate IsUuid(s: string) {
    |s| == 36
    && forall i :: 0 <= i < 36 ==> if i == 8 || i == 13 || i == 18 || i == 23 then s[i] == '-' else IsHex(s[i])
  }

  type Uuid = s: string | IsUuid(s) witness "00000000-0000-0000-0000-000000000000"

  type int32 = v: int | -0x8000_0000 <= v < 0x8000_0000

  datatype Ownership = UniqueOwner | SharedOwner
  datatype Bind = BindLocal | BindAny | BindRemote

  datatype Device = Device(deviceName: string, instanceName: string, ownership: Ownership, bind: Bind)

  datatype Spec = Spec(
    id: Option<Uuid>, status: Option<Json>, package: string, version: Semver.Version, abilityName: string,
    position: string, priority: Option<int32>, activityCondition: Json,
    autoStart: Option<bool>, keepAlive: Option<bool>, singleton: Option<bool>,
    config: Json, debugOption: Json, devices: seq<Device>, models: seq<string>, subabilities: seq<Spec>)

  // ---------------------------------------------------------------- member names

  datatype Key =
    | Id | Status | Package | Version | AbilityName | Position | Priority | ActivityCondition
    | AutoStart | KeepAlive | Singleton | Config | DebugOption | Devices | Models | Subabilities
    | DeviceName | InstanceName | OwnershipKey | BindKey

  function KeyName(k: Key): string {
    match k
    case Id => "id"
    case Status => "status"
    case Package => "package"
    case Version => "version"
    case AbilityName => "abilityName"
    case Position => "position"
    case Priority => "priority"
    case ActivityCondition => "activityCondition"
    case AutoStart => "autoStart"
    case KeepAlive => "keepAlive"
    case Singleton => "singleton"
    case Config => "config"
    case DebugOption => "debugOption"
    case Devices => "devices"
    case Models => "models"
    case Subabilities => "subabilities"
    case DeviceName => "deviceName"
    case InstanceName => "instanceName"
    case OwnershipKey => "ownership"
    case BindKey => "bind"
  }

  /** Length and first two characters tell the names apart. */
  function Signature(k: Key): (int, char, char) {
    match k
    case Id => (2, 'i', 'd')
    case Status => (6, 's', 't')
    case Package => (7, 'p', 'a')
    case Version => (7, 'v', 'e')
    case AbilityName => (11, 'a', 'b')
    case Position => (8, 'p', 'o')
    case Priority => (8, 'p', 'r')
    case ActivityCondition => (17, 'a', 'c')
    case AutoStart => (9, 'a', 'u')
    case KeepAlive => (9, 'k', 'e')
    case Singleton => (9, 's', 'i')
    case Config => (6, 'c', 'o')
    case DebugOption => (11, 'd', 'e')
    case Devices => (7, 'd', 'e')
    case Models => (6, 'm', 'o')
    case Subabilities => (12, 's', 'u')
    case DeviceName => (10, 'd', 'e')
    case InstanceName => (12, 'i', 'n')
    case OwnershipKey => (9, 'o', 'w')
    case BindKey => (4, 'b', 'i')
  }

  lemma SignatureOfName(k: Key)
    ensures |KeyName(k)| >= 2 && (|KeyName(k)|, KeyName(k)[0], KeyName(k)[1]) == Signature(k)
  {
  }

  lemma NamesDiffer(k: Key, l: Key)
    ensures KeyName(k) == KeyName(l) ==> k == l
  {
    hide KeyName;
    SignatureOfName(k);
    SignatureOfName(l);
  }

  // ---------------------------------------------------------------- writing and finding members

  type Members = map<string, Json>

  /** j[key] = value, or nothing. */
  function Put(m: Members, k: Key, value: Option<Json>): Members {
    if value.Some? then m[KeyName(k) := value.value] else m
  }

  function Find(m: Members, k: Key): (r: Option<Json>)
  {
    if KeyName(k) in m then Some(m[KeyName(k)]) else None
  }

  /** A put is found under its own name and changes nothing under another. */
  lemma PutFinds(m: Members, k: Key, value: Option<Json>)
    ensures Find(Put(m, k, value), k) == if value.Some? then value else Find(m, k)
    ensures forall l :: l != k ==> Find(Put(m, k, value), l) == Find(m, l)
  {
    forall l | l != k ensures Find(Put(m, k, value), l) == Find(m, l) {
      NamesDiffer(k, l);
    }
  }

  lemma NothingToFind(k: Key)
    ensures Find(map[], k) == None
  {
  }

  function UnlessEmpty(j: Json): Option<Json> {
    if Empty(j) then None else Some(j)
  }

  function IfAny<T>(items: seq<T>, elements: seq<Json>): Option<Json> {
    if items == [] then None else Some(JArray(elements))
  }

  function IntValue(v: Option<int32>): Option<Json> {
    if v.Some? then Some(JInt(v.value)) else None
  }

  function BoolValue(v: Option<bool>): Option<Json> {
    if v.Some? then Some(JBool(v.value)) else None
  }

  function TextValue(v: Option<Uuid>): Option<Json> {
    if v.Some? then Some(JString(v.value)) else None
  }

  // ---------------------------------------------------------------- to_json

  function OwnershipText(o: Ownership): string {
    if o.UniqueOwner? then "unique" else "shared"
  }

  function BindText(b: Bind): string {
    match b case BindLocal => "local" case BindAny => "any" case BindRemote => "remote"
  }

  function EncodeDevice(d: Device): Json {
    JObject(Put(Put(Put(Put(map[],
      DeviceName, Some(JString(d.deviceName))),
      InstanceName, Some(JString(d.instanceName))),
      OwnershipKey, Some(JString(OwnershipText(d.ownership)))),
      BindKey, Some(JString(BindText(d.bind)))))
  }

  function EncodeModel(model: string): Json {
    JObject(Put(map[], Id, Some(JString(model))))
  }

  function EncodeDevices(devices: seq<Device>): (r: seq<Json>)
    ensures |r| == |devices|
  {
    if devices == [] then [] else [EncodeDevice(devices[0])] + EncodeDevices(devices[1..])
  }

  function EncodeModels(models: seq<string>): (r: seq<Json>)
    ensures |r| == |models|
  {
    if models == [] then [] else [EncodeModel(models[0])] + EncodeModels(models[1..])
  }

  /** The members written first, each only if it has a value. */
  function Leading(x: Spec): Members {
    var m := Put(Put(map[], Id, TextValue(x.id)), Status, x.status);
    Put(Put(m, Priority, IntValue(x.priority)), ActivityCondition, UnlessEmpty(x.activityCondition))
  }

  /** And the three flags. */
  function Options(x: Spec): Members {
    var m := Put(Put(Leading(x), AutoStart, BoolValue(x.autoStart)), KeepAlive, BoolValue(x.keepAlive));
    Put(m, Singleton, BoolValue(x.singleton))
  }

  /** The members before the lists, in the order they are written. */
  function Scalars(x: Spec): Members {
    var p := Put(Put(Options(x), Package, Some(JString(x.package))), Version, Some(JString(Semver.Print(x.version))));
    var q := Put(Put(p, AbilityName, Some(JString(x.abilityName))), Position, Some(JString(x.position)));
    Put(Put(q, Config, Some(x.config)), DebugOption, UnlessEmpty(x.debugOption))
  }

  /** The effect of every put that makes the first members. */
  lemma LeadingPuts(x: Spec)
    ensures LeadingFound(Leading(x), x)
    ensures forall k :: !IsLeading(k) ==> Find(Leading(x), k) == None
  {
    hide Find, Put;
    var m := Put(map[], Id, TextValue(x.id));
    PutFinds(map[], Id, TextValue(x.id));
    var n := Put(m, Status, x.status);
    PutFinds(m, Status, x.status);
    var o := Put(n, Priority, IntValue(x.priority));
    PutFinds(n, Priority, IntValue(x.priority));
    PutFinds(o, ActivityCondition, UnlessEmpty(x.activityCondition));
    forall k: Key ensures Find(map[], k) == None {
      NothingToFind(k);
    }
  }

  lemma OptionPuts(x: Spec)
    ensures LeadingFound(Options(x), x) && FlagsFound(Options(x), x)
    ensures forall k :: !IsLeading(k) && !IsFlag(k) ==> Find(Options(x), k) == None
  {
    hide Find, Put, Leading;
    LeadingPuts(x);
    var q := Put(Leading(x), AutoStart, BoolValue(x.autoStart));
    PutFinds(Leading(x), AutoStart, BoolValue(x.autoStart));
    var r := Put(q, KeepAlive, BoolValue(x.keepAlive));
    PutFinds(q, KeepAlive, BoolValue(x.keepAlive));
    PutFinds(r, Singleton, BoolValue(x.singleton));
  }

  /** The effect of every put that adds the rest. */
  lemma ScalarPuts(x: Spec)
    ensures var m := Scalars(x);
      && Find(m, Package) == Some(JString(x.package)) && Find(m, Version) == Some(JString(Semver.Print(x.version)))
      && Find(m, AbilityName) == Some(JString(x.abilityName)) && Find(m, Position) == Some(JString(x.position))
      && Find(m, Config) == Some(x.config)
      && (Find(Options(x), DebugOption) == None ==> Find(m, DebugOption) == UnlessEmpty(x.debugOption))
      && forall k :: !IsScalar(k) ==> Find(m, k) == Find(Options(x), k)
  {
    hide Find, Put, Options;
    var m := Put(Options(x), Package, Some(JString(x.package)));
    PutFinds(Options(x), Package, Some(JString(x.package)));
    var n := Put(m, Version, Some(JString(Semver.Print(x.version))));
    PutFinds(m, Version, Some(JString(Semver.Print(x.version))));
    var o := Put(n, AbilityName, Some(JString(x.abilityName)));
    PutFinds(n, AbilityName, Some(JString(x.abilityName)));
    var p := Put(o, Position, Some(JString(x.position)));
    PutFinds(o, Position, Some(JString(x.position)));
    var q := Put(p, Config, Some(x.config));
    PutFinds(p, Config, Some(x.config));
    PutFinds(q, DebugOption, UnlessEmpty(x.debugOption));
  }

  predicate IsLeading(k: Key) {
    k.Id? || k.Status? || k.Priority? || k.ActivityCondition?
  }

  predicate IsFlag(k: Key) {
    k.AutoStart? || k.KeepAlive? || k.Singleton?
  }

  predicate IsScalar(k: Key) {
    k.Package? || k.Version? || k.AbilityName? || k.Position? || k.Config? || k.DebugOption?
  }

  function Encode(x: Spec): Json {
    var m := Put(Scalars(x), Devices, IfAny(x.devices, EncodeDevices(x.devices)));
    var n := Put(m, Models, IfAny(x.models, EncodeModels(x.models)));
    JObject(Put(n, Subabilities, IfAny(x.subabilities, EncodeAll(x.subabilities))))
  }

  function EncodeAll(xs: seq<Spec>): (r: seq<Json>)
    ensures |r| == |xs|
  {
    if xs == [] then [] else [Encode(xs[0])] + EncodeAll(xs[1..])
  }

  // ---------------------------------------------------------------- from_json

  function ReadString(j: Json): Result<string> {
    if j.JString? then Ok(j.text) else Thrown
  }

  function ReadUuid(j: Json): Result<Uuid> {
    if j.JString? && IsUuid(j.text) then Ok(j.text) else Thrown
  }

  /** get_to(int&) casts any number and also a boolean. */
  function ReadInt(j: Json): Result<int32> {
    match j
    case JInt(number) => Ok(Semver.Signed32(number))
    case JBool(flag) => Ok(if flag then 1 else 0)
    case _ => Thrown
  }

  /** A priority is read as it stands exactly if it fits 32 bits; any other loses its high bits. */
  lemma PriorityIsReadRightWhen(n: Number)
    ensures ReadInt(JInt(n)).Ok? && (ReadInt(JInt(n)).value - n) % 0x1_0000_0000 == 0
    ensures ReadInt(JInt(n)) == Ok(n) <==> -0x8000_0000 <= n < 0x8000_0000
  {
  }

  function ReadBool(j: Json): Result<bool> {
    if j.JBool? then Ok(j.flag) else Thrown
  }

  function ReadJson(j: Json): Result<Json> {
    Ok(j)
  }

  /** What the version parser makes of a text behind whose end it looks depends on what it finds
      there: any result is possible. */
  type Behind = string -> Result<Semver.Version>

  function ReadVersion(j: Json, behind: Behind): Result<Semver.Version> {
    if j.JString? then
      match Semver.Parse(j.text)
      case Accepted(v) => Ok(v)
      case Refused => Thrown
      case ReadsOn => behind(j.text)
    else Thrown
  }

  function VersionReader(behind: Behind): Json -> Result<Semver.Version> {
    j => ReadVersion(j, behind)
  }

  /** An unknown name reads as the first of the enumeration. */
  function ReadOwnership(j: Json): Result<Ownership> {
    Ok(if j == JString("shared") then SharedOwner else UniqueOwner)
  }

  function ReadBind(j: Json): Result<Bind> {
    Ok(if j == JString("any") then BindAny else if j == JString("remote") then BindRemote else BindLocal)
  }

  /** j.at(key), which throws on a missing member. */
  function Required<T>(m: Members, k: Key, read: Json -> Result<T>): Result<T> {
    var v := Find(m, k);
    if v.Some? then read(v.value) else Thrown
  }

  function Optional<T>(m: Members, k: Key, read: Json -> Result<T>): Result<Option<T>> {
    var v := Find(m, k);
    if v.None? then Ok(None)
    else
      var r := read(v.value);
      if r.Ok? then Ok(Some(r.value)) else Thrown
  }

  function WithDefault<T>(m: Members, k: Key, read: Json -> Result<T>, default: T): Result<T> {
    var v := Find(m, k);
    if v.Some? then read(v.value) else Ok(default)
  }

  /** The elements to read into a vector: none if the member is missing or empty. */
  function ListAt(m: Members, k: Key): Result<seq<Json>> {
    var v := Find(m, k);
    if v.None? || Empty(v.value) then Ok([])
    else if v.value.JArray? then Ok(v.value.elements) else Thrown
  }

  /** The order of the members of an object. */
  predicate Before(a: string, b: string) {
    b != "" && (a == "" || a[0] < b[0] || (a[0] == b[0] && Before(a[1..], b[1..])))
  }

  lemma {:induction false} BeforeIsAnOrder(a: string, b: string, c: string)
    ensures a == b || Before(a, b) || Before(b, a)
    ensures !(Before(a, b) && Before(b, a)) && !Before(a, a)
    ensures Before(a, b) && Before(b, c) ==> Before(a, c)
  {
    if a != "" && b != "" {
      BeforeIsAnOrder(a[1..], b[1..], if c == "" then "" else c[1..]);
      assert a == [a[0]] + a[1..] && b == [b[0]] + b[1..];
    } else if a != "" {
      BeforeIsAnOrder(a[1..], "", "");
    }
  }

  ghost predicate IsFirst(k: string, keys: set<string>) {
    k in keys && forall l :: l in keys ==> l == k || Before(k, l)
  }

  lemma {:induction false} SomeFirst(keys: set<string>) returns (k: string)
    requires keys != {}
    ensures IsFirst(k, keys)
    decreases |keys|
  {
    k :| k in keys;
    if keys != {k} {
      assert |keys - {k}| < |keys| && keys - {k} != {};
      var first := SomeFirst(keys - {k});
      BeforeIsAnOrder(k, first, k);
      if Before(first, k) {
        k := first;
      } else {
        forall l | l in keys ensures l == k || Before(k, l) { BeforeIsAnOrder(k, first, l); }
      }
    }
  }

  lemma OneFirst(keys: set<string>)
    requires keys != {}
    ensures exists k :: IsFirst(k, keys)
    ensures forall k, l :: IsFirst(k, keys) && IsFirst(l, keys) ==> k == l
  {
    var first := SomeFirst(keys);
    forall k, l | IsFirst(k, keys) && IsFirst(l, keys) ensures k == l { BeforeIsAnOrder(k, l, k); }
  }

  /** The keys of an object in their order. */
  ghost function SortedKeys(keys: set<string>): (r: seq<string>)
    ensures forall k :: k in r <==> k in keys
    ensures forall i, j :: 0 <= i < j < |r| ==> Before(r[i], r[j])
    decreases |keys|
  {
    if keys == {} then []
    else
      OneFirst(keys);
      var k :| IsFirst(k, keys);
      [k] + SortedKeys(keys - {k})
  }

  /** What a range-based loop over a value visits: the elements of an array, the members of an object
      in the order of their keys, nothing for null, and any other value itself. */
  ghost function Visited(j: Json): seq<Json> {
    match j
    case JNull => []
    case JArray(elements) => elements
    case JObject(members) =>
      var keys := SortedKeys(members.Keys);
      seq(|keys|, i requires 0 <= i < |keys| => members[keys[i]])
    case _ => [j]
  }

  /** The values lie inside another, which is why reading them ends. */
  ghost predicate AllInside(js: seq<Json>, outer: Json) {
    forall i :: 0 <= i < |js| ==> js[i] < outer
  }

  ghost function SubsAt(m: Members): (r: seq<Json>)
    ensures AllInside(r, JObject(m))
  {
    var v := Find(m, Subabilities);
    if v.None? || Empty(v.value) then []
    else
      VisitedInside(m, KeyName(Subabilities));
      Visited(v.value)
  }

  lemma VisitedInside(m: Members, name: string)
    requires name in m
    ensures AllInside(Visited(m[name]), JObject(m))
  {
    var js := Visited(m[name]);
    assert m[name] < JObject(m);
    forall i | 0 <= i < |js| ensures js[i] < JObject(m) {
      if m[name].JObject? {
        var k := SortedKeys(m[name].members.Keys)[i];
        assert k in m[name].members;
        assert m[name].members[k] < m[name];
      }
    }
  }

  function DecodeDevice(j: Json): Result<Device> {
    if !j.JObject? then Thrown
    else
      var name := Required(j.members, DeviceName, ReadString);
      var instance := Required(j.members, InstanceName, ReadString);
      var ownership := WithDefault(j.members, OwnershipKey, ReadOwnership, UniqueOwner);
      var bind := WithDefault(j.members, BindKey, ReadBind, BindLocal);
      if name.Ok? && instance.Ok? && ownership.Ok? && bind.Ok? then
        Ok(Device(name.value, instance.value, ownership.value, bind.value))
      else Thrown
  }

  /** The cast to int64_t. */
  function Signed64(n: Number): int {
    if n < 0x8000_0000_0000_0000 then n else n - 0x1_0000_0000_0000_0000
  }

  /** A model id may also be a number, which is written out as an int64_t. */
  function DecodeModel(j: Json): Result<string> {
    if !j.JObject? then Thrown
    else
      var id := Find(j.members, Id);
      if id.Some? && id.value.JString? then Ok(id.value.text)
      else if id.Some? && id.value.JInt? then Ok(D.IntText(Signed64(id.value.number)))
      else Thrown
  }

  function DecodeDevices(js: seq<Json>): Result<seq<Device>> {
    if js == [] then Ok([])
    else
      var first, rest := DecodeDevice(js[0]), DecodeDevices(js[1..]);
      if first.Ok? && rest.Ok? then Ok([first.value] + rest.value) else Thrown
  }

  function DecodeModels(js: seq<Json>): Result<seq<string>> {
    if js == [] then Ok([])
    else
      var first, rest := DecodeModel(js[0]), DecodeModels(js[1..]);
      if first.Ok? && rest.Ok? then Ok([first.value] + rest.value) else Thrown
  }

  /** Everything but the lists. */
  function DecodeScalars(m: Members, behind: Behind): Result<Spec> {
    var id, status := Optional(m, Id, ReadUuid), Optional(m, Status, ReadJson);
    var package, version := Required(m, Package, ReadString), Required(m, Version, VersionReader(behind));
    var name, position := Required(m, AbilityName, ReadString), WithDefault(m, Position, ReadString, "localhost");
    var priority := Optional(m, Priority, ReadInt);
    var autoStart, keepAlive := Optional(m, AutoStart, ReadBool), Optional(m, KeepAlive, ReadBool);
    var singleton := Optional(m, Singleton, ReadBool);
    var config, debug := WithDefault(m, Config, ReadJson, JNull), WithDefault(m, DebugOption, ReadJson, JNull);
    var condition := Find(m, ActivityCondition);
    if id.Ok? && status.Ok? && package.Ok? && version.Ok? && name.Ok? && position.Ok? && priority.Ok?
       && autoStart.Ok? && keepAlive.Ok? && singleton.Ok?
    then
      Ok(Spec(id.value, status.value, package.value, version.value, name.value, position.value, priority.value,
              if condition.Some? && !Empty(condition.value) then condition.value else JNull,
              autoStart.value, keepAlive.value, singleton.value, config.value, debug.value, [], [], []))
    else Thrown
  }

  ghost function Decode(j: Json, behind: Behind): Result<Spec>
    decreases j, 1, 0
  {
    if !j.JObject? then Thrown
    else
      var m := j.members;
      var x, devices, models := DecodeScalars(m, behind), ListAt(m, Devices), ListAt(m, Models);
      if x.Thrown? || devices.Thrown? || models.Thrown? then Thrown
      else
        var ds, ms := DecodeDevices(devices.value), DecodeModels(models.value);
        var xs := DecodeAll(j, SubsAt(m), behind);
        if ds.Ok? && ms.Ok? && xs.Ok? then
          Ok(x.value.(devices := ds.value, models := ms.value, subabilities := xs.value))
        else Thrown
  }

  /** Values that lie inside `outer`, one after the other. */
  ghost function DecodeAll(outer: Json, js: seq<Json>, behind: Behind): Result<seq<Spec>>
    requires AllInside(js, outer)
    decreases outer, 0, |js|
  {
    if js == [] then Ok([])
    else
      var first, rest := Decode(js[0], behind), DecodeAll(outer, js[1..], behind);
      if first.Ok? && rest.Ok? then Ok([first.value] + rest.value) else Thrown
  }

  // ---------------------------------------------------------------- round trip

  function NormalVersion(v: Semver.Version): Semver.Version {
    if v.prerelease.NoPrerelease? then v.(number := None) else v
  }

  function NormalJson(j: Json): Json {
    if Empty(j) then JNull else j
  }

  /** What survives: empty debug options and activity conditions become null, at every node. (A
      prerelease number without a prerelease is not printed either.) */
  function NormalForm(x: Spec): Spec {
    x.(version := NormalVersion(x.version), activityCondition := NormalJson(x.activityCondition),
       debugOption := NormalJson(x.debugOption), subabilities := NormalAll(x.subabilities))
  }

  function NormalAll(xs: seq<Spec>): (r: seq<Spec>)
    ensures |r| == |xs|
  {
    if xs == [] then [] else [NormalForm(xs[0])] + NormalAll(xs[1..])
  }

  lemma VersionSurvives(v: Semver.Version, behind: Behind)
    ensures Semver.Print(NormalVersion(v)) == Semver.Print(v)
    ensures ReadVersion(JString(Semver.Print(v)), behind) == Ok(NormalVersion(v))
  {
    Semver.VersionReadsBack(NormalVersion(v));
  }

  lemma NamesOfModesRead(d: Device)
    ensures ReadOwnership(JString(OwnershipText(d.ownership))) == Ok(d.ownership)
    ensures ReadBind(JString(BindText(d.bind))) == Ok(d.bind)
  {
    assert OwnershipText(UniqueOwner)[0] == 'u' && OwnershipText(SharedOwner)[0] == 's';
    assert |BindText(BindAny)| == 3 && |BindText(BindLocal)| == 5 && |BindText(BindRemote)| == 6;
  }

  lemma DeviceSurvives(d: Device)
    ensures DecodeDevice(EncodeDevice(d)) == Ok(d)
  {
    hide Find, Put, ReadOwnership, ReadBind, OwnershipText, BindText;
    var m := Put(map[], DeviceName, Some(JString(d.deviceName)));
    PutFinds(map[], DeviceName, Some(JString(d.deviceName)));
    var n := Put(m, InstanceName, Some(JString(d.instanceName)));
    PutFinds(m, InstanceName, Some(JString(d.instanceName)));
    var o := Put(n, OwnershipKey, Some(JString(OwnershipText(d.ownership))));
    PutFinds(n, OwnershipKey, Some(JString(OwnershipText(d.ownership))));
    PutFinds(o, BindKey, Some(JString(BindText(d.bind))));
    NamesOfModesRead(d);
  }

  lemma {:induction false} DevicesSurvive(devices: seq<Device>)
    ensures DecodeDevices(EncodeDevices(devices)) == Ok(devices)
  {
    hide DecodeDevice, EncodeDevice;
    if devices != [] {
      DeviceSurvives(devices[0]);
      DevicesSurvive(devices[1..]);
      assert EncodeDevices(devices)[1..] == EncodeDevices(devices[1..]);
      assert [devices[0]] + devices[1..] == devices;
    }
  }

  lemma {:induction false} ModelsSurvive(models: seq<string>)
    ensures DecodeModels(EncodeModels(models)) == Ok(models)
  {
    if models != [] {
      assert DecodeModel(EncodeModel(models[0])) == Ok(models[0]) by { PutFinds(map[], Id, Some(JString(models[0]))); }
      ModelsSurvive(models[1..]);
      assert EncodeModels(models)[1..] == EncodeModels(models[1..]);
      assert [models[0]] + models[1..] == models;
    }
  }

  /** What is found under each name in the encoding of a node. */
  ghost predicate LeadingFound(m: Members, x: Spec) {
    && Find(m, Id) == TextValue(x.id) && Find(m, Status) == x.status
    && Find(m, Priority) == IntValue(x.priority)
    && Find(m, ActivityCondition) == UnlessEmpty(x.activityCondition)
  }

  ghost predicate FlagsFound(m: Members, x: Spec) {
    && Find(m, AutoStart) == BoolValue(x.autoStart) && Find(m, KeepAlive) == BoolValue(x.keepAlive)
    && Find(m, Singleton) == BoolValue(x.singleton)
  }

  ghost predicate RequiredFound(m: Members, x: Spec) {
    && Find(m, Package) == Some(JString(x.package)) && Find(m, Version) == Some(JString(Semver.Print(x.version)))
    && Find(m, AbilityName) == Some(JString(x.abilityName)) && Find(m, Position) == Some(JString(x.position))
    && Find(m, Config) == Some(x.config) && Find(m, DebugOption) == UnlessEmpty(x.debugOption)
  }

  ghost predicate ScalarsFound(m: Members, x: Spec) {
    LeadingFound(m, x) && FlagsFound(m, x) && RequiredFound(m, x)
  }

  lemma SameOptions(m: Members, n: Members, x: Spec)
    requires LeadingFound(m, x) && FlagsFound(m, x)
    requires forall k :: IsLeading(k) || IsFlag(k) ==> Find(n, k) == Find(m, k)
    ensures LeadingFound(n, x) && FlagsFound(n, x)
  {
    hide Find;
  }

  lemma FindsScalars(x: Spec)
    ensures ScalarsFound(Scalars(x), x)
    ensures forall k: Key :: k.Devices? || k.Models? || k.Subabilities? ==> Find(Scalars(x), k) == None
  {
    hide Find, Put, Options, Scalars, LeadingFound, FlagsFound;
    OptionPuts(x);
    ScalarPuts(x);
    SameOptions(Options(x), Scalars(x), x);
  }

  lemma MembersFound(x: Spec)
    ensures ScalarsFound(Encode(x).members, x)
    ensures Find(Encode(x).members, Devices) == IfAny(x.devices, EncodeDevices(x.devices))
    ensures Find(Encode(x).members, Models) == IfAny(x.models, EncodeModels(x.models))
    ensures Find(Encode(x).members, Subabilities) == IfAny(x.subabilities, EncodeAll(x.subabilities))
  {
    hide Find, Put, Scalars, IfAny;
    FindsScalars(x);
    ListsLeaveScalars(Scalars(x), IfAny(x.devices, EncodeDevices(x.devices)), IfAny(x.models, EncodeModels(x.models)),
                      IfAny(x.subabilities, EncodeAll(x.subabilities)));
  }

  /** The lists are found under their names, and everything else as before. */
  lemma ListsLeaveScalars(m: Members, devices: Option<Json>, models: Option<Json>, subs: Option<Json>)
    requires Find(m, Devices) == None && Find(m, Models) == None && Find(m, Subabilities) == None
    ensures var r := Put(Put(Put(m, Devices, devices), Models, models), Subabilities, subs);
      && Find(r, Devices) == devices && Find(r, Models) == models && Find(r, Subabilities) == subs
      && forall k: Key :: !k.Devices? && !k.Models? && !k.Subabilities? ==> Find(r, k) == Find(m, k)
  {
    hide Find, Put;
    PutFinds(m, Devices, devices);
    PutFinds(Put(m, Devices, devices), Models, models);
    PutFinds(Put(Put(m, Devices, devices), Models, models), Subabilities, subs);
  }

  lemma OptionsSurvive(m: Members, x: Spec)
    requires LeadingFound(m, x) && FlagsFound(m, x)
    ensures Optional(m, Id, ReadUuid) == Ok(x.id) && Optional(m, Status, ReadJson) == Ok(x.status)
    ensures Optional(m, Priority, ReadInt) == Ok(x.priority)
    ensures Optional(m, AutoStart, ReadBool) == Ok(x.autoStart) && Optional(m, KeepAlive, ReadBool) == Ok(x.keepAlive)
    ensures Optional(m, Singleton, ReadBool) == Ok(x.singleton)
  {
    hide Find;
  }

  lemma ScalarsSurvive(m: Members, x: Spec, behind: Behind)
    requires ScalarsFound(m, x)
    ensures DecodeScalars(m, behind) == Ok(NormalForm(x).(devices := [], models := [], subabilities := []))
  {
    hide Find, Optional, ReadVersion, NormalVersion, NormalAll;
    VersionSurvives(x.version, behind);
    OptionsSurvive(m, x);
  }

  lemma ListSurvives<T>(m: Members, k: Key, items: seq<T>, elements: seq<Json>)
    requires Find(m, k) == IfAny(items, elements) && |elements| == |items|
    ensures ListAt(m, k) == Ok(elements)
  {
  }

  lemma SubsSurvive(m: Members, xs: seq<Spec>)
    requires Find(m, Subabilities) == IfAny(xs, EncodeAll(xs))
    ensures SubsAt(m) == EncodeAll(xs)
  {
  }

  /** Reading what was written gives the normal form of the whole tree, whatever lies in memory. */
  lemma {:induction false} SpecSurvives(x: Spec, behind: Behind)
    ensures Decode(Encode(x), behind) == Ok(NormalForm(x))
    decreases x
  {
    hide Find, Scalars, DecodeScalars, ListAt, SubsAt, IfAny, ScalarsFound;
    var m := Encode(x).members;
    MembersFound(x);
    ScalarsSurvive(m, x, behind);
    ListSurvives(m, Devices, x.devices, EncodeDevices(x.devices));
    ListSurvives(m, Models, x.models, EncodeModels(x.models));
    SubsSurvive(m, x.subabilities);
    DevicesSurvive(x.devices);
    ModelsSurvive(x.models);
    AllSurvive(Encode(x), x.subabilities, behind);
  }

  lemma {:induction false} AllSurvive(outer: Json, xs: seq<Spec>, behind: Behind)
    requires AllInside(EncodeAll(xs), outer)
    ensures DecodeAll(outer, EncodeAll(xs), behind) == Ok(NormalAll(xs))
    decreases xs
  {
    hide Encode, Decode, NormalForm;
    if xs != [] {
      assert EncodeAll(xs)[1..] == EncodeAll(xs[1..]);
      SpecSurvives(xs[0], behind);
      AllSurvive(outer, xs[1..], behind);
    }
  }

  /** The normal form is written exactly as the original: a second round changes nothing. */
  lemma {:induction false} NormalFormIsWrittenAlike(x: Spec)
    ensures Encode(NormalForm(x)) == Encode(x)
    decreases x
  {
    hide Put, IfAny, EncodeDevices, EncodeModels;
    VersionSurvives(x.version, text => Thrown);
    AllWrittenAlike(x.subabilities);
    IfAnyAlike(x.subabilities, NormalAll(x.subabilities), EncodeAll(x.subabilities));
  }

  lemma IfAnyAlike<T>(xs: seq<T>, ys: seq<T>, elements: seq<Json>)
    requires |xs| == |ys|
    ensures IfAny(xs, elements) == IfAny(ys, elements)
  {
  }

  lemma {:induction false} AllWrittenAlike(xs: seq<Spec>)
    ensures EncodeAll(NormalAll(xs)) == EncodeAll(xs)
    decreases xs
  {
    hide Encode, NormalForm;
    if xs != [] {
      NormalFormIsWrittenAlike(xs[0]);
      AllWrittenAlike(xs[1..]);
      assert NormalAll(xs)[1..] == NormalAll(xs[1..]);
    }
  }

  // ---------------------------------------------------------------- the names in the text

  predicate IsEmptyJson(j: Json) {
    j == JNull || j == JArray([]) || j == JObject(map[])
  }

  ghost predicate FlagNamed(m: Members, name: string, flag: Option<bool>) {
    if name in m then flag.Some? && m[name] == JBool(flag.value) else flag.None?
  }

  ghost predicate VersionNamed(j: Json, v: Semver.Version, behind: Behind) {
    j.JString? && match Semver.Parse(j.text)
    case Accepted(w) => v == w
    case Refused => false
    case ReadsOn => behind(j.text) == Ok(v)
  }

  ghost predicate PriorityNamed(m: Members, priority: Option<int32>) {
    if "priority" !in m then priority.None?
    else
      priority.Some? && match m["priority"]
      case JInt(n) => (priority.value - n) % 0x1_0000_0000 == 0
      case JBool(b) => priority.value == if b then 1 else 0
      case _ => false
  }

  /** The members that are no lists, under the names they have in the text. */
  ghost predicate ScalarsNamed(m: Members, x: Spec, behind: Behind) {
    && (if "id" in m then x.id.Some? && m["id"] == JString(x.id.value) else x.id.None?)
    && x.status == (if "status" in m then Some(m["status"]) else None)
    && "package" in m && m["package"] == JString(x.package)
    && "version" in m && VersionNamed(m["version"], x.version, behind)
    && "abilityName" in m && m["abilityName"] == JString(x.abilityName)
    && (if "position" in m then m["position"] == JString(x.position) else x.position == "localhost")
    && PriorityNamed(m, x.priority)
    && FlagNamed(m, "autoStart", x.autoStart) && FlagNamed(m, "keepAlive", x.keepAlive)
    && FlagNamed(m, "singleton", x.singleton)
    && x.config == (if "config" in m then m["config"] else JNull)
    && x.debugOption == (if "debugOption" in m then m["debugOption"] else JNull)
    && x.activityCondition ==
         if "activityCondition" in m && !IsEmptyJson(m["activityCondition"]) then m["activityCondition"] else JNull
  }

  ghost predicate DeviceNamed(j: Json, d: Device) {
    && j.JObject?
    && var m := j.members;
    && "deviceName" in m && m["deviceName"] == JString(d.deviceName)
    && "instanceName" in m && m["instanceName"] == JString(d.instanceName)
    && d.ownership == (if "ownership" in m && m["ownership"] == JString("shared") then SharedOwner else UniqueOwner)
    && d.bind == if "bind" in m && m["bind"] == JString("any") then BindAny
                 else if "bind" in m && m["bind"] == JString("remote") then BindRemote else BindLocal
  }

  ghost predicate ModelNamed(j: Json, model: string) {
    && j.JObject? && "id" in j.members
    && match j.members["id"]
       case JString(text) => model == text
       case JInt(n) => model == D.IntText(if n < 0x8000_0000_0000_0000 then n else n - 0x1_0000_0000_0000_0000)
       case _ => false
  }

  ghost predicate DevicesNamed(m: Members, ds: seq<Device>) {
    if "devices" !in m || IsEmptyJson(m["devices"]) then ds == []
    else
      && m["devices"].JArray?
      && var js := m["devices"].elements;
         |js| == |ds| && forall i :: 0 <= i < |js| ==> DeviceNamed(js[i], ds[i])
  }

  ghost predicate ModelsNamed(m: Members, models: seq<string>) {
    if "models" !in m || IsEmptyJson(m["models"]) then models == []
    else
      && m["models"].JArray?
      && var js := m["models"].elements;
         |js| == |models| && forall i :: 0 <= i < |js| ==> ModelNamed(js[i], models[i])
  }

  /** The subabilities are read like the specification itself, from what a loop over them visits. */
  ghost predicate SubsNamed(m: Members, xs: seq<Spec>, behind: Behind) {
    if "subabilities" !in m || IsEmptyJson(m["subabilities"]) then xs == []
    else
      var js := Visited(m["subabilities"]);
      |js| == |xs| && forall i :: 0 <= i < |js| ==> Decode(js[i], behind) == Ok(xs[i])
  }

  lemma OptionalNamed<T(!new)>(m: Members, k: Key, read: Json -> Result<T>, v: Option<T>)
    ensures Optional(m, k, read) == Ok(v) <==>
      if KeyName(k) in m then v.Some? && read(m[KeyName(k)]) == Ok(v.value) else v.None?
  {
  }

  lemma OptionalScalarsNamed(m: Members, x: Spec)
    ensures (Optional(m, Id, ReadUuid) == Ok(x.id) && Optional(m, Status, ReadJson) == Ok(x.status)) <==>
      && (if "id" in m then x.id.Some? && m["id"] == JString(x.id.value) else x.id.None?)
      && x.status == if "status" in m then Some(m["status"]) else None
    ensures Optional(m, Priority, ReadInt) == Ok(x.priority) <==> PriorityNamed(m, x.priority)
    ensures Optional(m, AutoStart, ReadBool) == Ok(x.autoStart) <==> FlagNamed(m, "autoStart", x.autoStart)
    ensures Optional(m, KeepAlive, ReadBool) == Ok(x.keepAlive) <==> FlagNamed(m, "keepAlive", x.keepAlive)
    ensures Optional(m, Singleton, ReadBool) == Ok(x.singleton) <==> FlagNamed(m, "singleton", x.singleton)
  {
    hide Optional;
    OptionalNamed(m, Id, ReadUuid, x.id);
    OptionalNamed(m, Status, ReadJson, x.status);
    OptionalNamed(m, Priority, ReadInt, x.priority);
    OptionalNamed(m, AutoStart, ReadBool, x.autoStart);
    OptionalNamed(m, KeepAlive, ReadBool, x.keepAlive);
    OptionalNamed(m, Singleton, ReadBool, x.singleton);
  }

  lemma RequiredScalarsNamed(m: Members, x: Spec, behind: Behind)
    ensures Required(m, Package, ReadString) == Ok(x.package) <==> "package" in m && m["package"] == JString(x.package)
    ensures Required(m, AbilityName, ReadString) == Ok(x.abilityName) <==>
      "abilityName" in m && m["abilityName"] == JString(x.abilityName)
    ensures Required(m, Version, VersionReader(behind)) == Ok(x.version) <==>
      "version" in m && VersionNamed(m["version"], x.version, behind)
  {
    hide Semver.Parse;
  }

  lemma DefaultScalarsNamed(m: Members, x: Spec)
    ensures WithDefault(m, Position, ReadString, "localhost") == Ok(x.position) <==>
      if "position" in m then m["position"] == JString(x.position) else x.position == "localhost"
    ensures WithDefault(m, Config, ReadJson, JNull) == Ok(if "config" in m then m["config"] else JNull)
    ensures WithDefault(m, DebugOption, ReadJson, JNull) == Ok(if "debugOption" in m then m["debugOption"] else JNull)
    ensures var condition := Find(m, ActivityCondition);
      (if condition.Some? && !Empty(condition.value) then condition.value else JNull) ==
      if "activityCondition" in m && !IsEmptyJson(m["activityCondition"]) then m["activityCondition"] else JNull
  {
  }

  lemma DecodeScalarsNamed(m: Members, x: Spec, behind: Behind)
    ensures DecodeScalars(m, behind) == Ok(x.(devices := [], models := [], subabilities := [])) <==>
      ScalarsNamed(m, x, behind)
  {
    hide Optional, Required, WithDefault, Find, PriorityNamed, FlagNamed, VersionNamed, IsEmptyJson, Empty;
    OptionalScalarsNamed(m, x);
    RequiredScalarsNamed(m, x, behind);
    DefaultScalarsNamed(m, x);
  }

  lemma {:induction false} DecodeDevicesNamed(js: seq<Json>, ds: seq<Device>)
    ensures DecodeDevices(js) == Ok(ds) <==> |ds| == |js| && forall i :: 0 <= i < |js| ==> DeviceNamed(js[i], ds[i])
  {
    if js != [] && ds != [] {
      DecodeDevicesNamed(js[1..], ds[1..]);
      assert ds == [ds[0]] + ds[1..] && js == [js[0]] + js[1..];
      DecodeDeviceNamed(js[0], ds[0]);
    }
  }

  lemma DecodeDeviceNamed(j: Json, d: Device)
    ensures DecodeDevice(j) == Ok(d) <==> DeviceNamed(j, d)
  {
  }

  lemma {:induction false} DecodeModelsNamed(js: seq<Json>, models: seq<string>)
    ensures DecodeModels(js) == Ok(models) <==>
      |models| == |js| && forall i :: 0 <= i < |js| ==> ModelNamed(js[i], models[i])
  {
    if js != [] && models != [] {
      DecodeModelsNamed(js[1..], models[1..]);
      assert models == [models[0]] + models[1..] && js == [js[0]] + js[1..];
    }
  }

  lemma {:induction false} DecodeAllNamed(outer: Json, js: seq<Json>, xs: seq<Spec>, behind: Behind)
    requires AllInside(js, outer)
    ensures DecodeAll(outer, js, behind) == Ok(xs) <==>
      |js| == |xs| && forall i :: 0 <= i < |js| ==> Decode(js[i], behind) == Ok(xs[i])
    decreases |js|
  {
    hide Decode;
    if js != [] && xs != [] {
      DecodeAllNamed(outer, js[1..], xs[1..], behind);
      assert xs == [xs[0]] + xs[1..] && js == [js[0]] + js[1..];
    }
  }

  lemma DecodeListsNamed(m: Members, ds: seq<Device>, models: seq<string>)
    ensures (ListAt(m, Devices).Ok? && DecodeDevices(ListAt(m, Devices).value) == Ok(ds)) <==> DevicesNamed(m, ds)
    ensures (ListAt(m, Models).Ok? && DecodeModels(ListAt(m, Models).value) == Ok(models)) <==> ModelsNamed(m, models)
  {
    hide DeviceNamed, ModelNamed, DecodeDevice, DecodeModel;
    if ListAt(m, Devices).Ok? { DecodeDevicesNamed(ListAt(m, Devices).value, ds); }
    if ListAt(m, Models).Ok? { DecodeModelsNamed(ListAt(m, Models).value, models); }
  }

  lemma DecodeSubsNamed(m: Members, xs: seq<Spec>, behind: Behind)
    ensures DecodeAll(JObject(m), SubsAt(m), behind) == Ok(xs) <==> SubsNamed(m, xs, behind)
  {
    hide Decode, DecodeAll, Visited;
    DecodeAllNamed(JObject(m), SubsAt(m), xs, behind);
  }

  /** Reading an object gives a specification exactly if each of its fields is the one named in the
      text: so it throws exactly if there is no such specification. */
  lemma DecodeReadsTheNames(m: Members, x: Spec, behind: Behind)
    ensures Decode(JObject(m), behind) == Ok(x) <==>
      && ScalarsNamed(m, x, behind) && DevicesNamed(m, x.devices) && ModelsNamed(m, x.models)
      && SubsNamed(m, x.subabilities, behind)
  {
    hide ScalarsNamed, DevicesNamed, ModelsNamed, SubsNamed, DecodeScalars, DecodeDevices, DecodeModels, DecodeAll,
      ListAt, SubsAt;
    DecodeScalarsNamed(m, x, behind);
    DecodeListsNamed(m, x.devices, x.models);
    DecodeSubsNamed(m, x.subabilities, behind);
    if DecodeScalars(m, behind).Ok? { ScalarsHaveNoLists(m, behind); }
  }

  lemma ScalarsHaveNoLists(m: Members, behind: Behind)
    requires DecodeScalars(m, behind).Ok?
    ensures var x := DecodeScalars(m, behind).value; x.devices == [] && x.models == [] && x.subabilities == []
  {
  }

  lemma PutNames(m: Members, k: Key, value: Option<Json>, name: string)
    ensures name in Put(m, k, value) <==> name in m || (value.Some? && name == KeyName(k))
  {
  }

  /** A specification is written under its names and no others: five always, the others only with a
      value. */
  ghost predicate HasName(x: Spec, name: string) {
    || name == "package" || name == "version" || name == "abilityName" || name == "position" || name == "config"
    || (name == "id" && x.id.Some?) || (name == "status" && x.status.Some?)
    || (name == "priority" && x.priority.Some?) || (name == "autoStart" && x.autoStart.Some?)
    || (name == "keepAlive" && x.keepAlive.Some?) || (name == "singleton" && x.singleton.Some?)
    || (name == "activityCondition" && !IsEmptyJson(x.activityCondition))
    || (name == "debugOption" && !IsEmptyJson(x.debugOption))
    || (name == "devices" && x.devices != []) || (name == "models" && x.models != [])
    || (name == "subabilities" && x.subabilities != [])
  }

  lemma NamesWritten(x: Spec, name: string)
    ensures name in Encode(x).members <==> HasName(x, name)
  {
    hide Put, Scalars, HasName, HasKey;
    KeysWritten(x, name);
    KeysAreNames(x, name);
  }

  ghost predicate HasKey(x: Spec, name: string) {
    || name == KeyName(Package) || name == KeyName(Version) || name == KeyName(AbilityName)
    || name == KeyName(Position) || name == KeyName(Config)
    || (name == KeyName(Id) && x.id.Some?) || (name == KeyName(Status) && x.status.Some?)
    || (name == KeyName(Priority) && x.priority.Some?) || (name == KeyName(AutoStart) && x.autoStart.Some?)
    || (name == KeyName(KeepAlive) && x.keepAlive.Some?) || (name == KeyName(Singleton) && x.singleton.Some?)
    || (name == KeyName(ActivityCondition) && !Empty(x.activityCondition))
    || (name == KeyName(DebugOption) && !Empty(x.debugOption))
    || (name == KeyName(Devices) && x.devices != []) || (name == KeyName(Models) && x.models != [])
    || (name == KeyName(Subabilities) && x.subabilities != [])
  }

  lemma KeysAreNames(x: Spec, name: string)
    ensures HasKey(x, name) <==> HasName(x, name)
  {
    hide KeyName, Empty, IsEmptyJson;
    EmptyIsEmpty(x.activityCondition);
    EmptyIsEmpty(x.debugOption);
    NamesOfKeys();
  }

  lemma NamesOfKeys()
    ensures KeyName(Id) == "id" && KeyName(Status) == "status" && KeyName(Package) == "package"
    ensures KeyName(Version) == "version" && KeyName(AbilityName) == "abilityName" && KeyName(Position) == "position"
    ensures KeyName(Priority) == "priority" && KeyName(ActivityCondition) == "activityCondition"
    ensures KeyName(AutoStart) == "autoStart" && KeyName(KeepAlive) == "keepAlive" && KeyName(Singleton) == "singleton"
    ensures KeyName(Config) == "config" && KeyName(DebugOption) == "debugOption" && KeyName(Devices) == "devices"
    ensures KeyName(Models) == "models" && KeyName(Subabilities) == "subabilities"
  {
  }

  lemma KeysWritten(x: Spec, name: string)
    ensures name in Encode(x).members <==> HasKey(x, name)
  {
    hide Put, Leading, Options, Scalars, KeyName, Empty;
    LeadingNames(x, name);
    OptionNames(x, name);
    ScalarNames(x, name);
    ListNames(x, name);
  }

  lemma EmptyIsEmpty(j: Json)
    ensures Empty(j) <==> IsEmptyJson(j)
  {
  }

  lemma ListNames(x: Spec, name: string)
    ensures name in Encode(x).members <==>
      || name in Scalars(x) || (name == KeyName(Devices) && x.devices != [])
      || (name == KeyName(Models) && x.models != []) || (name == KeyName(Subabilities) && x.subabilities != [])
  {
    hide Put, Scalars, KeyName;
    var m := Scalars(x);
    var devices, models := IfAny(x.devices, EncodeDevices(x.devices)), IfAny(x.models, EncodeModels(x.models));
    PutNames(m, Devices, devices, name);
    PutNames(Put(m, Devices, devices), Models, models, name);
    PutNames(Put(Put(m, Devices, devices), Models, models), Subabilities,
             IfAny(x.subabilities, EncodeAll(x.subabilities)), name);
  }

  lemma LeadingNames(x: Spec, name: string)
    ensures name in Leading(x) <==>
      || (name == KeyName(Id) && x.id.Some?) || (name == KeyName(Status) && x.status.Some?)
      || (name == KeyName(Priority) && x.priority.Some?)
      || (name == KeyName(ActivityCondition) && !Empty(x.activityCondition))
  {
    hide Put, KeyName;
    var m := Put(map[], Id, TextValue(x.id));
    PutNames(map[], Id, TextValue(x.id), name);
    var n := Put(m, Status, x.status);
    PutNames(m, Status, x.status, name);
    PutNames(n, Priority, IntValue(x.priority), name);
    PutNames(Put(n, Priority, IntValue(x.priority)), ActivityCondition, UnlessEmpty(x.activityCondition), name);
  }

  lemma OptionNames(x: Spec, name: string)
    ensures name in Options(x) <==>
      || name in Leading(x) || (name == KeyName(AutoStart) && x.autoStart.Some?)
      || (name == KeyName(KeepAlive) && x.keepAlive.Some?) || (name == KeyName(Singleton) && x.singleton.Some?)
  {
    hide Put, Leading, KeyName;
    var m := Put(Leading(x), AutoStart, BoolValue(x.autoStart));
    PutNames(Leading(x), AutoStart, BoolValue(x.autoStart), name);
    PutNames(m, KeepAlive, BoolValue(x.keepAlive), name);
    PutNames(Put(m, KeepAlive, BoolValue(x.keepAlive)), Singleton, BoolValue(x.singleton), name);
  }

  lemma ScalarNames(x: Spec, name: string)
    ensures name in Scalars(x) <==>
      || name in Options(x) || name == KeyName(Package) || name == KeyName(Version) || name == KeyName(AbilityName)
      || name == KeyName(Position) || name == KeyName(Config)
      || (name == KeyName(DebugOption) && !Empty(x.debugOption))
  {
    hide Put, Options, KeyName;
    var p := Put(Options(x), Package, Some(JString(x.package)));
    PutNames(Options(x), Package, Some(JString(x.package)), name);
    var q := Put(p, Version, Some(JString(Semver.Print(x.version))));
    PutNames(p, Version, Some(JString(Semver.Print(x.version))), name);
    var r := Put(q, AbilityName, Some(JString(x.abilityName)));
    PutNames(q, AbilityName, Some(JString(x.abilityName)), name);
    var t := Put(r, Position, Some(JString(x.position)));
    PutNames(r, Position, Some(JString(x.position)), name);
    PutNames(t, Config, Some(x.config), name);
    PutNames(Put(t, Config, Some(x.config)), DebugOption, UnlessEmpty(x.debugOption), name);
  }

  ghost function At(m: Members, name: string): Option<Json> {
    if name in m then Some(m[name]) else None
  }

  /** And each name has the value of its field. */
  lemma ValuesWritten(x: Spec)
    ensures ValuesNamed(Encode(x).members, x)
  {
    hide Put, Scalars, LeadingFound, FlagsFound, RequiredFound, ValuesNamed;
    MembersFound(x);
    FoundIsNamed(Encode(x).members, x);
  }

  ghost predicate ValuesNamed(m: Members, x: Spec) {
    && At(m, "id") == (if x.id.Some? then Some(JString(x.id.value)) else None) && At(m, "status") == x.status
    && At(m, "package") == Some(JString(x.package))
    && At(m, "version") == Some(JString(Semver.Print(x.version)))
    && At(m, "abilityName") == Some(JString(x.abilityName)) && At(m, "position") == Some(JString(x.position))
    && At(m, "priority") == (if x.priority.Some? then Some(JInt(x.priority.value)) else None)
    && At(m, "autoStart") == (if x.autoStart.Some? then Some(JBool(x.autoStart.value)) else None)
    && At(m, "keepAlive") == (if x.keepAlive.Some? then Some(JBool(x.keepAlive.value)) else None)
    && At(m, "singleton") == (if x.singleton.Some? then Some(JBool(x.singleton.value)) else None)
    && At(m, "config") == Some(x.config)
    && At(m, "activityCondition") == (if IsEmptyJson(x.activityCondition) then None else Some(x.activityCondition))
    && At(m, "debugOption") == if IsEmptyJson(x.debugOption) then None else Some(x.debugOption)
  }

  lemma FoundIsNamed(m: Members, x: Spec)
    requires ScalarsFound(m, x)
    ensures ValuesNamed(m, x)
  {
    hide Find, At, Empty, IsEmptyJson, Semver.Print;
    EmptyIsEmpty(x.activityCondition);
    EmptyIsEmpty(x.debugOption);
    forall k: Key ensures Find(m, k) == At(m, KeyName(k)) {
      FindIsAt(m, k);
    }
    assert KeyName(Id) == "id" && KeyName(Status) == "status" && KeyName(Priority) == "priority";
  }

  lemma FindIsAt(m: Members, k: Key)
    ensures Find(m, k) == At(m, KeyName(k))
  {
  }

  /** The elements of the lists: devices and models as objects of their own, subabilities like the
      specification itself. */
  lemma ListsWritten(x: Spec)
    ensures var m := Encode(x).members;
      && At(m, "devices") == (if x.devices == [] then None else Some(JArray(EncodeDevices(x.devices))))
      && At(m, "models") == (if x.models == [] then None else Some(JArray(EncodeModels(x.models))))
      && At(m, "subabilities") == (if x.subabilities == [] then None else Some(JArray(EncodeAll(x.subabilities))))
    ensures forall i :: 0 <= i < |x.devices| ==> EncodeDevices(x.devices)[i] == WrittenDevice(x.devices[i])
    ensures forall i :: 0 <= i < |x.models| ==>
      EncodeModels(x.models)[i] == JObject(map["id" := JString(x.models[i])])
    ensures forall i :: 0 <= i < |x.subabilities| ==> EncodeAll(x.subabilities)[i] == Encode(x.subabilities[i])
  {
    hide Encode, EncodeDevices, EncodeModels, EncodeAll, WrittenDevice, ScalarsFound;
    MembersFound(x);
    DevicesWritten(x.devices);
    ModelsWritten(x.models);
    SubsWritten(x.subabilities);
  }

  ghost function WrittenDevice(d: Device): Json {
    JObject(map["deviceName" := JString(d.deviceName), "instanceName" := JString(d.instanceName),
                "ownership" := JString(if d.ownership == SharedOwner then "shared" else "unique"),
                "bind" := JString(if d.bind == BindAny then "any" else if d.bind == BindRemote then "remote"
                                  else "local")])
  }

  lemma {:induction false} DevicesWritten(devices: seq<Device>)
    ensures forall i :: 0 <= i < |devices| ==> EncodeDevices(devices)[i] == WrittenDevice(devices[i])
  {
    if devices != [] {
      DevicesWritten(devices[1..]);
      DeviceWritten(devices[0]);
    }
  }

  lemma DeviceWritten(d: Device)
    ensures EncodeDevice(d) == WrittenDevice(d)
  {
  }

  lemma {:induction false} ModelsWritten(models: seq<string>)
    ensures forall i :: 0 <= i < |models| ==> EncodeModels(models)[i] == JObject(map["id" := JString(models[i])])
  {
    if models != [] { ModelsWritten(models[1..]); }
  }

  lemma {:induction false} SubsWritten(xs: seq<Spec>)
    ensures forall i :: 0 <= i < |xs| ==> EncodeAll(xs)[i] == Encode(xs[i])
  {
    if xs != [] { SubsWritten(xs[1..]); }
  }

  // ---------------------------------------------------------------- the code

  /** to_json: the subabilities are encoded one by one and appended. */
  method ToJson(x: Spec) returns (j: Json)
    ensures j == Encode(x)
    decreases x, 1
  {
    hide Find, Put, Scalars, IfAny, Encode, EncodeDevices, EncodeModels;
    var m := Scalars(x);
    m := Put(m, Devices, IfAny(x.devices, EncodeDevices(x.devices)));
    m := Put(m, Models, IfAny(x.models, EncodeModels(x.models)));
    var subJsons := EncodeSubabilities(x);
    m := Put(m, Subabilities, IfAny(x.subabilities, subJsons));
    EncodeParts(x);
    j := JObject(m);
  }

  method EncodeSubabilities(x: Spec) returns (subJsons: seq<Json>)
    ensures subJsons == EncodeAll(x.subabilities)
    decreases x, 0
  {
    hide Encode;
    subJsons := [];
    assert x.subabilities[0..] == x.subabilities;
    for i := 0 to |x.subabilities|
      invariant EncodeAll(x.subabilities) == subJsons + EncodeAll(x.subabilities[i..])
    {
      var subJson := ToJson(x.subabilities[i]);
      EncodeAllFrom(x.subabilities, i);
      subJsons := subJsons + [subJson];
    }
  }

  lemma EncodeParts(x: Spec)
    ensures var m := Put(Scalars(x), Devices, IfAny(x.devices, EncodeDevices(x.devices)));
      var n := Put(m, Models, IfAny(x.models, EncodeModels(x.models)));
      Encode(x) == JObject(Put(n, Subabilities, IfAny(x.subabilities, EncodeAll(x.subabilities))))
  {
  }

  lemma EncodeAllFrom(xs: seq<Spec>, i: nat)
    requires i < |xs|
    ensures EncodeAll(xs[i..]) == [Encode(xs[i])] + EncodeAll(xs[i + 1..])
  {
    assert xs[i..][1..] == xs[i + 1..];
  }

  function Joined(done: seq<Spec>, rest: Result<seq<Spec>>): Result<seq<Spec>> {
    if rest.Ok? then Ok(done + rest.value) else Thrown
  }

  lemma JoinedFromStart(outer: Json, js: seq<Json>, behind: Behind)
    requires AllInside(js, outer)
    ensures DecodeAll(outer, js, behind) == Joined([], DecodeAll(outer, js[0..], behind))
    ensures forall done :: Joined(done, DecodeAll(outer, js[|js|..], behind)) == Ok(done)
  {
    assert js[0..] == js && js[|js|..] == [];
    if DecodeAll(outer, js, behind).Ok? {
      assert [] + DecodeAll(outer, js, behind).value == DecodeAll(outer, js, behind).value;
    }
    assert forall done: seq<Spec> :: done + [] == done;
  }

  lemma DecodeAllFrom(outer: Json, js: seq<Json>, i: nat, done: seq<Spec>, behind: Behind)
    requires i < |js| && AllInside(js, outer)
    ensures var first := Decode(js[i], behind);
      Joined(done, DecodeAll(outer, js[i..], behind)) ==
        if first.Ok? then Joined(done + [first.value], DecodeAll(outer, js[i + 1..], behind)) else Thrown
  {
    hide Decode;
    assert js[i..][1..] == js[i + 1..];
    var first, others := Decode(js[i], behind), DecodeAll(outer, js[i + 1..], behind);
    if first.Ok? && others.Ok? {
      assert done + ([first.value] + others.value) == done + [first.value] + others.value;
    }
  }

  lemma TakeFirst(keys: set<string>, k: string)
    requires IsFirst(k, keys)
    ensures SortedKeys(keys) == [k] + SortedKeys(keys - {k})
  {
    OneFirst(keys);
  }

  /** The keys of an object from the first to the last. */
  method KeysInOrder(keys: set<string>) returns (r: seq<string>)
    ensures r == SortedKeys(keys)
  {
    hide IsFirst, SortedKeys;
    var left := keys;
    r := [];
    assert SortedKeys({}) == [] by { NoKeys(); }
    while left != {}
      invariant SortedKeys(keys) == r + SortedKeys(left)
      decreases |left|
    {
      var k := FirstKey(left);
      FirstIsThere(k, left);
      TakeFirst(left, k);
      assert r + ([k] + SortedKeys(left - {k})) == r + [k] + SortedKeys(left - {k});
      r := r + [k];
      left := left - {k};
    }
  }

  lemma NoKeys()
    ensures SortedKeys({}) == []
  {
  }

  lemma FirstIsThere(k: string, keys: set<string>)
    requires IsFirst(k, keys)
    ensures k in keys
  {
  }

  method FirstKey(keys: set<string>) returns (k: string)
    requires keys != {}
    ensures IsFirst(k, keys)
  {
    hide Before, IsFirst;
    k :| k in keys;
    var left := keys - {k};
    assert keys - left == {k};
    OnlyKey(k);
    while left != {}
      invariant left <= keys && IsFirst(k, keys - left)
      decreases |left|
    {
      var l :| l in left;
      OneKeyMore(k, keys - left, l);
      assert keys - (left - {l}) == (keys - left) + {l};
      if Before(l, k) {
        k := l;
      }
      left := left - {l};
    }
    assert keys - left == keys;
  }

  lemma OnlyKey(k: string)
    ensures IsFirst(k, {k})
  {
  }

  lemma OneKeyMore(k: string, keys: set<string>, l: string)
    requires IsFirst(k, keys)
    ensures IsFirst(if Before(l, k) then l else k, keys + {l})
  {
    BeforeIsAnOrder(l, k, k);
    forall e | e in keys ensures Before(l, k) && Before(k, e) ==> Before(l, e) { BeforeIsAnOrder(l, k, e); }
  }

  /** The values that the loop over the subabilities visits. */
  method SubsOf(m: Members) returns (js: seq<Json>)
    ensures js == SubsAt(m)
  {
    var v := Find(m, Subabilities);
    if v.None? || Empty(v.value) {
      return [];
    }
    if v.value.JArray? {
      return v.value.elements;
    }
    if v.value.JObject? {
      var members := v.value.members;
      var keys := KeysInOrder(members.Keys);
      return seq(|keys|, i requires 0 <= i < |keys| => members[keys[i]]);
    }
    return [v.value];
  }

  /** from_json: the subabilities are decoded one by one and pushed. */
  method FromJson(j: Json, behind: Behind) returns (r: Result<Spec>)
    ensures r == Decode(j, behind)
    decreases j
  {
    hide Find, DecodeScalars, DecodeDevices, DecodeModels, ListAt, SubsAt, Joined;
    if !j.JObject? {
      return Thrown;
    }
    var m := j.members;
    var x, devices, models := DecodeScalars(m, behind), ListAt(m, Devices), ListAt(m, Models);
    if x.Thrown? || devices.Thrown? || models.Thrown? {
      return Thrown;
    }
    var ds, ms := DecodeDevices(devices.value), DecodeModels(models.value);
    if ds.Thrown? || ms.Thrown? {
      return Thrown;
    }
    var js := SubsOf(m);
    var subabilities: seq<Spec> := [];
    JoinedFromStart(j, js, behind);
    for i := 0 to |js|
      invariant DecodeAll(j, js, behind) == Joined(subabilities, DecodeAll(j, js[i..], behind))
    {
      DecodeAllFrom(j, js, i, subabilities, behind);
      var sub := FromJson(js[i], behind);
      if sub.Thrown? {
        return Thrown;
      }
      subabilities := subabilities + [sub.value];
    }
    r := Ok(x.value.(devices := ds.value, models := ms.value, subabilities := subabilities));
  }
}
