/**
 * Card content management: the module registry, the application table and the LOAD, INSTALL and DELETE
 * commands over them, as functions from card to card and status word.
 */
module CardModel {
  import opened Bytes
  import opened Tlv

  const MAX_MODULES := 32
  const MAX_APPS := 64
  const MAX_INSTANCES := 16
  const MAX_IMPORTS := 8
  const MAX_BUFFER := 16384
  const NO_ID := 0xFF

  const SELECTABLE := 7
  const INSTALLED := 3
  const PERSONALIZED := 0x0F

  // ----- tables -----

  type ModuleId = k: nat | k < 32
  type Ids = s: seq<nat> | |s| == 16 witness [0, 0, 0, 0, 0, 0, 0, 0, 0, 0, 0, 0, 0, 0, 0, 0]

  datatype Import = Import(aid: Aid, version: u32, id: ModuleId)

  /** A registry entry; the first `count` of `ids` are its instances. */
  datatype Module = Module(id: nat, loaded: bool, aid: Aid, version: u32, imports: seq<Import>, ids: Ids, count: Count)

  type Count = n: nat | n <= 16

  /** An application slot; `link` is the registry entry it points to. */
  datatype App = App(installed: bool, aid: Aid, id: nat, moduleId: int, link: Option<ModuleId>, lifecycle: int)

  type Registry = s: seq<Module> | |s| == 32 witness Repeat(32, BLANK_MODULE)
  type Apps = s: seq<App> | |s| == 64 witness Repeat(64, EMPTY_APP)

  datatype LoadState = Idle | Initialized | LoadingBlocks

  datatype Session = Session(state: LoadState, target: ModuleId, aid: Aid, buffer: seq<byte>)

  datatype Card = Card(modules: Registry, apps: Apps, moduleCount: nat, appCount: nat, session: Session)

  function Repeat<T>(n: nat, x: T): (s: seq<T>)
    ensures |s| == n && forall i :: 0 <= i < n ==> s[i] == x
  {
    if n == 0 then [] else Repeat(n - 1, x) + [x]
  }

  const NO_IDS: Ids := [NO_ID, NO_ID, NO_ID, NO_ID, NO_ID, NO_ID, NO_ID, NO_ID,
                        NO_ID, NO_ID, NO_ID, NO_ID, NO_ID, NO_ID, NO_ID, NO_ID]
  const ZERO_IDS: Ids := [0, 0, 0, 0, 0, 0, 0, 0, 0, 0, 0, 0, 0, 0, 0, 0]
  const BLANK_MODULE := Module(0, false, [], 0, [], ZERO_IDS, 0)
  const EMPTY_APP := App(false, [], 0, 0, None, 0)
  const ISD_AID: Aid := [0xA0, 0, 0, 1, 0x51, 0, 0, 0]
  const ISD := App(true, ISD_AID, 0, 0, None, SELECTABLE)
  const NO_SESSION := Session(Idle, 0, [], [])

  /** A card after initialization: no modules, and only the issuer's security domain in slot 0. */
  function Initial(): Card {
    Card(Repeat(MAX_MODULES, BLANK_MODULE), Repeat(MAX_APPS, EMPTY_APP)[0 := ISD], 0, 1, NO_SESSION)
  }

  function Instances(m: Module): (s: seq<nat>)
    ensures |s| == m.count
  {
    m.ids[..m.count]
  }

  /** The next value of an eight-bit counter. */
  function Up(n: nat): nat {
    (n + 1) % 256
  }

  function Down(n: nat): nat {
    (n + 255) % 256
  }

  // ----- searches -----

  function FindModule(ms: seq<Module>, aid: Aid, from: nat): (r: Option<nat>)
    ensures r.Some? ==> from <= r.value < |ms|
    decreases |ms| - from
  {
    if from >= |ms| then None
    else if ms[from].loaded && ms[from].aid == aid then Some(from)
    else FindModule(ms, aid, from + 1)
  }

  /** The first installed application whose AID starts with the given bytes. */
  function FindApp(apps: seq<App>, aid: Aid, from: nat): (r: Option<nat>)
    ensures r.Some? ==> from <= r.value < |apps|
    decreases |apps| - from
  {
    if from >= |apps| then None
    else if apps[from].installed && aid <= apps[from].aid then Some(from)
    else FindApp(apps, aid, from + 1)
  }

  function AppByAid(apps: seq<App>, aid: Aid): (r: Option<nat>)
    ensures r.Some? ==> r.value < |apps|
  {
    if aid == [] || |aid| > 16 then None else FindApp(apps, aid, 0)
  }

  function FreeModule(ms: seq<Module>, from: nat): (r: Option<nat>)
    ensures r.Some? ==> from <= r.value < |ms|
    decreases |ms| - from
  {
    if from >= |ms| then None else if !ms[from].loaded then Some(from) else FreeModule(ms, from + 1)
  }

  function FreeApp(apps: seq<App>, from: nat): (r: Option<nat>)
    ensures r.Some? ==> from <= r.value < |apps|
    decreases |apps| - from
  {
    if from >= |apps| then None else if !apps[from].installed then Some(from) else FreeApp(apps, from + 1)
  }

  // ----- the registry -----

  datatype Outcome = Done | Invalid | NotFound | Full | InUse | IsIsd

  function AddInstance(ms: Registry, k: nat, a: nat): (Registry, Outcome) {
    if k >= MAX_MODULES then (ms, Invalid)
    else if !ms[k].loaded then (ms, NotFound)
    else if ms[k].count >= MAX_INSTANCES then (ms, Full)
    else
      var m := ms[k];
      (ms[k := m.(ids := m.ids[m.count := a], count := m.count + 1)], Done)
  }

  /** Where an id is in the first `n` of a list. */
  function Position(ids: seq<nat>, n: nat, a: nat, from: nat): (r: Option<nat>)
    requires n <= |ids|
    ensures r.Some? ==> from <= r.value < n && ids[r.value] == a && forall j :: from <= j < r.value ==> ids[j] != a
    ensures r.None? ==> forall j :: from <= j < n ==> ids[j] != a
    decreases n - from
  {
    if from >= n then None else if ids[from] == a then Some(from) else Position(ids, n, a, from + 1)
  }

  /** Drops one of the first `n` ids: the later ones move up and the freed place is marked unused. */
  function Drop(ids: Ids, n: nat, i: nat): Ids
    requires i < n <= |ids|
  {
    ids[..i] + ids[i + 1..n] + [NO_ID] + ids[n..]
  }

  function RemoveInstance(ms: Registry, k: nat, a: nat): (Registry, Outcome) {
    if k >= MAX_MODULES then (ms, Invalid)
    else if !ms[k].loaded then (ms, NotFound)
    else
      var m := ms[k];
      var i := Position(m.ids, m.count, a, 0);
      if i.None? then (ms, NotFound)
      else (ms[k := m.(ids := Drop(m.ids, m.count, i.value), count := m.count - 1)], Done)
  }

  function Unload(ms: Registry, k: nat): (Registry, Outcome) {
    if k >= MAX_MODULES then (ms, Invalid)
    else if !ms[k].loaded then (ms, NotFound)
    else if ms[k].count > 0 then (ms, InUse)
    else (ms[k := ms[k].(loaded := false, imports := [])], Done)
  }

  // ----- applications -----

  /** Puts a new application in the first free slot. */
  function RegisterApp(c: Card, aid: Aid, moduleId: nat): (r: (Card, Option<nat>))
    ensures r.1.Some? ==> r.1.value < 64
  {
    var slot := FreeApp(c.apps, 0);
    if slot.None? then (c, None)
    else
      var a := slot.value;
      var app := App(true, aid, a, moduleId % 256, None, INSTALLED);
      (c.(apps := c.apps[a := app], appCount := Up(c.appCount)), slot)
  }

  function DeleteApp(c: Card, a: nat): (Card, Outcome) {
    if a >= MAX_APPS then (c, Invalid)
    else if !c.apps[a].installed then (c, NotFound)
    else if a == 0 then (c, IsIsd)
    else
      var link := c.apps[a].link;
      var ms := if link.Some? && c.modules[link.value].loaded
                then RemoveInstance(c.modules, c.modules[link.value].id, a).0 else c.modules;
      (c.(modules := ms, apps := c.apps[a := EMPTY_APP], appCount := Down(c.appCount)), Done)
  }

  // ----- status words -----

  const OK := 0x9000
  const WRONG_DATA := 0x6A80
  const NOT_FOUND := 0x6A82
  const NO_MEMORY := 0x6A84
  const WRONG_P1P2 := 0x6A86
  const NO_REFERENCE := 0x6A88
  const EXISTS := 0x6A89
  const NOT_NOW := 0x6985
  const NO_SUCH_INS := 0x6D00
  const FAILED := 0x6F00

  /** In place of a status word: the command never answers. */
  const NO_ANSWER := 0

  // ----- commands -----

  type Buffer = s: seq<byte> | |s| == 260 witness Repeat(260, 0)

  /**
   * The receive buffer with the number of bytes received; bytes past them are left from earlier commands, and
   * `behind` is the byte that lies behind the buffer.
   */
  datatype Command = Command(buffer: Buffer, length: nat, behind: byte)

  function Ins(cmd: Command): byte {
    cmd.buffer[1]
  }

  function P1(cmd: Command): byte {
    cmd.buffer[2]
  }

  function Lc(cmd: Command): (n: nat)
    ensures n < 256
  {
    if cmd.length > 4 then cmd.buffer[4] as int else 0
  }

  function Data(cmd: Command): seq<byte> {
    cmd.buffer[5..5 + Lc(cmd)]
  }

  /** The byte after the data. */
  function AfterData(cmd: Command): byte {
    if 5 + Lc(cmd) < |cmd.buffer| then cmd.buffer[5 + Lc(cmd)] else cmd.behind
  }

  // ----- INSTALL -----

  /** Creates an application of a module; a full instance list undoes the registration. */
  function InstallApp(c: Card, app: Aid, mod: Aid, p1: byte): (Card, int) {
    var found := FindModule(c.modules, mod, 0);
    if found.None? then (c, NO_REFERENCE)
    else if AppByAid(c.apps, app).Some? then (c, EXISTS)
    else
      var k := found.value;
      var (c1, slot) := RegisterApp(c, app, c.modules[k].id);
      if slot.None? then (c, FAILED)
      else
        var a := slot.value;
        var c2 := c1.(apps := c1.apps[a := c1.apps[a].(link := Some(k))]);
        var (ms, added) := AddInstance(c2.modules, c2.modules[k].id, a);
        if added != Done then (DeleteApp(c2, a).0, FAILED)
        else
          var lifecycle := if p1 == 0 then SELECTABLE else INSTALLED;
          (c2.(modules := ms, apps := c2.apps[a := c2.apps[a].(lifecycle := lifecycle)]), OK)
  }

  function InstallCommand(c: Card, cmd: Command): (Card, int) {
    if P1(cmd) != 0 && P1(cmd) != 2 then (c, WRONG_P1P2)
    else if Lc(cmd) == 0 then (c, WRONG_DATA)
    else
      var names := ParseInstall(Data(cmd), 0, Install([], [], None));
      if names.None? then (c, WRONG_DATA)
      else InstallApp(c, names.value.app, names.value.mod, P1(cmd))
  }

  // ----- DELETE -----

  function DeleteAppByAid(c: Card, aid: Aid): (Card, int) {
    var found := AppByAid(c.apps, aid);
    if found.None? then (c, NOT_FOUND)
    else
      var a := c.apps[found.value].id;
      if a == 0 then (c, NOT_NOW)
      else
        var (c1, deleted) := DeleteApp(c, a);
        (c1, if deleted == Done then OK else FAILED)
  }

  /** Deletes the applications of a list of ids, passing over unused places. */
  function DeleteEach(c: Card, ids: seq<nat>): Card
    decreases |ids|
  {
    if ids == [] then c
    else DeleteEach(if ids[0] != NO_ID then DeleteApp(c, ids[0]).0 else c, ids[1..])
  }

  /** A loaded module whose AID is all zeros, of the length of the given AID, takes that AID. */
  function NameZeroModule(ms: Registry, aid: Aid): Registry {
    var z := FindModule(ms, Repeat(|aid|, 0), 0);
    if z.None? then ms else ms[z.value := ms[z.value].(aid := aid)]
  }

  /** Deletes the module at an index, with its applications if asked to. */
  function DeleteModule(c: Card, k: ModuleId, related: bool): (Card, int) {
    var m := c.modules[k];
    if m.count > 0 && !related then (c, NOT_NOW)
    else
      var c1 := DeleteEach(c, Instances(m));
      var (ms, unloaded) := Unload(c1.modules, k);
      if unloaded != Done then (c1, FAILED)
      else (c1.(modules := ms, moduleCount := if c1.moduleCount > 0 then c1.moduleCount - 1 else 0), OK)
  }

  function DeleteModuleByAid(c: Card, aid: Aid, related: bool): (Card, int) {
    var named := c.(modules := NameZeroModule(c.modules, aid));
    var found := FindModule(named.modules, aid, 0);
    if found.None? then (named, NOT_FOUND) else DeleteModule(named, found.value, related)
  }

  datatype Flags = Flags(package: bool, fromPackage: bool, related: bool)

  /** One AID of a DELETE: the card, the status word and whether the command stops there. */
  function DeleteOne(c: Card, aid: Aid, f: Flags): (Card, int, bool) {
    if FindModule(c.modules, aid, 0).Some? then
      if !f.package then (c, NOT_NOW, false)
      else
        var (c1, sw) := DeleteModuleByAid(c, aid, f.related);
        (c1, sw, sw != OK)
    else if AppByAid(c.apps, aid).Some? then
      if !f.fromPackage && !f.related then (c, NOT_NOW, false)
      else
        var (c1, sw) := DeleteAppByAid(c, aid);
        (c1, sw, sw != OK)
    else (c, NOT_FOUND, false)
  }

  /** The AIDs of a DELETE in order; the status word is that of the last one handled. */
  function DeleteAll(c: Card, aids: seq<Aid>, f: Flags, last: int): (Card, int)
    decreases |aids|
  {
    if aids == [] then (c, last)
    else
      var (c1, sw, stop) := DeleteOne(c, aids[0], f);
      if stop then (c1, sw) else DeleteAll(c1, aids[1..], f, sw)
  }

  function FlagsOf(p1: byte): Flags {
    Flags(p1 & 4 != 0, p1 & 2 != 0, p1 & 1 != 0)
  }

  function DeleteCommand(c: Card, cmd: Command): (Card, int) {
    var f := FlagsOf(P1(cmd));
    if (!f.package && !f.fromPackage) || Lc(cmd) == 0 then (c, WRONG_DATA)
    else
      var aids := ParseDelete(Data(cmd), 0, []);
      if aids.None? then (c, WRONG_DATA) else DeleteAll(c, aids.value, f, OK)
  }

  // ----- LOAD -----

  /** Opens a session: picks the module's slot and remembers its AID. */
  function OpenLoad(c: Card, cmd: Command): (Card, int) {
    if c.session.state != Idle then (c, NOT_NOW)
    else if cmd.length < 5 then (c, WRONG_DATA)
    else
      var parsed := PackageAid(Data(cmd), AfterData(cmd));
      if parsed.Endless? then (c, NO_ANSWER)
      else if parsed.Malformed? then (c, WRONG_DATA)
      else if FindModule(c.modules, parsed.aid, 0).Some? then (c, EXISTS)
      else
        var slot := FreeModule(c.modules, 0);
        if slot.None? || c.moduleCount >= MAX_MODULES then (c, NO_MEMORY)
        else (c.(session := Session(Initialized, slot.value, parsed.aid, [])), OK)
  }

  function LoadBlock(c: Card, cmd: Command): (Card, int) {
    if c.session.state == Idle then (c, NOT_NOW)
    else if cmd.length < 5 then (c, WRONG_DATA)
    else if |c.session.buffer| + Lc(cmd) > MAX_BUFFER then (c.(session := NO_SESSION), NO_MEMORY)
    else (c.(session := c.session.(state := LoadingBlocks, buffer := c.session.buffer + Data(cmd))), OK)
  }

  function ReadU32Be(s: seq<byte>, at: nat): u32
    requires at + 4 <= |s|
  {
    s[at] as int * 0x100_0000 + s[at + 1] as int * 0x1_0000 + s[at + 2] as int * 0x100 + s[at + 3] as int
  }

  /** Up to `left` section headers, each an id and a big-endian size, whose contents end within the data. */
  predicate SectionsFit(data: seq<byte>, offset: nat, left: nat)
    decreases left
  {
    left == 0 || offset + 8 > |data| ||
    (var next := Wrap(offset + 5 + ReadU32Be(data, offset + 1));
     next <= |data| && SectionsFit(data, next, left - 1))
  }

  /** The version of a package whose header is in order. */
  function ParseHeader(data: seq<byte>): Option<u32> {
    if |data| < 20 || ReadU32Be(data, 0) != 0x0073_6566 then None
    else
      var sections := ReadU32Be(data, 8);
      if sections == 0 || sections > 16 || !SectionsFit(data, 12, sections) then None
      else Some(ReadU32Be(data, 4))
  }

  /** The imports from an offset on, each resolved to the first loaded module of its AID, which must be new enough. */
  function ParseImports(ms: Registry, data: seq<byte>, offset: nat, left: nat): Option<seq<Import>>
    decreases left
  {
    if left == 0 then Some([])
    else if offset + 5 > |data| then None
    else
      var version, len, at := ReadU32Be(data, offset), data[offset + 4] as int, offset + 5;
      if !AidLength(len) || at + len > |data| then None
      else
        var aid := data[at..at + len];
        var found := FindModule(ms, aid, 0);
        if found.None? || ms[found.value].version < version then None
        else
          var rest := ParseImports(ms, data, at + len, left - 1);
          if rest.None? then None else Some([Import(aid, version, found.value)] + rest.value)
  }

  const IMPORT_OFFSET := 20

  /** The imports of a package: none in a package that ends before they could start. */
  function ImportsOf(ms: Registry, data: seq<byte>): Option<seq<Import>> {
    if |data| < IMPORT_OFFSET + 3 then Some([])
    else
      var count := data[IMPORT_OFFSET] as int;
      if count > MAX_IMPORTS then None else ParseImports(ms, data[IMPORT_OFFSET..], 3, count)
  }

  function RegisterModule(c: Card, k: ModuleId, m: Module): Card {
    c.(modules := c.modules[k := m], moduleCount := Up(c.moduleCount))
  }

  /** Closes a session: checks the package and registers the module in the slot picked when it was opened. */
  function FinishLoad(c: Card): (Card, int) {
    var s, closed := c.session, c.(session := NO_SESSION);
    if s.state != LoadingBlocks then (c, NOT_NOW)
    else if s.buffer == [] then (closed, WRONG_DATA)
    else
      var version := ParseHeader(s.buffer);
      if version.None? then (closed, WRONG_DATA)
      else
        var imports := ImportsOf(c.modules, s.buffer);
        if imports.None? then (closed, NO_REFERENCE)
        else
          var m := Module(s.target, true, s.aid, version.value, imports.value, NO_IDS, 0);
          (RegisterModule(closed, s.target, m), OK)
  }

  function LoadCommand(c: Card, cmd: Command): (Card, int) {
    if P1(cmd) == 0 then OpenLoad(c, cmd)
    else if P1(cmd) == 1 then LoadBlock(c, cmd)
    else if P1(cmd) == 2 then FinishLoad(c)
    else (c, WRONG_P1P2)
  }

  // ----- SELECT -----

  /** The status word of a SELECT by AID prefix; without an AID the issuer's domain is selected. */
  function SelectCommand(c: Card, cmd: Command): int {
    if Lc(cmd) == 0 || cmd.length <= 5 then OK
    else if !AidLength(Lc(cmd)) then WRONG_DATA
    else
      var found := AppByAid(c.apps, Data(cmd));
      if found.None? then NOT_FOUND
      else if c.apps[found.value].lifecycle != SELECTABLE && c.apps[found.value].lifecycle != PERSONALIZED then NOT_NOW
      else OK
  }

  // ----- dispatch -----

  function Process(c: Card, cmd: Command): (Card, int) {
    if Ins(cmd) == 0xA4 then (c, SelectCommand(c, cmd))
    else if Ins(cmd) == 0xE2 then InstallCommand(c, cmd)
    else if Ins(cmd) == 0xE4 then LoadCommand(c, cmd)
    else if Ins(cmd) == 0xE6 then DeleteCommand(c, cmd)
    else (c, NO_SUCH_INS)
  }

  function Run(c: Card, cmds: seq<Command>): Card
    decreases |cmds|
  {
    if cmds == [] then c else Run(Process(c, cmds[0]).0, cmds[1..])
  }
}
