/** The tables of the card as the program keeps them: fixed arrays, counters and a load session updated in place. */
module CardStore {
  import opened Bytes
  import opened Tlv
  import opened CardModel

  /** Moves later ids up over one that goes, and marks the last place unused. */
  method ShiftOut(ids: Ids, n: nat, i: nat) returns (r: Ids)
    requires i < n <= 16
    ensures r == Drop(ids, n, i)
  {
    r := ids;
    var j := i;
    while j < n - 1
      invariant i <= j <= n - 1
      invariant forall x :: 0 <= x < i || j <= x < 16 ==> r[x] == ids[x]
      invariant forall x :: i <= x < j ==> r[x] == ids[x + 1]
    {
      r := r[j := r[j + 1]];
      j := j + 1;
    }
    r := r[n - 1 := NO_ID];
  }

  class ContentManager {
    const registry: array<Module>
    const apps: array<App>
    var moduleCount: nat
    var appCount: nat
    var state: LoadState
    var target: ModuleId
    var packageAid: Aid
    const buffer: array<byte>
    var bufferSize: nat

    ghost predicate Valid()
      reads this
    {
      registry.Length == 32 && apps.Length == 64 && buffer.Length == MAX_BUFFER && bufferSize <= MAX_BUFFER
    }

    /** The card the methods are specified by. */
    ghost function Model(): Card
      requires Valid()
      reads this, registry, apps, buffer
    {
      Card(registry[..], apps[..], moduleCount, appCount, Session(state, target, packageAid, buffer[..bufferSize]))
    }

    constructor ()
      ensures Valid() && fresh(registry) && fresh(apps) && fresh(buffer) && Model() == Initial()
    {
      registry := new Module[32](_ => BLANK_MODULE);
      apps := new App[64](_ => EMPTY_APP);
      buffer := new byte[MAX_BUFFER](_ => 0);
      moduleCount, appCount, state, target, packageAid, bufferSize := 0, 1, Idle, 0, [], 0;
      new;
      apps[0] := ISD;
      assert registry[..] == Repeat(32, BLANK_MODULE);
      assert apps[..] == Repeat(64, EMPTY_APP)[0 := ISD];
    }

    // ----- searches -----

    method FindModuleByAid(aid: Aid) returns (r: Option<nat>)
      requires Valid()
      ensures r == FindModule(Model().modules, aid, 0)
    {
      for i := 0 to 32
        invariant FindModule(registry[..], aid, 0) == FindModule(registry[..], aid, i)
      {
        if registry[i].loaded && registry[i].aid == aid {
          return Some(i);
        }
      }
      r := None;
    }

    method FindAppByAid(aid: Aid) returns (r: Option<nat>)
      requires Valid()
      ensures r == AppByAid(Model().apps, aid)
    {
      if |aid| == 0 || |aid| > 16 {
        return None;
      }
      for i := 0 to 64
        invariant FindApp(apps[..], aid, 0) == FindApp(apps[..], aid, i)
      {
        if !apps[i].installed || |apps[i].aid| < |aid| {
          continue;
        }
        if apps[i].aid[..|aid|] == aid {
          return Some(i);
        }
      }
      r := None;
    }

    method FindFreeModule() returns (r: Option<nat>)
      requires Valid()
      ensures r == FreeModule(Model().modules, 0)
    {
      for i := 0 to 32
        invariant FreeModule(registry[..], 0) == FreeModule(registry[..], i)
      {
        if !registry[i].loaded {
          return Some(i);
        }
      }
      r := None;
    }

    method FindFreeApp() returns (r: Option<nat>)
      requires Valid()
      ensures r == FreeApp(Model().apps, 0)
    {
      for i := 0 to 64
        invariant FreeApp(apps[..], 0) == FreeApp(apps[..], i)
      {
        if !apps[i].installed {
          return Some(i);
        }
      }
      r := None;
    }

    // ----- the registry -----

    method AddInstance(k: nat, a: nat) returns (r: Outcome)
      requires Valid()
      modifies registry
      ensures (registry[..], r) == CardModel.AddInstance(old(Model().modules), k, a)
    {
      if k >= MAX_MODULES {
        return Invalid;
      }
      if !registry[k].loaded {
        return NotFound;
      }
      if registry[k].count >= MAX_INSTANCES {
        return Full;
      }
      var m := registry[k];
      registry[k] := m.(ids := m.ids[m.count := a], count := m.count + 1);
      r := Done;
    }

    method RemoveInstance(k: nat, a: nat) returns (r: Outcome)
      requires Valid()
      modifies registry
      ensures (registry[..], r) == CardModel.RemoveInstance(old(Model().modules), k, a)
    {
      if k >= MAX_MODULES {
        return Invalid;
      }
      if !registry[k].loaded {
        return NotFound;
      }
      var m := registry[k];
      for i := 0 to m.count
        invariant Position(m.ids, m.count, a, 0) == Position(m.ids, m.count, a, i)
        invariant registry[..] == old(registry[..])
      {
        if m.ids[i] == a {
          var ids := ShiftOut(m.ids, m.count, i);
          registry[k] := m.(ids := ids, count := m.count - 1);
          return Done;
        }
      }
      r := NotFound;
    }

    method Unload(k: nat) returns (r: Outcome)
      requires Valid()
      modifies registry
      ensures (registry[..], r) == CardModel.Unload(old(Model().modules), k)
    {
      if k >= MAX_MODULES {
        return Invalid;
      }
      if !registry[k].loaded {
        return NotFound;
      }
      if registry[k].count > 0 {
        return InUse;
      }
      registry[k] := registry[k].(loaded := false, imports := []);
      r := Done;
    }

    // ----- applications -----

    method RegisterApp(aid: Aid, moduleId: nat) returns (slot: Option<nat>)
      requires Valid()
      modifies this`appCount, apps
      ensures Valid() && (Model(), slot) == CardModel.RegisterApp(old(Model()), aid, moduleId)
    {
      slot := FindFreeApp();
      if slot.Some? {
        var a := slot.value;
        apps[a] := App(true, aid, a, moduleId % 256, None, INSTALLED);
        appCount := Up(appCount);
      }
    }

    method DeleteApp(a: nat) returns (r: Outcome)
      requires Valid()
      modifies this`appCount, apps, registry
      ensures Valid() && (Model(), r) == CardModel.DeleteApp(old(Model()), a)
    {
      if a >= MAX_APPS {
        return Invalid;
      }
      if !apps[a].installed {
        return NotFound;
      }
      if a == 0 {
        return IsIsd;
      }
      var link := apps[a].link;
      if link.Some? && registry[link.value].loaded {
        var removed := RemoveInstance(registry[link.value].id, a);
      }
      apps[a] := EMPTY_APP;
      appCount := Down(appCount);
      r := Done;
    }

    // ----- INSTALL -----

    method InstallApp(app: Aid, mod: Aid, p1: byte) returns (sw: int)
      requires Valid()
      modifies this`appCount, apps, registry
      ensures Valid() && (Model(), sw) == CardModel.InstallApp(old(Model()), app, mod, p1)
    {
      var found := FindModuleByAid(mod);
      if found.None? {
        return NO_REFERENCE;
      }
      var existing := FindAppByAid(app);
      if existing.Some? {
        return EXISTS;
      }
      var k := found.value;
      var slot := RegisterApp(app, registry[k].id);
      if slot.None? {
        return FAILED;
      }
      var a := slot.value;
      apps[a] := apps[a].(link := Some(k));
      var added := AddInstance(registry[k].id, a);
      if added != Done {
        var deleted := DeleteApp(a);
        return FAILED;
      }
      apps[a] := apps[a].(lifecycle := if p1 == 0 then SELECTABLE else INSTALLED);
      sw := OK;
    }

    method InstallCommand(cmd: Command) returns (sw: int)
      requires Valid()
      modifies this`appCount, apps, registry
      ensures Valid() && (Model(), sw) == CardModel.InstallCommand(old(Model()), cmd)
    {
      if P1(cmd) != 0 && P1(cmd) != 2 {
        return WRONG_P1P2;
      }
      if Lc(cmd) == 0 {
        return WRONG_DATA;
      }
      var ok, app, mod, parameters := ParseInstallData(Data(cmd));
      if !ok {
        return WRONG_DATA;
      }
      sw := InstallApp(app, mod, P1(cmd));
    }

    // ----- DELETE -----

    method DeleteAppByAid(aid: Aid) returns (sw: int)
      requires Valid()
      modifies this`appCount, apps, registry
      ensures Valid() && (Model(), sw) == CardModel.DeleteAppByAid(old(Model()), aid)
    {
      var found := FindAppByAid(aid);
      if found.None? {
        return NOT_FOUND;
      }
      var a := apps[found.value].id;
      if a == 0 {
        return NOT_NOW;
      }
      var deleted := DeleteApp(a);
      sw := if deleted == Done then OK else FAILED;
    }

    /** Deletes the instances of a module from a copy of its list. */
    method DeleteInstances(ids: seq<nat>)
      requires Valid()
      modifies this`appCount, apps, registry
      ensures Valid() && Model() == DeleteEach(old(Model()), ids)
    {
      var i := 0;
      assert ids[i..] == ids;
      while i < |ids|
        invariant 0 <= i <= |ids| && Valid()
        invariant DeleteEach(Model(), ids[i..]) == DeleteEach(old(Model()), ids)
      {
        assert ids[i..][1..] == ids[i + 1..];
        if ids[i] != NO_ID {
          var deleted := DeleteApp(ids[i]);
        }
        i := i + 1;
      }
    }

    method DeleteModuleByAid(aid: Aid, related: bool) returns (sw: int)
      requires Valid()
      modifies this`appCount, this`moduleCount, apps, registry
      ensures Valid() && (Model(), sw) == CardModel.DeleteModuleByAid(old(Model()), aid, related)
    {
      var zero := FindModuleByAid(Repeat(|aid|, 0));
      if zero.Some? {
        registry[zero.value] := registry[zero.value].(aid := aid);
      }
      assert registry[..] == NameZeroModule(old(registry[..]), aid);
      var found := FindModuleByAid(aid);
      if found.None? {
        return NOT_FOUND;
      }
      sw := DeleteModuleAt(found.value, related);
    }

    method DeleteModuleAt(k: ModuleId, related: bool) returns (sw: int)
      requires Valid()
      modifies this`appCount, this`moduleCount, apps, registry
      ensures Valid() && (Model(), sw) == DeleteModule(old(Model()), k, related)
    {
      if registry[k].count > 0 {
        if !related {
          return NOT_NOW;
        }
        DeleteInstances(Instances(registry[k]));
      }
      var unloaded := Unload(k);
      if unloaded != Done {
        return FAILED;
      }
      if moduleCount > 0 {
        moduleCount := moduleCount - 1;
      }
      sw := OK;
    }

    method DeleteOneAid(aid: Aid, f: Flags) returns (sw: int, stop: bool)
      requires Valid()
      modifies this`appCount, this`moduleCount, apps, registry
      ensures Valid() && (Model(), sw, stop) == DeleteOne(old(Model()), aid, f)
    {
      var mod := FindModuleByAid(aid);
      if mod.Some? {
        if !f.package {
          return NOT_NOW, false;
        }
        sw := DeleteModuleByAid(aid, f.related);
      } else {
        var app := FindAppByAid(aid);
        if app.None? {
          return NOT_FOUND, false;
        }
        if !f.fromPackage && !f.related {
          return NOT_NOW, false;
        }
        sw := DeleteAppByAid(aid);
      }
      stop := sw != OK;
    }

    method DeleteCommand(cmd: Command) returns (sw: int)
      requires Valid()
      modifies this`appCount, this`moduleCount, apps, registry
      ensures Valid() && (Model(), sw) == CardModel.DeleteCommand(old(Model()), cmd)
    {
      var f := FlagsOf(P1(cmd));
      if (!f.package && !f.fromPackage) || Lc(cmd) == 0 {
        return WRONG_DATA;
      }
      var aids := new Aid[MAX_AIDS](_ => []);
      var ok, count := ParseDeleteData(Data(cmd), aids);
      if !ok {
        return WRONG_DATA;
      }
      sw := DeleteAids(aids[..count], f);
    }

    method DeleteAids(aids: seq<Aid>, f: Flags) returns (sw: int)
      requires Valid()
      modifies this`appCount, this`moduleCount, apps, registry
      ensures Valid() && (Model(), sw) == DeleteAll(old(Model()), aids, f, OK)
    {
      var i := 0;
      sw := OK;
      assert aids[i..] == aids;
      while i < |aids|
        invariant 0 <= i <= |aids| && Valid()
        invariant DeleteAll(Model(), aids[i..], f, sw) == DeleteAll(old(Model()), aids, f, OK)
      {
        assert aids[i..][1..] == aids[i + 1..];
        var stop;
        sw, stop := DeleteOneAid(aids[i], f);
        if stop {
          return;
        }
        i := i + 1;
      }
    }

    // ----- LOAD -----

    method ResetSession()
      requires Valid()
      modifies this`state, this`target, this`packageAid, this`bufferSize
      ensures Valid() && Model() == old(Model()).(session := NO_SESSION)
    {
      state, target, packageAid, bufferSize := Idle, 0, [], 0;
      assert buffer[..0] == [];
    }

    method OpenLoad(cmd: Command) returns (sw: int)
      requires Valid()
      modifies this`state, this`target, this`packageAid, this`bufferSize
      ensures Valid() && (Model(), sw) == CardModel.OpenLoad(old(Model()), cmd)
    {
      if state != Idle {
        return NOT_NOW;
      }
      if cmd.length < 5 {
        return WRONG_DATA;
      }
      var parsed := ParsePackageAid(Data(cmd), AfterData(cmd));
      if parsed.Endless? {
        return NO_ANSWER;
      }
      if parsed.Malformed? {
        return WRONG_DATA;
      }
      var aid := parsed.aid;
      var existing := FindModuleByAid(aid);
      if existing.Some? {
        return EXISTS;
      }
      var slot := FindFreeModule();
      if slot.None? || moduleCount >= MAX_MODULES {
        return NO_MEMORY;
      }
      state, target, packageAid, bufferSize := Initialized, slot.value, aid, 0;
      assert buffer[..0] == [];
      sw := OK;
    }

    method LoadBlock(cmd: Command) returns (sw: int)
      requires Valid()
      modifies this`state, this`target, this`packageAid, this`bufferSize, buffer
      ensures Valid() && (Model(), sw) == CardModel.LoadBlock(old(Model()), cmd)
    {
      if state == Idle {
        return NOT_NOW;
      }
      if cmd.length < 5 {
        return WRONG_DATA;
      }
      if bufferSize + Lc(cmd) > MAX_BUFFER {
        ResetSession();
        return NO_MEMORY;
      }
      AppendBlock(Data(cmd));
      state := LoadingBlocks;
      sw := OK;
    }

    method AppendBlock(block: seq<byte>)
      requires Valid() && bufferSize + |block| <= MAX_BUFFER
      modifies this`bufferSize, buffer
      ensures Valid() && buffer[..bufferSize] == old(buffer[..bufferSize]) + block
    {
      for i := 0 to |block|
        invariant Valid() && bufferSize == old(bufferSize)
        invariant buffer[..bufferSize + i] == old(buffer[..bufferSize]) + block[..i]
      {
        buffer[bufferSize + i] := block[i];
      }
      bufferSize := bufferSize + |block|;
    }

    /** Walks the section headers of a package. */
    method WalkSections(data: seq<byte>, sections: nat) returns (fit: bool)
      ensures fit == SectionsFit(data, 12, sections)
    {
      hide ReadU32Be;
      var offset: nat, i: nat := 12, 0;
      while i < sections && offset + 8 <= |data|
        invariant 0 <= i <= sections
        invariant SectionsFit(data, 12, sections) == SectionsFit(data, offset, sections - i)
        decreases sections - i
      {
        var next := Wrap(offset + 5 + ReadU32Be(data, offset + 1));
        if next > |data| {
          return false;
        }
        offset := next;
        i := i + 1;
      }
      fit := true;
    }

    method ParseSefHeader(data: seq<byte>) returns (version: Option<u32>)
      ensures version == ParseHeader(data)
    {
      hide ReadU32Be;
      hide SectionsFit;
      if |data| < 20 || ReadU32Be(data, 0) != 0x0073_6566 {
        return None;
      }
      var sections := ReadU32Be(data, 8);
      if sections == 0 || sections > 16 {
        return None;
      }
      var fit := WalkSections(data, sections);
      version := if fit then Some(ReadU32Be(data, 4)) else None;
    }

    method ParseImportSection(data: seq<byte>) returns (imports: Option<seq<Import>>)
      requires Valid()
      ensures imports == ImportsOf(Model().modules, data)
    {
      if |data| < IMPORT_OFFSET + 3 {
        return Some([]);
      }
      var count := data[IMPORT_OFFSET] as int;
      if count > MAX_IMPORTS {
        return None;
      }
      imports := ResolveImports(data[IMPORT_OFFSET..], count);
    }

    /** Reads import after import and looks each up in the registry. */
    method ResolveImports(data: seq<byte>, count: nat) returns (imports: Option<seq<Import>>)
      requires Valid()
      ensures imports == ParseImports(Model().modules, data, 3, count)
    {
      hide ParseImports;
      hide After;
      hide ReadU32Be;
      hide FindModule;
      var offset, i, found: seq<Import> := 3, 0, [];
      AfterNone(ParseImports(registry[..], data, 3, count));
      while i < count
        invariant 0 <= i <= count && offset >= 3
        invariant ParseImports(registry[..], data, 3, count) ==
                  After(found, ParseImports(registry[..], data, offset, count - i))
      {
        ImportStep(registry[..], data, offset, count - i, found);
        if offset + 5 > |data| {
          return None;
        }
        var version, len := ReadU32Be(data, offset), data[offset + 4] as int;
        offset := offset + 5;
        if len < 5 || len > 16 || offset + len > |data| {
          return None;
        }
        var aid := data[offset..offset + len];
        var id := FindModuleByAid(aid);
        if id.None? || registry[id.value].version < version {
          return None;
        }
        var entry := Import(aid, version, id.value);
        found := found + [entry];
        offset := offset + len;
        i := i + 1;
      }
      AfterLast(registry[..], data, offset, found);
      imports := Some(found);
    }

    /** A list followed by the rest, if there is one. */
    static function After(found: seq<Import>, rest: Option<seq<Import>>): Option<seq<Import>> {
      if rest.None? then None else Some(found + rest.value)
    }

    /** One import: where the list cannot go on, or with what it does. */
    static lemma ImportStep(ms: Registry, data: seq<byte>, offset: nat, left: nat, found: seq<Import>)
      requires left > 0
      ensures After(found, ParseImports(ms, data, offset, left)) ==
              if offset + 5 > |data| then None
              else
                var version, len, at := ReadU32Be(data, offset), data[offset + 4] as int, offset + 5;
                if len < 5 || len > 16 || at + len > |data| then None
                else
                  var id := FindModule(ms, data[at..at + len], 0);
                  if id.None? || ms[id.value].version < version then None
                  else
                    After(found + [Import(data[at..at + len], version, id.value)],
                          ParseImports(ms, data, at + len, left - 1))
    {
      hide ReadU32Be;
      hide FindModule;
      if offset + 5 <= |data| {
        var version, len, at := ReadU32Be(data, offset), data[offset + 4] as int, offset + 5;
        if AidLength(len) && at + len <= |data| {
          var id := FindModule(ms, data[at..at + len], 0);
          if id.Some? {
            AfterOne(found, Import(data[at..at + len], version, id.value), ParseImports(ms, data, at + len, left - 1));
          }
        }
      }
    }

    static lemma AfterLast(ms: Registry, data: seq<byte>, offset: nat, found: seq<Import>)
      ensures After(found, ParseImports(ms, data, offset, 0)) == Some(found)
    {
      assert found + [] == found;
    }

    static lemma AfterNone(rest: Option<seq<Import>>)
      ensures After([], rest) == rest
    {
      if rest.Some? {
        assert [] + rest.value == rest.value;
      }
    }

    static lemma AfterOne(found: seq<Import>, e: Import, rest: Option<seq<Import>>)
      ensures After(found, if rest.None? then None else Some([e] + rest.value)) == After(found + [e], rest)
    {
      if rest.Some? {
        assert found + ([e] + rest.value) == found + [e] + rest.value;
      }
    }

    method FinishLoad() returns (sw: int)
      requires Valid()
      modifies this`state, this`target, this`packageAid, this`bufferSize, this`moduleCount, registry
      ensures Valid() && (Model(), sw) == CardModel.FinishLoad(old(Model()))
    {
      if state != LoadingBlocks {
        return NOT_NOW;
      }
      hide ParseHeader;
      hide ImportsOf;
      var data := buffer[..bufferSize];
      if bufferSize == 0 {
        assert data == [];
        ResetSession();
        return WRONG_DATA;
      }
      var version := ParseSefHeader(data);
      if version.None? {
        ResetSession();
        return WRONG_DATA;
      }
      var imports := ParseImportSection(data);
      if imports.None? {
        ResetSession();
        return NO_REFERENCE;
      }
      RegisterModule(version.value, imports.value);
      ResetSession();
      sw := OK;
    }

    /** Fills the slot of the session. */
    method RegisterModule(version: u32, imports: seq<Import>)
      requires Valid()
      modifies this`moduleCount, registry
      ensures Valid()
      ensures var c := old(Model());
              var m := Module(c.session.target, true, c.session.aid, version, imports, NO_IDS, 0);
              Model() == c.(modules := c.modules[c.session.target := m], moduleCount := Up(c.moduleCount))
    {
      registry[target] := Module(target, true, packageAid, version, imports, NO_IDS, 0);
      moduleCount := Up(moduleCount);
    }

    method SelectCommand(cmd: Command) returns (sw: int)
      requires Valid()
      ensures sw == CardModel.SelectCommand(Model(), cmd)
    {
      if Lc(cmd) == 0 || cmd.length <= 5 {
        return OK;
      }
      if Lc(cmd) < 5 || Lc(cmd) > 16 {
        return WRONG_DATA;
      }
      var found := FindAppByAid(Data(cmd));
      if found.None? {
        return NOT_FOUND;
      }
      var lifecycle := apps[found.value].lifecycle;
      if lifecycle != SELECTABLE && lifecycle != PERSONALIZED {
        return NOT_NOW;
      }
      sw := OK;
    }

    // ----- dispatch -----

    method Process(cmd: Command) returns (sw: int)
      requires Valid()
      modifies this, apps, registry, buffer
      ensures Valid() && (Model(), sw) == CardModel.Process(old(Model()), cmd)
    {
      if Ins(cmd) == 0xA4 {
        sw := SelectCommand(cmd);
      } else if Ins(cmd) == 0xE2 {
        sw := InstallCommand(cmd);
      } else if Ins(cmd) == 0xE4 {
        if P1(cmd) == 0 {
          sw := OpenLoad(cmd);
        } else if P1(cmd) == 1 {
          sw := LoadBlock(cmd);
        } else if P1(cmd) == 2 {
          sw := FinishLoad();
        } else {
          sw := WRONG_P1P2;
        }
      } else if Ins(cmd) == 0xE6 {
        sw := DeleteCommand(cmd);
      } else {
        sw := NO_SUCH_INS;
      }
    }
  }
}
