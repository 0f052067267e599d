/** Commands that load a module on any card with room for it, and a run of them that ends in a misdirected deletion. */
module CardScenario {
  import opened Bytes
  import opened Tlv
  import opened CardModel
  import opened CardInvariant
  import opened CardCommands
  import opened CardRuns
  import CardPackage
  import SefLoader

  /** A command with an instruction, a first parameter and data, the rest of the buffer zero. */
  function Cmd(ins: byte, p1: byte, data: seq<byte>): (cmd: Command)
    requires |data| < 256
  {
    Command([0x80, ins, p1, 0, |data| as byte] + data + Repeat(255 - |data|, 0), 5 + |data|, 0)
  }

  lemma CmdReads(ins: byte, p1: byte, data: seq<byte>)
    requires |data| < 256
    ensures var cmd := Cmd(ins, p1, data);
            Ins(cmd) == ins && P1(cmd) == p1 && Lc(cmd) == |data| && Data(cmd) == data && cmd.length >= 5
  {
    ByteRoundTrip(|data|);
    var cmd := Cmd(ins, p1, data);
    assert cmd.buffer[5..5 + |data|] == data;
  }

  /** The data of a command that names one AID. */
  function AidData(aid: Aid): (d: seq<byte>)
    requires AidLength(|aid|)
    ensures |d| == 2 + |aid|
  {
    [TAG_AID, |aid| as byte] + aid
  }

  lemma AidDataIs(aid: Aid)
    requires AidLength(|aid|)
    ensures Fits([Item(TAG_AID, aid)]) && AidData(aid) == [] + Encode([Item(TAG_AID, aid)])
  {
    var items := [Item(TAG_AID, aid)];
    assert items[1..] == [];
    assert Encode(items) == EncodeItem(items[0]) + Encode(items[1..]);
  }

  lemma AidDataLoads(aid: Aid, after: byte)
    requires AidLength(|aid|)
    ensures PackageAid(AidData(aid), after) == Named(aid)
  {
    var items := [Item(TAG_AID, aid)];
    AidDataIs(aid);
    assert LoadMeaning(items, []) == Some(aid) by {
      assert items[1..] == [];
    }
    hide Encode;
    hide AidData;
    hide LoadMeaning;
    ByteCursorParsesMeaning([], items, after, [], MAX_ITEMS);
    hide ParseLoadByte;
  }

  lemma AidDataDeletes(aid: Aid)
    requires AidLength(|aid|)
    ensures ParseDelete(AidData(aid), 0, []) == Some([aid])
  {
    var items := [Item(TAG_AID, aid)];
    AidDataIs(aid);
    assert DeleteMeaning(items, []) == Some([aid]) by {
      assert items[1..] == [] && [] + [aid] == [aid];
      assert DeleteMeaning(items, []) == DeleteMeaning(items[1..], [] + [aid]);
    }
    hide Encode;
    hide AidData;
    hide DeleteMeaning;
    DeleteParsesMeaning([], items, []);
  }

  /** The command that deletes a package by its AID, with or without leave to delete its applications. */
  function DeleteCmd(aid: Aid, related: bool): Command
    requires AidLength(|aid|)
  {
    Cmd(0xE6, if related then 5 else 4, AidData(aid))
  }

  // ----- a load -----

  const SECTIONS: seq<SefLoader.Section> := [SefLoader.Section(1, [0, 0, 0])]

  /** The smallest package with its header in order: one section of three bytes, and no imports. */
  function SmallPackage(version: u32): (d: seq<byte>)
    ensures |d| == 20 && ParseHeader(d) == Some(version)
  {
    assert SECTIONS[1..] == [];
    assert CardPackage.EncodeSections(SECTIONS) ==
           CardPackage.EncodeSection(SECTIONS[0]) + CardPackage.EncodeSections(SECTIONS[1..]);
    var d := CardPackage.Package(version, SECTIONS);
    CardPackage.HeaderOfWritten(version, SECTIONS, []);
    assert d + [] == d;
    d
  }

  function LoadCommands(aid: Aid, version: u32): (cmds: seq<Command>)
    requires AidLength(|aid|)
    ensures |cmds| == 3
  {
    [Cmd(0xE4, 0, AidData(aid)), Cmd(0xE4, 1, SmallPackage(version)), Cmd(0xE4, 2, [])]
  }

  /** The module those commands load. */
  function LoadedModule(k: ModuleId, aid: Aid, version: u32): Module {
    Module(k, true, aid, version, [], NO_IDS, 0)
  }

  function WithModule(c: Card, k: ModuleId, aid: Aid, version: u32): Card {
    c.(modules := c.modules[k := LoadedModule(k, aid, version)], moduleCount := c.moduleCount + 1,
       session := NO_SESSION)
  }

  /** A free slot and an AID that no loaded module has. */
  predicate CanLoad(c: Card, aid: Aid) {
    c.session == NO_SESSION && FindModule(c.modules, aid, 0).None? && FreeModule(c.modules, 0).Some?
  }

  function AfterLoad(c: Card, aid: Aid, version: u32): Card
    requires CanLoad(c, aid)
  {
    WithModule(c, FreeModule(c.modules, 0).value, aid, version)
  }

  lemma RoomCounted(c: Card, k: nat)
    requires Consistent(c) && k < 32 && !c.modules[k].loaded
    ensures c.moduleCount < 32
  {
    LoadedAfter(c.modules, k, BLANK_MODULE.(loaded := true));
  }

  lemma OpenWorks(c: Card, aid: Aid)
    requires Consistent(c) && AidLength(|aid|) && CanLoad(c, aid)
    ensures var k := FreeModule(c.modules, 0).value;
            Process(c, Cmd(0xE4, 0, AidData(aid))) == (c.(session := Session(Initialized, k, aid, [])), OK)
            && c.moduleCount < 32 && !c.modules[k].loaded
  {
    var cmd := Cmd(0xE4, 0, AidData(aid));
    CmdReads(0xE4, 0, AidData(aid));
    AidDataLoads(aid, AfterData(cmd));
    FreeModuleFirst(c.modules, 0);
    RoomCounted(c, FreeModule(c.modules, 0).value);
    hide Cmd;
    hide AidData;
    hide PackageAid;
    hide Consistent;
    hide FindModule;
    hide FreeModule;
  }

  lemma BlockWorks(c: Card, k: ModuleId, aid: Aid, version: u32)
    requires c.session == Session(Initialized, k, aid, [])
    ensures Process(c, Cmd(0xE4, 1, SmallPackage(version))) ==
            (c.(session := Session(LoadingBlocks, k, aid, SmallPackage(version))), OK)
  {
    hide Cmd;
    hide SmallPackage;
    hide ParseHeader;
    CmdReads(0xE4, 1, SmallPackage(version));
    assert [] + SmallPackage(version) == SmallPackage(version);
  }

  lemma FinishFills(c: Card, k: ModuleId, aid: Aid, version: u32, data: seq<byte>)
    requires |data| == 20 && ParseHeader(data) == Some(version)
    requires c.session == Session(LoadingBlocks, k, aid, data) && c.moduleCount < 32
    ensures FinishLoad(c) == (WithModule(c, k, aid, version), OK)
  {
    hide ParseHeader;
    hide ParseImports;
  }

  lemma FinishWorks(c: Card, k: ModuleId, aid: Aid, version: u32, data: seq<byte>)
    requires |data| == 20 && ParseHeader(data) == Some(version)
    requires c.session == Session(LoadingBlocks, k, aid, data) && c.moduleCount < 32
    ensures Process(c, Cmd(0xE4, 2, [])) == (WithModule(c, k, aid, version), OK)
  {
    hide Cmd;
    hide ParseHeader;
    hide FinishLoad;
    hide WithModule;
    CmdReads(0xE4, 2, []);
    FinishFills(c, k, aid, version, data);
  }

  /** On every consistent card without a session, with room and a new AID, three commands load a module. */
  lemma LoadWorks(c: Card, aid: Aid, version: u32)
    requires Consistent(c) && AidLength(|aid|) && CanLoad(c, aid)
    ensures Run(c, LoadCommands(aid, version)) == AfterLoad(c, aid, version)
  {
    var k := FreeModule(c.modules, 0).value;
    var cmds := LoadCommands(aid, version);
    var c1 := c.(session := Session(Initialized, k, aid, []));
    var c2 := c.(session := Session(LoadingBlocks, k, aid, SmallPackage(version)));
    OpenWorks(c, aid);
    hide Consistent;
    BlockWorks(c1, k, aid, version);
    FinishWorks(c2, k, aid, version, SmallPackage(version));
    hide Process;
    hide Cmd;
    RunThree(c, cmds);
  }

  lemma RunThree(c: Card, cmds: seq<Command>)
    requires |cmds| == 3
    ensures Run(c, cmds) == Process(Process(Process(c, cmds[0]).0, cmds[1]).0, cmds[2]).0
  {
    hide Process;
    var c1 := Process(c, cmds[0]).0;
    var c2 := Process(c1, cmds[1]).0;
    assert Run(c1, cmds[1..]) == Run(c2, cmds[1..][1..]);
    assert Run(c2, cmds[1..][1..]) == Run(Process(c2, cmds[2]).0, cmds[1..][1..][1..]);
  }

  lemma {:induction false} RunSplits(c: Card, x: seq<Command>, y: seq<Command>)
    ensures Run(c, x + y) == Run(Run(c, x), y)
    decreases |x|
  {
    hide Process;
    if x == [] {
      assert x + y == y;
    } else {
      assert (x + y)[1..] == x[1..] + y;
      RunSplits(Process(c, x[0]).0, x[1..], y);
    }
  }

  // ----- a misdirected deletion, by commands alone -----

  const ZEROS: Aid := [0, 0, 0, 0, 0]
  const NAMED: Aid := [1, 2, 3, 4, 5]

  function OneModule(): Card {
    WithModule(Initial(), 0, ZEROS, 1)
  }

  lemma FirstLoaded()
    ensures Run(Initial(), LoadCommands(ZEROS, 1)) == OneModule() && Consistent(OneModule())
  {
    hide Consistent;
    hide Run;
    hide LoadCommands;
    InitialConsistent();
    NoModules(Initial().modules, ZEROS);
    hide Repeat;
    hide FindModule;
    hide FreeModule;
    LoadWorks(Initial(), ZEROS, 1);
    RunKeeps(Initial(), LoadCommands(ZEROS, 1));
  }

  lemma SecondLoaded()
    ensures Run(OneModule(), LoadCommands(NAMED, 1)) == TwoModules()
  {
    FirstLoaded();
    hide Consistent;
    hide Run;
    hide LoadCommands;
    FirstOnly(OneModule().modules, NAMED);
    hide FindModule;
    hide FreeModule;
    LoadWorks(OneModule(), NAMED, 1);
  }

  /** The two modules come from commands on a new card. */
  lemma TwoModulesReached()
    ensures Run(Initial(), LoadCommands(ZEROS, 1) + LoadCommands(NAMED, 1)) == TwoModules()
  {
    hide Run;
    hide LoadCommands;
    hide Consistent;
    hide OneModule;
    hide TwoModules;
    FirstLoaded();
    SecondLoaded();
    RunSplits(Initial(), LoadCommands(ZEROS, 1), LoadCommands(NAMED, 1));
  }

  lemma NoModules(ms: Registry, aid: Aid)
    requires ms == Repeat(MAX_MODULES, BLANK_MODULE)
    ensures FindModule(ms, aid, 0) == None && FreeModule(ms, 0) == Some(0)
  {
    FindModuleFirst(ms, aid, 0);
  }

  lemma FirstOnly(ms: Registry, aid: Aid)
    requires ms[0].loaded && ms[0].aid != aid && forall k :: 1 <= k < 32 ==> !ms[k].loaded
    ensures FindModule(ms, aid, 0) == None && FreeModule(ms, 0) == Some(1)
  {
    FindModuleFirst(ms, aid, 0);
    FreeModuleFirst(ms, 0);
  }

  /** On a new card, load a package named 00 00 00 00 00, load one named 01 02 03 04 05, delete the second. */
  function MisdirectedCommands(): seq<Command> {
    LoadCommands(ZEROS, 1) + LoadCommands(NAMED, 1) + [DeleteCmd(NAMED, false)]
  }

  /** The first module is gone, and the second, which was named, is still there. */
  lemma MisdirectedDeleteReached()
    ensures var r := Run(Initial(), MisdirectedCommands());
            !r.modules[0].loaded && r.modules[1].loaded && r.modules[1].aid == NAMED
  {
    hide Run;
    hide LoadCommands;
    hide Cmd;
    hide TwoModules;
    hide DeleteModuleByAid;
    hide Process;
    var c, cmd := TwoModules(), DeleteCmd(NAMED, false);
    TwoModulesReached();
    RunSplits(Initial(), LoadCommands(ZEROS, 1) + LoadCommands(NAMED, 1), [cmd]);
    NamedIsThere();
    DeleteCommandIs(c, NAMED, false);
    MisdirectedDeleteExists();
    RunOne(c, cmd);
  }

  lemma NamedIsThere()
    ensures FindModule(TwoModules().modules, NAMED, 0).Some?
  {
    FindModuleFirst(TwoModules().modules, NAMED, 0);
    hide FindModule;
    assert TwoModules().modules[1].loaded && TwoModules().modules[1].aid == NAMED;
  }

  lemma RunOne(c: Card, cmd: Command)
    ensures Run(c, [cmd]) == Process(c, cmd).0
  {
    hide Process;
    assert [cmd][1..] == [];
    assert Run(c, [cmd]) == Run(Process(c, cmd).0, []);
  }

  /** Deleting a package by one AID, with or without leave, is deleting the module of that AID, if there is one. */
  lemma DeleteCommandIs(c: Card, aid: Aid, related: bool)
    requires AidLength(|aid|) && FindModule(c.modules, aid, 0).Some?
    ensures Process(c, DeleteCmd(aid, related)) == DeleteModuleByAid(c, aid, related)
  {
    var cmd, f := DeleteCmd(aid, related), Flags(true, false, related);
    CmdReads(0xE6, if related then 5 else 4, AidData(aid));
    AidDataDeletes(aid);
    FlagsRead();
    DeletesOne(c, aid, f);
    hide Process;
    hide Cmd;
    hide AidData;
    hide FlagsOf;
    hide ParseDelete;
    hide DeleteAll;
    hide DeleteModuleByAid;
    hide FindModule;
    DeleteRuns(c, cmd, [aid], f);
  }

  lemma DeleteRuns(c: Card, cmd: Command, aids: seq<Aid>, f: Flags)
    requires Ins(cmd) == 0xE6 && Lc(cmd) != 0 && f == FlagsOf(P1(cmd)) && f.package
    requires ParseDelete(Data(cmd), 0, []) == Some(aids)
    ensures Process(c, cmd) == DeleteAll(c, aids, f, OK)
  {
    hide FlagsOf;
    hide ParseDelete;
    hide DeleteAll;
  }

  lemma FlagsRead()
    ensures FlagsOf(4) == Flags(true, false, false) && FlagsOf(5) == Flags(true, false, true)
  {
  }

  lemma DeletesOne(c: Card, aid: Aid, f: Flags)
    requires f.package && FindModule(c.modules, aid, 0).Some?
    ensures DeleteAll(c, [aid], f, OK) == DeleteModuleByAid(c, aid, f.related)
  {
    hide DeleteModuleByAid;
    hide FindModule;
    var (c1, sw, stop) := DeleteOne(c, aid, f);
    assert [aid][1..] == [];
    assert DeleteAll(c1, [], f, sw) == (c1, sw);
  }

  // ----- a name that is there twice, by commands alone -----

  const APP: Aid := [9, 9, 9, 9, 9]

  function InstallData(app: Aid, mod: Aid): (d: seq<byte>)
    requires AidLength(|app|) && AidLength(|mod|)
    ensures |d| == 4 + |app| + |mod|
  {
    [TAG_AID, |app| as byte] + app + [TAG_MODULE, |mod| as byte] + mod
  }

  lemma InstallDataParses(app: Aid, mod: Aid)
    requires AidLength(|app|) && AidLength(|mod|)
    ensures ParseInstall(InstallData(app, mod), 0, Install([], [], None)) == Some(Install(app, mod, None))
  {
    var items := [Item(TAG_AID, app), Item(TAG_MODULE, mod)];
    assert items[1..] == [Item(TAG_MODULE, mod)] && items[1..][1..] == [];
    assert Encode(items) == EncodeItem(items[0]) + (EncodeItem(items[1..][0]) + Encode(items[1..][1..]));
    assert [] + Encode(items) == InstallData(app, mod);
    hide Encode;
    hide InstallData;
    hide ParseInstall;
    InstallParsesMeaning([], items, Install([], [], None));
    assert InstallMeaning(items, Install([], [], None)) == Some(Install(app, mod, None)) by {
      assert InstallMeaning(items[1..], Install(app, [], None)) == InstallMeaning([], Install(app, mod, None));
    }
  }

  /** The card with an application of the first module. */
  function WithApp(): Card {
    Attach(TwoModules(), 1, 0, APP, SELECTABLE)
  }

  lemma InstallWorks()
    ensures Process(TwoModules(), Cmd(0xE2, 0, InstallData(APP, ZEROS))).0 == WithApp()
    ensures Consistent(WithApp())
  {
    var c := TwoModules();
    TwoModulesConsistent();
    InstallCommandIs(c, APP, ZEROS);
    InstallableThere();
    InstallAppIs(c, APP, ZEROS, 0);
    AttachesKeeping(c, APP, ZEROS, SELECTABLE);
    hide TwoModules;
    hide Consistent;
    hide InstallApp;
    hide Process;
    hide Cmd;
    hide InstallData;
    hide FindModule;
    hide FreeApp;
    hide CanInstall;
  }

  lemma InstallCommandIs(c: Card, app: Aid, mod: Aid)
    requires AidLength(|app|) && AidLength(|mod|)
    ensures Process(c, Cmd(0xE2, 0, InstallData(app, mod))) == InstallApp(c, app, mod, 0)
  {
    CmdReads(0xE2, 0, InstallData(app, mod));
    InstallDataParses(app, mod);
    hide Cmd;
    hide InstallData;
    hide ParseInstall;
    hide InstallApp;
  }

  lemma InstallableThere()
    ensures CanInstall(TwoModules(), APP, ZEROS)
    ensures FindModule(TwoModules().modules, ZEROS, 0) == Some(0) && FreeApp(TwoModules().apps, 0) == Some(1)
  {
    var c := TwoModules();
    FindModuleFirst(c.modules, ZEROS, 0);
    FindAppFirst(c.apps, APP, 0);
    FreeAppFirst(c.apps, 0);
    hide FindModule;
    hide FindApp;
    hide FreeApp;
    assert c.modules[0].loaded && c.modules[0].aid == ZEROS;
    assert FindModule(c.modules, ZEROS, 0) == Some(0);
    assert c.apps[0].installed && !c.apps[1].installed;
    assert FreeApp(c.apps, 0) == Some(1);
    assert ISD_AID[0] != APP[0];
    assert AppByAid(c.apps, APP).None?;
  }

  /** The card with both modules under the name of the second. */
  function BothNamed(): Card {
    var c := WithApp();
    c.(modules := c.modules[0 := c.modules[0].(aid := NAMED)])
  }

  /** On that card the deletion renames the first module and is refused. */
  lemma RefusedDeletion()
    ensures FindModule(WithApp().modules, NAMED, 0).Some?
    ensures DeleteModuleByAid(WithApp(), NAMED, false) == (BothNamed(), NOT_NOW)
  {
    var c := WithApp();
    ZerosOfFive();
    FindModuleFirst(c.modules, ZEROS, 0);
    FindModuleFirst(c.modules, NAMED, 0);
    FindModuleFirst(BothNamed().modules, NAMED, 0);
    hide FindModule;
    assert c.modules[0].loaded && c.modules[0].aid == ZEROS;
    assert c.modules[1].loaded && c.modules[1].aid == NAMED;
    assert FindModule(c.modules, ZEROS, 0) == Some(0);
    assert NameZeroModule(c.modules, NAMED) == BothNamed().modules;
    assert BothNamed().modules[0].loaded && BothNamed().modules[0].aid == NAMED;
  }

  lemma BothFound()
    ensures FindModule(BothNamed().modules, NAMED, 0) == Some(0) && !Misnames(BothNamed().modules, NAMED)
    ensures NameZeroModule(BothNamed().modules, NAMED) == BothNamed().modules
  {
    var ms := BothNamed().modules;
    ZerosOfFive();
    FindModuleFirst(ms, ZEROS, 0);
    FindModuleFirst(ms, NAMED, 0);
    hide FindModule;
    assert ms[0].loaded && ms[0].aid == NAMED;
    assert ms[1].loaded && ms[1].aid == NAMED;
    assert forall k :: 2 <= k < 32 ==> !ms[k].loaded;
  }

  /** Then no module is misnamed, and the deletion with leave takes one of the two. */
  lemma SecondDeletion()
    requires Consistent(BothNamed())
    ensures FindModule(BothNamed().modules, NAMED, 0).Some? && !Misnames(BothNamed().modules, NAMED)
    ensures var (r, sw) := DeleteModuleByAid(BothNamed(), NAMED, true);
            sw == OK && r.modules[1].loaded && r.modules[1].aid == NAMED
  {
    var c := BothNamed();
    BothFound();
    hide FindModule;
    hide Misnames;
    hide NameZeroModule;
    assert c.modules[0].loaded;
    DeleteModuleIs(c, 0, true);
    hide Consistent;
    hide DeleteModule;
    assert c.modules[1].loaded && c.modules[1].aid == NAMED;
  }

  /** Load both packages, install an application of the first, delete the second without leave. */
  function RefusedCommands(): seq<Command> {
    LoadCommands(ZEROS, 1) + LoadCommands(NAMED, 1)
    + [Cmd(0xE2, 0, InstallData(APP, ZEROS)), DeleteCmd(NAMED, false)]
  }

  lemma RefusedReached()
    ensures Run(Initial(), RefusedCommands()) == BothNamed() && Consistent(BothNamed())
  {
    hide Run;
    hide LoadCommands;
    hide Cmd;
    hide InstallData;
    hide TwoModules;
    hide WithApp;
    hide BothNamed;
    hide DeleteModuleByAid;
    hide Process;
    hide Consistent;
    var loads := LoadCommands(ZEROS, 1) + LoadCommands(NAMED, 1);
    var install, delete := Cmd(0xE2, 0, InstallData(APP, ZEROS)), DeleteCmd(NAMED, false);
    TwoModulesReached();
    InstallWorks();
    RefusedDeletion();
    DeleteCommandIs(WithApp(), NAMED, false);
    ProcessKeeps(WithApp(), delete);
    RunSplits(Initial(), loads, [install, delete]);
    RunTwo(TwoModules(), install, delete);
  }

  lemma RunTwo(c: Card, x: Command, y: Command)
    ensures Run(c, [x, y]) == Process(Process(c, x).0, y).0
  {
    hide Process;
    RunOne(Process(c, x).0, y);
    assert [x, y][1..] == [y];
    assert Run(c, [x, y]) == Run(Process(c, x).0, [y]);
  }

  /**
   * The refused deletion leaves two modules of one name, so that the same deletion with leave succeeds, renames
   * nothing, and still leaves a module of that name.
   */
  lemma NameLeftReached()
    ensures var c := Run(Initial(), RefusedCommands());
            var (r, sw) := Process(c, DeleteCmd(NAMED, true));
            && !NamesDistinct(c.modules) && !Misnames(c.modules, NAMED)
            && sw == OK && r.modules[1].loaded && r.modules[1].aid == NAMED
  {
    hide Run;
    hide RefusedCommands;
    hide Process;
    hide Consistent;
    hide DeleteModuleByAid;
    hide Misnames;
    hide FindModule;
    hide DeleteCmd;
    RefusedReached();
    SecondDeletion();
    DeleteCommandIs(BothNamed(), NAMED, true);
    var ms := BothNamed().modules;
    assert ms[0].loaded && ms[1].loaded && ms[0].aid == ms[1].aid;
  }
}
