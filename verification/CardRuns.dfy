/** Runs of commands: tables that always agree, load sessions that keep their slot, modules that keep their names. */
module CardRuns {
  import opened Bytes
  import opened Tlv
  import opened CardModel
  import opened CardInvariant
  import opened CardCommands

  // ----- every command keeps the invariant -----

  lemma InstallKeeps(c: Card, cmd: Command)
    requires Consistent(c)
    ensures var (r, sw) := InstallCommand(c, cmd); Consistent(r) && r.session == c.session && (sw != OK ==> r == c)
  {
    var data := Data(cmd);
    var names := ParseInstall(data, 0, Install([], [], None));
    InstallAidsSized(data, 0, Install([], [], None));
    hide ParseInstall;
    hide InstallApp;
    if names.Some? {
      var app, mod, p1 := names.value.app, names.value.mod, P1(cmd);
      InstallAppIs(c, app, mod, p1);
      if CanInstall(c, app, mod) {
        AttachesKeeping(c, app, mod, if p1 == 0 then SELECTABLE else INSTALLED);
      }
    }
    hide Consistent;
  }

  lemma AttachesKeeping(c: Card, app: Aid, mod: Aid, lifecycle: int)
    requires Consistent(c) && CanInstall(c, app, mod) && AidLength(|app|)
    requires FreeApp(c.apps, 0).value > 0
    ensures Consistent(Attach(c, FreeApp(c.apps, 0).value, FindModule(c.modules, mod, 0).value, app, lifecycle))
  {
    FindAppFirst(c.apps, app, 0);
    FreeAppFirst(c.apps, 0);
    FindModuleFirst(c.modules, mod, 0);
    AttachKeeps(c, FreeApp(c.apps, 0).value, FindModule(c.modules, mod, 0).value, app, lifecycle);
  }

  lemma DeleteKeeps(c: Card, cmd: Command)
    requires Consistent(c)
    ensures var (r, sw) := DeleteCommand(c, cmd); Consistent(r) && sw in {OK, WRONG_DATA, NOT_FOUND, NOT_NOW}
  {
    hide Consistent;
    hide DeleteAll;
    hide ParseDelete;
    var aids := ParseDelete(Data(cmd), 0, []);
    if aids.Some? {
      DeleteAllKeeps(c, aids.value, FlagsOf(P1(cmd)), OK);
    }
  }

  /** Opening a session changes nothing but the session, which then holds a free slot and an absent AID. */
  lemma OpenKeeps(c: Card, cmd: Command)
    requires Consistent(c)
    ensures var (r, sw) := OpenLoad(c, cmd);
            Consistent(r) && r == c.(session := r.session)
            && (if sw == OK then r.session.state == Initialized && r.session.buffer == [] else r == c)
  {
    hide PackageAid;
    FreeModuleFirst(c.modules, 0);
  }

  lemma BlockKeeps(c: Card, cmd: Command)
    requires Consistent(c)
    ensures var (r, sw) := LoadBlock(c, cmd); Consistent(r) && r == c.(session := r.session)
  {
  }

  /** FINALIZE leaves the tables alone, or turns exactly the slot of the session into a loaded module of its AID. */
  lemma FinishIs(c: Card)
    requires Consistent(c)
    ensures var (r, sw) := FinishLoad(c);
            var s := c.session;
            if sw == OK then
              && s.state == LoadingBlocks && !c.modules[s.target].loaded && ParseHeader(s.buffer).Some?
              && r == c.(modules := c.modules[s.target := r.modules[s.target]], moduleCount := c.moduleCount + 1,
                         session := NO_SESSION)
              && r.modules[s.target] == Module(s.target, true, s.aid, ParseHeader(s.buffer).value,
                                               r.modules[s.target].imports, NO_IDS, 0)
            else r == c.(session := if s.state == LoadingBlocks then NO_SESSION else s)
    ensures Consistent(FinishLoad(c).0)
  {
    hide ParseHeader;
    hide ImportsOf;
    CountsFit(c);
    var (r, sw) := FinishLoad(c);
    if sw == OK {
      var s := c.session;
      SlotKeeps(c, s.target, r.modules[s.target], c.moduleCount + 1, NO_SESSION);
    }
  }

  lemma LoadKeeps(c: Card, cmd: Command)
    requires Consistent(c)
    ensures Consistent(LoadCommand(c, cmd).0)
  {
    hide Consistent;
    hide OpenLoad;
    hide LoadBlock;
    hide FinishLoad;
    if P1(cmd) == 0 {
      OpenLeavesConsistent(c, cmd);
    } else if P1(cmd) == 1 {
      BlockLeavesConsistent(c, cmd);
    } else if P1(cmd) == 2 {
      FinishLeavesConsistent(c);
    }
  }

  lemma OpenLeavesConsistent(c: Card, cmd: Command)
    requires Consistent(c)
    ensures Consistent(OpenLoad(c, cmd).0)
  {
    hide *;
    OpenKeeps(c, cmd);
  }

  lemma BlockLeavesConsistent(c: Card, cmd: Command)
    requires Consistent(c)
    ensures Consistent(LoadBlock(c, cmd).0)
  {
    hide *;
    BlockKeeps(c, cmd);
  }

  lemma FinishLeavesConsistent(c: Card)
    requires Consistent(c)
    ensures Consistent(FinishLoad(c).0)
  {
    hide *;
    FinishIs(c);
  }

  lemma ProcessKeeps(c: Card, cmd: Command)
    requires Consistent(c)
    ensures Consistent(Process(c, cmd).0)
  {
    hide Consistent;
    hide InstallCommand;
    hide DeleteCommand;
    hide LoadCommand;
    if Ins(cmd) == 0xE2 {
      InstallKeeps(c, cmd);
    } else if Ins(cmd) == 0xE4 {
      LoadKeeps(c, cmd);
    } else if Ins(cmd) == 0xE6 {
      DeleteKeeps(c, cmd);
    }
  }

  lemma {:induction false} NoneLoaded(n: nat)
    ensures Loaded(Repeat(n, BLANK_MODULE)) == 0
  {
    if n > 0 {
      NoneLoaded(n - 1);
      assert Repeat(n, BLANK_MODULE)[..n - 1] == Repeat(n - 1, BLANK_MODULE);
    }
  }

  lemma {:induction false} NoneInstalled(n: nat)
    ensures Installed(Repeat(n, EMPTY_APP)) == 0
  {
    if n > 0 {
      NoneInstalled(n - 1);
      assert Repeat(n, EMPTY_APP)[..n - 1] == Repeat(n - 1, EMPTY_APP);
    }
  }

  lemma InitialConsistent()
    ensures Consistent(Initial())
  {
    NoneLoaded(32);
    NoneInstalled(64);
    InstalledAfter(Repeat(MAX_APPS, EMPTY_APP), 0, ISD);
    hide Loaded;
    hide Installed;
  }

  lemma {:induction false} RunKeeps(c: Card, cmds: seq<Command>)
    requires Consistent(c)
    ensures Consistent(Run(c, cmds))
    decreases |cmds|
  {
    if cmds != [] {
      hide Consistent;
      hide Process;
      ProcessKeeps(c, cmds[0]);
      RunKeeps(Process(c, cmds[0]).0, cmds[1..]);
    }
  }

  /** After any commands from initialization on, registry and application table agree. */
  lemma AlwaysConsistent(cmds: seq<Command>)
    ensures Consistent(Run(Initial(), cmds))
  {
    hide Consistent;
    InitialConsistent();
    RunKeeps(Initial(), cmds);
  }

  /** The instance list of a loaded module is exactly the installed applications linked to it. */
  lemma InstancesExactly(c: Card, k: ModuleId, a: nat)
    requires Consistent(c) && c.modules[k].loaded
    ensures a in Instances(c.modules[k]) <==> 0 < a < 64 && c.apps[a].installed && c.apps[a].link == Some(k)
    ensures Distinct(Instances(c.modules[k]))
  {
    assert ModuleOk(c.modules[k], k, c.apps);
    if a < 64 {
      assert AppOk(c.apps[a], a, c.modules);
    }
  }

  // ----- load sessions -----

  /** The bytes a command adds to an open session. */
  function Accepted(c: Card, cmd: Command): seq<byte> {
    if Ins(cmd) == 0xE4 && P1(cmd) == 1 && cmd.length >= 5 then Data(cmd) else []
  }

  /** The one command that ends a session, FINALIZE apart: a block that does not fit the buffer. */
  predicate Overflows(c: Card, cmd: Command) {
    Ins(cmd) == 0xE4 && P1(cmd) == 1 && cmd.length >= 5 && |c.session.buffer| + Lc(cmd) > MAX_BUFFER
  }

  predicate Finalizes(c: Card, cmd: Command) {
    Ins(cmd) == 0xE4 && P1(cmd) == 2 && c.session.state == LoadingBlocks
  }

  lemma {:induction false} DeleteAllSession(c: Card, aids: seq<Aid>, f: Flags, last: int)
    requires Consistent(c)
    ensures DeleteAll(c, aids, f, last).0.session == c.session
    decreases |aids|
  {
    if aids != [] {
      DeleteOneSession(c, aids[0], f);
      DeleteOneKeeps(c, aids[0], f);
      hide Consistent;
      hide DeleteOne;
      var (c1, sw, stop) := DeleteOne(c, aids[0], f);
      if !stop {
        DeleteAllSession(c1, aids[1..], f, sw);
      }
    }
  }

  lemma DeleteOneSession(c: Card, aid: Aid, f: Flags)
    requires Consistent(c)
    ensures DeleteOne(c, aid, f).0.session == c.session
  {
    if FindModule(c.modules, aid, 0).Some? {
      NamingKeeps(c, aid);
      var ms := NameZeroModule(c.modules, aid);
      FindModuleFirst(ms, aid, 0);
      DeleteModuleIs(c.(modules := ms), FindModule(ms, aid, 0).value, f.related);
    } else {
      DeleteAppByAidKeeps(c, aid);
    }
    hide Consistent;
    hide FindModule;
    hide DeleteModule;
  }

  /** What one command does to an open session: it ends it, or leaves slot and AID and adds the accepted bytes. */
  lemma SessionStep(c: Card, cmd: Command)
    requires Consistent(c) && c.session.state != Idle
    ensures var s, t := c.session, Process(c, cmd).0.session;
            if Overflows(c, cmd) || Finalizes(c, cmd) then t == NO_SESSION
            else t.state != Idle && t.target == s.target && t.aid == s.aid && t.buffer == s.buffer + Accepted(c, cmd)
  {
    InstallKeeps(c, cmd);
    if Ins(cmd) == 0xE4 {
      LoadSession(c, cmd);
    }
    DeleteSession(c, cmd);
    hide Consistent;
    hide InstallCommand;
    hide LoadCommand;
    hide DeleteCommand;
    assert c.session.buffer + [] == c.session.buffer;
  }

  lemma LoadSession(c: Card, cmd: Command)
    requires Consistent(c) && c.session.state != Idle && Ins(cmd) == 0xE4
    ensures var s, t := c.session, LoadCommand(c, cmd).0.session;
            if Overflows(c, cmd) || Finalizes(c, cmd) then t == NO_SESSION
            else t.state != Idle && t.target == s.target && t.aid == s.aid && t.buffer == s.buffer + Accepted(c, cmd)
  {
    hide Consistent;
    hide PackageAid;
    hide ParseHeader;
    hide ImportsOf;
    assert c.session.buffer + [] == c.session.buffer;
  }

  lemma DeleteSession(c: Card, cmd: Command)
    requires Consistent(c)
    ensures DeleteCommand(c, cmd).0.session == c.session
  {
    var aids := ParseDelete(Data(cmd), 0, []);
    if aids.Some? {
      DeleteAllSession(c, aids.value, FlagsOf(P1(cmd)), OK);
    }
    hide ParseDelete;
    hide Consistent;
    hide DeleteAll;
  }

  /** Whether a session stays open through some commands. */
  predicate StaysOpen(c: Card, cmds: seq<Command>)
    decreases |cmds|
  {
    cmds == [] ||
    (!Overflows(c, cmds[0]) && !Finalizes(c, cmds[0]) && StaysOpen(Process(c, cmds[0]).0, cmds[1..]))
  }

  function AcceptedAll(c: Card, cmds: seq<Command>): seq<byte>
    decreases |cmds|
  {
    if cmds == [] then []
    else Accepted(c, cmds[0]) + AcceptedAll(Process(c, cmds[0]).0, cmds[1..])
  }

  /**
   * Through any commands that leave it open, a session keeps its slot and its AID, the slot stays free and the AID
   * absent, and its buffer grows by exactly the blocks accepted, in order.
   */
  lemma {:induction false} SessionReserves(c: Card, cmds: seq<Command>)
    requires Consistent(c) && c.session.state != Idle && StaysOpen(c, cmds)
    ensures var s, r := c.session, Run(c, cmds);
            && Consistent(r) && r.session.state != Idle && r.session.target == s.target && r.session.aid == s.aid
            && r.session.buffer == s.buffer + AcceptedAll(c, cmds)
            && !r.modules[s.target].loaded && FindModule(r.modules, s.aid, 0) == None
    decreases |cmds|
  {
    hide *;
    if cmds == [] {
      NoCommands(c);
    } else {
      SessionStep(c, cmds[0]);
      ProcessKeeps(c, cmds[0]);
      Unfold(c, cmds);
      var c1 := Process(c, cmds[0]).0;
      SessionReserves(c1, cmds[1..]);
      var b, x, y := c.session.buffer, Accepted(c, cmds[0]), AcceptedAll(c1, cmds[1..]);
      assert b + x + y == b + (x + y);
    }
  }

  lemma NoCommands(c: Card)
    requires Consistent(c) && c.session.state != Idle
    ensures Run(c, []) == c && c.session.buffer + AcceptedAll(c, []) == c.session.buffer
    ensures !c.modules[c.session.target].loaded && FindModule(c.modules, c.session.aid, 0) == None
  {
  }

  lemma Unfold(c: Card, cmds: seq<Command>)
    requires cmds != [] && StaysOpen(c, cmds)
    ensures !Overflows(c, cmds[0]) && !Finalizes(c, cmds[0]) && StaysOpen(Process(c, cmds[0]).0, cmds[1..])
    ensures AcceptedAll(c, cmds) == Accepted(c, cmds[0]) + AcceptedAll(Process(c, cmds[0]).0, cmds[1..])
    ensures Run(c, cmds) == Run(Process(c, cmds[0]).0, cmds[1..])
  {
    hide Process;
    hide Overflows;
    hide Finalizes;
    hide Accepted;
  }

  /**
   * A whole load: opened on any consistent card, continued by any commands that leave the session open, and
   * finalized with success, it adds to the card of that moment one module, in the slot and under the AID chosen at
   * the start, with the version read from the blocks accepted in between.
   */
  lemma LoadAddsOneModule(c: Card, open: Command, cmds: seq<Command>)
    requires Consistent(c) && OpenLoad(c, open).1 == OK && StaysOpen(OpenLoad(c, open).0, cmds)
    ensures var c1 := OpenLoad(c, open).0;
            var k, before := c1.session.target, Run(c1, cmds);
            var (after, sw) := FinishLoad(before);
            var blocks := AcceptedAll(c1, cmds);
            && before.session.buffer == blocks
            && (sw == OK ==>
                && ParseHeader(blocks).Some? && !before.modules[k].loaded && after.modules[k].loaded
                && after.modules == before.modules[k := after.modules[k]] && after.apps == before.apps
                && after.modules[k].aid == c1.session.aid && after.modules[k].version == ParseHeader(blocks).value
                && after.moduleCount == before.moduleCount + 1 && after.appCount == before.appCount)
            && (sw != OK ==> after == before.(session := after.session))
  {
    OpenKeeps(c, open);
    var c1 := OpenLoad(c, open).0;
    SessionReserves(c1, cmds);
    var before := Run(c1, cmds);
    FinishIs(before);
    hide *;
    assert [] + AcceptedAll(c1, cmds) == AcceptedAll(c1, cmds);
  }

  // ----- names -----

  /** Loaded modules have different AIDs. */
  predicate NamesDistinct(ms: Registry) {
    forall j, k :: 0 <= j < k < 32 && ms[j].loaded && ms[k].loaded ==> ms[j].aid != ms[k].aid
  }

  predicate AllZero(aid: Aid) {
    aid == Repeat(|aid|, 0)
  }

  /** Whether the lookup made before a module is deleted renames another one. */
  predicate Misnames(ms: Registry, aid: Aid) {
    !AllZero(aid) && FindModule(ms, Repeat(|aid|, 0), 0).Some?
  }

  /** Whether two loaded modules have an AID. */
  predicate Twice(ms: Registry, aid: Aid) {
    exists j, k :: 0 <= j < k < 32 && ms[j].loaded && ms[k].loaded && ms[j].aid == aid && ms[k].aid == aid
  }

  /**
   * A DELETE of a loaded module's AID removes that module and its name, except when another loaded module of that AID
   * length has an AID of zeros, or the name is there twice: exactly then a module of that name is left.
   */
  lemma DeletedNameIsGoneIff(c: Card, aid: Aid, related: bool)
    requires Consistent(c) && FindModule(c.modules, aid, 0).Some?
    requires DeleteModuleByAid(c, aid, related).1 == OK
    ensures FindModule(DeleteModuleByAid(c, aid, related).0.modules, aid, 0) == None
            <==> !Misnames(c.modules, aid) && !Twice(c.modules, aid)
    ensures !Misnames(c.modules, aid) ==>
              DeleteModuleByAid(c, aid, related) == DeleteModule(c, FindModule(c.modules, aid, 0).value, related)
  {
    NamingKeeps(c, aid);
    var ms := NameZeroModule(c.modules, aid);
    var named := c.(modules := ms);
    FindModuleFirst(c.modules, aid, 0);
    FindModuleFirst(c.modules, Repeat(|aid|, 0), 0);
    FindModuleFirst(ms, aid, 0);
    var k, first := FindModule(c.modules, aid, 0).value, FindModule(ms, aid, 0).value;
    DeleteModuleIs(named, first, related);
    var r := DeleteModule(named, first, related).0;
    FindModuleFirst(r.modules, aid, 0);
    hide Consistent;
    hide DeleteModule;
    hide FindModule;
    if Misnames(c.modules, aid) {
      var z := FindModule(c.modules, Repeat(|aid|, 0), 0).value;
      var other := if first == k then z else k;
      assert r.modules[other].loaded && r.modules[other].aid == aid;
    } else {
      assert ms == c.modules;
    }
  }

  /** When the all-zero module comes first it is the one deleted, and the module that was named stays loaded. */
  lemma WrongModuleDeleted(c: Card, aid: Aid, related: bool)
    requires Consistent(c) && FindModule(c.modules, aid, 0).Some?
    requires Misnames(c.modules, aid) && DeleteModuleByAid(c, aid, related).1 == OK
    requires FindModule(c.modules, Repeat(|aid|, 0), 0).value < FindModule(c.modules, aid, 0).value
    ensures var z, k := FindModule(c.modules, Repeat(|aid|, 0), 0).value, FindModule(c.modules, aid, 0).value;
            var r := DeleteModuleByAid(c, aid, related).0;
            !r.modules[z].loaded && r.modules[k] == c.modules[k] && r.modules[k].loaded
  {
    NamingKeeps(c, aid);
    var ms := NameZeroModule(c.modules, aid);
    FindModuleFirst(c.modules, aid, 0);
    FindModuleFirst(c.modules, Repeat(|aid|, 0), 0);
    FindModuleFirst(ms, aid, 0);
    hide FindModule;
    DeleteModuleIs(c.(modules := ms), FindModule(ms, aid, 0).value, related);
    hide Consistent;
    hide DeleteModule;
  }

  /** Such a card: two modules without instances, the first with an AID of five zeros. */
  function TwoModules(): Card {
    var zero := Module(0, true, [0, 0, 0, 0, 0], 1, [], NO_IDS, 0);
    var named := Module(1, true, [1, 2, 3, 4, 5], 1, [], NO_IDS, 0);
    Initial().(modules := Initial().modules[0 := zero][1 := named], moduleCount := 2)
  }

  lemma TwoModulesConsistent()
    ensures Consistent(TwoModules())
  {
    var c := Initial();
    InitialConsistent();
    var two := TwoModules();
    SlotKeeps(c, 0, two.modules[0], 1, NO_SESSION);
    var c1 := c.(modules := c.modules[0 := two.modules[0]], moduleCount := 1);
    SlotKeeps(c1, 1, two.modules[1], 2, NO_SESSION);
    hide Consistent;
    assert c1.(modules := c1.modules[1 := two.modules[1]], moduleCount := 2, session := NO_SESSION) == two;
  }

  /** The family of misdirected deletions is not empty: deleting 01 02 03 04 05 there unloads the other module. */
  lemma MisdirectedDeleteExists()
    ensures var (r, sw) := DeleteModuleByAid(TwoModules(), [1, 2, 3, 4, 5], false);
            sw == OK && !r.modules[0].loaded && r.modules[1].loaded && r.modules[1].aid == [1, 2, 3, 4, 5]
  {
    var c, aid: Aid := TwoModules(), [1, 2, 3, 4, 5];
    TwoModulesConsistent();
    FindModuleFirst(c.modules, aid, 0);
    var zeros := Repeat(5, 0 as byte);
    ZerosOfFive();
    FindModuleFirst(c.modules, zeros, 0);
    hide FindModule;
    assert c.modules[0].loaded && c.modules[0].aid == zeros != aid;
    assert c.modules[1].loaded && c.modules[1].aid == aid;
    assert FindModule(c.modules, zeros, 0) == Some(0) && FindModule(c.modules, aid, 0) == Some(1);
    DeleteModuleByAidKeeps(c, aid, false);
    var ms := NameZeroModule(c.modules, aid);
    FindModuleFirst(ms, aid, 0);
    WrongModuleDeleted(c, aid, false);
  }

  lemma ZerosOfFive()
    ensures Repeat(5, 0 as byte) == [0, 0, 0, 0, 0]
  {
  }

  /** Names are distinct, none is all zeros, and an open session is not about to load one. */
  predicate NamesOk(c: Card) {
    && NamesDistinct(c.modules)
    && (forall k :: 0 <= k < 32 && c.modules[k].loaded ==> !AllZero(c.modules[k].aid))
    && (c.session.state != Idle ==> !AllZero(c.session.aid))
  }

  /** A registry whose loaded modules were all loaded before, under the same names. */
  predicate Fewer(ms: Registry, next: Registry) {
    forall k :: 0 <= k < 32 && next[k].loaded ==> ms[k].loaded && next[k].aid == ms[k].aid
  }

  lemma DeleteOneNames(c: Card, aid: Aid, f: Flags)
    requires Consistent(c) && NamesOk(c)
    ensures NamesOk(DeleteOne(c, aid, f).0) && Fewer(c.modules, DeleteOne(c, aid, f).0.modules)
  {
    DeleteOneSession(c, aid, f);
    hide Consistent;
    hide DeleteModuleByAid;
    hide DeleteAppByAid;
    hide NamesDistinct;
    hide AllZero;
    if FindModule(c.modules, aid, 0).Some? {
      hide FindModule;
      DeleteModuleNames(c, aid, f.related);
      FewerKeepsNames(c, DeleteModuleByAid(c, aid, f.related).0);
    } else {
      hide FindModule;
      DeleteAppNames(c, aid);
      FewerKeepsNames(c, DeleteAppByAid(c, aid).0);
    }
  }

  lemma FewerKeepsNames(c: Card, r: Card)
    requires NamesOk(c) && Fewer(c.modules, r.modules)
    ensures r.session == c.session ==> NamesOk(r)
  {
    hide AllZero;
  }

  lemma DeleteModuleNames(c: Card, aid: Aid, related: bool)
    requires Consistent(c) && NamesOk(c) && FindModule(c.modules, aid, 0).Some?
    ensures Fewer(c.modules, DeleteModuleByAid(c, aid, related).0.modules)
  {
    var zeros := Repeat(|aid|, 0);
    FindModuleFirst(c.modules, zeros, 0);
    FindModuleFirst(c.modules, aid, 0);
    assert FindModule(c.modules, zeros, 0).None?;
    DeleteModuleIs(c, FindModule(c.modules, aid, 0).value, related);
    hide Consistent;
    hide FindModule;
    hide DeleteModule;
  }

  lemma DeleteAppNames(c: Card, aid: Aid)
    requires Consistent(c)
    ensures Fewer(c.modules, DeleteAppByAid(c, aid).0.modules)
  {
    DeleteAppByAidKeeps(c, aid);
    hide FindApp;
    if AppByAid(c.apps, aid).Some? && AppByAid(c.apps, aid).value != 0 {
      var a := AppByAid(c.apps, aid).value;
      DeleteAppKeeps(c, a);
      if c.apps[a].installed {
        var k, i := DeleteAppIs(c, a);
      }
    }
  }

  lemma {:induction false} DeleteAllNames(c: Card, aids: seq<Aid>, f: Flags, last: int)
    requires Consistent(c) && NamesOk(c)
    ensures NamesOk(DeleteAll(c, aids, f, last).0)
    decreases |aids|
  {
    if aids != [] {
      hide Consistent;
      hide NamesOk;
      DeleteOneNames(c, aids[0], f);
      DeleteOneKeeps(c, aids[0], f);
      hide DeleteOne;
      var (c1, sw, stop) := DeleteOne(c, aids[0], f);
      if !stop {
        DeleteAllNames(c1, aids[1..], f, sw);
      }
    }
  }

  /** A command that would open a session for an all-zero AID. */
  predicate OpensZero(c: Card, cmd: Command) {
    Ins(cmd) == 0xE4 && P1(cmd) == 0 && OpenLoad(c, cmd).1 == OK && AllZero(OpenLoad(c, cmd).0.session.aid)
  }

  lemma SlotNames(ms: Registry, k: ModuleId, m: Module)
    requires NamesDistinct(ms) && FindModule(ms, m.aid, 0) == None
    ensures NamesDistinct(ms[k := m])
  {
    FindModuleFirst(ms, m.aid, 0);
  }

  lemma FinishNames(c: Card)
    requires Consistent(c) && NamesOk(c)
    ensures NamesOk(FinishLoad(c).0)
  {
    FinishIs(c);
    hide FinishLoad;
    hide AllZero;
    var (r, sw) := FinishLoad(c);
    var t := c.session.target;
    if sw == OK {
      SlotNames(c.modules, t, r.modules[t]);
      hide Consistent;
      hide FindModule;
      assert r.modules == c.modules[t := r.modules[t]];
      hide NamesDistinct;
    }
  }

  /** Every command keeps names distinct, as long as none opens a session for an all-zero AID. */
  lemma ProcessNames(c: Card, cmd: Command)
    requires Consistent(c) && NamesOk(c) && !OpensZero(c, cmd)
    ensures NamesOk(Process(c, cmd).0)
  {
    InstallNames(c, cmd);
    OpenKeeps(c, cmd);
    BlockNames(c, cmd);
    FinishNames(c);
    var aids := ParseDelete(Data(cmd), 0, []);
    if aids.Some? {
      DeleteAllNames(c, aids.value, FlagsOf(P1(cmd)), OK);
    }
    hide ParseDelete;
    hide Consistent;
    hide AllZero;
    hide InstallCommand;
    hide DeleteAll;
    hide OpenLoad;
    hide LoadBlock;
    hide FinishLoad;
  }

  lemma BlockNames(c: Card, cmd: Command)
    requires NamesOk(c)
    ensures NamesOk(LoadBlock(c, cmd).0)
  {
    hide AllZero;
  }

  lemma InstallNames(c: Card, cmd: Command)
    requires Consistent(c) && NamesOk(c)
    ensures NamesOk(InstallCommand(c, cmd).0)
  {
    InstallKeeps(c, cmd);
    var names := ParseInstall(Data(cmd), 0, Install([], [], None));
    hide ParseInstall;
    hide InstallApp;
    hide AllZero;
    if names.Some? {
      InstallAppIs(c, names.value.app, names.value.mod, P1(cmd));
    }
    hide Consistent;
  }

  predicate NeverOpensZero(c: Card, cmds: seq<Command>)
    decreases |cmds|
  {
    cmds == [] || (!OpensZero(c, cmds[0]) && NeverOpensZero(Process(c, cmds[0]).0, cmds[1..]))
  }

  /** Over whole runs in which no package with an all-zero AID is loaded, module names stay distinct. */
  lemma {:induction false} NamesStayDistinct(c: Card, cmds: seq<Command>)
    requires Consistent(c) && NamesOk(c) && NeverOpensZero(c, cmds)
    ensures NamesOk(Run(c, cmds))
    decreases |cmds|
  {
    if cmds != [] {
      hide Consistent;
      hide NamesOk;
      hide Process;
      hide OpensZero;
      ProcessNames(c, cmds[0]);
      ProcessKeeps(c, cmds[0]);
      NamesStayDistinct(Process(c, cmds[0]).0, cmds[1..]);
    }
  }

  // ----- INSTALL and DELETE undo each other -----

  /** Deleting, by its AID, the application an INSTALL made gives back the tables as they were. */
  lemma InstallThenDelete(c: Card, app: Aid, mod: Aid, p1: byte)
    requires Consistent(c) && AidLength(|app|) && InstallApp(c, app, mod, p1).1 == OK
    ensures var (r, sw) := DeleteAppByAid(InstallApp(c, app, mod, p1).0, app);
            && sw == OK && r.apps == c.apps && r.appCount == c.appCount && r.moduleCount == c.moduleCount
            && forall k: ModuleId :: r.modules[k] == c.modules[k].(ids := r.modules[k].ids)
                                     && Instances(r.modules[k]) == Instances(c.modules[k])
  {
    var lifecycle := if p1 == 0 then SELECTABLE else INSTALLED;
    InstallAppIs(c, app, mod, p1);
    AttachesKeeping(c, app, mod, lifecycle);
    var a, k := FreeApp(c.apps, 0).value, FindModule(c.modules, mod, 0).value;
    var c1 := Attach(c, a, k, app, lifecycle);
    NewAppFound(c, app, a, c1.apps[a]);
    DeleteAppByAidKeeps(c1, app);
    FreeAppFirst(c.apps, 0);
    FindModuleFirst(c.modules, mod, 0);
    RemovesLast(c, a, k, app, lifecycle);
  }

  /**
   * After a successful INSTALL a SELECT of the new AID finds the new application, and works exactly when it was
   * installed to be selectable.
   */
  lemma InstalledSelectableIff(c: Card, app: Aid, mod: Aid, p1: byte, cmd: Command)
    requires Consistent(c) && AidLength(|app|) && InstallApp(c, app, mod, p1).1 == OK
    requires Data(cmd) == app && cmd.length > 5
    ensures SelectCommand(InstallApp(c, app, mod, p1).0, cmd) == if p1 == 0 then OK else NOT_NOW
  {
    var lifecycle := if p1 == 0 then SELECTABLE else INSTALLED;
    InstallAppIs(c, app, mod, p1);
    var a, k := FreeApp(c.apps, 0).value, FindModule(c.modules, mod, 0).value;
    NewAppFound(c, app, a, Attach(c, a, k, app, lifecycle).apps[a]);
    hide Consistent;
    hide InstallApp;
    hide FindApp;
    hide FindModule;
    hide FreeApp;
  }

  lemma NewAppFound(c: Card, app: Aid, a: nat, added: App)
    requires Consistent(c) && AidLength(|app|) && AppByAid(c.apps, app).None? && FreeApp(c.apps, 0) == Some(a)
    requires added.installed && added.aid == app
    ensures AppByAid(c.apps[a := added], app) == Some(a)
  {
    FreeAppFirst(c.apps, 0);
    FindAppFirst(c.apps, app, 0);
    var next := c.apps[a := added];
    FindAppFirst(next, app, 0);
    hide Consistent;
    hide FindApp;
    assert next[a].installed && app <= next[a].aid;
    assert forall j :: 0 <= j < 64 && j != a ==> next[j] == c.apps[j];
  }

  lemma RemovesLast(c: Card, a: nat, k: ModuleId, app: Aid, lifecycle: int)
    requires Consistent(c) && 0 < a < 64 && !c.apps[a].installed && c.modules[k].loaded && c.modules[k].count < 16
    requires Consistent(Attach(c, a, k, app, lifecycle))
    ensures var r := DeleteApp(Attach(c, a, k, app, lifecycle), a).0;
            && r.apps == c.apps && r.appCount == c.appCount && r.moduleCount == c.moduleCount
            && forall j: ModuleId :: r.modules[j] == c.modules[j].(ids := r.modules[j].ids)
                                     && Instances(r.modules[j]) == Instances(c.modules[j])
  {
    var c1 := Attach(c, a, k, app, lifecycle);
    var s := Instances(c.modules[k]);
    assert Instances(c1.modules[k]) == s + [a];
    assert AppOk(c.apps[a], a, c.modules) && ModuleOk(c.modules[k], k, c.apps);
    var k2, i := DeleteAppIs(c1, a);
    DetachKeeps(c1, a, k, i);
    hide Consistent;
    hide DeleteApp;
    assert a !in s;
    assert i == |s|;
    assert (s + [a])[..i] + (s + [a])[i + 1..] == s;
    assert c1.apps[a := EMPTY_APP] == c.apps;
  }
}
