/** What the LOAD, INSTALL and SELECT commands answer and do, on any consistent card, from what the tables hold. */
module CardAnswers {
  import opened Bytes
  import opened Tlv
  import opened CardModel
  import opened CardInvariant
  import opened CardCommands
  import opened CardRuns
  import opened CardDelete

  /** The first loaded module of a name. */
  predicate Named(ms: Registry, aid: Aid, k: nat) {
    k < 32 && ms[k].loaded && ms[k].aid == aid && forall j :: 0 <= j < k ==> !(ms[j].loaded && ms[j].aid == aid)
  }

  predicate Unnamed(ms: Registry, aid: Aid) {
    forall j :: 0 <= j < 32 ==> !(ms[j].loaded && ms[j].aid == aid)
  }

  /** The first free entry of each table. */
  predicate FreeEntry(ms: Registry, k: nat) {
    k < 32 && !ms[k].loaded && forall j :: 0 <= j < k ==> ms[j].loaded
  }

  predicate FreeSlot(apps: Apps, a: nat) {
    a < 64 && !apps[a].installed && forall j :: 0 <= j < a ==> apps[j].installed
  }

  predicate AllLoaded(ms: Registry) {
    forall j :: 0 <= j < 32 ==> ms[j].loaded
  }

  predicate AllInstalled(apps: Apps) {
    forall j :: 0 <= j < 64 ==> apps[j].installed
  }

  lemma Searches(ms: Registry, apps: Apps, aid: Aid)
    ensures match FindModule(ms, aid, 0) case None => Unnamed(ms, aid) case Some(k) => Named(ms, aid, k)
    ensures match FreeModule(ms, 0) case None => AllLoaded(ms) case Some(k) => FreeEntry(ms, k)
    ensures match FreeApp(apps, 0) case None => AllInstalled(apps) case Some(a) => FreeSlot(apps, a)
  {
    FindModuleFirst(ms, aid, 0);
    FreeModuleFirst(ms, 0);
    FreeAppFirst(apps, 0);
    hide FindModule;
    hide FreeModule;
    hide FreeApp;
  }

  // ----- INSTALL -----

  /** A new application in a slot, listed last by its module, and nothing else. */
  ghost predicate NewApp(c: Card, a: nat, k: nat, app: Aid, lifecycle: int, r: Card)
    requires a < 64 && k < 32
  {
    && r.apps == c.apps[a := App(true, app, a, k, Some(k), lifecycle)] && r.appCount == c.appCount + 1
    && Instances(r.modules[k]) == Instances(c.modules[k]) + [a]
    && r.modules[k] == c.modules[k].(ids := r.modules[k].ids, count := c.modules[k].count + 1)
    && (forall j: ModuleId :: j != k ==> r.modules[j] == c.modules[j])
    && r.moduleCount == c.moduleCount && r.session == c.session
  }

  /** INSTALL of an application from a module, each given by its AID. */
  ghost predicate Installs(c: Card, app: Aid, mod: Aid, p1: byte, r: Card, sw: int) {
    if Unnamed(c.modules, mod) then r == c && sw == 0x6A88
    else if !NoMatch(c.apps, app) then r == c && sw == 0x6A89
    else if AllInstalled(c.apps) then r == c && sw == 0x6F00
    else
      exists k: nat, a: nat :: Named(c.modules, mod, k) && FreeSlot(c.apps, a) &&
        if c.modules[k].count == 16 then r == c && sw == 0x6F00
        else sw == 0x9000 && NewApp(c, a, k, app, if p1 == 0 then 7 else 3, r)
  }

  lemma InstallDoes(c: Card, app: Aid, mod: Aid, p1: byte)
    requires Consistent(c) && AidLength(|app|)
    ensures Installs(c, app, mod, p1, InstallApp(c, app, mod, p1).0, InstallApp(c, app, mod, p1).1)
  {
    Searches(c.modules, c.apps, mod);
    MatchFound(c.apps, app);
    InstallAppIs(c, app, mod, p1);
    InstallRefuses(c, app, mod, p1);
    hide Consistent;
    hide InstallApp;
    hide FindModule;
    hide FreeApp;
    hide FreeModule;
    hide AppByAid;
    if CanInstall(c, app, mod) {
      var a, k := FreeApp(c.apps, 0).value, FindModule(c.modules, mod, 0).value;
      AttachIs(c, a, k, app, if p1 == 0 then SELECTABLE else INSTALLED);
      assert Named(c.modules, mod, k) && FreeSlot(c.apps, a);
    }
    hide Named;
    hide FreeSlot;
    hide Attach;
    hide NewApp;
  }

  lemma AttachIs(c: Card, a: nat, k: ModuleId, app: Aid, lifecycle: int)
    requires 0 < a < 64 && c.modules[k].count < 16
    ensures NewApp(c, a, k, app, lifecycle, Attach(c, a, k, app, lifecycle))
  {
  }

  lemma InstallRefuses(c: Card, app: Aid, mod: Aid, p1: byte)
    ensures InstallApp(c, app, mod, p1).1 ==
            if FindModule(c.modules, mod, 0).None? then 0x6A88
            else if AppByAid(c.apps, app).Some? then 0x6A89
            else InstallApp(c, app, mod, p1).1
    ensures FindModule(c.modules, mod, 0).Some? && AppByAid(c.apps, app).None? ==>
              InstallApp(c, app, mod, p1).1 == OK || InstallApp(c, app, mod, p1).1 == 0x6F00
  {
    hide FindModule;
    hide AppByAid;
    hide RegisterApp;
    hide AddInstance;
    hide DeleteApp;
  }

  /** INSTALL as a command: with another mode or malformed data it is refused, else it does what its AIDs say. */
  lemma InstallCommandMeans(c: Card, cmd: Command)
    requires Consistent(c) && Ins(cmd) == 0xE2
    ensures var (r, sw) := Process(c, cmd);
            var names := ParseInstall(Data(cmd), 0, Install([], [], None));
            if P1(cmd) != 0 && P1(cmd) != 2 then r == c && sw == 0x6A86
            else if names.None? then r == c && sw == 0x6A80
            else Installs(c, names.value.app, names.value.mod, P1(cmd), r, sw)
  {
    var names := ParseInstall(Data(cmd), 0, Install([], [], None));
    assert Lc(cmd) == 0 ==> names.None?;
    if names.Some? {
      InstallAidsSized(Data(cmd), 0, Install([], [], None));
      InstallDoes(c, names.value.app, names.value.mod, P1(cmd));
    }
    hide ParseInstall;
    hide Installs;
    hide InstallApp;
    hide Consistent;
  }

  // ----- LOAD -----

  /** Opening a session, from the package AID that the data names. */
  ghost predicate Opens(c: Card, aid: Aid, r: Card, sw: int) {
    if !Unnamed(c.modules, aid) then r == c && sw == 0x6A89
    else if AllLoaded(c.modules) then r == c && sw == 0x6A84
    else
      exists k: nat :: FreeEntry(c.modules, k) && sw == 0x9000 && r == c.(session := Session(Initialized, k, aid, []))
  }

  lemma OpenMeans(c: Card, cmd: Command)
    requires Consistent(c) && c.session.state == Idle && cmd.length >= 5
    ensures var (r, sw) := OpenLoad(c, cmd);
            match PackageAid(Data(cmd), AfterData(cmd))
            case Endless => r == c && sw == NO_ANSWER
            case Malformed => r == c && sw == 0x6A80
            case Named(aid) => Opens(c, aid, r, sw)
  {
    var parsed := PackageAid(Data(cmd), AfterData(cmd));
    hide PackageAid;
    if parsed.Named? {
      Searches(c.modules, c.apps, parsed.aid);
      if FreeModule(c.modules, 0).Some? {
        RoomLeft(c, FreeModule(c.modules, 0).value);
      }
    }
    hide Consistent;
    hide FindModule;
    hide FreeModule;
    hide FreeApp;
  }

  lemma RoomLeft(c: Card, k: nat)
    requires Consistent(c) && k < 32 && !c.modules[k].loaded
    ensures c.moduleCount < 32
  {
    LoadedAfter(c.modules, k, BLANK_MODULE.(loaded := true));
  }

  /** What the LOAD commands answer apart from that. */
  lemma LoadMeans(c: Card, cmd: Command)
    requires Ins(cmd) == 0xE4
    ensures var (r, sw) := Process(c, cmd);
            var s := c.session;
            match P1(cmd) as int
            case 0 => (r, sw) == (if s.state != Idle then (c, 0x6985) else if cmd.length < 5 then (c, 0x6A80)
                                  else OpenLoad(c, cmd))
            case 1 =>
              if s.state == Idle then r == c && sw == 0x6985
              else if cmd.length < 5 then r == c && sw == 0x6A80
              else if |s.buffer + Data(cmd)| > 16384 then r == c.(session := NO_SESSION) && sw == 0x6A84
              else sw == 0x9000 && r == c.(session := Session(LoadingBlocks, s.target, s.aid, s.buffer + Data(cmd)))
            case 2 =>
              (s.state != LoadingBlocks ==> r == c && sw == 0x6985)
              && (s.state == LoadingBlocks && ParseHeader(s.buffer).None? ==>
                    r == c.(session := NO_SESSION) && sw == 0x6A80)
            case _ => r == c && sw == 0x6A86
  {
    hide PackageAid;
    hide FindModule;
    hide FreeModule;
    hide ImportsOf;
    hide SectionsFit;
    hide ReadU32Be;
  }

  // ----- SELECT -----

  /** SELECT by the beginning of an AID finds the first installed application, which must be ready. */
  lemma SelectMeans(c: Card, cmd: Command)
    requires Ins(cmd) == 0xA4
    ensures var (r, sw) := Process(c, cmd);
            var n := Lc(cmd);
            && r == c
            && (n == 0 || cmd.length <= 5 ==> sw == 0x9000)
            && (n > 0 && cmd.length > 5 && !(5 <= n <= 16) ==> sw == 0x6A80)
            && (5 <= n <= 16 && cmd.length > 5 && NoMatch(c.apps, Data(cmd)) ==> sw == 0x6A82)
            && (5 <= n <= 16 && cmd.length > 5 ==>
                  forall a: nat :: FirstMatch(c.apps, Data(cmd), a) ==>
                    sw == if c.apps[a].lifecycle == 7 || c.apps[a].lifecycle == 15 then 0x9000 else 0x6985)
  {
    var n, data := Lc(cmd), Data(cmd);
    if 5 <= n <= 16 {
      MatchFound(c.apps, data);
      hide AppByAid;
      if AppByAid(c.apps, data).Some? {
        assert forall a: nat :: FirstMatch(c.apps, data, a) ==> a == AppByAid(c.apps, data).value;
      }
    }
  }

  /** Any other instruction changes nothing. */
  lemma OtherInstructions(c: Card, cmd: Command)
    requires Ins(cmd) != 0xA4 && Ins(cmd) != 0xE2 && Ins(cmd) != 0xE4 && Ins(cmd) != 0xE6
    ensures Process(c, cmd) == (c, 0x6D00)
  {
  }
}
