/** What a DELETE command does, AID by AID, and how INSTALL and DELETE undo each other as commands. */
module CardDelete {
  import opened Bytes
  import opened Tlv
  import opened CardModel
  import opened CardInvariant
  import opened CardCommands
  import opened CardRuns
  import opened CardScenario

  // ----- applications -----

  /** The first installed application whose AID starts with the given bytes. */
  predicate FirstMatch(apps: Apps, aid: Aid, a: nat) {
    a < 64 && apps[a].installed && aid <= apps[a].aid
    && forall j :: 0 <= j < a ==> !(apps[j].installed && aid <= apps[j].aid)
  }

  predicate NoMatch(apps: Apps, aid: Aid) {
    forall j :: 0 <= j < 64 ==> !(apps[j].installed && aid <= apps[j].aid)
  }

  /** One application is gone: from its slot and from the list of its module, the others keeping their order. */
  ghost predicate TakenOut(c: Card, a: nat, r: Card) {
    a < 64 && c.apps[a].link.Some? &&
    var k := c.apps[a].link.value;
    var s := Instances(c.modules[k]);
    && r.apps == c.apps[a := EMPTY_APP] && r.appCount + 1 == c.appCount
    && r.moduleCount == c.moduleCount && r.session == c.session
    && (forall j: ModuleId :: j != k ==> r.modules[j] == c.modules[j])
    && r.modules[k] == c.modules[k].(ids := r.modules[k].ids, count := r.modules[k].count)
    && exists i :: 0 <= i < |s| && s[i] == a && Instances(r.modules[k]) == s[..i] + s[i + 1..]
  }

  lemma MatchFound(apps: Apps, aid: Aid)
    requires AidLength(|aid|)
    ensures match AppByAid(apps, aid)
            case None => NoMatch(apps, aid)
            case Some(a) => FirstMatch(apps, aid, a)
  {
    FindAppFirst(apps, aid, 0);
  }

  lemma AppTakenOut(c: Card, a: nat)
    requires Consistent(c) && 0 < a < 64 && c.apps[a].installed
    ensures TakenOut(c, a, DeleteApp(c, a).0) && Consistent(DeleteApp(c, a).0)
  {
    var k, i := DeleteAppIs(c, a);
    DetachKeeps(c, a, k, i);
    hide Consistent;
    hide DeleteApp;
    hide Instances;
    var s := Instances(c.modules[k]);
    assert 0 <= i < |s| && s[i] == a && Instances(Detach(c, a, k, i).modules[k]) == s[..i] + s[i + 1..];
  }

  // ----- one AID -----

  /** Bit 2, 1 or 0 of the first parameter: packages, applications of packages, and what is related. */
  predicate Asks(p1: byte, bit: nat)
    requires bit <= 2
  {
    var n := p1 as int;
    if bit == 2 then n / 4 % 2 == 1 else if bit == 1 then n / 2 % 2 == 1 else n % 2 == 1
  }

  /** The module case, on the registry after the lookup that may rename a module. */
  ghost predicate ModuleStep(c: Card, aid: Aid, related: bool, r: Card, sw: int)
    requires FindModule(NameZeroModule(c.modules, aid), aid, 0).Some?
  {
    var ms := NameZeroModule(c.modules, aid);
    var k := FindModule(ms, aid, 0).value;
    if related || ms[k].count == 0 then
      && sw == 0x9000 && r.modules[k] == ms[k].(loaded := false, imports := [], ids := r.modules[k].ids, count := 0)
      && (forall j: ModuleId :: j != k ==> r.modules[j] == ms[j])
      && (forall b: nat :: b < 64 ==> r.apps[b] == if b in Instances(ms[k]) then EMPTY_APP else c.apps[b])
      && r.session == c.session && r.moduleCount + 1 == c.moduleCount && r.appCount + ms[k].count == c.appCount
    else sw == 0x6985 && r == c.(modules := ms)
  }

  /** One AID of a DELETE: what it does to the card, the status word, and whether the command stops there. */
  ghost predicate OneStep(c: Card, aid: Aid, p1: byte, r: Card, sw: int, stop: bool) {
    if FindModule(c.modules, aid, 0).Some? then
      if !Asks(p1, 2) then r == c && sw == 0x6985 && !stop
      else
        FindModule(NameZeroModule(c.modules, aid), aid, 0).Some?
        && ModuleStep(c, aid, Asks(p1, 0), r, sw) && stop == (sw != 0x9000)
    else
      (NoMatch(c.apps, aid) ==> r == c && sw == 0x6A82 && !stop)
      && forall a: nat :: FirstMatch(c.apps, aid, a) ==>
           if !Asks(p1, 1) && !Asks(p1, 0) then r == c && sw == 0x6985 && !stop
           else if a == 0 then r == c && sw == 0x6985 && stop
           else TakenOut(c, a, r) && sw == 0x9000 && !stop
  }

  lemma FlagsAsked(p1: byte)
    ensures FlagsOf(p1) == Flags(Asks(p1, 2), Asks(p1, 1), Asks(p1, 0))
  {
    BitTwo(p1);
    BitOne(p1);
    BitZero(p1);
    hide Asks;
  }

  lemma BitTwo(p1: byte)
    ensures p1 & 4 != 0 <==> Asks(p1, 2)
  {
  }

  lemma BitOne(p1: byte)
    ensures p1 & 2 != 0 <==> Asks(p1, 1)
  {
  }

  lemma BitZero(p1: byte)
    ensures p1 & 1 != 0 <==> Asks(p1, 0)
  {
  }

  lemma AppOneStep(c: Card, aid: Aid, p1: byte)
    requires Consistent(c) && AidLength(|aid|) && FindModule(c.modules, aid, 0).None?
    ensures var (r, sw, stop) := DeleteOne(c, aid, FlagsOf(p1)); OneStep(c, aid, p1, r, sw, stop)
  {
    FlagsAsked(p1);
    MatchFound(c.apps, aid);
    DeleteAppByAidKeeps(c, aid);
    var found := AppByAid(c.apps, aid);
    if found.Some? && found.value > 0 {
      AppTakenOut(c, found.value);
    }
    hide Consistent;
    hide FindModule;
    hide AppByAid;
    hide DeleteAppByAid;
    hide DeleteApp;
    hide TakenOut;
    hide Asks;
    hide FlagsOf;
    if found.Some? {
      assert forall a: nat :: FirstMatch(c.apps, aid, a) ==> a == found.value;
    }
  }

  lemma ModuleOneStep(c: Card, aid: Aid, p1: byte)
    requires Consistent(c) && FindModule(c.modules, aid, 0).Some?
    ensures var (r, sw, stop) := DeleteOne(c, aid, FlagsOf(p1)); OneStep(c, aid, p1, r, sw, stop)
  {
    FlagsAsked(p1);
    NamingKeeps(c, aid);
    var ms := NameZeroModule(c.modules, aid);
    FindModuleFirst(ms, aid, 0);
    DeleteModuleIs(c.(modules := ms), FindModule(ms, aid, 0).value, Asks(p1, 0));
    hide Consistent;
    hide FindModule;
    hide NameZeroModule;
    hide DeleteModule;
    hide Asks;
    hide FlagsOf;
  }

  // ----- a whole command -----

  /** The AIDs of a DELETE in order, each on the card the ones before it left; the last status word counts. */
  ghost predicate Deletes(c: Card, aids: seq<Aid>, p1: byte, last: int, r: Card, sw: int)
    decreases |aids|
  {
    if aids == [] then r == c && sw == last
    else
      exists c1, sw1, stop ::
        OneStep(c, aids[0], p1, c1, sw1, stop)
        && if stop then r == c1 && sw == sw1 else Deletes(c1, aids[1..], p1, sw1, r, sw)
  }

  lemma {:induction false} AllSteps(c: Card, aids: seq<Aid>, p1: byte, last: int)
    requires Consistent(c) && forall aid :: aid in aids ==> AidLength(|aid|)
    ensures Deletes(c, aids, p1, last, DeleteAll(c, aids, FlagsOf(p1), last).0, DeleteAll(c, aids, FlagsOf(p1), last).1)
    decreases |aids|
  {
    if aids != [] {
      var (c1, sw1, stop) := DeleteOne(c, aids[0], FlagsOf(p1));
      assert aids[0] in aids;
      if FindModule(c.modules, aids[0], 0).Some? {
        ModuleOneStep(c, aids[0], p1);
      } else {
        AppOneStep(c, aids[0], p1);
      }
      DeleteOneKeeps(c, aids[0], FlagsOf(p1));
      hide Consistent;
      hide DeleteOne;
      hide OneStep;
      hide FlagsOf;
      if !stop {
        AllSteps(c1, aids[1..], p1, sw1);
      }
    }
  }

  /** A DELETE command does to the card what its AIDs say, one after the other, or is refused and changes nothing. */
  lemma DeleteCommandMeans(c: Card, cmd: Command)
    requires Consistent(c) && Ins(cmd) == 0xE6
    ensures var (r, sw) := Process(c, cmd);
            var aids := ParseDelete(Data(cmd), 0, []);
            if (!Asks(P1(cmd), 2) && !Asks(P1(cmd), 1)) || aids.None? then r == c && sw == 0x6A80
            else Deletes(c, aids.value, P1(cmd), 0x9000, r, sw)
  {
    var aids := ParseDelete(Data(cmd), 0, []);
    FlagsAsked(P1(cmd));
    if aids.Some? {
      DeleteAidsSized(Data(cmd), 0, []);
      AllSteps(c, aids.value, P1(cmd), OK);
    }
    assert Lc(cmd) == 0 ==> aids.None?;
    DeleteDispatches(c, cmd);
    hide Process;
    hide Consistent;
    hide ParseDelete;
    hide DeleteAll;
    hide Deletes;
    hide Asks;
    hide FlagsOf;
  }

  lemma DeleteDispatches(c: Card, cmd: Command)
    requires Ins(cmd) == 0xE6
    ensures Process(c, cmd) == DeleteCommand(c, cmd)
  {
    hide DeleteCommand;
    hide InstallCommand;
    hide LoadCommand;
    hide Ins;
  }

  // ----- what it comes to -----

  /** A DELETE of one AID that names no loaded module. */
  lemma DeleteOfOneApp(c: Card, cmd: Command, aid: Aid)
    requires Consistent(c) && Ins(cmd) == 0xE6 && ParseDelete(Data(cmd), 0, []) == Some([aid])
    requires FindModule(c.modules, aid, 0).None? && (Asks(P1(cmd), 2) || Asks(P1(cmd), 1))
    ensures var (r, sw) := Process(c, cmd);
            && (NoMatch(c.apps, aid) ==> r == c && sw == 0x6A82)
            && forall a: nat :: FirstMatch(c.apps, aid, a) ==>
                 if a > 0 && (Asks(P1(cmd), 1) || Asks(P1(cmd), 0)) then TakenOut(c, a, r) && sw == 0x9000
                 else r == c && sw == 0x6985
  {
    DeleteCommandMeans(c, cmd);
    hide Process;
    hide Consistent;
    hide ParseDelete;
    hide FindModule;
    hide TakenOut;
    hide Asks;
    var (r, sw) := Process(c, cmd);
    var c1, sw1, stop :| OneStep(c, aid, P1(cmd), c1, sw1, stop)
                         && if stop then r == c1 && sw == sw1 else Deletes(c1, [aid][1..], P1(cmd), sw1, r, sw);
    assert r == c1 && sw == sw1;
    if !NoMatch(c.apps, aid) {
      var a := SomeMatch(c.apps, aid, 0);
    }
  }

  /** If any application matches there is a first one. */
  lemma {:induction false} SomeMatch(apps: Apps, aid: Aid, from: nat) returns (a: nat)
    requires from <= 64 && !NoMatch(apps, aid)
    requires forall j :: 0 <= j < from ==> !(apps[j].installed && aid <= apps[j].aid)
    ensures FirstMatch(apps, aid, a)
    decreases 64 - from
  {
    if from < 64 && apps[from].installed && aid <= apps[from].aid {
      a := from;
    } else {
      a := SomeMatch(apps, aid, from + 1);
    }
  }

  /** The slots that AIDs take out, one after the other, up to one that matches the issuer's domain. */
  ghost function Slots(apps: Apps, aids: seq<Aid>): set<nat>
    decreases |aids|
  {
    if aids == [] then {}
    else if exists a: nat :: FirstMatch(apps, aids[0], a) then
      var a: nat :| FirstMatch(apps, aids[0], a);
      if a == 0 then {} else {a} + Slots(apps[a := EMPTY_APP], aids[1..])
    else Slots(apps, aids[1..])
  }

  /** They are slots of installed applications, each matched by one of the AIDs. */
  lemma {:induction false} SlotsMatch(apps: Apps, aids: seq<Aid>, b: nat)
    requires b in Slots(apps, aids)
    ensures 0 < b < 64 && apps[b].installed && exists aid :: aid in aids && aid <= apps[b].aid
    decreases |aids|
  {
    if exists a: nat :: FirstMatch(apps, aids[0], a) {
      var a: nat :| FirstMatch(apps, aids[0], a);
      assert aids[0] in aids;
      if b != a {
        SlotsMatch(apps[a := EMPTY_APP], aids[1..], b);
        var aid :| aid in aids[1..] && aid <= apps[b].aid;
        assert aid in aids;
      }
    } else {
      SlotsMatch(apps, aids[1..], b);
      var aid :| aid in aids[1..] && aid <= apps[b].aid;
      assert aid in aids;
    }
  }

  /** Modules have the names they had. */
  predicate SameNames(ms: Registry, next: Registry) {
    forall k :: 0 <= k < 32 ==> next[k].loaded == ms[k].loaded && next[k].aid == ms[k].aid
  }

  lemma StillNamed(ms: Registry, next: Registry, aid: Aid)
    requires SameNames(ms, next)
    ensures FindModule(next, aid, 0).None? <==> FindModule(ms, aid, 0).None?
  {
    FindModuleFirst(ms, aid, 0);
    FindModuleFirst(next, aid, 0);
  }

  /** With leave for applications, AIDs that name no loaded module clear exactly their slots. */
  lemma {:induction false} AppsCleared(c: Card, aids: seq<Aid>, p1: byte, last: int, r: Card, sw: int)
    requires Deletes(c, aids, p1, last, r, sw) && (Asks(p1, 1) || Asks(p1, 0))
    requires forall aid :: aid in aids ==> FindModule(c.modules, aid, 0).None?
    ensures forall b: nat :: b < 64 ==> r.apps[b] == if b in Slots(c.apps, aids) then EMPTY_APP else c.apps[b]
    ensures SameNames(c.modules, r.modules) && r.session == c.session && r.moduleCount == c.moduleCount
    decreases |aids|
  {
    hide FindModule;
    hide Asks;
    if aids != [] {
      var c1, sw1, stop :| OneStep(c, aids[0], p1, c1, sw1, stop)
                           && if stop then r == c1 && sw == sw1 else Deletes(c1, aids[1..], p1, sw1, r, sw);
      assert aids[0] in aids && forall aid :: aid in aids[1..] ==> aid in aids;
      if NoMatch(c.apps, aids[0]) {
        assert !exists a: nat :: FirstMatch(c.apps, aids[0], a);
        AppsCleared(c, aids[1..], p1, sw1, r, sw);
      } else {
        var a := SomeMatch(c.apps, aids[0], 0);
        assert forall b: nat :: FirstMatch(c.apps, aids[0], b) ==> b == a;
        if a > 0 {
          forall aid | aid in aids[1..]
            ensures FindModule(c1.modules, aid, 0).None?
          {
            StillNamed(c.modules, c1.modules, aid);
          }
          AppsCleared(c1, aids[1..], p1, sw1, r, sw);
        }
      }
    }
  }

  /** A DELETE command with leave for applications whose AIDs name no loaded module clears exactly their slots. */
  lemma DeleteOfApps(c: Card, cmd: Command, aids: seq<Aid>)
    requires Consistent(c) && Ins(cmd) == 0xE6 && ParseDelete(Data(cmd), 0, []) == Some(aids)
    requires Asks(P1(cmd), 1) || (Asks(P1(cmd), 2) && Asks(P1(cmd), 0))
    requires forall aid :: aid in aids ==> FindModule(c.modules, aid, 0).None?
    ensures var r := Process(c, cmd).0;
            && (forall b: nat :: b < 64 ==> r.apps[b] == if b in Slots(c.apps, aids) then EMPTY_APP else c.apps[b])
            && SameNames(c.modules, r.modules) && r.session == c.session && r.moduleCount == c.moduleCount
  {
    DeleteCommandMeans(c, cmd);
    hide Process;
    hide Consistent;
    hide ParseDelete;
    hide FindModule;
    hide Deletes;
    hide Asks;
    AppsCleared(c, aids, P1(cmd), 0x9000, Process(c, cmd).0, Process(c, cmd).1);
  }

  // ----- INSTALL and DELETE as commands -----

  function InstallCmd(app: Aid, mod: Aid): Command
    requires AidLength(|app|) && AidLength(|mod|)
  {
    Cmd(0xE2, 0, InstallData(app, mod))
  }

  function DeleteAppCmd(app: Aid): Command
    requires AidLength(|app|)
  {
    Cmd(0xE6, 2, AidData(app))
  }

  /** The tables are as before; places of an instance list past its count may differ. */
  predicate SameTables(c: Card, r: Card) {
    r.apps == c.apps && r.appCount == c.appCount && r.moduleCount == c.moduleCount && r.session == c.session
    && forall k: ModuleId :: r.modules[k] == c.modules[k].(ids := r.modules[k].ids)
                             && Instances(r.modules[k]) == Instances(c.modules[k])
  }

  lemma DeleteAppCmdIs(c: Card, app: Aid)
    requires AidLength(|app|)
    ensures Process(c, DeleteAppCmd(app)) == DeleteAll(c, [app], Flags(false, true, false), OK)
  {
    var cmd := DeleteAppCmd(app);
    CmdReads(0xE6, 2, AidData(app));
    AidDataDeletes(app);
    FlagsOfTwo();
    DeleteDispatches(c, cmd);
    hide Process;
    hide Cmd;
    hide AidData;
    hide FlagsOf;
    hide ParseDelete;
    hide DeleteAll;
  }

  lemma FlagsOfTwo()
    ensures FlagsOf(2) == Flags(false, true, false)
  {
  }

  lemma DeleteAppAlone(c: Card, app: Aid)
    requires AppByAid(c.apps, app).Some?
    ensures DeleteAll(c, [app], Flags(false, true, false), OK) ==
            if FindModule(c.modules, app, 0).Some? then (c, NOT_NOW) else DeleteAppByAid(c, app)
  {
    hide DeleteAppByAid;
    hide FindModule;
    hide AppByAid;
    var (c1, sw, stop) := DeleteOne(c, app, Flags(false, true, false));
    assert [app][1..] == [];
    assert DeleteAll(c1, [], Flags(false, true, false), sw) == (c1, sw);
  }

  /** The tables are as before, unless the AID is also that of a loaded module, which refuses the deletion. */
  predicate Undone(c: Card, c1: Card, app: Aid, r: Card, sw: int) {
    if FindModule(c.modules, app, 0).None? then SameTables(c, r) && sw == 0x9000 else r == c1 && sw == 0x6985
  }

  /** A successful INSTALL, then a DELETE of the new AID, undo each other but for one case. */
  lemma InstallThenDeleteCommands(c: Card, app: Aid, mod: Aid)
    requires Consistent(c) && AidLength(|app|) && AidLength(|mod|)
    ensures var (c1, installed) := Process(c, InstallCmd(app, mod));
            var (r, sw) := Process(c1, DeleteAppCmd(app));
            installed == 0x9000 ==> Undone(c, c1, app, r, sw)
  {
    InstallCmdIs(c, app, mod);
    var c1 := InstallApp(c, app, mod, 0).0;
    DeleteAppCmdIs(c1, app);
    if InstallApp(c, app, mod, 0).1 == OK {
      AppUndone(c, app, mod);
    }
    hide Process;
    hide Consistent;
    hide InstallCmd;
    hide DeleteAppCmd;
    hide InstallApp;
    hide DeleteAll;
    hide Undone;
  }

  lemma InstallCmdIs(c: Card, app: Aid, mod: Aid)
    requires AidLength(|app|) && AidLength(|mod|)
    ensures Process(c, InstallCmd(app, mod)) == InstallApp(c, app, mod, 0)
  {
    InstallCommandIs(c, app, mod);
    hide Process;
    hide InstallApp;
  }

  lemma AppUndone(c: Card, app: Aid, mod: Aid)
    requires Consistent(c) && AidLength(|app|) && AidLength(|mod|) && InstallApp(c, app, mod, 0).1 == OK
    ensures var c1 := InstallApp(c, app, mod, 0).0;
            var (r, sw) := DeleteAll(c1, [app], Flags(false, true, false), OK);
            Undone(c, c1, app, r, sw)
  {
    TablesBack(c, app, mod);
    InstalledFound(c, app, mod);
    DeleteAppAlone(InstallApp(c, app, mod, 0).0, app);
    hide Consistent;
    hide InstallApp;
    hide DeleteAll;
    hide DeleteAppByAid;
    hide FindModule;
    hide AppByAid;
    hide SameTables;
  }

  lemma TablesBack(c: Card, app: Aid, mod: Aid)
    requires Consistent(c) && AidLength(|app|) && AidLength(|mod|) && InstallApp(c, app, mod, 0).1 == OK
    ensures var (r, sw) := DeleteAppByAid(InstallApp(c, app, mod, 0).0, app);
            SameTables(c, r) && sw == OK
  {
    InstallThenDelete(c, app, mod, 0);
    InstalledFound(c, app, mod);
    hide Consistent;
    hide InstallApp;
    hide DeleteAppByAid;
    hide Instances;
  }

  lemma InstalledFound(c: Card, app: Aid, mod: Aid)
    requires Consistent(c) && AidLength(|app|) && InstallApp(c, app, mod, 0).1 == OK
    ensures var c1 := InstallApp(c, app, mod, 0).0;
            && AppByAid(c1.apps, app).Some?
            && (FindModule(c1.modules, app, 0).None? <==> FindModule(c.modules, app, 0).None?)
            && DeleteAppByAid(c1, app).0.session == c.session
  {
    InstallAppIs(c, app, mod, 0);
    AttachesKeeping(c, app, mod, SELECTABLE);
    var a, k := FreeApp(c.apps, 0).value, FindModule(c.modules, mod, 0).value;
    var c1 := Attach(c, a, k, app, SELECTABLE);
    NewAppFound(c, app, a, c1.apps[a]);
    StillNamed(c.modules, c1.modules, app);
    DeleteAppByAidKeeps(c1, app);
    hide Consistent;
    hide FindModule;
    hide AppByAid;
    hide FreeApp;
    hide InstallApp;
  }
}
