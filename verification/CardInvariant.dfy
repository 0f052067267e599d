/** What every command keeps: the module registry and the application table describe each other. */
module CardInvariant {
  import opened Bytes
  import opened Tlv
  import opened CardModel

  // ----- the invariant -----

  predicate Distinct(s: seq<nat>) {
    forall i, j :: 0 <= i < j < |s| ==> s[i] != s[j]
  }

  /** An installed application other than the issuer's domain is linked to a loaded module that lists it. */
  predicate AppOk(app: App, a: nat, ms: Registry) {
    if a == 0 then app == ISD
    else if !app.installed then app == EMPTY_APP
    else app.id == a && app.link.Some? && app.moduleId == app.link.value
         && ms[app.link.value].loaded && a in Instances(ms[app.link.value])
  }

  /** A loaded module lists distinct ids of installed applications linked to it. */
  predicate ModuleOk(m: Module, k: ModuleId, apps: Apps) {
    m.loaded ==>
      && m.id == k && Distinct(Instances(m))
      && forall a :: a in Instances(m) ==> 0 < a < 64 && apps[a].installed && apps[a].link == Some(k)
  }

  predicate AppsOk(apps: Apps, ms: Registry) {
    forall a: nat :: a < 64 ==> AppOk(apps[a], a, ms)
  }

  predicate ModulesOk(ms: Registry, apps: Apps) {
    forall k: ModuleId :: ModuleOk(ms[k], k, apps)
  }

  /** Installed applications have different AIDs. */
  predicate AidsDistinct(apps: Apps) {
    forall a, b :: 0 <= a < b < 64 && apps[a].installed && apps[b].installed ==> apps[a].aid != apps[b].aid
  }

  function Loaded(ms: seq<Module>): (n: nat)
    ensures n <= |ms|
  {
    if ms == [] then 0 else Loaded(ms[..|ms| - 1]) + if ms[|ms| - 1].loaded then 1 else 0
  }

  function Installed(apps: seq<App>): (n: nat)
    ensures n <= |apps|
  {
    if apps == [] then 0 else Installed(apps[..|apps| - 1]) + if apps[|apps| - 1].installed then 1 else 0
  }

  /** An open session holds a free slot and an AID no loaded module has. */
  predicate SessionOk(s: Session, ms: Registry) {
    s.state == Idle || (!ms[s.target].loaded && FindModule(ms, s.aid, 0) == None)
  }

  predicate Consistent(c: Card) {
    && AppsOk(c.apps, c.modules) && ModulesOk(c.modules, c.apps) && AidsDistinct(c.apps)
    && c.moduleCount == Loaded(c.modules) && c.appCount == Installed(c.apps)
    && SessionOk(c.session, c.modules)
  }

  // ----- counting -----

  function One(b: bool): nat {
    if b then 1 else 0
  }

  lemma {:induction false} LoadedAfter(ms: seq<Module>, k: nat, m: Module)
    requires k < |ms|
    ensures Loaded(ms[k := m]) + One(ms[k].loaded) == Loaded(ms) + One(m.loaded)
    decreases |ms|
  {
    var n := |ms| - 1;
    if k < n {
      assert ms[k := m][..n] == ms[..n][k := m];
      LoadedAfter(ms[..n], k, m);
    } else {
      assert ms[k := m][..n] == ms[..n];
    }
  }

  lemma {:induction false} InstalledAfter(apps: seq<App>, a: nat, app: App)
    requires a < |apps|
    ensures Installed(apps[a := app]) + One(apps[a].installed) == Installed(apps) + One(app.installed)
    decreases |apps|
  {
    var n := |apps| - 1;
    if a < n {
      assert apps[a := app][..n] == apps[..n][a := app];
      InstalledAfter(apps[..n], a, app);
    } else {
      assert apps[a := app][..n] == apps[..n];
    }
  }

  /** Counts that fit the tables never wrap. */
  lemma CountsFit(c: Card)
    requires Consistent(c)
    ensures c.moduleCount <= 32 && c.appCount <= 64
  {
  }

  // ----- searches -----

  /** A search returns the first loaded module of an AID, or there is none. */
  lemma {:induction false} FindModuleFirst(ms: seq<Module>, aid: Aid, from: nat)
    ensures match FindModule(ms, aid, from)
            case Some(k) =>
              ms[k].loaded && ms[k].aid == aid && forall j :: from <= j < k ==> !(ms[j].loaded && ms[j].aid == aid)
            case None => forall j :: from <= j < |ms| ==> !(ms[j].loaded && ms[j].aid == aid)
    decreases |ms| - from
  {
    if from < |ms| {
      FindModuleFirst(ms, aid, from + 1);
    }
  }

  lemma {:induction false} FindAppFirst(apps: seq<App>, aid: Aid, from: nat)
    ensures match FindApp(apps, aid, from)
            case Some(a) => apps[a].installed && aid <= apps[a].aid
                            && forall j :: from <= j < a ==> !(apps[j].installed && aid <= apps[j].aid)
            case None => forall j :: from <= j < |apps| ==> !(apps[j].installed && aid <= apps[j].aid)
    decreases |apps| - from
  {
    if from < |apps| {
      FindAppFirst(apps, aid, from + 1);
    }
  }

  lemma {:induction false} FreeModuleFirst(ms: seq<Module>, from: nat)
    ensures match FreeModule(ms, from)
            case Some(k) => !ms[k].loaded && forall j :: from <= j < k ==> ms[j].loaded
            case None => forall j :: from <= j < |ms| ==> ms[j].loaded
    decreases |ms| - from
  {
    if from < |ms| {
      FreeModuleFirst(ms, from + 1);
    }
  }

  lemma {:induction false} FreeAppFirst(apps: seq<App>, from: nat)
    ensures match FreeApp(apps, from)
            case Some(a) => !apps[a].installed && forall j :: from <= j < a ==> apps[j].installed
            case None => forall j :: from <= j < |apps| ==> apps[j].installed
    decreases |apps| - from
  {
    if from < |apps| {
      FreeAppFirst(apps, from + 1);
    }
  }

  /** No loaded module has an AID once none had it and the loaded ones keep their AIDs or are gone. */
  lemma StillAbsent(ms: seq<Module>, next: seq<Module>, aid: Aid)
    requires |next| == |ms| && FindModule(ms, aid, 0) == None
    requires forall j :: 0 <= j < |ms| && next[j].loaded ==> next[j].aid != aid || (ms[j].loaded && ms[j].aid == aid)
    ensures FindModule(next, aid, 0) == None
  {
    FindModuleFirst(ms, aid, 0);
    FindModuleFirst(next, aid, 0);
  }

  // ----- the three changes of the tables -----

  /** A new application in a free slot, listed last by its module. */
  function Attach(c: Card, a: nat, k: ModuleId, aid: Aid, lifecycle: int): Card
    requires 0 < a < 64 && c.modules[k].count < 16
  {
    var m := c.modules[k];
    c.(modules := c.modules[k := m.(ids := m.ids[m.count := a], count := m.count + 1)],
       apps := c.apps[a := App(true, aid, a, k, Some(k), lifecycle)],
       appCount := c.appCount + 1)
  }

  lemma AttachModules(c: Card, a: nat, k: ModuleId, aid: Aid, lifecycle: int)
    requires AppsOk(c.apps, c.modules) && ModulesOk(c.modules, c.apps)
    requires 0 < a < 64 && !c.apps[a].installed && c.modules[k].loaded && c.modules[k].count < 16
    ensures var r := Attach(c, a, k, aid, lifecycle);
            ModulesOk(r.modules, r.apps) && Instances(r.modules[k]) == Instances(c.modules[k]) + [a]
  {
    var r := Attach(c, a, k, aid, lifecycle);
    assert Instances(r.modules[k]) == Instances(c.modules[k]) + [a];
    forall j: ModuleId ensures ModuleOk(r.modules[j], j, r.apps) {
      assert ModuleOk(c.modules[j], j, c.apps);
    }
  }

  lemma AttachApps(c: Card, a: nat, k: ModuleId, aid: Aid, lifecycle: int)
    requires AppsOk(c.apps, c.modules)
    requires 0 < a < 64 && !c.apps[a].installed && c.modules[k].loaded && c.modules[k].count < 16
    requires var r := Attach(c, a, k, aid, lifecycle); Instances(r.modules[k]) == Instances(c.modules[k]) + [a]
    ensures var r := Attach(c, a, k, aid, lifecycle); AppsOk(r.apps, r.modules)
  {
    var r := Attach(c, a, k, aid, lifecycle);
    forall b: nat | b < 64 ensures AppOk(r.apps[b], b, r.modules) {
      assert AppOk(c.apps[b], b, c.modules);
    }
  }

  lemma AttachKeeps(c: Card, a: nat, k: ModuleId, aid: Aid, lifecycle: int)
    requires Consistent(c) && 0 < a < 64 && !c.apps[a].installed && c.modules[k].loaded && c.modules[k].count < 16
    requires forall b :: 0 <= b < 64 && c.apps[b].installed ==> c.apps[b].aid != aid
    ensures Consistent(Attach(c, a, k, aid, lifecycle))
    ensures Instances(Attach(c, a, k, aid, lifecycle).modules[k]) == Instances(c.modules[k]) + [a]
  {
    AttachModules(c, a, k, aid, lifecycle);
    AttachApps(c, a, k, aid, lifecycle);
    hide AppOk;
    hide ModuleOk;
    hide Instances;
    hide Loaded;
    hide Installed;
    var r := Attach(c, a, k, aid, lifecycle);
    InstalledAfter(c.apps, a, r.apps[a]);
    LoadedAfter(c.modules, k, r.modules[k]);
    if c.session.state != Idle {
      StillAbsent(c.modules, r.modules, c.session.aid);
    }
  }

  /** An application gone from its slot and from its module's list. */
  function Detach(c: Card, a: nat, k: ModuleId, i: nat): Card
    requires 0 < a < 64 && c.appCount > 0 && i < c.modules[k].count
  {
    var m := c.modules[k];
    c.(modules := c.modules[k := m.(ids := Drop(m.ids, m.count, i), count := m.count - 1)],
       apps := c.apps[a := EMPTY_APP], appCount := c.appCount - 1)
  }

  /** Dropping a place takes that place out of the list of instances. */
  lemma DropInstances(m: Module, i: nat)
    requires i < m.count
    ensures var s := Instances(m);
            Instances(m.(ids := Drop(m.ids, m.count, i), count := m.count - 1)) == s[..i] + s[i + 1..]
  {
  }

  lemma DistinctDrop(s: seq<nat>, i: nat)
    requires Distinct(s) && i < |s|
    ensures Distinct(s[..i] + s[i + 1..])
    ensures forall x :: x in s[..i] + s[i + 1..] <==> x in s && x != s[i]
  {
    var t := s[..i] + s[i + 1..];
    forall x | x in s && x != s[i] ensures x in t {
      var j :| 0 <= j < |s| && s[j] == x;
      assert j < i ==> t[j] == x;
      assert j > i ==> t[j - 1] == x;
    }
  }

  lemma DetachModules(c: Card, a: nat, k: ModuleId, i: nat)
    requires ModulesOk(c.modules, c.apps) && c.appCount > 0
    requires 0 < a < 64 && c.apps[a].installed && c.apps[a].link == Some(k) && c.modules[k].loaded
    requires i < c.modules[k].count && Instances(c.modules[k])[i] == a
    ensures var r, s := Detach(c, a, k, i), Instances(c.modules[k]);
            ModulesOk(r.modules, r.apps) && Instances(r.modules[k]) == s[..i] + s[i + 1..]
            && forall x :: x in Instances(r.modules[k]) <==> x in s && x != a
  {
    var r, s := Detach(c, a, k, i), Instances(c.modules[k]);
    DropInstances(c.modules[k], i);
    assert ModuleOk(c.modules[k], k, c.apps);
    DistinctDrop(s, i);
    hide Instances;
    hide Drop;
    hide Distinct;
    var left := Instances(r.modules[k]);
    assert left == s[..i] + s[i + 1..];
    forall j: ModuleId ensures ModuleOk(r.modules[j], j, r.apps) {
      assert ModuleOk(c.modules[j], j, c.apps);
      if j == k {
        assert forall x :: x in left ==> x in s && x != a;
      } else {
        assert r.modules[j] == c.modules[j];
        assert c.modules[j].loaded ==> a !in Instances(c.modules[j]);
      }
    }
  }

  lemma DetachApps(c: Card, a: nat, k: ModuleId, i: nat)
    requires AppsOk(c.apps, c.modules) && c.appCount > 0
    requires 0 < a < 64 && i < c.modules[k].count
    requires forall x :: x in Instances(c.modules[k]) && x != a ==> x in Instances(Detach(c, a, k, i).modules[k])
    ensures AppsOk(Detach(c, a, k, i).apps, Detach(c, a, k, i).modules)
  {
    var r := Detach(c, a, k, i);
    hide Instances;
    hide Drop;
    forall b: nat | b < 64 ensures AppOk(r.apps[b], b, r.modules) {
      assert AppOk(c.apps[b], b, c.modules);
    }
  }

  lemma DetachKeeps(c: Card, a: nat, k: ModuleId, i: nat)
    requires Consistent(c) && c.appCount > 0
    requires 0 < a < 64 && c.apps[a].installed && c.apps[a].link == Some(k)
    requires i < c.modules[k].count && Instances(c.modules[k])[i] == a
    ensures Consistent(Detach(c, a, k, i))
    ensures var s := Instances(c.modules[k]); Instances(Detach(c, a, k, i).modules[k]) == s[..i] + s[i + 1..]
  {
    assert AppOk(c.apps[a], a, c.modules);
    DetachModules(c, a, k, i);
    DetachApps(c, a, k, i);
    hide AppOk;
    hide ModuleOk;
    hide Instances;
    hide Drop;
    hide Loaded;
    hide Installed;
    var r := Detach(c, a, k, i);
    InstalledAfter(c.apps, a, r.apps[a]);
    LoadedAfter(c.modules, k, r.modules[k]);
    if c.session.state != Idle {
      StillAbsent(c.modules, r.modules, c.session.aid);
    }
  }

  /** A change of what is in a registry slot without instances, before and after. */
  lemma SlotModules(ms: Registry, apps: Apps, k: ModuleId, m: Module)
    requires ModulesOk(ms, apps) && (m.loaded ==> m.id == k && m.count == 0)
    ensures ModulesOk(ms[k := m], apps)
  {
    var next := ms[k := m];
    forall j: ModuleId ensures ModuleOk(next[j], j, apps) {
      assert ModuleOk(ms[j], j, apps);
    }
  }

  lemma SlotApps(ms: Registry, apps: Apps, k: ModuleId, m: Module)
    requires AppsOk(apps, ms) && (ms[k].loaded ==> ms[k].count == 0)
    ensures AppsOk(apps, ms[k := m])
  {
    var next := ms[k := m];
    forall a: nat | a < 64 ensures AppOk(apps[a], a, next) {
      assert AppOk(apps[a], a, ms);
    }
  }

  /** A module registered in a free slot, or gone from one without instances; the session may change too. */
  lemma SlotKeeps(c: Card, k: ModuleId, m: Module, count: nat, session: Session)
    requires Consistent(c) && (m.loaded ==> m.id == k && m.count == 0)
    requires c.modules[k].loaded ==> c.modules[k].count == 0
    requires count + One(c.modules[k].loaded) == c.moduleCount + One(m.loaded)
    requires SessionOk(session, c.modules[k := m])
    ensures Consistent(c.(modules := c.modules[k := m], moduleCount := count, session := session))
  {
    SlotModules(c.modules, c.apps, k, m);
    SlotApps(c.modules, c.apps, k, m);
    LoadedAfter(c.modules, k, m);
  }

  /** Renaming a loaded module keeps everything, unless it takes the AID of an open session. */
  lemma RenameKeeps(c: Card, k: ModuleId, aid: Aid)
    requires Consistent(c) && c.modules[k].loaded
    requires c.session.state == Idle || c.session.aid != aid
    ensures Consistent(c.(modules := c.modules[k := c.modules[k].(aid := aid)]))
  {
    var m := c.modules[k].(aid := aid);
    var ms := c.modules[k := m];
    assert Instances(m) == Instances(c.modules[k]);
    forall j: ModuleId ensures ModuleOk(ms[j], j, c.apps) {
      assert ModuleOk(c.modules[j], j, c.apps);
    }
    forall a: nat | a < 64 ensures AppOk(c.apps[a], a, ms) {
      assert AppOk(c.apps[a], a, c.modules);
    }
    LoadedAfter(c.modules, k, m);
    if c.session.state != Idle {
      StillAbsent(c.modules, ms, c.session.aid);
    }
  }
}
