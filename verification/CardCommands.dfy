/** What each command does to a consistent card, and that it leaves it consistent. */
module CardCommands {
  import opened Bytes
  import opened Tlv
  import opened CardModel
  import opened CardInvariant

  // ----- deleting one application -----

  /** On a consistent card an installed application goes from its slot and from its module's list, and nothing else. */
  lemma DeleteAppIs(c: Card, a: nat) returns (k: ModuleId, i: nat)
    requires Consistent(c) && 0 < a < 64 && c.apps[a].installed
    ensures c.apps[a].link == Some(k) && c.modules[k].loaded && c.appCount > 0
    ensures i < c.modules[k].count && Instances(c.modules[k])[i] == a
    ensures DeleteApp(c, a) == (Detach(c, a, k, i), Done)
  {
    k := Linked(c, a);
    hide Consistent;
    var m := c.modules[k];
    var j :| 0 <= j < |Instances(m)| && Instances(m)[j] == a;
    assert m.ids[j] == a;
    i := Position(m.ids, m.count, a, 0).value;
  }

  /** The module an installed application is linked to. */
  lemma Linked(c: Card, a: nat) returns (k: ModuleId)
    requires Consistent(c) && 0 < a < 64 && c.apps[a].installed
    ensures c.apps[a].link == Some(k) && c.modules[k].loaded && c.modules[k].id == k
    ensures a in Instances(c.modules[k]) && 0 < c.appCount <= 64
  {
    assert AppOk(c.apps[a], a, c.modules);
    k := c.apps[a].link.value;
    assert ModuleOk(c.modules[k], k, c.apps);
    InstalledAfter(c.apps, a, EMPTY_APP);
    hide Installed;
  }

  /** Deleting an application works exactly on installed ones but the issuer's domain, and changes nothing else. */
  lemma DeleteAppKeeps(c: Card, a: nat)
    requires Consistent(c)
    ensures Consistent(DeleteApp(c, a).0)
    ensures DeleteApp(c, a).1 == Done <==> 0 < a < 64 && c.apps[a].installed
    ensures DeleteApp(c, a).1 != Done ==> DeleteApp(c, a).0 == c
  {
    if 0 < a < 64 && c.apps[a].installed {
      var k, i := DeleteAppIs(c, a);
      DetachKeeps(c, a, k, i);
    } else {
      assert AppOk(c.apps[0], 0, c.modules);
    }
  }

  // ----- deleting the instances of a module -----

  /** What deleting the applications of a list leaves of a slot. */
  function Cleared(apps: Apps, gone: seq<nat>, b: nat): App
    requires b < 64
  {
    if b in gone then EMPTY_APP else apps[b]
  }

  /** A card after all instances of a module were deleted, seen from before. */
  predicate Drained(c: Card, r: Card, k: ModuleId, todo: seq<nat>) {
    && r.modules[k] == c.modules[k].(ids := r.modules[k].ids, count := 0)
    && (forall j: ModuleId :: j != k ==> r.modules[j] == c.modules[j])
    && (forall b: nat :: b < 64 ==> r.apps[b] == Cleared(c.apps, todo, b))
    && r.session == c.session && r.moduleCount == c.moduleCount && r.appCount + |todo| == c.appCount
  }

  lemma FirstInstance(c: Card, k: ModuleId)
    requires Consistent(c) && c.modules[k].loaded && c.modules[k].count > 0
    ensures var s := Instances(c.modules[k]);
            0 < s[0] < 64 && c.apps[s[0]].installed && c.apps[s[0]].link == Some(k) && Distinct(s)
  {
    var s := Instances(c.modules[k]);
    assert ModuleOk(c.modules[k], k, c.apps);
    assert s[0] in s;
  }

  /** Deleting the first instance of a module leaves the others in place and in order. */
  lemma DeleteFirst(c: Card, k: ModuleId)
    requires Consistent(c) && c.modules[k].loaded && c.modules[k].count > 0
    ensures var s := Instances(c.modules[k]);
            var r := DeleteApp(c, s[0]).0;
            && s[0] != NO_ID && Consistent(r) && Instances(r.modules[k]) == s[1..]
            && r.modules[k] == c.modules[k].(ids := r.modules[k].ids, count := r.modules[k].count)
            && (forall j: ModuleId :: j != k ==> r.modules[j] == c.modules[j])
            && (forall b: nat :: b < 64 ==> r.apps[b] == if b == s[0] then EMPTY_APP else c.apps[b])
            && r.session == c.session && r.moduleCount == c.moduleCount && r.appCount + 1 == c.appCount
  {
    var s := Instances(c.modules[k]);
    FirstInstance(c, k);
    var k2, i := DeleteAppIs(c, s[0]);
    DetachKeeps(c, s[0], k, i);
    assert i == 0;
    assert s[..0] + s[1..] == s[1..];
  }

  /** The loop over the copied ids drains the shifting list: every instance goes, everything else stays. */
  lemma {:induction false} DeleteEachDrains(c: Card, k: ModuleId)
    requires Consistent(c) && c.modules[k].loaded
    ensures var todo := Instances(c.modules[k]);
            Consistent(DeleteEach(c, todo)) && Drained(c, DeleteEach(c, todo), k, todo)
    decreases c.modules[k].count
  {
    var todo := Instances(c.modules[k]);
    if todo != [] {
      var c1 := DeleteApp(c, todo[0]).0;
      DeleteFirst(c, k);
      hide Consistent;
      hide DeleteApp;
      hide Instances;
      DeleteEachDrains(c1, k);
      assert DeleteEach(c, todo) == DeleteEach(c1, todo[1..]);
      hide DeleteEach;
      assert forall b: nat :: b in todo <==> b == todo[0] || b in todo[1..];
    }
  }

  /** A module without instances, or with leave to delete them, always unloads; without leave nothing changes. */
  lemma DeleteModuleIs(c: Card, k: ModuleId, related: bool)
    requires Consistent(c) && c.modules[k].loaded
    ensures var (r, sw) := DeleteModule(c, k, related);
            && Consistent(r)
            && sw == (if related || c.modules[k].count == 0 then OK else NOT_NOW)
            && (sw == NOT_NOW ==> r == c)
            && (sw == OK ==>
                && r.modules[k] == c.modules[k].(loaded := false, imports := [], ids := r.modules[k].ids, count := 0)
                && (forall j: ModuleId :: j != k ==> r.modules[j] == c.modules[j])
                && (forall b: nat :: b < 64 ==> r.apps[b] == Cleared(c.apps, Instances(c.modules[k]), b))
                && r.session == c.session && r.moduleCount + 1 == c.moduleCount
                && r.appCount + c.modules[k].count == c.appCount)
  {
    if related || c.modules[k].count == 0 {
      DeleteEachDrains(c, k);
      hide DeleteEach;
      var todo := Instances(c.modules[k]);
      var c1 := DeleteEach(c, todo);
      UnloadKeeps(c1, k);
    }
  }

  lemma UnloadKeeps(c: Card, k: ModuleId)
    requires Consistent(c) && c.modules[k].loaded && c.modules[k].count == 0
    ensures var (ms, done) := Unload(c.modules, k);
            done == Done && c.moduleCount > 0
            && Consistent(c.(modules := ms, moduleCount := c.moduleCount - 1))
  {
    var m := c.modules[k].(loaded := false, imports := []);
    LoadedAfter(c.modules, k, m);
    if c.session.state != Idle {
      StillAbsent(c.modules, c.modules[k := m], c.session.aid);
    }
    SlotKeeps(c, k, m, c.moduleCount - 1, c.session);
  }

  // ----- DELETE -----

  /** Deleting by AID takes the first application whose AID starts with it, unless that is the issuer's domain. */
  lemma DeleteAppByAidKeeps(c: Card, aid: Aid)
    requires Consistent(c)
    ensures var (r, sw) := DeleteAppByAid(c, aid);
            && Consistent(r)
            && match AppByAid(c.apps, aid)
               case None => sw == NOT_FOUND && r == c
               case Some(a) =>
                 if a == 0 then sw == NOT_NOW && r == c
                 else sw == OK && r == DeleteApp(c, a).0 && r.apps == c.apps[a := EMPTY_APP]
  {
    var found := AppByAid(c.apps, aid);
    if found.Some? {
      FindAppFirst(c.apps, aid, 0);
      assert AppOk(c.apps[found.value], found.value, c.modules);
      DeleteAppKeeps(c, found.value);
    }
  }

  /** The naming of an all-zero module keeps a card consistent when the AID is that of a loaded module. */
  lemma NamingKeeps(c: Card, aid: Aid)
    requires Consistent(c) && FindModule(c.modules, aid, 0).Some?
    ensures var ms := NameZeroModule(c.modules, aid);
            Consistent(c.(modules := ms)) && FindModule(ms, aid, 0).Some?
  {
    var zeros := Repeat(|aid|, 0);
    FindModuleFirst(c.modules, aid, 0);
    FindModuleFirst(c.modules, zeros, 0);
    var z := FindModule(c.modules, zeros, 0);
    var ms := NameZeroModule(c.modules, aid);
    FindModuleFirst(ms, aid, 0);
    if z.Some? {
      assert ms[z.value].loaded && ms[z.value].aid == aid;
      RenameKeeps(c, z.value, aid);
    } else {
      assert c.(modules := ms) == c;
    }
  }

  /** Deleting a module by AID is refused only when it has instances and leave to delete them was not given. */
  lemma DeleteModuleByAidKeeps(c: Card, aid: Aid, related: bool)
    requires Consistent(c) && FindModule(c.modules, aid, 0).Some?
    ensures var (r, sw) := DeleteModuleByAid(c, aid, related);
            var ms := NameZeroModule(c.modules, aid);
            && Consistent(r) && FindModule(ms, aid, 0).Some?
            && sw == if related || ms[FindModule(ms, aid, 0).value].count == 0 then OK else NOT_NOW
  {
    NamingKeeps(c, aid);
    var ms := NameZeroModule(c.modules, aid);
    FindModuleFirst(ms, aid, 0);
    DeleteModuleIs(c.(modules := ms), FindModule(ms, aid, 0).value, related);
  }

  lemma DeleteOneKeeps(c: Card, aid: Aid, f: Flags)
    requires Consistent(c)
    ensures var (r, sw, stop) := DeleteOne(c, aid, f);
            Consistent(r) && sw in {OK, NOT_FOUND, NOT_NOW} && (stop ==> sw == NOT_NOW)
  {
    hide Consistent;
    if FindModule(c.modules, aid, 0).Some? {
      DeleteModuleByAidKeeps(c, aid, f.related);
    } else {
      DeleteAppByAidKeeps(c, aid);
    }
    hide DeleteModuleByAid;
    hide DeleteAppByAid;
    hide FindModule;
  }

  /** A DELETE keeps a card consistent and never fails halfway through a module. */
  lemma {:induction false} DeleteAllKeeps(c: Card, aids: seq<Aid>, f: Flags, last: int)
    requires Consistent(c) && last in {OK, NOT_FOUND, NOT_NOW}
    ensures var (r, sw) := DeleteAll(c, aids, f, last); Consistent(r) && sw in {OK, NOT_FOUND, NOT_NOW}
    decreases |aids|
  {
    if aids != [] {
      hide Consistent;
      hide DeleteOne;
      DeleteOneKeeps(c, aids[0], f);
      var (c1, sw, stop) := DeleteOne(c, aids[0], f);
      if !stop {
        DeleteAllKeeps(c1, aids[1..], f, sw);
      }
    }
  }

  // ----- INSTALL -----

  /** When an INSTALL can succeed: a module to install from, a new AID, a free slot and room in the instance list. */
  predicate CanInstall(c: Card, app: Aid, mod: Aid) {
    && FindModule(c.modules, mod, 0).Some? && AppByAid(c.apps, app).None? && FreeApp(c.apps, 0).Some?
    && c.modules[FindModule(c.modules, mod, 0).value].count < 16
  }

  /** INSTALL attaches one new application, or leaves the card exactly as it was. */
  lemma InstallAppIs(c: Card, app: Aid, mod: Aid, p1: byte)
    requires Consistent(c)
    ensures var (r, sw) := InstallApp(c, app, mod, p1);
            if CanInstall(c, app, mod) then
              var a, k := FreeApp(c.apps, 0).value, FindModule(c.modules, mod, 0).value;
              0 < a && sw == OK && r == Attach(c, a, k, app, if p1 == 0 then SELECTABLE else INSTALLED)
            else sw in {NO_REFERENCE, EXISTS, FAILED} && r == c
  {
    FindModuleFirst(c.modules, mod, 0);
    FreeAppFirst(c.apps, 0);
    if FindModule(c.modules, mod, 0).Some? && AppByAid(c.apps, app).None? && FreeApp(c.apps, 0).Some? {
      var a, k := FreeApp(c.apps, 0).value, FindModule(c.modules, mod, 0).value;
      assert AppOk(c.apps[0], 0, c.modules) && AppOk(c.apps[a], a, c.modules);
      assert ModuleOk(c.modules[k], k, c.apps);
      CountsFit(c);
      hide Consistent;
      if c.modules[k].count >= 16 {
        UnregisterRestores(c, app, a, k);
      }
    }
  }

  /** Undoing a registration whose instance could not be listed gives back the card before it. */
  lemma UnregisterRestores(c: Card, app: Aid, a: nat, k: ModuleId)
    requires 0 < a < 64 && FreeApp(c.apps, 0) == Some(a) && c.apps[a] == EMPTY_APP && c.appCount <= 64
    requires c.modules[k].loaded && c.modules[k].id == k && a !in Instances(c.modules[k])
    ensures var c1 := RegisterApp(c, app, k).0;
            DeleteApp(c1.(apps := c1.apps[a := c1.apps[a].(link := Some(k))]), a) == (c, Done)
  {
    var m := c.modules[k];
    assert Position(m.ids, m.count, a, 0).None? by {
      assert forall j :: 0 <= j < m.count ==> Instances(m)[j] == m.ids[j];
    }
    var c1 := RegisterApp(c, app, k).0;
    var c2 := c1.(apps := c1.apps[a := c1.apps[a].(link := Some(k))]);
    assert c2.apps[a := EMPTY_APP] == c.apps;
  }
}
