/** When the names of loaded modules stay distinct: deletions, commands and whole runs. */
module CardNames {
  import opened Bytes
  import opened Tlv
  import opened CardModel
  import opened CardInvariant
  import opened CardCommands
  import opened CardRuns

  // ----- one deletion -----

  /**
   * Whether a deletion renames a module and is then refused: without leave, the first of the two modules that have
   * the name after the renaming has instances.
   */
  predicate LeavesTwo(c: Card, aid: Aid, related: bool)
    requires FindModule(c.modules, aid, 0).Some?
  {
    !related && Misnames(c.modules, aid) &&
    var z, k := FindModule(c.modules, Repeat(|aid|, 0), 0).value, FindModule(c.modules, aid, 0).value;
    c.modules[if z < k then z else k].count > 0
  }

  /** On a card with distinct names a deletion leaves them distinct exactly when it does not do that. */
  lemma DeletionKeepsNamesIff(c: Card, aid: Aid, related: bool)
    requires Consistent(c) && NamesDistinct(c.modules) && FindModule(c.modules, aid, 0).Some?
    ensures NamesDistinct(DeleteModuleByAid(c, aid, related).0.modules) <==> !LeavesTwo(c, aid, related)
    ensures LeavesTwo(c, aid, related) <==>
            Misnames(c.modules, aid) && DeleteModuleByAid(c, aid, related).1 == NOT_NOW
  {
    NamingKeeps(c, aid);
    var ms := NameZeroModule(c.modules, aid);
    FindModuleFirst(ms, aid, 0);
    DeleteModuleIs(c.(modules := ms), FindModule(ms, aid, 0).value, related);
    hide Consistent;
    if Misnames(c.modules, aid) {
      RenamingMakesTwo(c.modules, aid);
    } else {
      NothingRenamed(c.modules, aid);
    }
    hide FindModule;
    hide DeleteModule;
    hide NameZeroModule;
    hide Misnames;
  }

  /** Renaming leaves exactly two modules of the name, and the first of them is found. */
  lemma RenamingMakesTwo(ms: Registry, aid: Aid)
    requires NamesDistinct(ms) && FindModule(ms, aid, 0).Some? && Misnames(ms, aid)
    ensures var z, k := FindModule(ms, Repeat(|aid|, 0), 0).value, FindModule(ms, aid, 0).value;
            var next := NameZeroModule(ms, aid);
            && z != k && FindModule(next, aid, 0) == Some(if z < k then z else k)
            && next == ms[z := ms[z].(aid := aid)]
            && next[z].loaded && next[k].loaded && next[z].aid == next[k].aid == aid
            && forall j :: 0 <= j < 32 && j != z && j != k && next[j].loaded ==> next[j].aid != aid
  {
    var zeros, next := Repeat(|aid|, 0), NameZeroModule(ms, aid);
    FindModuleFirst(ms, aid, 0);
    FindModuleFirst(ms, zeros, 0);
    FindModuleFirst(next, aid, 0);
    hide FindModule;
    var z, k := FindModule(ms, zeros, 0).value, FindModule(ms, aid, 0).value;
    assert ms[z].loaded && ms[z].aid == zeros && ms[k].loaded && ms[k].aid == aid && z != k;
    assert forall j :: 0 <= j < 32 && j != k && ms[j].loaded ==> ms[j].aid != aid;
    assert forall j :: 0 <= j < 32 && j != z ==> next[j] == ms[j];
    assert next[z].loaded && next[z].aid == aid && next[k] == ms[k];
    var first := FindModule(next, aid, 0);
    assert first.Some? && (first.value == z || first.value == k);
  }

  lemma NothingRenamed(ms: Registry, aid: Aid)
    requires FindModule(ms, aid, 0).Some? && !Misnames(ms, aid)
    ensures NameZeroModule(ms, aid) == ms
  {
    FindModuleFirst(ms, Repeat(|aid|, 0), 0);
    hide FindModule;
  }

  // ----- one command -----

  predicate OneLeavesTwo(c: Card, aid: Aid, f: Flags) {
    f.package && FindModule(c.modules, aid, 0).Some? && LeavesTwo(c, aid, f.related)
  }

  lemma DeleteOneNamesIff(c: Card, aid: Aid, f: Flags)
    requires Consistent(c) && NamesDistinct(c.modules)
    ensures NamesDistinct(DeleteOne(c, aid, f).0.modules) <==> !OneLeavesTwo(c, aid, f)
    ensures OneLeavesTwo(c, aid, f) ==> DeleteOne(c, aid, f).2
  {
    if FindModule(c.modules, aid, 0).Some? {
      DeletionKeepsNamesIff(c, aid, f.related);
    } else {
      DeleteAppNames(c, aid);
    }
    hide Consistent;
    hide FindModule;
    hide DeleteModuleByAid;
    hide DeleteAppByAid;
    hide LeavesTwo;
  }

  /** Whether one of the deletions of a DELETE command does that; it is then the last one. */
  predicate AllLeaveTwo(c: Card, aids: seq<Aid>, f: Flags)
    decreases |aids|
  {
    aids != [] &&
    (OneLeavesTwo(c, aids[0], f) ||
     (var (c1, sw, stop) := DeleteOne(c, aids[0], f); !stop && AllLeaveTwo(c1, aids[1..], f)))
  }

  lemma {:induction false} DeleteAllNamesIff(c: Card, aids: seq<Aid>, f: Flags, last: int)
    requires Consistent(c) && NamesDistinct(c.modules)
    ensures NamesDistinct(DeleteAll(c, aids, f, last).0.modules) <==> !AllLeaveTwo(c, aids, f)
    decreases |aids|
  {
    if aids != [] {
      DeleteOneNamesIff(c, aids[0], f);
      DeleteOneKeeps(c, aids[0], f);
      hide Consistent;
      hide NamesDistinct;
      hide OneLeavesTwo;
      hide DeleteOne;
      var (c1, sw, stop) := DeleteOne(c, aids[0], f);
      if !stop {
        DeleteAllNamesIff(c1, aids[1..], f, sw);
      }
    }
  }

  /** A DELETE command with such a deletion. */
  predicate CommandLeavesTwo(c: Card, cmd: Command) {
    var f, aids := FlagsOf(P1(cmd)), ParseDelete(Data(cmd), 0, []);
    Ins(cmd) == 0xE6 && f.package && aids.Some? && AllLeaveTwo(c, aids.value, f)
  }

  lemma DeleteNamesIff(c: Card, cmd: Command)
    requires Consistent(c) && NamesDistinct(c.modules) && Ins(cmd) == 0xE6
    ensures NamesDistinct(DeleteCommand(c, cmd).0.modules) <==> !CommandLeavesTwo(c, cmd)
  {
    var f, aids := FlagsOf(P1(cmd)), ParseDelete(Data(cmd), 0, []);
    assert Lc(cmd) == 0 ==> Data(cmd) == [];
    if aids.Some? {
      DeleteAllNamesIff(c, aids.value, f, OK);
      AppsOnly(c, aids.value, f);
    }
    hide Consistent;
    hide NamesDistinct;
    hide FlagsOf;
    hide AllLeaveTwo;
    hide DeleteAll;
  }

  lemma {:induction false} AppsOnly(c: Card, aids: seq<Aid>, f: Flags)
    ensures AllLeaveTwo(c, aids, f) ==> f.package
    decreases |aids|
  {
    if aids != [] {
      hide DeleteOne;
      AppsOnly(DeleteOne(c, aids[0], f).0, aids[1..], f);
    }
  }

  lemma LoadNames(c: Card, cmd: Command)
    requires Consistent(c) && NamesDistinct(c.modules)
    ensures NamesDistinct(LoadCommand(c, cmd).0.modules)
  {
    OpenKeeps(c, cmd);
    BlockKeeps(c, cmd);
    FinishIs(c);
    hide OpenLoad;
    hide LoadBlock;
    hide FinishLoad;
    if P1(cmd) == 2 && FinishLoad(c).1 == OK {
      var t := c.session.target;
      SlotNames(c.modules, t, FinishLoad(c).0.modules[t]);
    }
    hide Consistent;
    hide NamesDistinct;
  }

  lemma InstallLeavesNames(c: Card, cmd: Command)
    requires Consistent(c)
    ensures Fewer(c.modules, InstallCommand(c, cmd).0.modules)
  {
    var names := ParseInstall(Data(cmd), 0, Install([], [], None));
    hide ParseInstall;
    hide InstallApp;
    if names.Some? {
      InstallAppIs(c, names.value.app, names.value.mod, P1(cmd));
    }
    hide Consistent;
  }

  /** On a consistent card with distinct names a command leaves them distinct exactly when it has no such deletion. */
  lemma ProcessNamesIff(c: Card, cmd: Command)
    requires Consistent(c) && NamesDistinct(c.modules)
    ensures NamesDistinct(Process(c, cmd).0.modules) <==> !CommandLeavesTwo(c, cmd)
  {
    hide Consistent;
    hide InstallCommand;
    hide DeleteCommand;
    hide LoadCommand;
    if Ins(cmd) == 0xE2 {
      InstallLeavesNames(c, cmd);
    } else if Ins(cmd) == 0xE4 {
      LoadNames(c, cmd);
    } else if Ins(cmd) == 0xE6 {
      DeleteNamesIff(c, cmd);
    }
  }

  // ----- whole runs -----

  predicate DistinctThroughout(c: Card, cmds: seq<Command>)
    decreases |cmds|
  {
    NamesDistinct(c.modules) && (cmds != [] ==> DistinctThroughout(Process(c, cmds[0]).0, cmds[1..]))
  }

  predicate NeverLeavesTwo(c: Card, cmds: seq<Command>)
    decreases |cmds|
  {
    cmds != [] ==> !CommandLeavesTwo(c, cmds[0]) && NeverLeavesTwo(Process(c, cmds[0]).0, cmds[1..])
  }

  /** Names stay distinct all through a run exactly when no deletion in it renames a module and is then refused. */
  lemma {:induction false} NamesStayDistinctIff(c: Card, cmds: seq<Command>)
    requires Consistent(c) && NamesDistinct(c.modules)
    ensures DistinctThroughout(c, cmds) <==> NeverLeavesTwo(c, cmds)
    decreases |cmds|
  {
    if cmds != [] {
      ProcessNamesIff(c, cmds[0]);
      ProcessKeeps(c, cmds[0]);
      hide Consistent;
      hide Process;
      hide CommandLeavesTwo;
      hide NamesDistinct;
      var next := Process(c, cmds[0]).0;
      if NamesDistinct(next.modules) {
        NamesStayDistinctIff(next, cmds[1..]);
      }
    }
  }
}
