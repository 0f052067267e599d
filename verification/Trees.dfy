/** Expression trees with conditionals as programs, and a loop that unwinds the stack. */
module Trees {
  import opened Bytes
  import opened Alu
  import opened Machine
  import opened Postfix
  import opened Control

  /** In a choice a condition of zero, or any other, selects the first branch. */
  datatype Tree =
    | Leaf(value: u32, long: bool)
    | ZeroTest(arg: Tree)
    | Node(op: BinOp, left: Tree, right: Tree)
    | Choice(onZero: bool, cond: Tree, yes: Tree, no: Tree, wide: bool)

  /** The value of a tree; a branch not selected need not have one. */
  function Value(t: Tree): Option<u32> {
    match t
    case Leaf(v, _) => Some(v)
    case ZeroTest(a) =>
      var x := Value(a);
      if x.None? then None else Some(if x.value == 0 then 1 else 0)
    case Node(op, l, r) =>
      var x, y := Value(l), Value(r);
      if x.None? || y.None? then None else Apply(op, x.value, y.value)
    case Choice(onZero, cond, yes, no, _) =>
      var x := Value(cond);
      if x.None? then None else if (x.value == 0) == onZero then Value(yes) else Value(no)
  }

  /** Stack cells that are enough for a tree. */
  function Cells(t: Tree): (n: nat)
    ensures n > 0
  {
    match t
    case Leaf(_, _) => 1
    case ZeroTest(a) => Cells(a)
    case Node(_, l, r) => if Cells(l) > 1 + Cells(r) then Cells(l) else 1 + Cells(r)
    case Choice(_, cond, yes, no, _) =>
      var n := if Cells(yes) > Cells(no) then Cells(yes) else Cells(no);
      if Cells(cond) > n then Cells(cond) else n
  }

  function ProgOf(t: Tree): Prog {
    match t
    case Leaf(v, long) => Push(v, long)
    case ZeroTest(a) => Seq(ProgOf(a), Prog.IsZero)
    case Node(op, l, r) => Seq(Seq(ProgOf(l), ProgOf(r)), Op(op))
    case Choice(onZero, cond, yes, no, wide) => Seq(ProgOf(cond), If(onZero, ProgOf(yes), ProgOf(no), wide))
  }

  /** With enough cells the program of a tree that has a value puts it on the stack. */
  lemma {:induction false} TreeEnds(t: Tree, procs: seq<Prog>, s: seq<u32>, depth: nat, fuel: nat)
    requires Value(t).Some? && |s| + Cells(t) <= STACK_UNITS
    ensures Meaning(ProgOf(t), procs, s, depth, fuel) == Ends(s + [Value(t).value])
    decreases t
  {
    hide Apply;
    hide Meaning;
    match t
    case Leaf(v, long) => PushMeans(v, long, procs, s, depth, fuel);
    case ZeroTest(a) =>
      TreeEnds(a, procs, s, depth, fuel);
      SeqMeans(ProgOf(a), Prog.IsZero, procs, s, depth, fuel);
      IsZeroMeans(procs, s, Value(a).value, depth, fuel);
    case Node(op, l, r) =>
      NodeEnds(t, procs, s, depth, fuel);
    case Choice(onZero, cond, yes, no, wide) =>
      TreeEnds(cond, procs, s, depth, fuel);
      var x := s + [Value(cond).value];
      assert Top(x) == Value(cond).value && Below(x) == s;
      SeqMeans(ProgOf(cond), If(onZero, ProgOf(yes), ProgOf(no), wide), procs, s, depth, fuel);
      IfMeans(onZero, ProgOf(yes), ProgOf(no), wide, procs, x, depth, fuel);
      TreeEnds(if (Value(cond).value == 0) == onZero then yes else no, procs, s, depth, fuel);
  }

  lemma {:induction false} NodeEnds(t: Tree, procs: seq<Prog>, s: seq<u32>, depth: nat, fuel: nat)
    requires t.Node? && Value(t).Some? && |s| + Cells(t) <= STACK_UNITS
    ensures Meaning(ProgOf(t), procs, s, depth, fuel) == Ends(s + [Value(t).value])
    decreases t, 0
  {
    hide Apply;
    hide Meaning;
    var x, y := Value(t.left).value, Value(t.right).value;
    var p, q := ProgOf(t.left), ProgOf(t.right);
    TreeEnds(t.left, procs, s, depth, fuel);
    TreeEnds(t.right, procs, s + [x], depth, fuel);
    SeqMeans(p, q, procs, s, depth, fuel);
    SeqMeans(Seq(p, q), Op(t.op), procs, s, depth, fuel);
    OpMeans(t.op, procs, s, x, y, depth, fuel);
  }

  lemma PushMeans(v: u32, long: bool, procs: seq<Prog>, s: seq<u32>, depth: nat, fuel: nat)
    requires |s| < STACK_UNITS
    ensures Meaning(Push(v, long), procs, s, depth, fuel) == Ends(s + [v])
  {
  }

  lemma IsZeroMeans(procs: seq<Prog>, s: seq<u32>, x: u32, depth: nat, fuel: nat)
    ensures Meaning(Prog.IsZero, procs, s + [x], depth, fuel) == Ends(s + [if x == 0 then 1 else 0])
  {
    assert Below(s + [x]) == s;
    hide Apply;
  }

  lemma OpMeans(op: BinOp, procs: seq<Prog>, s: seq<u32>, x: u32, y: u32, depth: nat, fuel: nat)
    ensures var v := Apply(op, x, y);
            Meaning(Op(op), procs, s + [x] + [y], depth, fuel) == if v.None? then DIVIDES else Ends(s + [v.value])
  {
    var r := s + [x] + [y];
    assert Below(r) == s + [x] && Below(Below(r)) == s && Top(Below(r)) == x && Top(r) == y;
    hide Apply;
  }

  /** Running the code of a tree pushes its value: of each conditional, the branch that the condition selects. */
  lemma TreePushesValue(c: Code, m: State, t: Tree) returns (n: nat)
    requires m.vm == Running && Bounded(m) && Fits(ProgOf(t), []) && Placed(c, m.pc, CodeOf(ProgOf(t), []))
    requires Value(t).Some? && |m.stack| + Cells(t) <= STACK_UNITS
    ensures m.pc + Size(ProgOf(t)) < WORD_LIMIT
    ensures Run(c, m, n) == (m.(stack := m.stack + [Value(t).value], pc := m.pc + Size(ProgOf(t))), Success)
  {
    hide *;
    NoneLinked(c);
    TreeEnds(t, [], m.stack, |m.frames|, 0);
    n := ProgramRuns(c, m, ProgOf(t), [], [], 0);
    var m1 := Stands(c, m, Size(ProgOf(t)), Ends(m.stack + [Value(t).value]), 0, n);
  }

  lemma NoneLinked(c: Code)
    ensures Linked(c, [], [])
  {
  }

  // ----- a backward jump -----

  /** Values other than zero on top of a zero. */
  predicate NonZero(s: seq<u32>) {
    forall x :: x in s ==> x != 0
  }

  /** A loop of nothing but its conditional jump takes values off the stack up to the first zero. */
  lemma {:induction false} UnwindsToZero(procs: seq<Prog>, below: seq<u32>, above: seq<u32>, depth: nat, fuel: nat)
    requires NonZero(above) && fuel >= |above|
    ensures Meaning(DoWhile(Skip, false), procs, below + [0] + above, depth, fuel) == Ends(below)
    decreases |above|
  {
    var s := below + [0] + above;
    DoWhileMeans(Skip, false, procs, s, depth, fuel);
    assert Meaning(Skip, procs, s, depth, fuel) == Ends(s);
    hide Meaning;
    if above == [] {
      assert Below(s) == below && Top(s) == 0;
    } else {
      var less := above[..|above| - 1];
      assert Top(s) == above[|above| - 1] && Top(s) in above && Below(s) == below + [0] + less;
      assert forall x :: x in less ==> x in above;
      UnwindsToZero(procs, below, less, depth, fuel - 1);
    }
  }
}
