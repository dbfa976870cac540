/** Moving a branch to another address: what the copied instructions do there. */
module Arm64Copy {
  import opened Prelude
  import opened Addresses
  import opened Arm64
  import opened Arm64Encode
  import opened Arm64Mov

  // ---- What copied code does ----

  /** Where the words of `ws`, one behind the other, lead: run until the last one is done or control
      goes elsewhere. */
  function Through(step: Semantics, ws: seq<Word>, s: Cpu): Option<Cpu>
    requires ws != []
  {
    match step(ws[0], s)
    case None => None
    case Some(t) => if |ws| > 1 && t.pc == Plus(s.pc, 4) then Through(step, ws[1..], t) else Some(t)
  }

  /** That is running the code in memory for some number of steps. */
  lemma {:induction false} ThroughRuns(step: Semantics, code: seq<Word>, base: Address, i: nat, s: Cpu) returns (n: nat)
    requires i < |code| && base + 4 * |code| < TWO64 && s.pc == base + 4 * i
    requires Through(step, code[i..], s).Some?
    ensures 0 < n <= |code| - i && Run(step, code, base, s, n) == Through(step, code[i..], s)
    decreases |code| - i
  {
    var t := step(code[i], s).value;
    n := 1;
    if i + 1 < |code| && t.pc == Plus(s.pc, 4) {
      assert code[i..][1..] == code[i + 1..];
      n := ThroughRuns(step, code, base, i + 1, t);
      n := n + 1;
    } else {
      assert Run(step, code, base, t, 0) == Some(t);
    }
  }

  lemma {:induction false} ExecThrough(step: Semantics, ws: seq<Word>, rest: seq<Word>, s: Cpu)
    requires Exec(step, ws, s).Some? && rest != []
    ensures Through(step, ws + rest, s) == Through(step, rest, Exec(step, ws, s).value)
    ensures Exec(step, ws, s).value.pc == Plus(s.pc, 4 * |ws|)
  {
    if ws == [] {
      assert ws + rest == rest;
    } else {
      var t := step(ws[0], s).value;
      assert (ws + rest)[1..] == ws[1..] + rest;
      ExecThrough(step, ws[1..], rest, t);
      PlusPlus(s.pc, 4, 4 * |ws[1..]|);
    }
  }

  lemma PlusPlus(a: int, b: int, c: int)
    ensures Plus(Plus(a, b), c) == Plus(a, b + c)
  {
  }

  // ---- The copies ----

  lemma PlusWraps(a: int, d: int)
    requires -TWO64 <= a + d < 2 * TWO64
    ensures Plus(a, d) == if a + d < 0 then a + d + TWO64 else if a + d < TWO64 then a + d else a + d - TWO64
  {
  }

  /** Going the distance from `b` leads to `a`, and between word-aligned addresses it is whole words. */
  lemma DistanceLeads(a: Address, b: Address)
    ensures Plus(b, Distance(a, b)) == a
    ensures a % 4 == 0 && b % 4 == 0 ==> Distance(a, b) % 4 == 0
  {
    PlusWraps(b, Distance(a, b));
    if a % 4 == 0 && b % 4 == 0 {
      WholeWords(a, b);
    }
  }

  lemma WholeWords(a: Address, b: Address)
    requires a % 4 == 0 && b % 4 == 0
    ensures Distance(a, b) % 4 == 0
  {
  }

  /** The distances that the code sends in a branch itself; a test of a bit could reach further. */
  function Near(t: Test): int {
    if t.Bit? then 0x2000 else 0x10_0000
  }

  datatype Form = Short | Skip | Far

  function FormOf(t: Test, target: Address, dest: Address): Form {
    if -Near(t) <= Distance(target, dest) < Near(t) then Short
    else if -0x800_0000 <= Distance(target, Plus(dest, 4)) < 0x800_0000 then Skip
    else Far
  }

  /** The opposite test, by flipping the lowest bit of the condition. */
  function Invert(t: Test): (r: Test)
    ensures IsTest(t) ==> IsTest(r)
  {
    match t
    case Flags(cond) => Flags(if cond % 2 == 0 then cond + 1 else cond - 1)
    case Zero(size, nz, rt) => Zero(size, if nz == 0 then 1 else 0, rt)
    case Bit(size, nz, rt, bit) => Bit(size, if nz == 0 then 1 else 0, rt, bit)
  }

  /** The copy of a branch on a test: the branch itself; or the opposite one over a B; or x17 loaded with
      the target, and the opposite branch over a BR. */
  function BranchWords(t: Test, target: Address, dest: Address): (ws: seq<Word>)
    requires IsTest(t)
    ensures 1 <= |ws| <= 6
  {
    match FormOf(t, target, dest)
    case Short => [AssembleTest(t, Distance(target, dest))]
    case Skip => [AssembleTest(Invert(t), 8), AssembleB(0, Distance(target, Plus(dest, 4)))]
    case Far => MovWords(17, target) + [AssembleTest(Invert(t), 8), AssembleBr(17)]
  }

  /** The copy of a B: a B, or x17 loaded with the target and a BR. */
  function BWords(target: Address, dest: Address): (ws: seq<Word>)
    ensures 1 <= |ws| <= 5
  {
    if -0x800_0000 <= Distance(target, dest) < 0x800_0000 then [AssembleB(0, Distance(target, dest))]
    else MovWords(17, target) + [AssembleBr(17)]
  }

  // ---- What one word of a copy does ----

  lemma TestStep(step: Semantics, t: Test, delta: int, s: Cpu)
    requires IsA64(step) && IsTest(t) && delta % 4 == 0 && -Near(t) <= delta < Near(t)
    ensures step(AssembleTest(t, delta), s) == Some(s.(pc := if Holds(t, s) then Plus(s.pc, delta) else Plus(s.pc, 4)))
  {
    var w := AssembleTest(t, delta);
    assert step(w, s) == Step(w, s);
    FieldSigned(delta, Width(t));
    match t
    case Flags(cond) => BccDecodes(cond, delta);
    case Zero(size, nz, rt) => CbzDecodes(size, nz, rt, delta);
    case Bit(size, nz, rt, bit) => TbzDecodes(size, nz, rt, bit, delta);
  }

  lemma BStep(step: Semantics, delta: int, s: Cpu)
    requires IsA64(step) && delta % 4 == 0 && -0x800_0000 <= delta < 0x800_0000
    ensures step(AssembleB(0, delta), s) == Some(s.(pc := Plus(s.pc, delta)))
  {
    var w := AssembleB(0, delta);
    assert step(w, s) == Step(w, s);
    FieldSigned(delta, 0x400_0000);
    BDecodes(0, delta);
  }

  lemma BrStep(step: Semantics, s: Cpu)
    requires IsA64(step) && IsCpu(s)
    ensures step(AssembleBr(17), s) == Some(s.(pc := s.x[17]))
  {
    var w := AssembleBr(17);
    assert step(w, s) == Step(w, s);
    BrDecodes(17);
  }

  // ---- What a copy does ----

  /** The registers a copy leaves: x17 is lost in the far form. */
  function Left(s: Cpu, form: Form, target: Address): Cpu {
    if form.Far? then SetReg(s, 17, target) else s
  }

  /** Whether the copy goes to the target. */
  function Taken(t: Test, form: Form, target: Address, s: Cpu): bool {
    if form.Short? then Holds(t, s) else !Holds(Invert(t), Left(s, form, target))
  }

  lemma {:induction false} SkipThrough(step: Semantics, t: Test, last: Word, target: Address, s: Cpu)
    requires IsA64(step) && IsTest(t)
    requires !Holds(Invert(t), s) ==> step(last, s.(pc := Plus(s.pc, 4))) == Some(s.(pc := target))
    ensures Through(step, [AssembleTest(Invert(t), 8), last], s) ==
            Some(s.(pc := if Holds(Invert(t), s) then Plus(s.pc, 8) else target))
  {
    var ws := [AssembleTest(Invert(t), 8), last];
    TestStep(step, Invert(t), 8, s);
    assert ws[1..] == [last];
    PlusDiffers(s.pc);
  }

  lemma PlusDiffers(a: Address)
    ensures Plus(a, 8) != Plus(a, 4)
  {
    PlusWraps(a, 4);
    PlusWraps(a, 8);
  }

  /** The copy goes to the target or to its own end, and changes x17 at most. */
  lemma BranchThrough(step: Semantics, t: Test, target: Address, dest: Address, s: Cpu)
    requires IsA64(step) && IsTest(t) && IsCpu(s) && s.pc == dest && target % 4 == 0 && dest % 4 == 0
    ensures var ws, form := BranchWords(t, target, dest), FormOf(t, target, dest);
            Through(step, ws, s) ==
            Some(Left(s, form, target).(pc := if Taken(t, form, target, s) then target else Plus(dest, 4 * |ws|)))
  {
    match FormOf(t, target, dest)
    case Short =>
      DistanceLeads(target, dest);
      TestStep(step, t, Distance(target, dest), s);
    case Skip =>
      var delta := Distance(target, Plus(dest, 4));
      PlusWraps(dest, 4);
      DistanceLeads(target, Plus(dest, 4));
      BStep(step, delta, s.(pc := Plus(dest, 4)));
      SkipThrough(step, t, AssembleB(0, delta), target, s);
    case Far =>
      FarThrough(step, t, target, s);
  }

  lemma FarThrough(step: Semantics, t: Test, target: Address, s: Cpu)
    requires IsA64(step) && IsTest(t) && IsCpu(s)
    ensures var ws := MovWords(17, target) + [AssembleTest(Invert(t), 8), AssembleBr(17)];
            var u := SetReg(s, 17, target);
            Through(step, ws, s) == Some(u.(pc := if Holds(Invert(t), u) then Plus(s.pc, 4 * |ws|) else target))
  {
    MovExec(step, 17, target, s);
    FarFrom(step, t, target, s, MovWords(17, target), [AssembleTest(Invert(t), 8), AssembleBr(17)]);
  }

  /** Behind words that load x17. */
  lemma FarFrom(step: Semantics, t: Test, target: Address, s: Cpu, mov: seq<Word>, tail: seq<Word>)
    requires IsA64(step) && IsTest(t) && IsCpu(s) && tail == [AssembleTest(Invert(t), 8), AssembleBr(17)]
    requires Exec(step, mov, s).Some? && Exec(step, mov, s).value.(pc := s.pc) == SetReg(s, 17, target)
    ensures var u := SetReg(s, 17, target);
            Through(step, mov + tail, s) ==
            Some(u.(pc := if Holds(Invert(t), u) then Plus(s.pc, 4 * (|mov| + 2)) else target))
  {
    ExecThrough(step, mov, tail, s);
    var u := Exec(step, mov, s).value;
    SkipBr(step, t, target, u);
    HoldsAnywhere(Invert(t), u, SetReg(s, 17, target));
    FarLands(s, u, target, Holds(Invert(t), u), |mov|);
  }

  lemma FarLands(s: Cpu, u: Cpu, target: Address, skipped: bool, n: nat)
    requires u.(pc := s.pc) == SetReg(s, 17, target) && u.pc == Plus(s.pc, 4 * n)
    ensures u.(pc := if skipped then Plus(u.pc, 8) else target) ==
            SetReg(s, 17, target).(pc := if skipped then Plus(s.pc, 4 * (n + 2)) else target)
  {
    PlusPlus(s.pc, 4 * n, 8);
  }

  lemma SkipBr(step: Semantics, t: Test, target: Address, u: Cpu)
    requires IsA64(step) && IsTest(t) && IsCpu(u) && u.x[17] == target
    ensures Through(step, [AssembleTest(Invert(t), 8), AssembleBr(17)], u) ==
            Some(u.(pc := if Holds(Invert(t), u) then Plus(u.pc, 8) else target))
  {
    BrStep(step, u.(pc := Plus(u.pc, 4)));
    SkipThrough(step, t, AssembleBr(17), target, u);
  }

  /** A test does not look at the program counter. */
  lemma HoldsAnywhere(t: Test, s: Cpu, u: Cpu)
    requires s == u.(pc := s.pc)
    ensures Holds(t, s) == Holds(t, u)
  {
  }

  /** A copied B goes to the target and changes x17 at most. */
  lemma BThrough(step: Semantics, target: Address, dest: Address, s: Cpu)
    requires IsA64(step) && IsCpu(s) && s.pc == dest && target % 4 == 0 && dest % 4 == 0
    ensures Through(step, BWords(target, dest), s).Some?
    ensures var o := Through(step, BWords(target, dest), s).value;
            o.pc == target && (o == s.(pc := target) || o == SetReg(s, 17, target).(pc := target))
  {
    var delta := Distance(target, dest);
    if -0x800_0000 <= delta < 0x800_0000 {
      DistanceLeads(target, dest);
      BStep(step, delta, s);
    } else {
      MovExec(step, 17, target, s);
      ExecThrough(step, MovWords(17, target), [AssembleBr(17)], s);
      BrStep(step, Exec(step, MovWords(17, target), s).value);
    }
  }

  // ---- When the copy keeps the branch's meaning ----

  /** From state `s`, the copy at `dest` goes to the target if the branch would, and to its own end if
      not, with nothing changed but x17. */
  ghost predicate Keeps(step: Semantics, t: Test, target: Address, dest: Address, s: Cpu)
    requires IsTest(t)
  {
    var ws := BranchWords(t, target, dest);
    match Through(step, ws, s.(pc := dest))
    case None => false
    case Some(o) =>
      && o.pc == (if Holds(t, s) then target else Plus(dest, 4 * |ws|))
      && (o == s.(pc := o.pc) || o == SetReg(s, 17, target).(pc := o.pc))
  }

  /** The conditions under which it does: the branch is sent itself, or its condition has an opposite
      and it does not test the register that the far form overwrites. */
  predicate Safe(t: Test, form: Form) {
    match form
    case Short => true
    case Skip => t.Flags? ==> t.cond < 14
    case Far => if t.Flags? then t.cond < 14 else t.rt != 17
  }

  lemma InvertHolds(t: Test, s: Cpu)
    requires IsTest(t)
    ensures Holds(Invert(t), s) == (if t.Flags? && t.cond >= 14 then true else !Holds(t, s))
  {
    if t.Bit? {
      var v := Reg(s, t.rt) / Pow2(32 * t.size + t.bit);
      assert v % 2 == 0 || v % 2 == 1;
    }
  }

  lemma RegElsewhere(t: Test, s: Cpu, v: Address)
    requires IsTest(t) && IsCpu(s) && (t.Flags? || t.rt != 17)
    ensures Holds(t, SetReg(s, 17, v)) == Holds(t, s)
  {
  }

  /** A safe copy keeps the meaning of the branch in every state. */
  lemma SafeKeeps(step: Semantics, t: Test, target: Address, dest: Address, s: Cpu)
    requires IsA64(step) && IsTest(t) && IsCpu(s) && target % 4 == 0 && dest % 4 == 0
    requires Safe(t, FormOf(t, target, dest))
    ensures Keeps(step, t, target, dest, s)
  {
    var at, form := s.(pc := dest), FormOf(t, target, dest);
    BranchThrough(step, t, target, dest, at);
    HoldsAnywhere(t, at, s);
    InvertHolds(t, Left(at, form, target));
    if form.Far? {
      RegElsewhere(t, at, target);
    }
  }

  // ---- And when it does not ----

  lemma DistanceTo(dest: Address, d: nat)
    requires d < 0x1000
    ensures Distance(Plus(dest, d), dest) == d
  {
    PlusWraps(dest, d);
  }

  /** A target that needs a longer form is not the copy's end. */
  lemma EndIsElsewhere(t: Test, target: Address, dest: Address, n: nat)
    requires !FormOf(t, target, dest).Short? && n <= 6
    ensures target != Plus(dest, 4 * n)
  {
    DistanceTo(dest, 4 * n);
  }

  lemma {:induction false} Pow2Add(a: nat, b: nat)
    ensures Pow2(a + b) == Pow2(a) * Pow2(b)
    decreases a
  {
    if a > 0 {
      Pow2Add(a - 1, b);
    }
  }

  lemma Pow2Of64()
    ensures Pow2(64) == TWO64
  {
    assert Pow2(4) == 0x10;
    Pow2Add(4, 4);
    Pow2Add(8, 8);
    Pow2Add(16, 16);
    Pow2Add(32, 32);
  }

  lemma Pow2Fits(n: nat)
    requires n < 64
    ensures Pow2(n) < TWO64
  {
    Pow2Of64();
    Pow2Add(n, 64 - n);
    assert Pow2(64 - n) == 2 * Pow2(63 - n);
    Twice(Pow2(n), Pow2(63 - n));
  }

  lemma Twice(a: nat, b: nat)
    requires 0 < a && 0 < b
    ensures a < a * (2 * b)
  {
    assert a * b >= a;
    assert a * (2 * b) == a * b + a * b;
  }

  /** A state with `v` in x17. */
  function With17(v: Address): (s: Cpu)
    ensures IsCpu(s) && s.x[17] == v
  {
    Cpu(0, seq(31, i => if i == 17 then v else 0), false, false, false, false)
  }

  /** Some value of x17 makes a test of it come out the other way. */
  lemma Opposite(t: Test, v: Address) returns (u: Address)
    requires IsTest(t) && !t.Flags? && t.rt == 17
    ensures Holds(t, With17(u)) != Holds(t, With17(v))
  {
    if t.Zero? {
      u := if (if t.size == 0 then v % TWO32 else v) == 0 then 1 else 0;
    } else {
      var k := 32 * t.size + t.bit;
      Pow2Fits(k);
      assert Pow2(k) / Pow2(k) == 1;
      u := if v / Pow2(k) % 2 == 0 then Pow2(k) else 0;
      assert u / Pow2(k) % 2 != v / Pow2(k) % 2;
    }
  }

  /** An unsafe copy loses the meaning of the branch in some state. */
  lemma UnsafeFails(step: Semantics, t: Test, target: Address, dest: Address) returns (s: Cpu)
    requires IsA64(step) && IsTest(t) && target % 4 == 0 && dest % 4 == 0
    requires !Safe(t, FormOf(t, target, dest))
    ensures IsCpu(s) && !Keeps(step, t, target, dest, s)
  {
    var form, u := FormOf(t, target, dest), target;
    if !t.Flags? {
      u := Opposite(t, target);
    }
    s := With17(u);
    var at := s.(pc := dest);
    BranchThrough(step, t, target, dest, at);
    EndIsElsewhere(t, target, dest, |BranchWords(t, target, dest)|);
    InvertHolds(t, Left(at, form, target));
    if !t.Flags? {
      assert SetReg(at, 17, target).x == With17(target).x;
      HoldsWith(t, Left(at, form, target), With17(target));
    }
  }

  lemma HoldsWith(t: Test, s: Cpu, u: Cpu)
    requires !t.Flags? && s.x == u.x
    ensures Holds(t, s) == Holds(t, u)
  {
  }

  /** Moving a conditional branch keeps its meaning in all states exactly if the copy is safe. */
  lemma KeepsIffSafe(step: Semantics, t: Test, target: Address, dest: Address)
    requires IsA64(step) && IsTest(t) && target % 4 == 0 && dest % 4 == 0
    ensures (forall s | IsCpu(s) :: Keeps(step, t, target, dest, s)) <==> Safe(t, FormOf(t, target, dest))
  {
    if Safe(t, FormOf(t, target, dest)) {
      forall s | IsCpu(s)
        ensures Keeps(step, t, target, dest, s)
      {
        SafeKeeps(step, t, target, dest, s);
      }
    } else {
      var s := UnsafeFails(step, t, target, dest);
    }
  }
}
