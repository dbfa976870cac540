/** EmitMovImmediate: the shortest run of MOVN, MOVZ and MOVK it finds leaves the immediate in the register. */
module Arm64Mov {
  import opened Prelude
  import opened Addresses
  import opened Arm64
  import opened Arm64Encode

  // ---- Running straight-line code ----

  /** The words of `ws` one after the other. */
  function Exec(step: Semantics, ws: seq<Word>, s: Cpu): Option<Cpu> {
    if ws == [] then Some(s)
    else
      match step(ws[0], s)
      case None => None
      case Some(t) => if t.pc == Plus(s.pc, 4) then Exec(step, ws[1..], t) else None
  }

  lemma ExecCons(step: Semantics, w: Word, rest: seq<Word>, s: Cpu, t: Cpu)
    requires step(w, s) == Some(t) && t.pc == Plus(s.pc, 4)
    ensures Exec(step, [w] + rest, s) == Exec(step, rest, t)
  {
    assert ([w] + rest)[1..] == rest;
  }

  // ---- Registers as four pieces ----

  ghost predicate ArePieces(p: seq<nat>) {
    |p| == 4 && p[0] < 0x1_0000 && p[1] < 0x1_0000 && p[2] < 0x1_0000 && p[3] < 0x1_0000
  }

  function Join(p: seq<nat>): (v: Address)
    requires ArePieces(p)
  {
    p[0] + 0x1_0000 * p[1] + 0x1_0000_0000 * p[2] + 0x1_0000_0000_0000 * p[3]
  }

  function Pieces(v: Address): (p: seq<nat>)
    ensures ArePieces(p)
  {
    [v % 0x1_0000, v / 0x1_0000 % 0x1_0000, v / 0x1_0000_0000 % 0x1_0000, v / 0x1_0000_0000_0000 % 0x1_0000]
  }

  lemma JoinPieces(v: Address)
    ensures Join(Pieces(v)) == v
  {
    assert v / 0x1_0000_0000 == v / 0x1_0000 / 0x1_0000;
    assert v / 0x1_0000_0000_0000 == v / 0x1_0000_0000 / 0x1_0000;
  }

  /** The pieces of `p` above piece k, and `d` for the others. */
  function Mix(p: seq<nat>, d: nat, k: int): (m: seq<nat>)
    requires ArePieces(p) && d < 0x1_0000 && -1 <= k <= 3
    ensures ArePieces(m)
  {
    [if 0 > k then p[0] else d, if 1 > k then p[1] else d, if 2 > k then p[2] else d, if 3 > k then p[3] else d]
  }

  lemma PieceOf(m: seq<nat>, k: nat)
    requires ArePieces(m) && k < 4
    ensures Join(m) / Unit(k) % 0x1_0000 == m[k]
  {
    Parts(m[0], 0x1_0000, m[1] + 0x1_0000 * m[2] + 0x1_0000_0000 * m[3]);
    Parts(m[0] + 0x1_0000 * m[1], 0x1_0000_0000, m[2] + 0x1_0000 * m[3]);
    Parts(m[0] + 0x1_0000 * m[1] + 0x1_0000_0000 * m[2], 0x1_0000_0000_0000, m[3]);
    Parts(m[1], 0x1_0000, m[2] + 0x1_0000 * m[3]);
    Parts(m[2], 0x1_0000, m[3]);
  }

  /** MOVK puts piece k of `p` among the pieces above it. */
  lemma KeepMixes(p: seq<nat>, d: nat, k: nat)
    requires ArePieces(p) && d < 0x1_0000 && k < 4
    ensures Moved(1, 3, p[k], k, Join(Mix(p, d, k))) == Some(Join(Mix(p, d, k - 1)))
  {
    var m := Mix(p, d, k);
    PieceOf(m, k);
    assert m[k] == d;
    Swap(Join(m), Join(Mix(p, d, k - 1)), p[k], d, k);
  }

  lemma Swap(was: Address, now: Address, new16: nat, old16: nat, k: nat)
    requires k < 4 && new16 < 0x1_0000 && old16 < 0x1_0000
    requires was / Unit(k) % 0x1_0000 == old16 && now == was + (new16 - old16) * Unit(k)
    ensures Moved(1, 3, new16, k, was) == Some(now)
  {
  }

  /** The first move, MOVN or MOVZ, sets the other pieces to the default. */
  lemma FirstMixes(p: seq<nat>, d: nat, k: nat, was: Address)
    requires ArePieces(p) && k < 4 && (d == 0 || d == 0xffff)
    requires forall j | k < j < 4 :: p[j] == d
    ensures Moved(1, if d == 0 then 2 else 0, if d == 0 then p[k] else 0xffff - p[k], k, was) ==
            Some(Join(Mix(p, d, k - 1)))
  {
  }

  // ---- What is emitted ----

  function CountOf(p: seq<nat>, v: nat): nat
    requires |p| == 4
  {
    (if p[3] == v then 1 else 0) + (if p[2] == v then 1 else 0) + (if p[1] == v then 1 else 0) +
    (if p[0] == v then 1 else 0)
  }

  /** The move that the loop emits for piece k. */
  function PieceWord(rd: nat, p: seq<nat>, d: nat, k: nat, first: bool): Word
    requires rd < 0x20 && ArePieces(p) && (d == 0 || d == 0xffff) && k < 4
  {
    if !first then AssembleMov(1, 3, rd, p[k], k)
    else if d == 0xffff then AssembleMov(1, 0, rd, 0xffff - p[k], k)
    else AssembleMov(1, 2, rd, p[k], k)
  }

  /** The words of the loop from piece k down. */
  function MovesFrom(rd: nat, p: seq<nat>, d: nat, k: int, first: bool): (ws: seq<Word>)
    requires rd < 0x20 && ArePieces(p) && (d == 0 || d == 0xffff) && -1 <= k < 4
    ensures |ws| <= k + 1
    ensures first && 0 <= k ==> 0 < |ws|
    decreases k + 1
  {
    if k < 0 then []
    else if p[k] == d && !(k == 0 && first) then MovesFrom(rd, p, d, k - 1, first)
    else [PieceWord(rd, p, d, k, first)] + MovesFrom(rd, p, d, k - 1, false)
  }

  lemma MovesTurn(rd: nat, p: seq<nat>, d: nat, k: nat, first: bool, done: seq<Word>)
    requires rd < 0x20 && ArePieces(p) && (d == 0 || d == 0xffff) && k < 4 && (p[k] != d || (k == 0 && first))
    ensures done + MovesFrom(rd, p, d, k, first) ==
            (done + [PieceWord(rd, p, d, k, first)]) + MovesFrom(rd, p, d, k - 1, false)
  {
    assert done + ([PieceWord(rd, p, d, k, first)] + MovesFrom(rd, p, d, k - 1, false)) ==
           (done + [PieceWord(rd, p, d, k, first)]) + MovesFrom(rd, p, d, k - 1, false);
  }

  function Default(p: seq<nat>): (d: nat)
    requires |p| == 4
    ensures d == 0 || d == 0xffff
  {
    if CountOf(p, 0xffff) > CountOf(p, 0) then 0xffff else 0
  }

  function MovWords(rd: nat, v: Address): (ws: seq<Word>)
    requires rd < 0x20
    ensures 1 <= |ws| <= 4
  {
    var p := Pieces(v);
    if p[3] == 0 && p[2] == 0 && p[1] == 0xffff then [AssembleMov(0, 0, rd, 0xffff - p[0], 0)]
    else MovesFrom(rd, p, Default(p), |p| - 1, true)
  }

  /** How often a value is among the pieces. */
  function Times(p: seq<nat>, v: nat): nat {
    multiset(p)[v]
  }

  lemma CountIsTimes(p: seq<nat>, v: nat)
    requires |p| == 4
    ensures CountOf(p, v) == Times(p, v)
  {
    assert p == [p[0], p[1], p[2], p[3]];
  }

  /** The loop emits one word for each piece that differs from the default, or one for the last. */
  lemma {:induction false} MovesCount(rd: nat, p: seq<nat>, d: nat, k: int, first: bool)
    requires rd < 0x20 && ArePieces(p) && (d == 0 || d == 0xffff) && -1 <= k < 4
    ensures var n := k + 1 - Times(p[..k + 1], d);
            |MovesFrom(rd, p, d, k, first)| == if n == 0 && first && 0 <= k then 1 else n
    decreases k + 1
  {
    if k >= 0 {
      assert p[..k + 1] == p[..k] + [p[k]];
      MovesCount(rd, p, d, k - 1, first);
      MovesCount(rd, p, d, k - 1, false);
    }
  }

  function Most(p: seq<nat>): nat {
    if Times(p, 0xffff) > Times(p, 0) then Times(p, 0xffff) else Times(p, 0)
  }

  lemma LoopCount(rd: nat, p: seq<nat>)
    requires rd < 0x20 && ArePieces(p)
    ensures Default(p) == 0xffff <==> Times(p, 0xffff) > Times(p, 0)
    ensures |MovesFrom(rd, p, Default(p), 3, true)| == if Most(p) == 4 then 1 else 4 - Most(p)
  {
    CountIsTimes(p, 0);
    CountIsTimes(p, 0xffff);
    MovesCount(rd, p, Default(p), 3, true);
    assert p[..4] == p;
  }

  /** There are as few words as moves of single pieces allow: those equal to the more frequent of 0 and 0xffff are left
      out, but one word there is; and a single MOVN of a 32-bit register does for all numbers that it can make. */
  lemma FewWords(rd: nat, v: Address)
    requires rd < 0x20
    ensures var p := Pieces(v);
            && (Default(p) == 0xffff <==> Times(p, 0xffff) > Times(p, 0))
            && |MovWords(rd, v)| == if p[1..] == [0xffff, 0, 0] || Most(p) == 4 then 1 else 4 - Most(p)
  {
    var p := Pieces(v);
    LoopCount(rd, p);
    assert p[1..] == [p[1], p[2], p[3]];
  }

  /** Setting a register twice is setting it once. */
  lemma SetTwice(s: Cpu, t: Cpu, u: Cpu, rd: nat, a: Address, b: Address)
    requires rd < |s.x| && t == SetReg(s, rd, a).(pc := t.pc) && u.(pc := t.pc) == SetReg(t, rd, b)
    ensures u.(pc := s.pc) == SetReg(s, rd, b)
  {
    assert s.x[rd := a][rd := b] == s.x[rd := b];
    assert u == SetReg(t, rd, b).(pc := u.pc);
  }

  /** The loop from piece k down: afterwards the register holds all pieces. */
  lemma {:induction false} MovesExec(step: Semantics, rd: nat, p: seq<nat>, d: nat, k: int, first: bool, s: Cpu)
    requires IsA64(step) && rd < 31 && ArePieces(p) && (d == 0 || d == 0xffff) && -1 <= k < 4 && IsCpu(s)
    requires first ==> 0 <= k && forall j | k < j < 4 :: p[j] == d
    requires !first ==> Reg(s, rd) == Join(Mix(p, d, k))
    ensures Exec(step, MovesFrom(rd, p, d, k, first), s).Some?
    ensures Exec(step, MovesFrom(rd, p, d, k, first), s).value.(pc := s.pc) == SetReg(s, rd, Join(p))
    decreases k + 1
  {
    if k < 0 {
      assert Mix(p, d, -1) == p;
      assert s.x[rd := s.x[rd]] == s.x;
    } else if p[k] == d && !(k == 0 && first) {
      assert Mix(p, d, k) == Mix(p, d, k - 1);
      MovesExec(step, rd, p, d, k - 1, first, s);
    } else {
      var t := MoveOne(step, rd, p, d, k, first, s);
      MovesExec(step, rd, p, d, k - 1, false, t);
      var ws, rest := MovesFrom(rd, p, d, k, first), MovesFrom(rd, p, d, k - 1, false);
      ExecCons(step, ws[0], rest, s, t);
      SetTwice(s, t, Exec(step, rest, t).value, rd, Join(Mix(p, d, k - 1)), Join(p));
    }
  }

  /** One word of the loop. */
  lemma MoveOne(step: Semantics, rd: nat, p: seq<nat>, d: nat, k: nat, first: bool, s: Cpu) returns (t: Cpu)
    requires IsA64(step) && rd < 31 && ArePieces(p) && (d == 0 || d == 0xffff) && k < 4 && IsCpu(s)
    requires first ==> forall j | k < j < 4 :: p[j] == d
    requires !first ==> Reg(s, rd) == Join(Mix(p, d, k))
    requires p[k] != d || (k == 0 && first)
    ensures step(MovesFrom(rd, p, d, k, first)[0], s) == Some(t)
    ensures t == SetReg(s, rd, Join(Mix(p, d, k - 1))).(pc := Plus(s.pc, 4))
  {
    t := SetReg(s, rd, Join(Mix(p, d, k - 1))).(pc := Plus(s.pc, 4));
    assert step(MovesFrom(rd, p, d, k, first)[0], s) == Step(MovesFrom(rd, p, d, k, first)[0], s);
    if first {
      FirstMixes(p, d, k, Reg(s, rd));
      if d == 0 {
        MovDecodes(1, 2, rd, p[k], k);
      } else {
        MovDecodes(1, 0, rd, 0xffff - p[k], k);
      }
    } else {
      KeepMixes(p, d, k);
      MovDecodes(1, 3, rd, p[k], k);
    }
  }

  lemma ShortPieces(v: Address)
    requires var p := Pieces(v); p[3] == 0 && p[2] == 0 && p[1] == 0xffff
    ensures v / 0x1_0000 == 0xffff
  {
    JoinPieces(v);
  }

  lemma Movn32(step: Semantics, rd: nat, v: Address, s: Cpu)
    requires IsA64(step) && rd < 31 && IsCpu(s) && v / 0x1_0000 == 0xffff
    ensures Exec(step, [AssembleMov(0, 0, rd, 0xffff - v % 0x1_0000, 0)], s) ==
            Some(SetReg(s, rd, v).(pc := Plus(s.pc, 4)))
  {
    var imm16: nat := 0xffff - v % 0x1_0000;
    var w := AssembleMov(0, 0, rd, imm16, 0);
    MovDecodes(0, 0, rd, imm16, 0);
    assert TWO32 - 1 - imm16 * Unit(0) == v;
    assert step(w, s) == Step(w, s);
  }

  /** The emitted words leave exactly the immediate in the register, and change nothing else. */
  lemma MovExec(step: Semantics, rd: nat, v: Address, s: Cpu)
    requires IsA64(step) && rd < 31 && IsCpu(s)
    ensures Exec(step, MovWords(rd, v), s).Some?
    ensures Exec(step, MovWords(rd, v), s).value.(pc := s.pc) == SetReg(s, rd, v)
  {
    var p := Pieces(v);
    if p[3] == 0 && p[2] == 0 && p[1] == 0xffff {
      ShortPieces(v);
      Movn32(step, rd, v, s);
    } else {
      JoinPieces(v);
      MovesExec(step, rd, p, Default(p), |p| - 1, true, s);
    }
  }
}
