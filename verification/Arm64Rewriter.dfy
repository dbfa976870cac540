/** CDetourDis for A64: writes the copies of branches into a buffer. */
module Arm64Rewriter {
  import opened Prelude
  import opened Addresses
  import opened Arm64
  import opened Arm64Encode
  import opened Arm64Mov
  import opened Arm64Copy

  /** The displacement in a field of `size` values, as the code computes it: shifted up to the sign bit of
      a 32-bit number, and back down but for two bits. */
  function Displacement(field: nat, size: nat): int
    requires size == 0x4000 || size == 0x8_0000 || size == 0x400_0000
  {
    if size == 0x4000 then Signed(field * 0x4_0000, TWO32) / 0x1_0000
    else if size == 0x8_0000 then Signed(field * 0x2000, TWO32) / 0x800
    else Signed(field * 0x40, TWO32) / 0x10
  }

  lemma DisplacementIsSigned(field: nat, size: nat)
    requires size == 0x4000 || size == 0x8_0000 || size == 0x400_0000
    requires field < size
    ensures Displacement(field, size) == 4 * Signed(field, size)
  {
  }

  /** The address that a branch at `source` names. */
  function TargetOf(source: Address, i: Instruction): Address
    requires i.Branch? || i.B?
  {
    Plus(source, i.imm)
  }

  class Rewriter {
    /** Where the copy goes, the words written so far, and the target of the branch copied last. */
    const code: array<Word>
    var n: nat
    var target: Address

    constructor (code: array<Word>)
      ensures this.code == code && n == 0
    {
      this.code := code;
      n := 0;
      target := 0;
    }

    ghost function Written(): seq<Word>
      requires n <= code.Length
      reads this, code
    {
      code[..n]
    }

    /** EmitInstruction. */
    method Emit(w: Word)
      requires n < code.Length
      modifies this`n, code
      ensures n == old(n) + 1 && Written() == old(Written()) + [w]
    {
      code[n] := w;
      n := n + 1;
    }

    /** EmitMovImmediate: the returned size is that of the words written, one to four of them. */
    method EmitMovImmediate(rd: nat, immediate: Address) returns (size: nat)
      requires rd < 0x20 && n + 4 <= code.Length
      modifies this`n, code
      ensures n == old(n) + |MovWords(rd, immediate)| && Written() == old(Written()) + MovWords(rd, immediate)
      ensures size == 4 * |MovWords(rd, immediate)|
    {
      var piece := Pieces(immediate);
      var count: nat := 0;
      if piece[3] == 0 && piece[2] == 0 && piece[1] == 0xffff {
        Emit(AssembleMov(0, 0, rd, 0xffff - piece[0], 0));
        count := 1;
      } else {
        count := EmitPieces(rd, piece, Default(piece));
      }
      return 4 * count;
    }

    /** Its loop over the pieces. */
    method EmitPieces(rd: nat, piece: seq<nat>, defaultPiece: nat) returns (count: nat)
      requires rd < 0x20 && ArePieces(piece) && (defaultPiece == 0 || defaultPiece == 0xffff) && n + 4 <= code.Length
      modifies this`n, code
      ensures count == |MovesFrom(rd, piece, defaultPiece, 3, true)| && n == old(n) + count
      ensures Written() == old(Written()) + MovesFrom(rd, piece, defaultPiece, 3, true)
    {
      var first, pieceNum := true, 3;
      ghost var done: seq<Word> := [];
      count := 0;
      while pieceNum >= 0
        invariant -1 <= pieceNum <= 3 && |done| == count <= 3 - pieceNum
        invariant n == old(n) + count && n <= code.Length && Written() == old(Written()) + done
        invariant done + MovesFrom(rd, piece, defaultPiece, pieceNum, first) ==
                  MovesFrom(rd, piece, defaultPiece, 3, true)
      {
        var cur := piece[pieceNum];
        if cur != defaultPiece || (pieceNum == 0 && first) {
          var w := if !first then AssembleMov(1, 3, rd, cur, pieceNum)
                   else if defaultPiece == 0xffff then AssembleMov(1, 0, rd, 0xffff - cur, pieceNum)
                   else AssembleMov(1, 2, rd, cur, pieceNum);
          Emit(w);
          MovesTurn(rd, piece, defaultPiece, pieceNum, first, done);
          done := done + [PieceWord(rd, piece, defaultPiece, pieceNum, first)];
          count, first := count + 1, false;
        }
        pieceNum := pieceNum - 1;
      }
    }

    /** The opposite branch over a word. */
    method EmitSkip(t: Test, w: Word)
      requires IsTest(t) && n + 2 <= code.Length
      modifies this`n, code
      ensures n == old(n) + 2 && Written() == old(Written()) + [AssembleTest(Invert(t), 8), w]
    {
      Emit(AssembleTest(Invert(t), 8));
      Emit(w);
    }

    /** The three forms that CopyBcc, CopyCbz and CopyTbz share. */
    method CopyBranch(t: Test, dest: Address) returns (size: nat)
      requires IsTest(t) && 6 <= code.Length
      modifies this`n, code
      ensures n <= code.Length && Written() == BranchWords(t, target, dest)
      ensures size == 4 * n
    {
      n := 0;
      var delta, delta4 := Distance(target, dest), Distance(target, Plus(dest, 4));
      if -Near(t) <= delta < Near(t) {
        Emit(AssembleTest(t, delta));
      } else if -0x800_0000 <= delta4 < 0x800_0000 {
        EmitSkip(t, AssembleB(0, delta4));
      } else {
        var _ := EmitMovImmediate(17, target);
        EmitSkip(t, AssembleBr(17));
      }
      return 4 * n;
    }

    /** CopyBcc. */
    method CopyBcc(source: Address, dest: Address, instruction: Word) returns (size: nat)
      requires Decode(instruction).Branch? && Decode(instruction).test.Flags? && 6 <= code.Length
      modifies this, code
      ensures n <= code.Length && target == TargetOf(source, Decode(instruction))
      ensures Written() == BranchWords(Decode(instruction).test, target, dest) && size == 4 * n
    {
      var field := instruction / 0x20 % 0x8_0000;
      DisplacementIsSigned(field, 0x8_0000);
      target := Plus(source, Displacement(field, 0x8_0000));
      size := CopyBranch(Flags(instruction % 0x10), dest);
    }

    /** CopyCbz. */
    method CopyCbz(source: Address, dest: Address, instruction: Word) returns (size: nat)
      requires Decode(instruction).Branch? && Decode(instruction).test.Zero? && 6 <= code.Length
      modifies this, code
      ensures n <= code.Length && target == TargetOf(source, Decode(instruction))
      ensures Written() == BranchWords(Decode(instruction).test, target, dest) && size == 4 * n
    {
      var field := instruction / 0x20 % 0x8_0000;
      DisplacementIsSigned(field, 0x8_0000);
      target := Plus(source, Displacement(field, 0x8_0000));
      size := CopyBranch(Zero(instruction / 0x8000_0000, instruction / 0x100_0000 % 2, instruction % 0x20), dest);
    }

    /** CopyTbz. */
    method CopyTbz(source: Address, dest: Address, instruction: Word) returns (size: nat)
      requires Decode(instruction).Branch? && Decode(instruction).test.Bit? && 6 <= code.Length
      modifies this, code
      ensures n <= code.Length && target == TargetOf(source, Decode(instruction))
      ensures Written() == BranchWords(Decode(instruction).test, target, dest) && size == 4 * n
    {
      var field := instruction / 0x20 % 0x4000;
      DisplacementIsSigned(field, 0x4000);
      target := Plus(source, Displacement(field, 0x4000));
      size := CopyBranch(Bit(instruction / 0x8000_0000, instruction / 0x100_0000 % 2, instruction % 0x20,
                             instruction / 0x8_0000 % 0x20), dest);
    }

    /** CopyB, whatever the link bit. */
    method CopyB(source: Address, dest: Address, instruction: Word) returns (size: nat)
      requires Decode(instruction).B? && 6 <= code.Length
      modifies this, code
      ensures n <= code.Length && target == TargetOf(source, Decode(instruction))
      ensures Written() == BWords(target, dest) && size == 4 * n
    {
      n := 0;
      var field := instruction % 0x400_0000;
      DisplacementIsSigned(field, 0x400_0000);
      target := Plus(source, Displacement(field, 0x400_0000));
      var delta := Distance(target, dest);
      if -0x800_0000 <= delta < 0x800_0000 {
        Emit(AssembleB(0, delta));
      } else {
        var _ := EmitMovImmediate(17, target);
        Emit(AssembleBr(17));
      }
      return 4 * n;
    }
  }

  // ---- Instructions before and after ----

  lemma DecodedFields(w: Word)
    requires Decode(w).Branch?
    ensures IsTest(Decode(w).test)
  {
  }

  lemma DecodedDisplacement(w: Word) returns (d: int)
    requires Decode(w).Branch? || Decode(w).B?
    ensures Decode(w).imm == 4 * d
  {
    if Decode(w).B? {
      d := Signed(w % 0x400_0000, 0x400_0000);
    } else if Decode(w).test.Bit? {
      d := Signed(w / 0x20 % 0x4000, 0x4000);
    } else {
      d := Signed(w / 0x20 % 0x8_0000, 0x8_0000);
    }
  }

  /** The displacements of branches are multiples of four, so word-aligned code stays word-aligned. */
  lemma DecodedTest(w: Word, source: Address)
    requires source % 4 == 0 && (Decode(w).Branch? || Decode(w).B?)
    ensures TargetOf(source, Decode(w)) % 4 == 0
    ensures Decode(w).Branch? ==> IsTest(Decode(w).test)
  {
    var d := DecodedDisplacement(w);
    AlignedTarget(source, d, Decode(w));
    if Decode(w).Branch? {
      DecodedFields(w);
    }
  }

  lemma AlignedTarget(source: Address, d: int, i: Instruction)
    requires source % 4 == 0 && (i.Branch? || i.B?) && i.imm == 4 * d
    ensures TargetOf(source, i) % 4 == 0
  {
  }

  /** The copy at `dest` of the instruction `w` at `source` does what that does: it goes where `w` goes,
      or to its own end where `w` goes on to the next instruction, and nothing but x17 differs. */
  ghost predicate Relocated(step: Semantics, w: Word, source: Address, ws: seq<Word>, dest: Address, s: Cpu)
    requires ws != [] && (Decode(w).Branch? || Decode(w).B?)
  {
    match (Step(w, s.(pc := source)), Through(step, ws, s.(pc := dest)))
    case (Some(o), Some(c)) =>
      && (c == o.(pc := c.pc) || c == SetReg(o, 17, TargetOf(source, Decode(w))).(pc := c.pc))
      && c.pc == (if Decode(w).Branch? && !Holds(Decode(w).test, s) then Plus(dest, 4 * |ws|) else o.pc)
    case _ => false
  }

  /** For every word-aligned source and destination, and every target a B.cond, CBZ, CBNZ, TBZ or TBNZ can
      have: its copy is faithful in all states exactly if the copy is safe. */
  lemma BranchRelocated(step: Semantics, w: Word, source: Address, dest: Address)
    requires IsA64(step) && Decode(w).Branch? && source % 4 == 0 && dest % 4 == 0
    ensures IsTest(Decode(w).test)
    ensures var t, target := Decode(w).test, TargetOf(source, Decode(w));
            (forall s | IsCpu(s) :: Relocated(step, w, source, BranchWords(t, target, dest), dest, s)) <==>
            Safe(t, FormOf(t, target, dest))
  {
    DecodedTest(w, source);
    var t, target := Decode(w).test, TargetOf(source, Decode(w));
    KeepsIffSafe(step, t, target, dest);
    forall s | IsCpu(s)
      ensures Relocated(step, w, source, BranchWords(t, target, dest), dest, s) <==> Keeps(step, t, target, dest, s)
    {
      RelocatedIsKept(step, w, source, dest, s);
    }
  }

  lemma RelocatedIsKept(step: Semantics, w: Word, source: Address, dest: Address, s: Cpu)
    requires IsA64(step) && Decode(w).Branch? && source % 4 == 0 && dest % 4 == 0 && IsCpu(s)
    ensures IsTest(Decode(w).test)
    ensures var t, target := Decode(w).test, TargetOf(source, Decode(w));
            Relocated(step, w, source, BranchWords(t, target, dest), dest, s) <==> Keeps(step, t, target, dest, s)
  {
    DecodedTest(w, source);
    HoldsAnywhere(Decode(w).test, s.(pc := source), s);
  }

  /** Setting x30 shows exactly if it held something else. */
  lemma LinkShows(s: Cpu, o: Cpu, c: Cpu, target: Address, back: Address)
    requires IsCpu(s) && o == SetReg(s, 30, back).(pc := target)
    requires c == s.(pc := target) || c == SetReg(s, 17, target).(pc := target)
    ensures (c == o.(pc := target) || c == SetReg(o, 17, target).(pc := target)) <==> s.x[30] == back
  {
    assert c.x[30] == s.x[30] && o.x[30] == back && SetReg(o, 17, target).x[30] == back;
    if s.x[30] == back {
      assert s.x[30 := back] == s.x;
    }
  }

  /** The copy of a B is faithful in all states; that of a BL, which does not set x30, only in those
      where x30 has the return address already. */
  lemma BRelocated(step: Semantics, w: Word, source: Address, dest: Address, s: Cpu)
    requires IsA64(step) && Decode(w).B? && source % 4 == 0 && dest % 4 == 0 && IsCpu(s)
    ensures Relocated(step, w, source, BWords(TargetOf(source, Decode(w)), dest), dest, s) <==>
            Decode(w).link == 0 || s.x[30] == Plus(source, 4)
  {
    var target := TargetOf(source, Decode(w));
    DecodedTest(w, source);
    BThrough(step, target, dest, s.(pc := dest));
    if Decode(w).link != 0 {
      LinkShows(s, Step(w, s.(pc := source)).value, Through(step, BWords(target, dest), s.(pc := dest)).value, target,
                Plus(source, 4));
    }
  }
}
