/** Where functions end, and what fills the gaps between them, by the instruction format. */
module X64Padding {
  import opened Prelude
  import opened X64Copy
  import opened X64Decode
  import opened X64Instruction
  import opened X64Format
  import opened MovedCode

  // ---- Ends ----

  /** JMP to a relative target, near RET, or INT3, from the opcode on. */
  predicate IsEnd(b: Byte) {
    b == 0xe9 || b == 0xeb || b == 0xc2 || b == 0xc3 || b == 0xcc
  }

  /** JMP through a pointer whose address is RIP-relative: opcode FF, extension 4. */
  predicate IsPointerJump(b: Byte, m: Byte) {
    b == 0xff && m / 8 % 8 == 4 && ModRmRip(m)
  }

  predicate IsSegment(b: Byte) {
    b in {0x26, 0x2e, 0x36, 0x3e, 0x64, 0x65}
  }

  /** What is taken for the end of a function is an instruction that never goes on to the next one, with no prefix but
      REP in front of RET and a segment in front of a jump through a pointer; and also LOOPNE, which may go on. */
  lemma EndsIff(code: seq<Byte>)
    requires 3 <= |code|
    ensures Ends(code) <==>
            var rest := Rest(code);
            var b, c := At(rest, 0), At(rest, 1);
            || (Prefixed(code) == 0 && (IsEnd(b) || IsPointerJump(b, c) || b == 0xe0))
            || (Prefixed(code) == 1 && ((code[0] == 0xf3 && b == 0xc3) || (IsSegment(code[0]) && IsPointerJump(b, c))))
  {
    PrefixedSmall(code);
    PointerJump25(code[0], code[1]);
    PointerJump25(code[1], code[2]);
    if Prefixed(code) == 0 {
      assert Rest(code) == code;
    } else if Prefixed(code) == 1 {
      assert At(Rest(code), 0) == code[1] && At(Rest(code), 1) == code[2];
    }
    PrefixEnds(code[0]);
    PrefixEnds(code[1]);
  }

  lemma PointerJump25(b: Byte, m: Byte)
    ensures IsPointerJump(b, m) <==> b == 0xff && m == 0x25
  {
  }

  lemma PrefixEnds(b: Byte)
    ensures IsLegacy(b) || IsRex(b) ==> !IsEnd(b) && b != 0xe0 && b != 0xff
    ensures IsSegment(b) || b == 0xf3 ==> IsLegacy(b)
  {
  }

  lemma PrefixedSmall(code: seq<Byte>)
    requires 3 <= |code|
    ensures Prefixed(code) == 0 <==> !(IsLegacy(code[0]) || IsRex(code[0]))
    ensures Prefixed(code) == 1 <==> (IsLegacy(code[0]) || IsRex(code[0])) && !(IsLegacy(code[1]) || IsRex(code[1]))
  {
    assert code[1..][0] == code[1];
  }

  // ---- Padding ----

  /** NOP, in its forms of one and of more bytes. */
  predicate IsNop(s: seq<Byte>) {
    var b, c, m := At(Rest(s), 0), At(Rest(s), 1), At(Rest(s), 2);
    b == 0x90 || (b == 0x0f && c == 0x1f && m / 8 % 8 == 0)
  }

  /** One instruction that does nothing, or INT3, which fills gaps. */
  predicate IsFill(s: seq<Byte>) {
    IsFormatted(s) && (IsNop(s) || s == [0xcc])
  }

  lemma PrefixedNone(s: seq<Byte>)
    requires s != [] && !(IsLegacy(s[0]) || IsRex(s[0]))
    ensures Prefixed(s) == 0 && Rest(s) == s
  {
  }

  lemma PrefixedMore(s: seq<Byte>, k: nat)
    requires k < |s| && (forall i | 0 <= i < k :: s[i] == 0x66) && !(IsLegacy(s[k]) || IsRex(s[k]))
    ensures Prefixed(s) == k && Rest(s) == s[k..]
    decreases k
  {
    if k > 0 {
      PrefixedMore(s[1..], k - 1);
      assert s[1..][k - 1] == s[k];
    }
  }

  /** Operand size prefixes, and a NOP of one byte or with an operand in memory. */
  lemma NopFills(s: seq<Byte>, k: nat)
    requires k < |s| <= MAX_SIZE && (forall i | 0 <= i < k :: s[i] == 0x66)
    requires var rest := s[k..];
             rest == [0x90] || (|rest| >= 3 && rest[0] == 0x0f && rest[1] == 0x1f && rest[2] < 0xc0 &&
                                rest[2] / 8 % 8 == 0 && |rest| == 3 + Operand(rest[2], At(rest, 3)))
    ensures IsFill(s)
  {
    PrefixedMore(s, k);
  }

  /** The sequences of one to nine bytes that the manual recommends (Intel SDM Vol. 2, "NOP", table 4-12): the operand
      is EAX plus a displacement, plus an index, and with an operand size prefix where that is not enough. */
  function Recommended(n: nat): seq<Byte>
    requires 1 <= n <= 9
  {
    if n == 1 then [0x90]
    else if n == 2 then [0x66, 0x90]
    else if n == 6 || n == 9 then [0x66] + Recommended(n - 1)
    else
      var sib := if n == 5 || n == 8 then [0] else [];
      var disp := n - 3 - |sib|;
      [0x0f, 0x1f, (if disp == 0 then 0 else if disp == 1 then 0x40 else 0x80) + if sib == [] then 0 else 4] + sib +
      seq(disp, _ => 0)
  }

  lemma RecommendedBytes(n: nat)
    requires 1 <= n <= 9
    ensures |Recommended(n)| == n
    ensures n == 1 ==> Recommended(n) == [0x90]
    ensures n == 2 ==> Recommended(n) == [0x66, 0x90]
    ensures n == 3 ==> Recommended(n) == [0x0f, 0x1f, 0x00]
    ensures n == 4 ==> Recommended(n) == [0x0f, 0x1f, 0x40, 0]
    ensures n == 5 ==> Recommended(n) == [0x0f, 0x1f, 0x44, 0, 0]
    ensures n == 6 ==> Recommended(n) == [0x66, 0x0f, 0x1f, 0x44, 0, 0]
    ensures n == 7 ==> Recommended(n) == [0x0f, 0x1f, 0x80, 0, 0, 0, 0]
    ensures n == 8 ==> Recommended(n) == [0x0f, 0x1f, 0x84, 0, 0, 0, 0, 0]
    ensures n == 9 ==> Recommended(n) == [0x66, 0x0f, 0x1f, 0x84, 0, 0, 0, 0, 0]
  {
    if n == 9 {
      RecommendedBytes(8);
    } else if n == 6 {
      RecommendedBytes(5);
    }
  }

  /** Two sequences that differ somewhere do not begin the same code. */
  lemma NotBoth(x: seq<Byte>, y: seq<Byte>, code: seq<Byte>, k: nat)
    requires k < |x| && k < |y| && x[k] != y[k] && y <= code
    ensures !(x <= code)
  {
    assert code[k] == y[k];
  }

  /** Each of them is found to be padding of its size, whatever follows. */
  lemma RecommendedFills(n: nat, tail: seq<Byte>)
    requires 1 <= n <= 9
    ensures |Recommended(n)| == n && FillerOf(Recommended(n) + tail) == n
  {
    var code := Recommended(n) + tail;
    var y := Recommended(n);
    RecommendedBytes(n);
    assert y <= code;
    if n != 1 {
      NotBoth([0x90], y, code, 0);
    }
    if n > 2 {
      NotBoth([0x66, 0x90], y, code, if y[0] == 0x66 then 1 else 0);
    }
    forall m | 3 <= m < n
      ensures !(Recommended(m) <= code)
    {
      RecommendedBytes(m);
      NotBoth(Recommended(m), y, code,
              if y[0] != Recommended(m)[0] then 0 else if y[2] != Recommended(m)[2] then 2 else 3);
    }
    RecommendedAre();
  }

  lemma RecommendedAre()
    ensures Recommended(3) == [0x0f, 0x1f, 0x00] && Recommended(4) == [0x0f, 0x1f, 0x40, 0]
    ensures Recommended(5) == [0x0f, 0x1f, 0x44, 0, 0] && Recommended(6) == [0x66, 0x0f, 0x1f, 0x44, 0, 0]
    ensures Recommended(7) == [0x0f, 0x1f, 0x80, 0, 0, 0, 0] && Recommended(8) == [0x0f, 0x1f, 0x84, 0, 0, 0, 0, 0]
  {
    RecommendedBytes(3);
    RecommendedBytes(4);
    RecommendedBytes(5);
    RecommendedBytes(6);
    RecommendedBytes(7);
    RecommendedBytes(8);
  }

  /** All padding that is found, but for INT3, is one of them, behind up to two more operand size prefixes. */
  lemma FillerIsRecommended(code: seq<Byte>) returns (k: nat, m: nat)
    requires FillerOf(code) > 0 && !([0xcc] <= code)
    ensures k <= 3 && m in {1, 3, 4, 5, 7, 8} && FillerOf(code) == k + m <= |code|
    ensures (forall i | 0 <= i < k :: code[i] == 0x66) && code[k..k + m] == Recommended(m)
  {
    if [0x66] <= code {
      k, m := FillerBehind(code);
    } else {
      k, m := 0, FillerOf(code);
      RecommendedBytes(m);
      assert code[0..m] == code[..m];
    }
  }

  /** Those with operand size prefixes. */
  lemma FillerBehind(code: seq<Byte>) returns (k: nat, m: nat)
    requires FillerOf(code) > 0 && [0x66] <= code
    ensures k <= 3 && m in {1, 5, 8} && FillerOf(code) == k + m <= |code|
    ensures (forall i | 0 <= i < k :: code[i] == 0x66) && code[k..k + m] == Recommended(m)
  {
    var n := FillerOf(code);
    k := if n == 2 || n == 6 || n == 9 then 1 else if n == 10 then 2 else 3;
    m := n - k;
    assert code[0] == 0x66;
    RecommendedBytes(m);
  }

  lemma RecommendedIsNop(m: nat)
    requires m in {1, 3, 4, 5, 7, 8}
    ensures var s := Recommended(m);
            |s| == m &&
            (m == 1 || (s[0] == 0x0f && s[1] == 0x1f && s[2] < 0xc0 && s[2] / 8 % 8 == 0 &&
                        m == 3 + Operand(s[2], At(s, 3))))
  {
    RecommendedBytes(m);
  }

  /** The bytes that are counted as padding are one instruction that does nothing, or INT3. */
  lemma FillerIsFill(code: seq<Byte>)
    requires FillerOf(code) > 0
    ensures FillerOf(code) <= |code| && IsFill(code[..FillerOf(code)])
  {
    if [0xcc] <= code {
      PrefixedNone(code[..1]);
      assert code[..1] == [0xcc];
    } else {
      var k, m := FillerIsRecommended(code);
      RecommendedIsNop(m);
      RecommendedBytes(1);
      assert code[..k + m][k..] == Recommended(m);
      NopFills(code[..k + m], k);
    }
  }

  /** Such instructions, one behind the other. */
  ghost predicate IsFilled(s: seq<Byte>)
    decreases |s|
  {
    s == [] || exists n | 0 < n <= |s| :: IsFill(s[..n]) && IsFilled(s[n..])
  }

  lemma {:induction false} PaddingIsFilled(s: seq<Byte>)
    requires IsPadding(s)
    ensures IsFilled(s)
    decreases |s|
  {
    if s != [] {
      FillerIsFill(s);
      PaddingIsFilled(s[FillerOf(s)..]);
    }
  }
}
