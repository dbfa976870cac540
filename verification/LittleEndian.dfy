/** Little-endian numbers as they are written, and that they are read back. */
module LittleEndian {
  import opened Prelude

  /** The `n` bytes of a number, the lowest first. */
  function Little(v: nat, n: nat): (s: seq<Byte>)
    ensures |s| == n
    decreases n
  {
    if n == 0 then [] else [v % 0x100] + Little(v / 0x100, n - 1)
  }

  lemma Little1(v: nat)
    ensures Little(v, 1) == [v % 0x100]
  {
  }

  lemma Little2(v: nat)
    ensures Little(v, 2) == [v % 0x100, v / 0x100 % 0x100]
  {
    Little1(v / 0x100);
  }

  lemma LittleHalves(v: nat, n: nat, m: nat, p: nat)
    requires n == 2 && p == 0x1_0000
    ensures Little(v, n + m) == Little(v % p, n) + Little(v / p, m)
  {
    Little2(v % p);
    assert v / 0x100 / 0x100 == v / p;
    assert Little(v, n + m) == [v % 0x100] + ([v / 0x100 % 0x100] + Little(v / p, m));
  }

  lemma Reads16(s: seq<Byte>, at: nat, v: nat)
    requires at + 2 <= |s| && s[at..at + 2] == Little(v, 2) && v < 0x1_0000
    ensures U16(s, at) == v
  {
    Little2(v);
    assert s[at] == s[at..at + 2][0] && s[at + 1] == s[at..at + 2][1];
  }

  lemma Reads32(s: seq<Byte>, at: nat, v: nat)
    requires at + 4 <= |s| && s[at..at + 4] == Little(v, 4) && v < 0x1_0000_0000
    ensures U32(s, at) == v
  {
    LittleHalves(v, 2, 2, 0x1_0000);
    var low, high := Little(v % 0x1_0000, 2), Little(v / 0x1_0000, 2);
    assert s[at..at + 2] == (low + high)[..2] && s[at + 2..at + 4] == (low + high)[2..];
    Reads16(s, at, v % 0x1_0000);
    Reads16(s, at + 2, v / 0x1_0000);
  }

  lemma LittleWords(v: nat)
    ensures Little(v, 8) == Little(v % 0x1_0000_0000, 4) + Little(v / 0x1_0000_0000, 4)
  {
    var p := 0x1_0000;
    var q, low, high := v / p, v % 0x1_0000_0000, v / 0x1_0000_0000;
    LittleHalves(v, 2, 6, p);
    LittleHalves(q, 2, 4, p);
    LittleHalves(low, 2, 2, p);
    assert low % p == v % p && low / p == q % p && q / p == high;
    SumOfThree(Little(v % p, 2), Little(q % p, 2), Little(high, 4));
  }

  lemma SumOfThree(a: seq<Byte>, b: seq<Byte>, c: seq<Byte>)
    ensures (a + b) + c == a + (b + c)
  {
  }

  lemma Reads64(s: seq<Byte>, at: nat, v: nat)
    requires at + 8 <= |s| && s[at..at + 8] == Little(v, 8) && v < 0x1_0000_0000_0000_0000
    ensures U64(s, at) == v
  {
    LittleWords(v);
    var low, high := Little(v % 0x1_0000_0000, 4), Little(v / 0x1_0000_0000, 4);
    assert s[at..at + 4] == (low + high)[..4] && s[at + 4..at + 8] == (low + high)[4..];
    Reads32(s, at, v % 0x1_0000_0000);
    Reads32(s, at + 4, v / 0x1_0000_0000);
  }

  /** A number by itself. */
  lemma Alone(v: nat)
    ensures v < 0x1_0000 ==> U16(Little(v, 2), 0) == v
    ensures v < 0x1_0000_0000 ==> U32(Little(v, 4), 0) == v
    ensures v < 0x1_0000_0000_0000_0000 ==> U64(Little(v, 8), 0) == v
  {
    Alone16(v, Little(v, 2));
    Alone32(v, Little(v, 4));
    Alone64(v, Little(v, 8));
  }

  lemma Alone16(v: nat, s: seq<Byte>)
    requires s == Little(v, 2)
    ensures v < 0x1_0000 ==> U16(s, 0) == v
  {
    assert s[0..2] == s;
    if v < 0x1_0000 {
      Reads16(s, 0, v);
    }
  }

  lemma Alone32(v: nat, s: seq<Byte>)
    requires s == Little(v, 4)
    ensures v < 0x1_0000_0000 ==> U32(s, 0) == v
  {
    assert s[0..4] == s;
    if v < 0x1_0000_0000 {
      Reads32(s, 0, v);
    }
  }

  lemma Alone64(v: nat, s: seq<Byte>)
    requires s == Little(v, 8)
    ensures v < 0x1_0000_0000_0000_0000 ==> U64(s, 0) == v
  {
    assert s[0..8] == s;
    if v < 0x1_0000_0000_0000_0000 {
      Reads64(s, 0, v);
    }
  }
}
